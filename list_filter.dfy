/**
 * The client-side filter of local lists. A filter object maps field names to values;
 * the fields holding an Id / Number / String / Date filter instance contribute one
 * test per operator entry of that instance, and the list is narrowed by each test in
 * turn (`list = list.filter(...)`).
 */
module ListFilter {
  import opened Wrappers
  import opened JsValues
  import opened JsObjects
  import opened Sequences
  import Strings

  /**
   * A record of a local list. `children` and the `nodes` copy made by the tree filter
   * are kept apart from the other fields.
   */
  datatype Row = Row(fields: Rec, children: seq<Row>, nodes: Option<seq<Row>>)

  /** The number of rows in a forest, counting every descendant through `children`. */
  function Size(r: Row): (n: nat)
    ensures n >= 1
  {
    1 + SizeAll(r.children)
  }

  function SizeAll(rows: seq<Row>): nat
    decreases rows, 0
  {
    if |rows| == 0 then 0 else SizeAll(rows[..|rows| - 1]) + Size(rows[|rows| - 1])
  }

  /** A filter is in combined-search mode when it has an own `search` field that lodash does not call empty. */
  predicate IsCombineSearch(filter: JsObject) {
    Has(filter, "search") && !LodashIsEmpty(Lookup(filter, "search"))
  }

  /** One operator entry of a filter instance on field `field`. */
  datatype Step = Step(field: string, kind: FilterKind, op: string, operand: Value)

  /** The steps contributed by one filter field, in entry order. */
  function OpSteps(field: string, kind: FilterKind, ops: seq<(string, Value)>): (r: seq<Step>)
    ensures |r| == |ops|
    ensures forall i :: 0 <= i < |ops| ==> r[i] == Step(field, kind, ops[i].0, ops[i].1)
  {
    if |ops| == 0 then []
    else OpSteps(field, kind, ops[..|ops| - 1]) + [Step(field, kind, ops[|ops| - 1].0, ops[|ops| - 1].1)]
  }

  /** The steps of one entry: none unless its value is a filter instance. */
  function EntrySteps(entry: (string, Value)): seq<Step> {
    if entry.1.Criterion? then OpSteps(entry.0, entry.1.kind, entry.1.ops) else []
  }

  /** All steps of a filter, entry by entry (`Object.entries(filter)`, then `Object.entries(fType)`). */
  function Steps(filter: seq<(string, Value)>): seq<Step> {
    if |filter| == 0 then []
    else Steps(filter[..|filter| - 1]) + EntrySteps(filter[|filter| - 1])
  }

  predicate IsStringOp(op: string) {
    op in ["equal", "notEqual", "contain", "notContain", "startWith", "notStartWith", "endWith", "notEndWith"]
  }

  predicate IsOrderOp(op: string) {
    op in ["equal", "notEqual", "less", "lessEqual", "greater", "greaterEqual"]
  }

  /**
   * Whether a step narrows the list at all. Id steps do for their four operators
   * whatever the operand; Number, String and Date steps only when the operand has the
   * family's type (a Date operand must be a moment).
   */
  predicate Applies(s: Step) {
    match s.kind
    case IdKind => s.op in ["equal", "notEqual", "in", "notIn"]
    case NumberKind => s.operand.Num? && IsOrderOp(s.op)
    case StringKind => s.operand.Str? && IsStringOp(s.op)
    case DateKind => s.operand.Moment? && IsOrderOp(s.op)
  }

  /** Integer comparison named by an order operator. */
  predicate Compare(op: string, a: int, b: int) {
    if op == "equal" then a == b
    else if op == "notEqual" then a != b
    else if op == "less" then a < b
    else if op == "lessEqual" then a <= b
    else if op == "greater" then a > b
    else if op == "greaterEqual" then a >= b
    else false
  }

  /** `s.startsWith(p)` / `s.endsWith(p)`. */
  predicate StartsWith(s: string, p: string) { |p| <= |s| && s[..|p|] == p }
  predicate EndsWith(s: string, p: string) { |p| <= |s| && s[|s| - |p|..] == p }

  /** The test of an applying step on the item's field value: the value must have the family's type. */
  predicate Holds(s: Step, v: Value) {
    match s.kind
    case IdKind =>
      v.Num? &&
      (if s.op == "equal" then s.operand.Num? && v.n == s.operand.n
       else if s.op == "notEqual" then s.operand.Num? && v.n != s.operand.n
       else if s.op == "in" then s.operand.Arr? && v in s.operand.elems
       else s.operand.Arr? && v !in s.operand.elems)
    case NumberKind => v.Num? && s.operand.Num? && Compare(s.op, v.n, s.operand.n)
    case StringKind =>
      v.Str? && s.operand.Str? &&
      var x, p := v.s, s.operand.s;
      (if s.op == "equal" then x == p
       else if s.op == "notEqual" then x != p
       else if s.op == "contain" then Strings.IndexOf(x, p) >= 0
       else if s.op == "notContain" then Strings.IndexOf(x, p) < 0
       else if s.op == "startWith" then StartsWith(x, p)
       else if s.op == "notStartWith" then !StartsWith(x, p)
       else if s.op == "endWith" then EndsWith(x, p)
       else !EndsWith(x, p))
    case DateKind => v.Moment? && s.operand.Moment? && Compare(s.op, v.time, s.operand.time)
  }

  /** An item survives a step when the step does not apply or its test holds. */
  predicate Keeps(s: Step, item: Rec) {
    !Applies(s) || Holds(s, Get(item, s.field))
  }

  /** An item survives every step. */
  predicate PassesAll(steps: seq<Step>, item: Rec) {
    forall i :: 0 <= i < |steps| ==> Keeps(steps[i], item)
  }

  lemma PassesAllAppend(a: seq<Step>, b: seq<Step>, item: Rec)
    ensures PassesAll(a + b, item) <==> PassesAll(a, item) && PassesAll(b, item)
  {
    assert forall i :: 0 <= i < |a| ==> (a + b)[i] == a[i];
    assert forall i :: 0 <= i < |b| ==> (a + b)[|a| + i] == b[i];
    if PassesAll(a, item) && PassesAll(b, item) {
      forall i | 0 <= i < |a + b|
        ensures Keeps((a + b)[i], item)
      {
        if i >= |a| {
          assert (a + b)[i] == b[i - |a|];
        }
      }
    }
  }

  /** The rows of `list` passing every one of `steps`, in their order. */
  function Narrowed(list: seq<Row>, steps: seq<Step>): seq<Row> {
    Filter(list, (r: Row) => PassesAll(steps, r.fields))
  }

  /** What the filter keeps: exactly the rows passing every step of the filter. */
  function Selected(filter: JsObject, list: seq<Row>): seq<Row> {
    Narrowed(list, Steps(filter))
  }

  /**
   * `filterList`: for every filter field and every operator entry of it, narrow the
   * list by the operator's test.
   */
  method FilterList(filter: JsObject, input: seq<Row>) returns (list: seq<Row>)
    ensures list == Selected(filter, input)
  {
    list := input;
    assert filter[..0] == [];
    FilterKeepsAll(input, (r: Row) => PassesAll([], r.fields));
    var e := 0;
    while e < |filter|
      invariant 0 <= e <= |filter|
      invariant list == Narrowed(input, Steps(filter[..e]))
    {
      var fKey := filter[e].0;
      var fType := filter[e].1;
      StepsSnoc(filter, e);
      if fType.Criterion? {
        list := NarrowByCriterion(input, list, Steps(filter[..e]), fKey, fType.kind, fType.ops);
      } else {
        assert Steps(filter[..e]) + EntrySteps(filter[e]) == Steps(filter[..e]);
      }
      e := e + 1;
    }
    assert filter[..e] == filter;
  }

  /** The inner loop of `filterList`: the operator entries of one filter instance, in order. */
  method NarrowByCriterion(input: seq<Row>, list0: seq<Row>, ghost before: seq<Step>, fKey: string, kind: FilterKind,
                           ops: seq<(string, Value)>) returns (list: seq<Row>)
    requires list0 == Narrowed(input, before)
    ensures list == Narrowed(input, before + OpSteps(fKey, kind, ops))
  {
    list := list0;
    var j := 0;
    assert ops[..0] == [];
    assert before + OpSteps(fKey, kind, ops[..0]) == before;
    while j < |ops|
      invariant 0 <= j <= |ops|
      invariant list == Narrowed(input, before + OpSteps(fKey, kind, ops[..j]))
    {
      var s := Step(fKey, kind, ops[j].0, ops[j].1);
      ghost var done := before + OpSteps(fKey, kind, ops[..j]);
      assert before + OpSteps(fKey, kind, ops[..j + 1]) == done + [s] by {
        OpStepsSnoc(fKey, kind, ops, j);
        AppendSnoc(before, OpSteps(fKey, kind, ops[..j]), s);
      }
      if Applies(s) {
        NarrowOnce(input, done, s);
        list := Filter(list, (r: Row) => Holds(s, Get(r.fields, s.field)));
      } else {
        SkipStep(input, done, s);
      }
      j := j + 1;
    }
    assert ops[..j] == ops;
  }

  /** One more entry of the filter adds its steps at the end. */
  lemma StepsSnoc(filter: seq<(string, Value)>, e: nat)
    requires e < |filter|
    ensures Steps(filter[..e + 1]) == Steps(filter[..e]) + EntrySteps(filter[e])
  {
    assert filter[..e + 1][..e] == filter[..e];
  }

  /** One more operator entry adds its step at the end. */
  lemma OpStepsSnoc(field: string, kind: FilterKind, ops: seq<(string, Value)>, j: nat)
    requires j < |ops|
    ensures OpSteps(field, kind, ops[..j + 1]) == OpSteps(field, kind, ops[..j]) + [Step(field, kind, ops[j].0, ops[j].1)]
  {
    assert ops[..j + 1][..j] == ops[..j];
  }

  /** Narrowing by one applying step adds that step to the ones already applied. */
  lemma NarrowOnce(input: seq<Row>, done: seq<Step>, s: Step)
    requires Applies(s)
    ensures Filter(Narrowed(input, done), (r: Row) => Holds(s, Get(r.fields, s.field))) == Narrowed(input, done + [s])
  {
    forall i | 0 <= i < |input|
      ensures PassesAll(done + [s], input[i].fields) ==
              (PassesAll(done, input[i].fields) && Holds(s, Get(input[i].fields, s.field)))
    {
      PassesAllAppend(done, [s], input[i].fields);
      assert [s][0] == s;
      assert PassesAll([s], input[i].fields) == Keeps(s, input[i].fields);
    }
    FilterFilter(input, (r: Row) => PassesAll(done, r.fields), (r: Row) => Holds(s, Get(r.fields, s.field)),
                 (r: Row) => PassesAll(done + [s], r.fields));
  }

  /** A step that does not apply changes nothing. */
  lemma SkipStep(input: seq<Row>, done: seq<Step>, s: Step)
    requires !Applies(s)
    ensures Narrowed(input, done) == Narrowed(input, done + [s])
  {
    forall i | 0 <= i < |input|
      ensures PassesAll(done, input[i].fields) == PassesAll(done + [s], input[i].fields)
    {
      PassesAllAppend(done, [s], input[i].fields);
    }
    FilterCongruent(input, (r: Row) => PassesAll(done, r.fields), (r: Row) => PassesAll(done + [s], r.fields));
  }

  // ---------------------------------------------------------------- properties

  /** The filter returns an order-preserving subsequence of its input, of the rows passing every step. */
  lemma SelectedIsSubsequence(filter: JsObject, list: seq<Row>)
    ensures IsSubsequence(Selected(filter, list), list)
    ensures forall i :: 0 <= i < |Selected(filter, list)| ==> PassesAll(Steps(filter), Selected(filter, list)[i].fields)
    ensures forall i :: 0 <= i < |list| && PassesAll(Steps(filter), list[i].fields) ==> list[i] in Selected(filter, list)
  {
    FilterIsSubsequence(list, (r: Row) => PassesAll(Steps(filter), r.fields));
    FilterMembers(list, (r: Row) => PassesAll(Steps(filter), r.fields));
  }

  /** Every operator entry of a filter field is one of the filter's steps. */
  lemma {:induction false} EntryStepInSteps(filter: JsObject, e: nat, j: nat)
    requires e < |filter| && filter[e].1.Criterion? && j < |filter[e].1.ops|
    ensures Step(filter[e].0, filter[e].1.kind, filter[e].1.ops[j].0, filter[e].1.ops[j].1) in Steps(filter)
    decreases |filter|
  {
    var last := |filter| - 1;
    var pre, es := Steps(filter[..last]), EntrySteps(filter[last]);
    assert Steps(filter) == pre + es;
    if e < last {
      assert filter[..last][e] == filter[e];
      EntryStepInSteps(filter[..last], e, j);
    } else {
      var s := Step(filter[e].0, filter[e].1.kind, filter[e].1.ops[j].0, filter[e].1.ops[j].1);
      assert es[j] == s;
      assert (pre + es)[|pre| + j] == s;
    }
  }

  /**
   * An Id filter whose `equal` or `notEqual` operand is not a number, or whose `in` or
   * `notIn` operand is not an array, drops every row.
   */
  lemma IdWrongOperandDropsAll(filter: JsObject, list: seq<Row>, e: nat, j: nat)
    requires e < |filter| && filter[e].1.Criterion? && filter[e].1.kind == IdKind && j < |filter[e].1.ops|
    requires var (op, v) := filter[e].1.ops[j];
      ((op == "equal" || op == "notEqual") && !v.Num?) || ((op == "in" || op == "notIn") && !v.Arr?)
    ensures Selected(filter, list) == []
  {
    var s := Step(filter[e].0, IdKind, filter[e].1.ops[j].0, filter[e].1.ops[j].1);
    EntryStepInSteps(filter, e, j);
    forall i | 0 <= i < |list|
      ensures !PassesAll(Steps(filter), list[i].fields)
    {
      assert !Keeps(s, list[i].fields);
    }
    FilterKeepsNone(list, (r: Row) => PassesAll(Steps(filter), r.fields));
  }

  /** A Number, String or Date operand of the wrong type never removes anything. */
  lemma WrongTypeOperandSkipped(s: Step, item: Rec)
    requires (s.kind == NumberKind && !s.operand.Num?) || (s.kind == StringKind && !s.operand.Str?) ||
             (s.kind == DateKind && !s.operand.Moment?)
    ensures Keeps(s, item)
  {
  }

  /** A filter with no filter instances among its fields (paging and ordering only) keeps everything. */
  lemma {:induction false} NoCriteriaKeepsAll(filter: JsObject, list: seq<Row>)
    requires forall i :: 0 <= i < |filter| ==> !filter[i].1.Criterion?
    ensures Selected(filter, list) == list
  {
    NoCriteriaNoSteps(filter);
    FilterKeepsAll(list, (r: Row) => PassesAll(Steps(filter), r.fields));
  }

  lemma {:induction false} NoCriteriaNoSteps(filter: seq<(string, Value)>)
    requires forall i :: 0 <= i < |filter| ==> !filter[i].1.Criterion?
    ensures Steps(filter) == []
    decreases |filter|
  {
    if |filter| > 0 {
      NoCriteriaNoSteps(filter[..|filter| - 1]);
    }
  }

  /** A Number `greater` test, concretely: of the ages 20, "30" and 40, `greater 25` keeps only 40. */
  lemma NumberGreaterExample()
    ensures var rows := [Row(map["age" := Num(20)], [], None), Row(map["age" := Str("30")], [], None),
                         Row(map["age" := Num(40)], [], None)];
      Selected([("age", Criterion(NumberKind, [("greater", Num(25))]))], rows) == [rows[2]]
  {
    var f: JsObject := [("age", Criterion(NumberKind, [("greater", Num(25))]))];
    var s := Step("age", NumberKind, "greater", Num(25));
    var rows := [Row(map["age" := Num(20)], [], None), Row(map["age" := Str("30")], [], None),
                 Row(map["age" := Num(40)], [], None)];
    assert f[..0] == [];
    assert OpSteps("age", NumberKind, [("greater", Num(25))]) == [s];
    assert Steps(f) == [s];
    assert !Keeps(s, rows[0].fields) && !Keeps(s, rows[1].fields) && Keeps(s, rows[2].fields);
    var p := (r: Row) => PassesAll(Steps(f), r.fields);
    assert !p(rows[0]) && !p(rows[1]) && p(rows[2]);
    assert rows[1..][1..] == [rows[2]];
    assert Filter(rows, p) == Filter(rows[1..], p) == Filter([rows[2]], p);
  }
}
