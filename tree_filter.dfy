/**
 * The filter of tree-shaped local lists. Each node is tested with a single boolean
 * accumulated over the filter's operator entries; a node that fails is still shown,
 * as a copy carrying its surviving descendants in `nodes`, when any descendant passes.
 */
module TreeFilter {
  import opened Wrappers
  import opened JsValues
  import opened JsObjects
  import opened Sequences
  import opened ListFilter
  import Strings

  /** `v.indexOf(p)` where the node's field is a string or an array; anything else is `None`. */
  function IndexIn(v: Value, p: string): Option<int> {
    match v
    case Str(s) => Some(Strings.IndexOf(s, p))
    case Arr(e) => Some(if Str(p) in e then 0 else -1)
    case _ => None
  }

  /** `String(v)` for the scalar values; arrays, objects and moments have no text here. */
  function ScalarText(v: Value): Option<string> {
    match v
    case Undefined => Some("undefined")
    case Null => Some("null")
    case Bool(b) => Some(if b then "true" else "false")
    case Num(n) => Some(Strings.IntToString(n))
    case Str(x) => Some(x)
    case _ => None
  }

  /**
   * `fValue.includes(v)` of the Id family's `in` / `notIn`, which has no type guard: an
   * array operand tests membership, a string operand tests whether it contains `v` as
   * text. `None` for an operand without `includes` (the call throws) and for a string
   * operand with a non-scalar field value.
   */
  function Includes(operand: Value, v: Value): Option<bool> {
    match operand
    case Arr(e) => Some(v in e)
    case Str(t) => if ScalarText(v).Some? then Some(Strings.Contains(t, ScalarText(v).value)) else None
    case _ => None
  }

  /**
   * Whether an operator entry resets the flag to true: the `default` branch of the Id
   * family, and of the Number and Date families once the operand has the family's type.
   * The String family has no resetting branch.
   */
  predicate Resets(s: Step) {
    match s.kind
    case IdKind => s.op !in ["equal", "notEqual", "in", "notIn"]
    case NumberKind => s.operand.Num? && !IsOrderOp(s.op)
    case StringKind => false
    case DateKind => s.operand.Moment? && !IsOrderOp(s.op)
  }

  /**
   * The test a non-resetting entry conjoins to the flag, on the node's field value `v`.
   * Number order operators compare loosely (`ToNumber`); a Date field that is not a
   * moment reads as `undefined`, equal to nothing. The Id family's `in` / `notIn` use
   * `Includes`, which is defined on array and string operands and fails otherwise.
   * Number, String and Date entries whose operand has the wrong type, and String entries
   * other than the four handled ones, test nothing.
   */
  predicate Test(s: Step, v: Value) {
    match s.kind
    case IdKind =>
      if s.op == "equal" then v == s.operand
      else if s.op == "notEqual" then v != s.operand
      else if s.op == "in" then Includes(s.operand, v) == Some(true)
      else Includes(s.operand, v) == Some(false)
    case NumberKind =>
      if !s.operand.Num? then true
      else if s.op == "equal" then v == s.operand
      else if s.op == "notEqual" then v != s.operand
      else ToNumber(v).Some? && Compare(s.op, ToNumber(v).value, s.operand.n)
    case StringKind =>
      if !s.operand.Str? then true
      else if s.op == "equal" then v == s.operand
      else if s.op == "notEqual" then v != s.operand
      else if s.op == "contain" then IndexIn(v, s.operand.s).Some? && IndexIn(v, s.operand.s).value >= 0
      else if s.op == "notContain" then IndexIn(v, s.operand.s).Some? && IndexIn(v, s.operand.s).value < 0
      else true
    case DateKind =>
      if !s.operand.Moment? then true
      else
        var iValue := if v.Moment? then Some(v.time) else None;
        if s.op == "equal" then iValue == Some(s.operand.time)
        else if s.op == "notEqual" then iValue != Some(s.operand.time)
        else iValue.Some? && Compare(s.op, iValue.value, s.operand.time)
  }

  /** One operator entry's effect on the accumulated flag `c`, given the node's field value `v`. */
  function Update(s: Step, v: Value, c: bool): bool {
    if Resets(s) then true else c && Test(s, v)
  }

  /** The flag after running `steps` in order over `node`, starting from `c`. */
  function Fold(steps: seq<Step>, node: Rec, c: bool): bool {
    if |steps| == 0 then c
    else
      var last := steps[|steps| - 1];
      Update(last, Get(node, last.field), Fold(steps[..|steps| - 1], node, c))
  }

  /** `conditionCheckNode`: always true in combined-search mode, otherwise the fold of all steps from true. */
  function NodeCondition(filter: JsObject, node: Rec): bool {
    if IsCombineSearch(filter) then true else Fold(Steps(filter), node, true)
  }

  /** The flag-accumulating loop of `conditionCheckNode`. */
  method ConditionCheckNode(filter: JsObject, node: Rec, fieldKeys: seq<string>) returns (conditional: bool)
    ensures conditional == NodeCondition(filter, node)
  {
    conditional := true;
    if IsCombineSearch(filter) {
      var searchValue := Lookup(filter, "search");
      var k := 0;
      while k < |fieldKeys|
        invariant 0 <= k <= |fieldKeys|
        invariant conditional
      {
        var valueKey := Prop(Get(node, fieldKeys[k]), "contain");
        var hit := valueKey.Str? && searchValue.Str? && Strings.Contains(valueKey.s, searchValue.s);
        conditional := conditional || hit;
        k := k + 1;
      }
    } else {
      var e := 0;
      assert filter[..0] == [];
      while e < |filter|
        invariant 0 <= e <= |filter|
        invariant conditional == Fold(Steps(filter[..e]), node, true)
      {
        var fKey := filter[e].0;
        var fType := filter[e].1;
        StepsSnoc(filter, e);
        if fType.Criterion? {
          conditional := UpdateByCriterion(node, conditional, Steps(filter[..e]), fKey, fType.kind, fType.ops);
        } else {
          assert Steps(filter[..e]) + EntrySteps(filter[e]) == Steps(filter[..e]);
        }
        e := e + 1;
      }
      assert filter[..e] == filter;
    }
  }

  /** The inner loop of `conditionCheckNode`: the operator entries of one filter instance. */
  method UpdateByCriterion(node: Rec, c0: bool, ghost before: seq<Step>, fKey: string, kind: FilterKind,
                           ops: seq<(string, Value)>) returns (conditional: bool)
    requires c0 == Fold(before, node, true)
    ensures conditional == Fold(before + OpSteps(fKey, kind, ops), node, true)
  {
    conditional := c0;
    var j := 0;
    ghost var done := before;
    assert ops[..0] == [];
    assert before + OpSteps(fKey, kind, ops[..0]) == before;
    while j < |ops|
      invariant 0 <= j <= |ops|
      invariant done == before + OpSteps(fKey, kind, ops[..j])
      invariant conditional == Fold(done, node, true)
    {
      var s := Step(fKey, kind, ops[j].0, ops[j].1);
      assert before + OpSteps(fKey, kind, ops[..j + 1]) == done + [s] by {
        OpStepsSnoc(fKey, kind, ops, j);
        AppendSnoc(before, OpSteps(fKey, kind, ops[..j]), s);
      }
      FoldSnoc(done, s, node);
      conditional := Update(s, Get(node, fKey), conditional);
      done := done + [s];
      j := j + 1;
    }
    assert ops[..j] == ops;
  }

  /** Folding one more step applies it to the flag so far. */
  lemma FoldSnoc(steps: seq<Step>, s: Step, node: Rec)
    ensures Fold(steps + [s], node, true) == Update(s, Get(node, s.field), Fold(steps, node, true))
  {
    assert (steps + [s])[..|steps|] == steps;
  }

  // ---------------------------------------------------------------- the tree walk

  /** What one node contributes: itself if it passes, a copy with its surviving descendants if any survive, else nothing. */
  function Emit(filter: JsObject, node: Row): seq<Row>
    decreases Size(node), 0
  {
    if NodeCondition(filter, node.fields) then [node]
    else if |node.children| > 0 then
      var nodes := Forest(filter, node.children);
      if |nodes| > 0 then [node.(nodes := Some(nodes))] else []
    else []
  }

  /** `treeList.reduce(getNodes, [])`. */
  function Forest(filter: JsObject, rows: seq<Row>): seq<Row>
    decreases SizeAll(rows), 1
  {
    if |rows| == 0 then []
    else Forest(filter, rows[..|rows| - 1]) + Emit(filter, rows[|rows| - 1])
  }

  /** `treeFilterList`: the `getNodes` reducer pushing into its accumulator. */
  method TreeFilterList(filter: JsObject, treeList: seq<Row>, fieldKeys: seq<string>) returns (results: seq<Row>)
    ensures results == Forest(filter, treeList)
    decreases SizeAll(treeList), 1
  {
    results := [];
    var i := 0;
    assert treeList[..0] == [];
    while i < |treeList|
      invariant 0 <= i <= |treeList|
      invariant results == Forest(filter, treeList[..i])
    {
      assert treeList[..i + 1][..i] == treeList[..i];
      SizeOfLast(treeList[..i + 1]);
      SizePrefix(treeList, i + 1);
      results := GetNodes(filter, results, treeList[i], fieldKeys);
      i := i + 1;
    }
    assert treeList[..i] == treeList;
  }

  /** `getNodes(results, currentNode)`. */
  method GetNodes(filter: JsObject, results0: seq<Row>, node: Row, fieldKeys: seq<string>) returns (results: seq<Row>)
    ensures results == results0 + Emit(filter, node)
    decreases Size(node), 0
  {
    results := results0;
    var filterCondition := ConditionCheckNode(filter, node.fields, fieldKeys);
    if filterCondition {
      results := results + [node];
      return;
    }
    if |node.children| > 0 {
      var nodes := TreeFilterList(filter, node.children, fieldKeys);
      if |nodes| > 0 {
        results := results + [node.(nodes := Some(nodes))];
      }
    }
  }

  lemma SizeOfLast(rows: seq<Row>)
    requires |rows| > 0
    ensures Size(rows[|rows| - 1]) <= SizeAll(rows)
  {
  }

  lemma {:induction false} SizePrefix(rows: seq<Row>, n: nat)
    requires n <= |rows|
    ensures SizeAll(rows[..n]) <= SizeAll(rows)
    decreases |rows|
  {
    if n < |rows| {
      assert rows[..|rows| - 1][..n] == rows[..n];
      SizePrefix(rows[..|rows| - 1], n);
    } else {
      assert rows[..n] == rows;
    }
  }

  // ---------------------------------------------------------------- properties of the flag

  /** Every test from position `lo` on passes. */
  predicate TestsFrom(steps: seq<Step>, node: Rec, lo: nat) {
    forall i :: lo <= i < |steps| ==> Test(steps[i], Get(node, steps[i].field))
  }

  /** With no resetting entry, the flag is the starting value conjoined with every test. */
  lemma {:induction false} FoldWithoutReset(steps: seq<Step>, node: Rec, c: bool)
    requires forall i :: 0 <= i < |steps| ==> !Resets(steps[i])
    ensures Fold(steps, node, c) == (c && TestsFrom(steps, node, 0))
    decreases |steps|
  {
    if |steps| > 0 {
      var init := steps[..|steps| - 1];
      FoldWithoutReset(init, node, c);
      assert forall i :: 0 <= i < |init| ==> init[i] == steps[i];
    }
  }

  /**
   * After the last resetting entry only the tests that follow it decide the flag: every
   * failure before it is forgotten.
   */
  lemma {:induction false} FoldAfterLastReset(steps: seq<Step>, node: Rec, c: bool, r: nat)
    requires r < |steps| && Resets(steps[r])
    requires forall i :: r < i < |steps| ==> !Resets(steps[i])
    ensures Fold(steps, node, c) == TestsFrom(steps, node, r + 1)
    decreases |steps|
  {
    var init := steps[..|steps| - 1];
    if r < |steps| - 1 {
      FoldAfterLastReset(init, node, c, r);
      assert forall i :: 0 <= i < |init| ==> init[i] == steps[i];
    }
  }

  /**
   * The reset makes the flag depend on entry order: with an Id filter whose `equal`
   * operand the node's field does not hold, `{equal, <unknown operator>}` passes the
   * node (the unknown operator resets the flag) while the reverse order drops it.
   */
  lemma ResetOrderMatters(field: string, x: Value, op: string, y: Value, node: Rec)
    requires field != "search" && op !in ["equal", "notEqual", "in", "notIn"]
    requires Get(node, field) != x
    ensures NodeCondition([(field, Criterion(IdKind, [("equal", x), (op, y)]))], node)
    ensures !NodeCondition([(field, Criterion(IdKind, [(op, y), ("equal", x)]))], node)
  {
    var eq := Step(field, IdKind, "equal", x);
    var ex := Step(field, IdKind, op, y);
    assert Resets(ex) && !Resets(eq) && !Test(eq, Get(node, field));
    SingleEntry(field, IdKind, [("equal", x), (op, y)]);
    OpStepsTwo(field, IdKind, ("equal", x), (op, y));
    FoldTwo(eq, ex, node);
    SingleEntry(field, IdKind, [(op, y), ("equal", x)]);
    OpStepsTwo(field, IdKind, (op, y), ("equal", x));
    FoldTwo(ex, eq, node);
  }

  /** The steps of two operator entries. */
  lemma OpStepsTwo(field: string, kind: FilterKind, a: (string, Value), b: (string, Value))
    ensures OpSteps(field, kind, [a, b]) == [Step(field, kind, a.0, a.1), Step(field, kind, b.0, b.1)]
  {
    var r := OpSteps(field, kind, [a, b]);
    assert |r| == 2 && r[0] == Step(field, kind, a.0, a.1) && r[1] == Step(field, kind, b.0, b.1);
  }

  /** The flag after two steps. */
  lemma FoldTwo(a: Step, b: Step, node: Rec)
    ensures Fold([a, b], node, true) == Update(b, Get(node, b.field), Update(a, Get(node, a.field), true))
  {
    assert [a, b][..1] == [a] && [a][..0] == [];
    assert Fold([a], node, true) == Update(a, Get(node, a.field), true);
  }

  /** A filter made of one filter instance on a field other than `search`. */
  lemma SingleEntry(field: string, kind: FilterKind, ops: seq<(string, Value)>)
    requires field != "search"
    ensures UniqueKeys([(field, Criterion(kind, ops))])
    ensures !IsCombineSearch([(field, Criterion(kind, ops))])
    ensures Steps([(field, Criterion(kind, ops))]) == OpSteps(field, kind, ops)
  {
    var f: JsObject := [(field, Criterion(kind, ops))];
    assert f[..0] == [];
    assert !Has(f, "search");
  }

  /**
   * Unlike the list filter, the tree filter compares Number order operators loosely: a
   * node whose age is the string "30" passes `greater 25` here but is dropped by the
   * list filter.
   */
  lemma LooseNumberExample()
    ensures NodeCondition([("age", Criterion(NumberKind, [("greater", Num(25))]))], map["age" := Str("30")])
    ensures Selected([("age", Criterion(NumberKind, [("greater", Num(25))]))], [Row(map["age" := Str("30")], [], None)]) == []
  {
    var f: JsObject := [("age", Criterion(NumberKind, [("greater", Num(25))]))];
    var s := Step("age", NumberKind, "greater", Num(25));
    var row := Row(map["age" := Str("30")], [], None);
    assert f[..0] == [];
    assert OpSteps("age", NumberKind, [("greater", Num(25))]) == [s];
    assert Steps(f) == [s];
    assert !Has(f, "search");
    assert Strings.AllDigits("30") && Strings.ParseNat("30") == 30;
    assert ToNumber(Str("30")) == Some(30);
    assert !Keeps(s, row.fields);
    assert Filter([row], (r: Row) => PassesAll(Steps(f), r.fields)) == [];
  }

  /**
   * Unlike the list filter, which drops every row when an Id filter's `in` operand is not
   * an array, the tree filter reads a string operand as text: `in t` passes a node whose
   * scalar field value, as text, occurs in `t`, and `notIn t` passes exactly the others.
   */
  lemma StringInOperand(field: string, t: string, node: Rec, list: seq<Row>)
    requires field != "search" && ScalarText(Get(node, field)).Some?
    ensures NodeCondition([(field, Criterion(IdKind, [("in", Str(t))]))], node) <==>
      Strings.Contains(t, ScalarText(Get(node, field)).value)
    ensures NodeCondition([(field, Criterion(IdKind, [("notIn", Str(t))]))], node) <==>
      !Strings.Contains(t, ScalarText(Get(node, field)).value)
    ensures Selected([(field, Criterion(IdKind, [("in", Str(t))]))], list) == []
  {
    var v := Get(node, field);
    var text := ScalarText(v).value;
    var a, b := Step(field, IdKind, "in", Str(t)), Step(field, IdKind, "notIn", Str(t));
    assert Includes(Str(t), v) == Some(Strings.Contains(t, text));
    assert Update(a, v, true) == Strings.Contains(t, text) by {
      assert !Resets(a);
    }
    assert Update(b, v, true) == !Strings.Contains(t, text) by {
      assert !Resets(b);
    }
    OneEntryCondition(field, IdKind, "in", Str(t), node);
    OneEntryCondition(field, IdKind, "notIn", Str(t), node);
    ListInStringDropsAll(field, t, list);
  }

  /** The list filter for an Id `in` with a string operand. */
  lemma ListInStringDropsAll(field: string, t: string, list: seq<Row>)
    ensures Selected([(field, Criterion(IdKind, [("in", Str(t))]))], list) == []
  {
    var f: JsObject := [(field, Criterion(IdKind, [("in", Str(t))]))];
    assert f[0].1.ops[0] == ("in", Str(t));
    IdWrongOperandDropsAll(f, list, 0, 0);
  }

  /** The node condition of a filter with one operator entry on a field other than `search`. */
  lemma OneEntryCondition(field: string, kind: FilterKind, op: string, operand: Value, node: Rec)
    requires field != "search"
    ensures Steps([(field, Criterion(kind, [(op, operand)]))]) == [Step(field, kind, op, operand)]
    ensures NodeCondition([(field, Criterion(kind, [(op, operand)]))], node) ==
      Update(Step(field, kind, op, operand), Get(node, field), true)
  {
    var st := Step(field, kind, op, operand);
    SingleEntry(field, kind, [(op, operand)]);
    assert OpSteps(field, kind, [(op, operand)]) == [st];
    assert [st][..0] == [];
    assert Fold([st], node, true) == Update(st, Get(node, field), true);
  }

  // ---------------------------------------------------------------- properties of the walk

  /** A node survives the tree filter when it passes or one of its children survives. */
  predicate Survives(filter: JsObject, node: Row)
    decreases Size(node), 0
  {
    NodeCondition(filter, node.fields) || AnySurvives(filter, node.children)
  }

  predicate AnySurvives(filter: JsObject, rows: seq<Row>)
    decreases SizeAll(rows), 1
  {
    |rows| > 0 && (AnySurvives(filter, rows[..|rows| - 1]) || Survives(filter, rows[|rows| - 1]))
  }

  lemma {:induction false} AnySurvivesExists(filter: JsObject, rows: seq<Row>)
    ensures AnySurvives(filter, rows) <==> exists i :: 0 <= i < |rows| && Survives(filter, rows[i])
    decreases |rows|
  {
    if |rows| > 0 {
      var init := rows[..|rows| - 1];
      AnySurvivesExists(filter, init);
      assert forall i :: 0 <= i < |init| ==> init[i] == rows[i];
      if AnySurvives(filter, init) {
        var i :| 0 <= i < |init| && Survives(filter, init[i]);
        assert Survives(filter, rows[i]);
      }
    }
  }

  /**
   * A node contributes at most one row: itself, unchanged, when it passes; otherwise,
   * exactly when some descendant survives, a copy whose `nodes` are its surviving children.
   */
  lemma {:induction false} EmitShape(filter: JsObject, node: Row)
    ensures |Emit(filter, node)| <= 1
    ensures |Emit(filter, node)| == 1 <==> Survives(filter, node)
    ensures NodeCondition(filter, node.fields) ==> Emit(filter, node) == [node]
    ensures !NodeCondition(filter, node.fields) && Survives(filter, node) ==>
      Emit(filter, node) == [node.(nodes := Some(Forest(filter, node.children)))]
    decreases Size(node), 0
  {
    ForestShape(filter, node.children);
  }

  /** The tree filter returns at most one row per input row, and some row exactly when some input row survives. */
  lemma {:induction false} ForestShape(filter: JsObject, rows: seq<Row>)
    ensures |Forest(filter, rows)| <= |rows|
    ensures |Forest(filter, rows)| > 0 <==> AnySurvives(filter, rows)
    decreases SizeAll(rows), 1
  {
    if |rows| > 0 {
      ForestShape(filter, rows[..|rows| - 1]);
      EmitShape(filter, rows[|rows| - 1]);
    }
  }

  /** In combined-search mode every node passes, so the tree filter returns its input. */
  lemma {:induction false} SearchModeKeepsAll(filter: JsObject, rows: seq<Row>)
    requires IsCombineSearch(filter)
    ensures Forest(filter, rows) == rows
    decreases |rows|
  {
    if |rows| > 0 {
      SearchModeKeepsAll(filter, rows[..|rows| - 1]);
      assert rows[..|rows| - 1] + [rows[|rows| - 1]] == rows;
    }
  }

  /** Filtering a concatenated forest filters each part and concatenates the results. */
  lemma {:induction false} ForestAppend(filter: JsObject, a: seq<Row>, b: seq<Row>)
    ensures Forest(filter, a + b) == Forest(filter, a) + Forest(filter, b)
    decreases |b|
  {
    if |b| == 0 {
      assert a + b == a;
    } else {
      var b' := b[..|b| - 1];
      assert (a + b)[..|a + b| - 1] == a + b';
      assert (a + b)[|a + b| - 1] == b[|b| - 1];
      ForestAppend(filter, a, b');
    }
  }

  /** The records of a forest's top-level rows, in order. */
  function FieldsOf(rows: seq<Row>): seq<Rec> {
    if |rows| == 0 then [] else FieldsOf(rows[..|rows| - 1]) + [rows[|rows| - 1].fields]
  }

  /** The rows the tree filter returns are its input rows (possibly with `nodes` added), in input order. */
  lemma {:induction false} ForestKeepsOrder(filter: JsObject, rows: seq<Row>)
    ensures IsSubsequence(FieldsOf(Forest(filter, rows)), FieldsOf(rows))
    decreases |rows|
  {
    if |rows| > 0 {
      var init, last := rows[..|rows| - 1], rows[|rows| - 1];
      ForestKeepsOrder(filter, init);
      EmitShape(filter, last);
      var kept := Forest(filter, init);
      SubsequenceSnoc(FieldsOf(kept), FieldsOf(init), last.fields);
      if |Emit(filter, last)| == 1 {
        var e := Emit(filter, last)[0];
        assert e.fields == last.fields;
        assert (kept + [e])[..|kept|] == kept;
      } else {
        assert kept + Emit(filter, last) == kept;
      }
    }
  }
}
