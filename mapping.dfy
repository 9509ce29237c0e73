/**
 * The mapping picker of a detail page: a modal list from which records are checked to
 * be attached to the model. Its state is the loaded list and count, the contents already
 * attached, and the checked keys with the checked records kept side by side.
 */
module Mapping {
  import opened Wrappers
  import opened JsValues
  import opened JsObjects
  import opened Sequences
  import opened UtilValues

  /** The picker's reducer state; a field the source leaves undefined at the start is empty here. */
  datatype MappingModel = MappingModel(
    list: seq<Rec>,
    count: int,
    contentIds: seq<Value>,
    contentValues: seq<Value>,
    checkedKeys: seq<Value>,
    checkedValues: seq<Value>)

  /** The reducer's actions with the payload fields each one reads. */
  datatype MappingAction =
    | UpdateContents(contentIds: seq<Value>, contentValues: seq<Value>)
    | UpdateList(list: seq<Rec>, count: int)
    | UpdateChecked(keys: seq<Value>, values: seq<Value>)
    | Checked(keys: seq<Value>, values: seq<Value>)
    | Unchecked(keys: seq<Value>, values: seq<Value>)
    | CheckedAll(keys: seq<Value>, values: seq<Value>)
    | UncheckedAll(keys: seq<Value>, values: seq<Value>)
    | UndoChecked(keys: seq<Value>, values: seq<Value>)
    | OtherAction

  /** `x.id`, read as undefined on anything but a plain object. */
  function IdOf(v: Value): Value {
    Prop(v, "id")
  }

  /** `xs[0]`, undefined for an empty array. */
  function FirstOr(xs: seq<Value>): (r: Value)
    ensures |xs| > 0 ==> r == xs[0]
    ensures |xs| == 0 ==> r == Undefined
  {
    if |xs| > 0 then xs[0] else Undefined
  }

  /** No element of `vs` has this id (`every(item => item.id !== id)`). */
  predicate NoneWithId(vs: seq<Value>, id: Value) {
    forall j :: 0 <= j < |vs| ==> IdOf(vs[j]) != id
  }

  /** `mappingReducer(state, action)`. */
  function MappingReducer(state: MappingModel, action: MappingAction): (r: MappingModel)
    ensures !action.UpdateList? ==> r.list == state.list && r.count == state.count
    ensures !action.UpdateContents? ==> r.contentIds == state.contentIds && r.contentValues == state.contentValues
    ensures action.UpdateList? || action.UpdateContents? || action.OtherAction? ==>
      r.checkedValues == state.checkedValues
    ensures action.UpdateList? || action.OtherAction? ==> r.checkedKeys == state.checkedKeys
  {
    match action
    case UpdateContents(ids, vals) => state.(contentIds := ids, contentValues := vals, checkedKeys := ids)
    case UpdateList(list, count) => state.(list := list, count := count)
    case UpdateChecked(keys, vals) => state.(checkedKeys := keys, checkedValues := vals)
    case Checked(keys, vals) => state.(checkedKeys := state.checkedKeys + keys, checkedValues := state.checkedValues + vals)
    case Unchecked(keys, vals) =>
      var k, id := FirstOr(keys), IdOf(FirstOr(vals));
      state.(checkedKeys := Filter(state.checkedKeys, (c: Value) => c != k),
             checkedValues := Filter(state.checkedValues, (c: Value) => IdOf(c) != id))
    case CheckedAll(keys, vals) =>
      state.(checkedKeys := Dedup(state.checkedKeys + keys),
             checkedValues := UniqueArray(state.checkedValues + vals, "id"))
    case UncheckedAll(keys, vals) =>
      state.(checkedKeys := Filter(state.checkedKeys, (c: Value) => c !in keys),
             checkedValues := Filter(state.checkedValues, (c: Value) => NoneWithId(vals, IdOf(c))))
    case UndoChecked(keys, vals) => state.(checkedKeys := keys, checkedValues := vals)
    case OtherAction => state
  }

  // ---------------------------------------------------------------- reducer properties

  /** CHECKED appends the payload keys and records, without removing duplicates. */
  lemma CheckedAppends(state: MappingModel, keys: seq<Value>, vals: seq<Value>)
    ensures var r := MappingReducer(state, Checked(keys, vals));
      r.checkedKeys[..|state.checkedKeys|] == state.checkedKeys && r.checkedKeys[|state.checkedKeys|..] == keys &&
      r.checkedValues[..|state.checkedValues|] == state.checkedValues && r.checkedValues[|state.checkedValues|..] == vals
  {
  }

  /**
   * UNCHECKED removes every occurrence of the key and every record with the same id as
   * the payload record, keeping the others in order.
   */
  lemma UncheckedRemoves(state: MappingModel, k: Value, v: Value)
    ensures var r := MappingReducer(state, Unchecked([k], [v]));
      (forall x :: x in r.checkedKeys <==> x in state.checkedKeys && x != k) &&
      (forall x :: x in r.checkedValues <==> x in state.checkedValues && IdOf(x) != IdOf(v)) &&
      IsSubsequence(r.checkedKeys, state.checkedKeys) && IsSubsequence(r.checkedValues, state.checkedValues)
  {
    var r := MappingReducer(state, Unchecked([k], [v]));
    assert r.checkedKeys == Filter(state.checkedKeys, (c: Value) => c != k) by {
      assert FirstOr([k]) == k;
    }
    assert r.checkedValues == Filter(state.checkedValues, (c: Value) => IdOf(c) != IdOf(v)) by {
      assert FirstOr([v]) == v;
    }
    KeysRemoved(state.checkedKeys, k);
    IdsRemoved(state.checkedValues, IdOf(v));
  }

  lemma KeysRemoved(xs: seq<Value>, k: Value)
    ensures forall x :: x in Filter(xs, (c: Value) => c != k) <==> x in xs && x != k
    ensures IsSubsequence(Filter(xs, (c: Value) => c != k), xs)
  {
    FilterContains(xs, (c: Value) => c != k);
  }

  lemma IdsRemoved(xs: seq<Value>, id: Value)
    ensures forall x :: x in Filter(xs, (c: Value) => IdOf(c) != id) <==> x in xs && IdOf(x) != id
    ensures IsSubsequence(Filter(xs, (c: Value) => IdOf(c) != id), xs)
  {
    FilterContains(xs, (c: Value) => IdOf(c) != id);
  }

  /**
   * Checking a record whose key is not checked and whose id no checked record has, then
   * unchecking it, restores both the keys and the records.
   */
  lemma CheckThenUncheckRestores(state: MappingModel, k: Value, v: Value)
    requires k !in state.checkedKeys
    requires NoneWithId(state.checkedValues, IdOf(v))
    ensures MappingReducer(MappingReducer(state, Checked([k], [v])), Unchecked([k], [v])) == state
  {
    var mid := MappingReducer(state, Checked([k], [v]));
    var r := MappingReducer(mid, Unchecked([k], [v]));
    assert r.checkedKeys == state.checkedKeys by {
      assert FirstOr([k]) == k;
      RemoveAppendedKey(state.checkedKeys, k);
    }
    assert r.checkedValues == state.checkedValues by {
      assert FirstOr([v]) == v;
      RemoveAppendedRecord(state.checkedValues, v);
    }
  }

  /** Removing a key just appended to keys that did not hold it leaves those keys. */
  lemma RemoveAppendedKey(xs: seq<Value>, k: Value)
    requires k !in xs
    ensures Filter(xs + [k], (c: Value) => c != k) == xs
  {
    var p := (c: Value) => c != k;
    FilterSnoc(xs, k, p);
    FilterKeepsAll(xs, p);
  }

  /** Removing the id of a record just appended to records without that id leaves those records. */
  lemma RemoveAppendedRecord(xs: seq<Value>, v: Value)
    requires NoneWithId(xs, IdOf(v))
    ensures Filter(xs + [v], (c: Value) => IdOf(c) != IdOf(v)) == xs
  {
    var q := (c: Value) => IdOf(c) != IdOf(v);
    FilterSnoc(xs, v, q);
    FilterKeepsAll(xs, q);
  }

  /**
   * UNCHECKED with an empty payload compares against `undefined`: it drops the checked
   * keys that are undefined and the checked records that have no id.
   */
  lemma UncheckedEmptyPayload(state: MappingModel)
    ensures var r := MappingReducer(state, Unchecked([], []));
      (forall x :: x in r.checkedKeys <==> x in state.checkedKeys && x != Undefined) &&
      (forall x :: x in r.checkedValues <==> x in state.checkedValues && IdOf(x) != Undefined)
  {
    var r := MappingReducer(state, Unchecked([], []));
    assert r.checkedKeys == Filter(state.checkedKeys, (c: Value) => c != Undefined);
    assert r.checkedValues == Filter(state.checkedValues, (c: Value) => IdOf(c) != Undefined) by {
      assert IdOf(FirstOr([])) == Undefined;
    }
    KeysRemoved(state.checkedKeys, Undefined);
    IdsRemoved(state.checkedValues, Undefined);
  }

  /**
   * CHECKED_ALL: the keys become the old keys deduplicated followed by the new keys not
   * already there (the old keys themselves when they had no duplicate), with no key
   * twice; the records become the old and new records with one per id, the first kept,
   * in order.
   */
  lemma CheckedAllMerges(state: MappingModel, keys: seq<Value>, vals: seq<Value>)
    ensures var r := MappingReducer(state, CheckedAll(keys, vals));
      NoDuplicates(r.checkedKeys) &&
      (forall x :: x in r.checkedKeys <==> x in state.checkedKeys || x in keys) &&
      (NoDuplicates(state.checkedKeys) ==>
         r.checkedKeys == state.checkedKeys + Dedup(Filter(keys, (x: Value) => x !in state.checkedKeys))) &&
      Distinct(r.checkedValues, "id") &&
      IsSubsequence(r.checkedValues, state.checkedValues + vals) &&
      (forall i :: 0 <= i < |state.checkedValues + vals| ==>
         HasFieldValue(r.checkedValues, "id", IdOf((state.checkedValues + vals)[i])))
  {
    var all := state.checkedKeys + keys;
    DedupProperties(all);
    assert forall x :: x in all <==> x in state.checkedKeys || x in keys;
    if NoDuplicates(state.checkedKeys) {
      DedupAppend(state.checkedKeys, keys);
    }
    UniqueArrayDistinct(state.checkedValues + vals, "id");
    UniqueArrayKeepsFirst(state.checkedValues + vals, "id");
  }

  /**
   * UNCHECKED_ALL removes exactly the payload keys and the records whose id some payload
   * record has; the rest keep their order.
   */
  lemma UncheckedAllRemoves(state: MappingModel, keys: seq<Value>, vals: seq<Value>)
    ensures var r := MappingReducer(state, UncheckedAll(keys, vals));
      (forall x :: x in r.checkedKeys <==> x in state.checkedKeys && x !in keys) &&
      (forall x :: x in r.checkedValues <==> x in state.checkedValues && NoneWithId(vals, IdOf(x))) &&
      IsSubsequence(r.checkedKeys, state.checkedKeys) && IsSubsequence(r.checkedValues, state.checkedValues)
  {
    var r := MappingReducer(state, UncheckedAll(keys, vals));
    assert r.checkedKeys == Filter(state.checkedKeys, (c: Value) => c !in keys);
    assert r.checkedValues == Filter(state.checkedValues, (c: Value) => NoneWithId(vals, IdOf(c)));
    PageKeysRemoved(state.checkedKeys, keys);
    PageIdsRemoved(state.checkedValues, vals);
  }

  lemma PageKeysRemoved(xs: seq<Value>, keys: seq<Value>)
    ensures forall x :: x in Filter(xs, (c: Value) => c !in keys) <==> x in xs && x !in keys
    ensures IsSubsequence(Filter(xs, (c: Value) => c !in keys), xs)
  {
    FilterContains(xs, (c: Value) => c !in keys);
  }

  lemma PageIdsRemoved(xs: seq<Value>, vals: seq<Value>)
    ensures forall x :: x in Filter(xs, (c: Value) => NoneWithId(vals, IdOf(c))) <==> x in xs && NoneWithId(vals, IdOf(x))
    ensures IsSubsequence(Filter(xs, (c: Value) => NoneWithId(vals, IdOf(c))), xs)
  {
    FilterContains(xs, (c: Value) => NoneWithId(vals, IdOf(c)));
  }

  /** Checking a page none of whose keys was checked, then unchecking it, restores the checked keys. */
  lemma CheckAllThenUncheckAllRestores(state: MappingModel, keys: seq<Value>, vals: seq<Value>)
    requires NoDuplicates(state.checkedKeys) && forall i :: 0 <= i < |keys| ==> keys[i] !in state.checkedKeys
    ensures MappingReducer(MappingReducer(state, CheckedAll(keys, vals)), UncheckedAll(keys, vals)).checkedKeys ==
      state.checkedKeys
  {
    var before := state.checkedKeys;
    var added := Filter(keys, (x: Value) => x !in before);
    var mid := MappingReducer(state, CheckedAll(keys, vals));
    assert mid.checkedKeys == before + Dedup(added) by {
      DedupAppend(before, keys);
    }
    assert forall x :: x in Dedup(added) ==> x in keys by {
      DedupMembers(added);
      FilterMembers(keys, (x: Value) => x !in before);
    }
    RemoveAppended(before, Dedup(added), keys);
    assert MappingReducer(mid, UncheckedAll(keys, vals)).checkedKeys == Filter(mid.checkedKeys, (c: Value) => c !in keys);
  }

  /** Removing the keys of a page from the old keys followed by some of the page's keys leaves the old keys. */
  lemma RemoveAppended(before: seq<Value>, added: seq<Value>, keys: seq<Value>)
    requires forall x :: x in added ==> x in keys
    requires forall i :: 0 <= i < |keys| ==> keys[i] !in before
    ensures Filter(before + added, (c: Value) => c !in keys) == before
  {
    var p := (c: Value) => c !in keys;
    FilterAppend(before, added, p);
    FilterKeepsAll(before, p);
    FilterKeepsNone(added, p);
  }

  /** UPDATE_CONTENTS checks exactly the content ids; UPDATE_CHECKED and UNDO_CHECKED replace both sides. */
  lemma ReplaceActions(state: MappingModel, a: seq<Value>, b: seq<Value>, list: seq<Rec>, count: int)
    ensures MappingReducer(state, UpdateContents(a, b)).checkedKeys == a
    ensures MappingReducer(state, UpdateContents(a, b)).contentValues == b
    ensures var r := MappingReducer(state, UpdateChecked(a, b)); r.checkedKeys == a && r.checkedValues == b
    ensures var r := MappingReducer(state, UndoChecked(a, b)); r.checkedKeys == a && r.checkedValues == b
    ensures MappingReducer(state, UpdateList(list, count)) == state.(list := list, count := count)
  {
  }

  /** The checked keys are the ids of the checked records, position by position. */
  predicate Parallel(keys: seq<Value>, vals: seq<Value>) {
    |keys| == |vals| && forall i :: 0 <= i < |keys| ==> keys[i] == IdOf(vals[i])
  }

  /**
   * Every action that edits the selection keeps the two sides parallel when its payload
   * is: CHECKED, UNCHECKED, CHECKED_ALL and UNCHECKED_ALL as well as the replacing
   * UPDATE_CHECKED and UNDO_CHECKED. UPDATE_CONTENTS sets only the keys, so it keeps the
   * sides parallel exactly when the content ids are the ids of the checked records.
   */
  lemma {:induction false} SelectionStaysParallel(state: MappingModel, action: MappingAction)
    requires Parallel(state.checkedKeys, state.checkedValues)
    requires (action.UpdateChecked? || action.Checked? || action.Unchecked? || action.CheckedAll? ||
              action.UncheckedAll? || action.UndoChecked?) ==> Parallel(action.keys, action.values)
    ensures var r := MappingReducer(state, action);
      !action.UpdateContents? ==> Parallel(r.checkedKeys, r.checkedValues)
    ensures var r := MappingReducer(state, action);
      action.UpdateContents? ==> (Parallel(r.checkedKeys, r.checkedValues) <==> Parallel(action.contentIds, state.checkedValues))
  {
    var ks, vs := state.checkedKeys, state.checkedValues;
    match action
    case Checked(keys, vals) =>
      var rk, rv := ks + keys, vs + vals;
      forall i | 0 <= i < |rk|
        ensures rk[i] == IdOf(rv[i])
      {
        if i >= |ks| {
          assert rk[i] == keys[i - |ks|] && rv[i] == vals[i - |ks|];
        }
      }
    case Unchecked(keys, vals) =>
      var k, id := FirstOr(keys), IdOf(FirstOr(vals));
      assert k == id;
      FilterParallel(ks, vs, (c: Value) => c != k, (c: Value) => IdOf(c) != id);
    case CheckedAll(keys, vals) =>
      var rk, rv := ks + keys, vs + vals;
      assert Parallel(rk, rv) by {
        forall i | 0 <= i < |rk|
          ensures rk[i] == IdOf(rv[i])
        {
          if i >= |ks| {
            assert rk[i] == keys[i - |ks|] && rv[i] == vals[i - |ks|];
          }
        }
      }
      DedupParallel(rk, rv);
    case UncheckedAll(keys, vals) =>
      forall i | 0 <= i < |ks|
        ensures (ks[i] !in keys) == NoneWithId(vals, IdOf(vs[i]))
      {
        if ks[i] in keys {
          var j :| 0 <= j < |keys| && keys[j] == ks[i];
          assert IdOf(vals[j]) == IdOf(vs[i]);
        }
      }
      FilterParallel(ks, vs, (c: Value) => c !in keys, (c: Value) => NoneWithId(vals, IdOf(c)));
    case _ =>
  }

  /** Filtering parallel sides by tests that agree position by position keeps them parallel. */
  lemma {:induction false} FilterParallel(ks: seq<Value>, vs: seq<Value>, p: Value -> bool, q: Value -> bool)
    requires Parallel(ks, vs)
    requires forall i :: 0 <= i < |ks| ==> p(ks[i]) == q(vs[i])
    ensures Parallel(Filter(ks, p), Filter(vs, q))
    decreases |ks|
  {
    if |ks| > 0 {
      var ks', vs' := ks[1..], vs[1..];
      forall i | 0 <= i < |ks'|
        ensures ks'[i] == IdOf(vs'[i]) && p(ks'[i]) == q(vs'[i])
      {
        assert ks'[i] == ks[i + 1] && vs'[i] == vs[i + 1];
      }
      FilterParallel(ks', vs', p, q);
      var fk, fv := Filter(ks', p), Filter(vs', q);
      if p(ks[0]) {
        assert Filter(ks, p) == [ks[0]] + fk && Filter(vs, q) == [vs[0]] + fv;
        forall i | 0 <= i < |fk| + 1
          ensures ([ks[0]] + fk)[i] == IdOf(([vs[0]] + fv)[i])
        {
          if i > 0 {
            assert ([ks[0]] + fk)[i] == fk[i - 1] && ([vs[0]] + fv)[i] == fv[i - 1];
          }
        }
      } else {
        assert Filter(ks, p) == fk && Filter(vs, q) == fv;
      }
    }
  }

  /** `new Set` on the keys and `uniqueArray` on their records keep the same positions. */
  lemma {:induction false} DedupParallel(ks: seq<Value>, vs: seq<Value>)
    requires Parallel(ks, vs)
    ensures Parallel(Dedup(ks), UniqueArray(vs, "id"))
    decreases |ks|
  {
    if |ks| > 0 {
      var n := |ks| - 1;
      assert Parallel(ks[..n], vs[..n]);
      DedupParallel(ks[..n], vs[..n]);
      var d, acc := Dedup(ks[..n]), UniqueArray(vs[..n], "id");
      assert ks[n] in d <==> HasFieldValue(acc, "id", Prop(vs[n], "id")) by {
        if ks[n] in d {
          var j :| 0 <= j < |d| && d[j] == ks[n];
          assert Prop(acc[j], "id") == Prop(vs[n], "id");
        }
        if HasFieldValue(acc, "id", Prop(vs[n], "id")) {
          var j :| 0 <= j < |acc| && Prop(acc[j], "id") == Prop(vs[n], "id");
          assert d[j] == ks[n];
        }
      }
      assert ks[..n] + [ks[n]] == ks && vs[..n] + [vs[n]] == vs;
      assert Dedup(ks) == if ks[n] in d then d else d + [ks[n]];
      assert UniqueArray(vs, "id") == if HasFieldValue(acc, "id", Prop(vs[n], "id")) then acc else acc + [vs[n]];
    }
  }

  // ---------------------------------------------------------------- the picker

  /** `contents.map(content => content[field])`. */
  function Project(contents: seq<Rec>, field: string): (r: seq<Value>)
    ensures |r| == |contents|
    ensures forall i :: 0 <= i < |contents| ==> r[i] == Get(contents[i], field)
  {
    seq(|contents|, i requires 0 <= i < |contents| => Get(contents[i], field))
  }

  /** The ids of the rows, `rows.map(row => row.id)`. */
  function Ids(rows: seq<Rec>): (r: seq<Value>)
    ensures |r| == |rows|
    ensures forall i :: 0 <= i < |rows| ==> r[i] == Get(rows[i], "id")
  {
    Project(rows, "id")
  }

  /** The rows as values. */
  function Objs(rows: seq<Rec>): (r: seq<Value>)
    ensures |r| == |rows|
    ensures forall i :: 0 <= i < |rows| ==> r[i] == Obj(rows[i]) && IdOf(r[i]) == Get(rows[i], "id")
  {
    seq(|rows|, i requires 0 <= i < |rows| => Obj(rows[i]))
  }

  /** The filter of a load without a parameter: a fresh filter at the first page of ten. */
  const DefaultMappingFilter: JsObject := [("skip", Num(0)), ("take", Num(10))]

  /** The initial reducer state: nothing loaded, nothing checked. */
  const InitialMappingModel := MappingModel([], 0, [], [], [], [])

  /** The picker hook's state: the modal flag, the spinner, the reducer state and the first-run guards of its two effects. */
  class MappingPicker {
    var open: bool
    var spinning: bool
    var model: MappingModel
    var contents: seq<Rec>
    var firstRender: bool
    var firstUpdate: bool
    const mappingField: (string, string)
    const isMultipleMapping: bool

    constructor (contents: seq<Rec>, mappingField: (string, string), isMultipleMapping: bool)
      ensures !open && !spinning && model == InitialMappingModel && this.contents == contents
      ensures firstRender && firstUpdate
      ensures this.mappingField == mappingField && this.isMultipleMapping == isMultipleMapping
    {
      open, spinning, model := false, false, InitialMappingModel;
      this.contents := contents;
      firstRender, firstUpdate := true, true;
      this.mappingField, this.isMultipleMapping := mappingField, isMultipleMapping;
    }

    /** The checked keys and records of the attached contents, through the two mapping fields. */
    function ResetSelection(): (r: MappingAction)
      reads this
      ensures r.UpdateChecked? && |r.keys| == |contents| && |r.values| == |contents|
      ensures forall i :: 0 <= i < |contents| ==>
        r.keys[i] == Get(contents[i], mappingField.0) && r.values[i] == Get(contents[i], mappingField.1)
    {
      UpdateChecked(Project(contents, mappingField.0), Project(contents, mappingField.1))
    }

    /** `handleSaveMapping`: close the picker and hand back a copy of the checked records. */
    method HandleSaveMapping() returns (values: seq<Value>)
      modifies this
      ensures !open && values == model.checkedValues
      ensures model == old(model) && spinning == old(spinning) && contents == old(contents)
      ensures firstRender == old(firstRender) && firstUpdate == old(firstUpdate)
    {
      open := false;
      values := model.checkedValues;
    }

    /** `handleResetMapping`: the selection becomes the attached contents' keys and records. */
    method HandleResetMapping()
      modifies this
      ensures model == MappingReducer(old(model), ResetSelection())
      ensures model.checkedKeys == Project(contents, mappingField.0) && model.checkedValues == Project(contents, mappingField.1)
      ensures open == old(open) && spinning == old(spinning) && contents == old(contents)
      ensures firstRender == old(firstRender) && firstUpdate == old(firstUpdate)
    {
      model := MappingReducer(model, ResetSelection());
    }

    /** `handleCancelMapping`: single mapping drops the unsaved checks; the picker closes either way. */
    method HandleCancelMapping()
      modifies this
      ensures !open
      ensures !isMultipleMapping ==> model == MappingReducer(old(model), ResetSelection())
      ensures isMultipleMapping ==> model == old(model)
      ensures spinning == old(spinning) && contents == old(contents)
      ensures firstRender == old(firstRender) && firstUpdate == old(firstUpdate)
    {
      if !isMultipleMapping {
        HandleResetMapping();
      }
      open := false;
    }

    /** `handleChangeItem`: the table's own selection, except that clearing all keeps the current one. */
    method HandleChangeItem(checkedIds: seq<Value>, checkedRows: seq<Value>, infoType: Option<string>)
      modifies this
      ensures infoType == Some("all") && |checkedIds| == 0 ==> model == old(model)
      ensures !(infoType == Some("all") && |checkedIds| == 0) ==>
        model == old(model).(checkedKeys := checkedIds, checkedValues := checkedRows)
      ensures open == old(open) && spinning == old(spinning) && contents == old(contents)
      ensures firstRender == old(firstRender) && firstUpdate == old(firstUpdate)
    {
      if infoType == Some("all") && |checkedIds| == 0 {
        model := MappingReducer(model, UpdateChecked(model.checkedKeys, model.checkedValues));
      } else {
        model := MappingReducer(model, UpdateChecked(checkedIds, checkedRows));
      }
    }

    /** `handleCheck(record, selected)`: CHECKED or UNCHECKED with the record's id and the record. */
    method HandleCheck(record: Rec, selected: bool)
      modifies this
      ensures selected ==> model == MappingReducer(old(model), Checked([Get(record, "id")], [Obj(record)]))
      ensures !selected ==> model == MappingReducer(old(model), Unchecked([Get(record, "id")], [Obj(record)]))
      ensures open == old(open) && spinning == old(spinning) && contents == old(contents)
      ensures firstRender == old(firstRender) && firstUpdate == old(firstUpdate)
    {
      var id := Get(record, "id");
      if selected {
        model := MappingReducer(model, Checked([id], [Obj(record)]));
      } else {
        model := MappingReducer(model, Unchecked([id], [Obj(record)]));
      }
    }

    /** `handleCheckAll(selected, selectedRows, changeRows)`: CHECKED_ALL or UNCHECKED_ALL with the changed rows. */
    method HandleCheckAll(selected: bool, changeRows: seq<Rec>)
      modifies this
      ensures selected ==> model == MappingReducer(old(model), CheckedAll(Ids(changeRows), Objs(changeRows)))
      ensures !selected ==> model == MappingReducer(old(model), UncheckedAll(Ids(changeRows), Objs(changeRows)))
      ensures open == old(open) && spinning == old(spinning) && contents == old(contents)
      ensures firstRender == old(firstRender) && firstUpdate == old(firstUpdate)
    {
      var selectedIds := Ids(changeRows);
      if selected {
        model := MappingReducer(model, CheckedAll(selectedIds, Objs(changeRows)));
      } else {
        model := MappingReducer(model, UncheckedAll(selectedIds, Objs(changeRows)));
      }
    }

    /** `handleGetListMapping(filterParam)`: start a load with a copy of the filter, or the default one. */
    method HandleGetListMapping(filterParam: Option<JsObject>) returns (filterValue: JsObject)
      modifies this
      ensures spinning
      ensures filterValue == filterParam.GetOr(DefaultMappingFilter)
      ensures open == old(open) && model == old(model) && contents == old(contents)
      ensures firstRender == old(firstRender) && firstUpdate == old(firstUpdate)
    {
      spinning := true;
      filterValue := if filterParam.Some? then filterParam.value else DefaultMappingFilter;
    }

    /** The load finished: the list and count are stored and the spinner stops. */
    method LoadSucceeded(list: seq<Rec>, count: int)
      modifies this
      ensures !spinning && model == MappingReducer(old(model), UpdateList(list, count))
      ensures open == old(open) && contents == old(contents)
      ensures firstRender == old(firstRender) && firstUpdate == old(firstUpdate)
    {
      model := MappingReducer(model, UpdateList(list, count));
      spinning := false;
    }

    /** The load failed: only the spinner stops. */
    method LoadFailed()
      modifies this
      ensures !spinning && model == old(model) && open == old(open) && contents == old(contents)
      ensures firstRender == old(firstRender) && firstUpdate == old(firstUpdate)
    {
      spinning := false;
    }

    /**
     * `handleOpenMapping`: open the picker, load the first page when nothing is loaded
     * yet, and start multiple mapping from an empty selection.
     */
    method HandleOpenMapping() returns (load: Option<JsObject>)
      modifies this
      ensures open
      ensures load.Some? <==> |old(model.list)| == 0
      ensures load.Some? ==> load.value == DefaultMappingFilter && spinning
      ensures load.None? ==> spinning == old(spinning)
      ensures isMultipleMapping ==> model == old(model).(checkedKeys := [], checkedValues := [])
      ensures !isMultipleMapping ==> model == old(model)
      ensures contents == old(contents) && firstRender == old(firstRender) && firstUpdate == old(firstUpdate)
    {
      open := true;
      load := None;
      if |model.list| == 0 {
        var filterValue := HandleGetListMapping(None);
        load := Some(filterValue);
      }
      if isMultipleMapping {
        model := MappingReducer(model, UpdateChecked([], []));
      }
    }

    /** `handleCloseMapping`. */
    method HandleCloseMapping()
      modifies this
      ensures !open && model == old(model) && spinning == old(spinning) && contents == old(contents)
      ensures firstRender == old(firstRender) && firstUpdate == old(firstUpdate)
    {
      open := false;
    }

    /** The contents effect: after the first render, single mapping resets the selection from the new contents. */
    method ContentsChanged(newContents: seq<Rec>)
      modifies this
      ensures contents == newContents && !firstRender
      ensures old(firstRender) || isMultipleMapping ==> model == old(model)
      ensures !old(firstRender) && !isMultipleMapping ==> model == MappingReducer(old(model), ResetSelection())
      ensures open == old(open) && spinning == old(spinning) && firstUpdate == old(firstUpdate)
    {
      contents := newContents;
      if firstRender {
        firstRender := false;
        return;
      }
      if !isMultipleMapping {
        HandleResetMapping();
      }
    }

    /** The filter effect: after the first run, a given filter triggers a load with it. */
    method ModelFilterChanged(modelFilter: Option<JsObject>) returns (load: Option<JsObject>)
      modifies this
      ensures !firstUpdate
      ensures load == if old(firstUpdate) then None else modelFilter
      ensures load.Some? ==> spinning
      ensures load.None? ==> spinning == old(spinning)
      ensures open == old(open) && model == old(model) && contents == old(contents) && firstRender == old(firstRender)
    {
      load := None;
      if firstUpdate {
        firstUpdate := false;
        return;
      }
      if modelFilter.Some? {
        var filterValue := HandleGetListMapping(modelFilter);
        load := Some(filterValue);
      }
    }
  }

  /** After a reset the two sides of the selection are as long as the contents. */
  lemma ResetKeepsSidesParallel(state: MappingModel, contents: seq<Rec>, f: (string, string))
    ensures var r := MappingReducer(state, UpdateChecked(Project(contents, f.0), Project(contents, f.1)));
      |r.checkedKeys| == |r.checkedValues| == |contents| && r.list == state.list && r.count == state.count
  {
  }
}
