/**
 * A list kept on the client: the records are given, each gets a `key` if it has none,
 * and the list shown is the result of the filter, recomputed when the records or the
 * filter change (automatic mode) or on request (manual mode).
 */
module LocalList {
  import opened Wrappers
  import opened JsValues
  import opened JsObjects
  import opened Sequences
  import opened ListFilter
  import opened TreeFilter

  /**
   * `sortList`: the lodash ordering and paging calls build new arrays that are never
   * assigned, so the list comes back as it went in.
   */
  function SortList(filter: JsObject, list: seq<Row>): (r: seq<Row>)
    ensures r == list
  {
    list
  }

  /** A record not yet saved on the server: its `id` is falsy. */
  predicate Unsaved(r: Row) {
    !Truthy(Get(r.fields, "id"))
  }

  /**
   * What `handleFilter` returns. `None` is a null or undefined filter. Combined-search
   * mode on a flat list goes through `combineFilterList`, which keeps no row.
   */
  function Handled(filter: Option<JsObject>, isTreeData: bool, list: seq<Row>): seq<Row> {
    if filter.None? then list
    else
      var newItems := Filter(list, Unsaved);
      var filtered := Filtered(filter.value, isTreeData, list);
      if |newItems| > 0 && |filtered| < |list| then newItems + filtered else filtered
  }

  /** The filter's own result, before the unsaved records are considered. */
  function Filtered(filter: JsObject, isTreeData: bool, list: seq<Row>): seq<Row> {
    if isTreeData then Forest(filter, list)
    else if IsCombineSearch(filter) then SortList(filter, [])
    else SortList(filter, Selected(filter, list))
  }

  /** `handleFilter`: collect the unsaved records, filter, and prepend them when the filter dropped something. */
  method HandleFilter(filter: Option<JsObject>, isTreeData: bool, list: seq<Row>, fieldKeys: seq<string>)
    returns (result: seq<Row>)
    ensures result == Handled(filter, isTreeData, list)
    ensures filter.None? ==> result == list
  {
    if filter.None? {
      return list;
    }
    var newItems: seq<Row> := [];
    var currentListLength := |list|;
    var i := 0;
    while i < |list|
      invariant 0 <= i <= |list|
      invariant newItems == Filter(list[..i], Unsaved)
    {
      assert list[..i + 1] == list[..i] + [list[i]];
      FilterAppend(list[..i], [list[i]], Unsaved);
      if Unsaved(list[i]) {
        newItems := newItems + [list[i]];
      }
      i := i + 1;
    }
    assert list[..i] == list;
    var filteredList: seq<Row>;
    if isTreeData {
      filteredList := TreeFilterList(filter.value, list, fieldKeys);
    } else if IsCombineSearch(filter.value) {
      filteredList := SortList(filter.value, []);
    } else {
      var selected := FilterList(filter.value, list);
      filteredList := SortList(filter.value, selected);
    }
    result := if |newItems| > 0 && |filteredList| < currentListLength then newItems + filteredList else filteredList;
  }

  // ---------------------------------------------------------------- properties

  /**
   * On a flat list every unsaved record is shown, whether or not it passes the filter:
   * either the filter dropped something and the unsaved records are prepended, or it
   * dropped nothing and returned the whole list.
   */
  lemma UnsavedAlwaysShown(filter: JsObject, list: seq<Row>)
    ensures forall i :: 0 <= i < |list| && Unsaved(list[i]) ==> list[i] in Handled(Some(filter), false, list)
  {
    FilterMembers(list, Unsaved);
    if !IsCombineSearch(filter) {
      FilterSameLength(list, (r: Row) => PassesAll(Steps(filter), r.fields));
    }
  }

  /**
   * On a flat list outside combined search, the rows shown are rows of the list, and
   * every row passing the filter is shown.
   */
  lemma ShownRows(filter: JsObject, list: seq<Row>)
    requires !IsCombineSearch(filter)
    ensures forall x :: x in Handled(Some(filter), false, list) ==> x in list
    ensures forall i :: 0 <= i < |list| && PassesAll(Steps(filter), list[i].fields) ==> list[i] in Handled(Some(filter), false, list)
  {
    var newItems, selected := Filter(list, Unsaved), Selected(filter, list);
    assert forall i :: 0 <= i < |newItems| ==> newItems[i] in list by {
      FilterMembers(list, Unsaved);
    }
    assert forall i :: 0 <= i < |selected| ==> selected[i] in list by {
      FilterMembers(list, (r: Row) => PassesAll(Steps(filter), r.fields));
    }
    assert forall i :: 0 <= i < |list| && PassesAll(Steps(filter), list[i].fields) ==> list[i] in selected by {
      SelectedIsSubsequence(filter, list);
    }
    forall x | x in newItems + selected
      ensures x in list
    {
      if x in newItems {
        var i :| 0 <= i < |newItems| && newItems[i] == x;
      } else {
        var i :| 0 <= i < |selected| && selected[i] == x;
      }
    }
  }

  /** Unsaved records are not prepended when the filter kept every row, and are prepended when it dropped one. */
  lemma PrependOnlyWhenShrunk(filter: JsObject, isTreeData: bool, list: seq<Row>)
    ensures |Filtered(filter, isTreeData, list)| >= |list| ==>
      Handled(Some(filter), isTreeData, list) == Filtered(filter, isTreeData, list)
    ensures |Filtered(filter, isTreeData, list)| < |list| ==>
      Handled(Some(filter), isTreeData, list) == Filter(list, Unsaved) + Filtered(filter, isTreeData, list)
  {
    var newItems := Filter(list, Unsaved);
    var filtered := Filtered(filter, isTreeData, list);
    assert Handled(Some(filter), isTreeData, list) ==
      if |newItems| > 0 && |filtered| < |list| then newItems + filtered else filtered;
    if |newItems| == 0 {
      assert newItems + filtered == filtered;
    }
  }

  /**
   * An unsaved record that passes the filter is shown twice once another row is dropped:
   * with `age greater 25`, an unsaved row of age 30 next to a saved row of age 20 gives
   * the unsaved row twice.
   */
  lemma UnsavedShownTwiceExample()
    ensures var u := Row(map["age" := Num(30)], [], None);
      var s := Row(map["id" := Num(1), "age" := Num(20)], [], None);
      Handled(Some([("age", Criterion(NumberKind, [("greater", Num(25))]))]), false, [u, s]) == [u, u]
  {
    var u := Row(map["age" := Num(30)], [], None);
    var s := Row(map["id" := Num(1), "age" := Num(20)], [], None);
    var f: JsObject := [("age", Criterion(NumberKind, [("greater", Num(25))]))];
    AgeFilterSelects(f, u, s);
    assert Filtered(f, false, [u, s]) == [u];
    assert Get(u.fields, "id") == Undefined && Get(s.fields, "id") == Num(1);
    assert Unsaved(u) && !Unsaved(s);
    assert [u, s][1..] == [s] && [s][1..] == [];
    assert Filter([u, s], Unsaved) == [u];
  }

  lemma AgeFilterSelects(f: JsObject, u: Row, s: Row)
    requires f == [("age", Criterion(NumberKind, [("greater", Num(25))]))]
    requires Get(u.fields, "age") == Num(30) && Get(s.fields, "age") == Num(20)
    ensures !IsCombineSearch(f)
    ensures Selected(f, [u, s]) == [u]
  {
    var st := Step("age", NumberKind, "greater", Num(25));
    SingleEntry("age", NumberKind, [("greater", Num(25))]);
    assert OpSteps("age", NumberKind, [("greater", Num(25))]) == [st];
    assert Keeps(st, u.fields) && !Keeps(st, s.fields);
    var p := (r: Row) => PassesAll(Steps(f), r.fields);
    assert p(u) && !p(s);
    assert [u, s][1..] == [s] && [s][1..] == [];
    assert Filter([u, s], p) == [u];
  }

  // ---------------------------------------------------------------- the hook's state

  /** `contentValue`: every record without a `key` gets the next fresh key; the others are kept. */
  method AssignKeys(data: seq<Row>, uuids: seq<string>) returns (content: seq<Row>)
    requires |uuids| == |data|
    ensures |content| == |data|
    ensures forall i :: 0 <= i < |data| ==> Get(content[i].fields, "key") != Undefined
    ensures forall i :: 0 <= i < |data| && Get(data[i].fields, "key") != Undefined ==> content[i] == data[i]
    ensures forall i :: 0 <= i < |data| && Get(data[i].fields, "key") == Undefined ==>
      content[i] == data[i].(fields := data[i].fields["key" := Str(uuids[i])])
  {
    content := [];
    var i := 0;
    while i < |data|
      invariant 0 <= i <= |data|
      invariant |content| == i
      invariant forall j :: 0 <= j < i ==> Get(content[j].fields, "key") != Undefined
      invariant forall j :: 0 <= j < i && Get(data[j].fields, "key") != Undefined ==> content[j] == data[j]
      invariant forall j :: 0 <= j < i && Get(data[j].fields, "key") == Undefined ==>
        content[j] == data[j].(fields := data[j].fields["key" := Str(uuids[j])])
    {
      var current := data[i];
      if Get(current.fields, "key") == Undefined {
        current := current.(fields := current.fields["key" := Str(uuids[i])]);
      }
      content := content + [current];
      i := i + 1;
    }
  }

  /** The list, count and pending-change flag of the local-list hook. */
  class LocalListState {
    var content: seq<Row>
    var list: seq<Row>
    var count: int
    var invokeChange: bool

    /** The keyed records, shown unfiltered until the first effect; `uuids` are the fresh keys. */
    constructor (data: seq<Row>, uuids: seq<string>)
      requires |uuids| == |data|
      ensures |content| == |data| && list == content && count == |content| && !invokeChange
    {
      var keyed := AssignKeys(data, uuids);
      content := keyed;
      list := keyed;
      count := |keyed|;
      invokeChange := false;
    }

    /** `handleInvokeChange`: request a recomputation in manual mode. */
    method HandleInvokeChange()
      modifies this
      ensures invokeChange && content == old(content) && list == old(list) && count == old(count)
    {
      invokeChange := true;
    }

    /**
     * The effect: in automatic mode, or in manual mode with a pending request (which it
     * clears), the list becomes the filtered content and the count its length.
     */
    method Effect(filter: Option<JsObject>, isTreeData: bool, autoCallByChange: bool, fieldKeys: seq<string>)
      modifies this
      ensures content == old(content)
      ensures autoCallByChange || old(invokeChange) ==>
        list == Handled(filter, isTreeData, content) && count == |list|
      ensures !autoCallByChange && !old(invokeChange) ==> list == old(list) && count == old(count)
      ensures invokeChange == (autoCallByChange && old(invokeChange))
    {
      if autoCallByChange {
        var filteredList := HandleFilter(filter, isTreeData, content, fieldKeys);
        list, count := filteredList, |filteredList|;
      } else if invokeChange {
        var filteredList := HandleFilter(filter, isTreeData, content, fieldKeys);
        list, count := filteredList, |filteredList|;
        invokeChange := false;
      }
    }
  }
}
