/**
 * The table helpers that only compute: the sort order conversion between the table
 * widget ("ascend" / "descend") and the filter ("ASC" / "DESC"), the filter a sort or
 * page change dispatches, and the visible columns.
 */
module TableService {
  import opened JsValues
  import opened JsObjects
  import opened Wrappers
  import opened Sequences

  /** `getOrderType(sortOrder)`: the filter's order type for the widget's sort order, `undefined` for any other value. */
  function GetOrderType(sortOrder: Value): (r: Value)
    ensures r == Str("ASC") <==> sortOrder == Str("ascend")
    ensures r == Str("DESC") <==> sortOrder == Str("descend")
    ensures r != Str("ASC") && r != Str("DESC") ==> r == Undefined
  {
    if sortOrder == Str("ascend") then Str("ASC")
    else if sortOrder == Str("descend") then Str("DESC")
    else Undefined
  }

  /** `getAntOrderType(filter, columnName)`: the widget's sort order of the column, `undefined` unless the filter sorts by it. */
  function GetAntOrderType(filter: JsObject, columnName: Value): (r: Value)
    ensures Lookup(filter, "orderBy") != columnName ==> r == Undefined
    ensures r != Undefined ==> r == Str("ascend") || r == Str("descend")
  {
    if Lookup(filter, "orderBy") == columnName then
      var t := Lookup(filter, "orderType");
      if t == Str("ASC") then Str("ascend")
      else if t == Str("DESC") then Str("descend")
      else Undefined
    else Undefined
  }

  /** A filter sorting by its `orderBy` in a known direction reads back its own `orderType`. */
  lemma OrderTypeRoundTrip(filter: JsObject)
    requires Lookup(filter, "orderType") in {Str("ASC"), Str("DESC")}
    ensures GetOrderType(GetAntOrderType(filter, Lookup(filter, "orderBy"))) == Lookup(filter, "orderType")
  {
  }

  /** The widget's order survives the trip through a filter that sorts by the column in that order. */
  lemma AntOrderRoundTrip(filter: JsObject, column: Value, order: Value)
    requires order in {Str("ascend"), Str("descend")}
    requires Lookup(filter, "orderBy") == column && Lookup(filter, "orderType") == GetOrderType(order)
    ensures GetAntOrderType(filter, column) == order
  {
  }

  /** The filter a sort change dispatches, and the reload receives the same one. */
  datatype TableChange = TableChange(dispatched: JsObject, reloaded: Option<JsObject>)

  /**
   * The new filter of `handleTableChange`: when the sorter's field or order differs from
   * the filter's, `orderType` becomes the converted order and `orderBy` the field (or
   * `undefined` when the order converts to nothing); otherwise a copy of the filter.
   */
  function SortedFilter(filter: JsObject, field: Value, order: Value): (r: JsObject)
    ensures field == Lookup(filter, "orderBy") && order == GetAntOrderType(filter, field) ==> r == filter
    ensures field != Lookup(filter, "orderBy") || order != GetAntOrderType(filter, field) ==>
      Lookup(r, "orderType") == GetOrderType(order) &&
      Lookup(r, "orderBy") == (if GetOrderType(order) != Undefined then field else Undefined)
    ensures forall k :: k != "orderBy" && k != "orderType" ==> (Has(r, k) <==> Has(filter, k)) && Lookup(r, k) == Lookup(filter, k)
    ensures |r| >= |filter| && forall i :: 0 <= i < |filter| ==> r[i].0 == filter[i].0
  {
    if field != Lookup(filter, "orderBy") || order != GetAntOrderType(filter, field) then
      var t := GetOrderType(order);
      Set(Set(filter, "orderBy", if Truthy(t) then field else Undefined), "orderType", t)
    else filter
  }

  /** `handleTableChange`: the filter is dispatched as SET, and passed to the reload when there is one. */
  function HandleTableChange(filter: JsObject, field: Value, order: Value, hasReload: bool): (r: TableChange)
    ensures hasReload ==> r.reloaded == Some(r.dispatched)
    ensures !hasReload ==> r.reloaded.None?
    ensures r.dispatched == SortedFilter(filter, field, order)
  {
    var f := SortedFilter(filter, field, order);
    TableChange(f, if hasReload then Some(f) else None)
  }

  /** Setting a key to the value it already holds gives back the same object. */
  lemma SetSame(o: JsObject, k: string, v: Value)
    requires Has(o, k) && Lookup(o, k) == v
    ensures Set(o, k, v) == o
  {
    var p := Position(o, k);
    assert o[p] == (k, v);
  }

  /** Repeating a sort change is harmless: the second one leaves the filter as the first left it. */
  lemma SortedFilterIdempotent(filter: JsObject, field: Value, order: Value)
    ensures SortedFilter(SortedFilter(filter, field, order), field, order) == SortedFilter(filter, field, order)
  {
    var f := SortedFilter(filter, field, order);
    if field != Lookup(filter, "orderBy") || order != GetAntOrderType(filter, field) {
      var t := GetOrderType(order);
      var sortBy := if Truthy(t) then field else Undefined;
      var f1 := Set(filter, "orderBy", sortBy);
      assert f == Set(f1, "orderType", t);
      if field != Lookup(f, "orderBy") || order != GetAntOrderType(f, field) {
        assert Has(f, "orderBy") && Has(f, "orderType");
        SetSame(f, "orderBy", sortBy);
        SetSame(f, "orderType", t);
      }
    }
  }

  /** `useTable`'s `handlePagination`: the current filter with `skip` and `take` replaced. */
  function TablePagination(filter: JsObject, skip: int, take: int): (r: JsObject)
    ensures Lookup(r, "skip") == Num(skip) && Lookup(r, "take") == Num(take)
    ensures forall k :: k != "skip" && k != "take" ==> (Has(r, k) <==> Has(filter, k)) && Lookup(r, k) == Lookup(filter, k)
    ensures |r| >= |filter| && forall i :: 0 <= i < |filter| ==> r[i].0 == filter[i].0
  {
    Set(Set(filter, "skip", Num(skip)), "take", Num(take))
  }

  /**
   * `useContentTable`'s `handlePagination`: a blank filter with `skip` and `take`, so every
   * other criterion is reset; nothing is dispatched without a filter dispatcher.
   */
  function ContentTablePagination(hasDispatch: bool, blank: JsObject, skip: int, take: int): (r: Option<JsObject>)
    ensures !hasDispatch ==> r.None?
    ensures hasDispatch ==> r.Some? && r.value == TablePagination(blank, skip, take)
  {
    if hasDispatch then Some(Set(Set(blank, "skip", Num(skip)), "take", Num(take))) else None
  }

  /** The two paginations differ only in the filter they start from. */
  lemma PaginationsDiffer(current: JsObject, blank: JsObject, skip: int, take: int, k: string)
    requires k != "skip" && k != "take"
    ensures Lookup(TablePagination(current, skip, take), k) == Lookup(current, k)
    ensures Lookup(ContentTablePagination(true, blank, skip, take).value, k) == Lookup(blank, k)
  {
  }

  /** `handleResetTable`: a blank filter is dispatched as SET when there is a dispatcher. */
  function ResetTable(hasDispatch: bool, blank: JsObject): (r: Option<JsObject>)
    ensures r.Some? <==> hasDispatch
    ensures r.Some? ==> r.value == blank
  {
    if hasDispatch then Some(blank) else None
  }

  /** A column of the table: its `key` and the rest of its settings. */
  type Column = Rec

  function ColumnKey(c: Column): Value {
    Get(c, "key")
  }

  /** `selectedColumns.some((colInside) => colOutSide.key === colInside.key)`. */
  predicate IsSelected(selected: seq<Column>, c: Column) {
    exists j :: 0 <= j < |selected| && ColumnKey(selected[j]) == ColumnKey(c)
  }

  /**
   * `dynamicColumns`: the columns whose key is among the selected columns' keys, in the
   * columns' own order; none for no columns.
   */
  function DynamicColumns(columns: seq<Column>, selected: seq<Column>): (r: seq<Column>)
    ensures |columns| == 0 ==> r == []
    ensures forall i :: 0 <= i < |r| ==> r[i] in columns && IsSelected(selected, r[i])
    ensures forall i :: 0 <= i < |columns| && IsSelected(selected, columns[i]) ==> columns[i] in r
    ensures IsSubsequence(r, columns)
  {
    if |columns| > 0 then
      var p := (c: Column) => IsSelected(selected, c);
      FilterMembers(columns, p);
      FilterIsSubsequence(columns, p);
      Filter(columns, p)
    else []
  }

  /** Selecting every column shows them all; selecting none shows none. */
  lemma {:induction false} DynamicColumnsExtremes(columns: seq<Column>)
    ensures DynamicColumns(columns, columns) == columns
    ensures DynamicColumns(columns, []) == []
  {
    if |columns| > 0 {
      var p := (c: Column) => IsSelected(columns, c);
      assert forall i :: 0 <= i < |columns| ==> p(columns[i]);
      FilterKeepsAll(columns, p);
      var q := (c: Column) => IsSelected([], c);
      FilterKeepsNone(columns, q);
    }
  }
}
