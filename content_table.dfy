/**
 * The row edits of a content table (a table whose rows are edited in place on the page):
 * every handler changes the shared `data` array itself and then hands it to `setData`.
 * Rows are records found by their `key`; the validator branches are not part of this model.
 */
module ContentTable {
  import opened Wrappers
  import opened JsValues

  /** `data.findIndex((current) => current.key === key)`. */
  function FindIndex(data: seq<Rec>, key: Value): (r: int)
    ensures -1 <= r < |data|
    ensures r >= 0 ==> Get(data[r], "key") == key && forall j :: 0 <= j < r ==> Get(data[j], "key") != key
    ensures r == -1 <==> forall j :: 0 <= j < |data| ==> Get(data[j], "key") != key
  {
    if |data| == 0 then -1
    else if Get(data[0], "key") == key then 0
    else
      var r := FindIndex(data[1..], key);
      assert forall j :: 1 <= j < |data| ==> data[j] == data[1..][j - 1];
      if r == -1 then -1 else r + 1
  }

  /** Where `splice(start, ...)` starts on an array of length `len`: a negative start counts from the end, and both are clamped. */
  function SpliceStart(len: nat, start: int): (p: nat)
    ensures p <= len
    ensures 0 <= start <= len ==> p == start
    ensures start > len ==> p == len
    ensures start < 0 ==> p == if len + start < 0 then 0 else len + start
  {
    if start < 0 then (if len + start < 0 then 0 else len + start)
    else if start > len then len
    else start
  }

  /** `data.splice(index + 1, 0, row)`. */
  function Inserted(data: seq<Rec>, index: int, row: Rec): (r: seq<Rec>)
    ensures var p := SpliceStart(|data|, index + 1);
      |r| == |data| + 1 && r[p] == row && r[..p] == data[..p] && r[p + 1..] == data[p..]
  {
    var p := SpliceStart(|data|, index + 1);
    data[..p] + [row] + data[p..]
  }

  /** The rows after `handleDeleteRow(key)`: `splice(rowIdx, 1)` on non-empty data. */
  function Deleted(data: seq<Rec>, key: Value): (r: seq<Rec>) {
    if |data| == 0 then data
    else
      var p := SpliceStart(|data|, FindIndex(data, key));
      data[..p] + data[p + 1..]
  }

  /**
   * Deleting removes the first row with the key; with no such row `findIndex` gives -1
   * and `splice(-1, 1)` removes the LAST row; empty data is left alone.
   */
  lemma DeletedCorrect(data: seq<Rec>, key: Value)
    ensures |data| == 0 ==> Deleted(data, key) == data
    ensures |data| > 0 ==> |Deleted(data, key)| == |data| - 1
    ensures |data| > 0 && FindIndex(data, key) >= 0 ==>
      var i := FindIndex(data, key);
      Deleted(data, key) == data[..i] + data[i + 1..] && Get(data[i], "key") == key
    ensures |data| > 0 && FindIndex(data, key) == -1 ==> Deleted(data, key) == data[..|data| - 1]
  {
    if |data| > 0 && FindIndex(data, key) == -1 {
      assert data[|data|..] == [];
    }
  }

  /** A row whose key is new, inserted and then deleted by that key, leaves the rows as they were. */
  lemma InsertThenDeleteRestores(data: seq<Rec>, index: int, row: Rec)
    requires forall j :: 0 <= j < |data| ==> Get(data[j], "key") != Get(row, "key")
    ensures Deleted(Inserted(data, index, row), Get(row, "key")) == data
  {
    var r := Inserted(data, index, row);
    var p := SpliceStart(|data|, index + 1);
    assert forall j :: 0 <= j < p ==> r[j] == data[j];
    assert FindIndex(r, Get(row, "key")) == p;
    assert SpliceStart(|r|, p) == p;
    assert r[..p] + r[p + 1..] == data[..p] + data[p..];
    assert data[..p] + data[p..] == data;
  }

  /** The rows after `handleChangeCell(key, columnKey, value)` with no validator: only that cell changes. */
  function CellChanged(data: seq<Rec>, key: Value, columnKey: string, value: Value): (r: seq<Rec>)
    ensures |r| == |data|
    ensures FindIndex(data, key) == -1 ==> r == data
    ensures FindIndex(data, key) >= 0 ==>
      var i := FindIndex(data, key);
      r[i].Keys == data[i].Keys + {columnKey} && r[i][columnKey] == value &&
      (forall c :: c in data[i] && c != columnKey ==> r[i][c] == data[i][c]) &&
      forall j :: 0 <= j < |data| && j != i ==> r[j] == data[j]
  {
    var i := FindIndex(data, key);
    if i == -1 then data else data[i := data[i][columnKey := value]]
  }

  /** The rows after `handleChangeRow(key, value)` with no validator: the matching row is replaced. */
  function RowChanged(data: seq<Rec>, key: Value, value: Rec): (r: seq<Rec>)
    ensures |r| == |data|
    ensures FindIndex(data, key) == -1 ==> r == data
    ensures FindIndex(data, key) >= 0 ==>
      r[FindIndex(data, key)] == value && forall j :: 0 <= j < |data| && j != FindIndex(data, key) ==> r[j] == data[j]
  {
    var i := FindIndex(data, key);
    if i == -1 then data else data[i := value]
  }

  /** Prepending a row is inserting it "after" index -1. */
  lemma PrependIsInsertAtStart(data: seq<Rec>, row: Rec)
    ensures [row] + data == Inserted(data, -1, row)
  {
    assert data[..0] == [] && data[0..] == data;
  }

  /** The shared rows of the content table and the handlers that edit them. */
  class ContentTableState {
    var data: seq<Rec>

    constructor (initial: seq<Rec>)
      ensures data == initial
    {
      data := initial;
    }

    /** `handleChangeCell` without a validator; `changed` says whether `setData` is called. */
    method HandleChangeCell(key: Value, columnKey: string, value: Value) returns (changed: bool)
      modifies this
      ensures changed <==> exists j :: 0 <= j < |old(data)| && Get(old(data)[j], "key") == key
      ensures data == CellChanged(old(data), key, columnKey, value)
    {
      var rowIdx := FindIndex(data, key);
      changed := rowIdx != -1;
      if changed {
        data := data[rowIdx := data[rowIdx][columnKey := value]];
      }
    }

    /** `handleChangeRow` without a validator; `changed` says whether `setData` is called. */
    method HandleChangeRow(key: Value, value: Rec) returns (changed: bool)
      modifies this
      ensures changed <==> exists j :: 0 <= j < |old(data)| && Get(old(data)[j], "key") == key
      ensures data == RowChanged(old(data), key, value)
    {
      var rowIdx := FindIndex(data, key);
      changed := rowIdx != -1;
      if changed {
        data := data[rowIdx := value];
      }
    }

    /** `handleAddRow`: `data.unshift(new ClassContent())`, the new row given as `blank`. */
    method HandleAddRow(blank: Rec)
      modifies this
      ensures data == [blank] + old(data)
    {
      data := [blank] + data;
    }

    /** `handleAddRowWithData`: the given row, or a new one, pushed at the end. */
    method HandleAddRowWithData(newData: Option<Rec>, blank: Rec)
      modifies this
      ensures data == old(data) + [if newData.Some? then newData.value else blank]
    {
      if newData.Some? {
        data := data + [newData.value];
      } else {
        data := data + [blank];
      }
    }

    /** `handleInsertRow(index, row)`: `data.splice(index + 1, 0, row)`. */
    method HandleInsertRow(index: int, row: Rec)
      modifies this
      ensures data == Inserted(old(data), index, row)
    {
      var p := SpliceStart(|data|, index + 1);
      data := data[..p] + [row] + data[p..];
    }

    /** `handleDeleteRow(key)`; `called` says whether `setData` is called (only for non-empty data). */
    method HandleDeleteRow(key: Value) returns (called: bool)
      modifies this
      ensures called <==> |old(data)| > 0
      ensures data == Deleted(old(data), key)
    {
      called := |data| > 0;
      if called {
        var rowIdx := FindIndex(data, key);
        var p := SpliceStart(|data|, rowIdx);
        data := data[..p] + data[p + 1..];
      }
    }
  }
}
