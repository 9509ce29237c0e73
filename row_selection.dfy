/**
 * The row-selection state of a list table: the selected keys, replaced wholesale in
 * the automatic mode, and checked / unchecked one row or one page at a time in the
 * manual mode. A row is represented by its `id`.
 */
module RowSelection {
  import opened Wrappers
  import opened ServiceTypes
  import opened Sequences

  /** `keys.filter(item => item !== k)`. */
  function Without(keys: seq<KeyType>, k: KeyType): (r: seq<KeyType>)
    ensures k !in r
    ensures forall x :: x != k ==> multiset(r)[x] == multiset(keys)[x]
  {
    WithoutCounts(keys, k);
    FilterMembers(keys, x => x != k);
    Filter(keys, x => x != k)
  }

  lemma {:induction false} WithoutCounts(keys: seq<KeyType>, k: KeyType)
    ensures forall x :: x != k ==> multiset(Filter(keys, y => y != k))[x] == multiset(keys)[x]
    decreases |keys|
  {
    if |keys| > 0 {
      WithoutCounts(keys[1..], k);
      assert keys == [keys[0]] + keys[1..];
    }
  }

  /** `keys.filter(item => !ks.includes(item))`. */
  function WithoutAll(keys: seq<KeyType>, ks: seq<KeyType>): (r: seq<KeyType>)
    ensures forall i :: 0 <= i < |r| ==> r[i] in keys && r[i] !in ks
    ensures forall i :: 0 <= i < |keys| && keys[i] !in ks ==> keys[i] in r
  {
    FilterMembers(keys, x => x !in ks);
    Filter(keys, x => x !in ks)
  }

  /** Checking a row that was not selected and unchecking it again restores the selection. */
  lemma SelectThenDeselect(keys: seq<KeyType>, k: KeyType)
    requires k !in keys
    ensures Without(keys + [k], k) == keys
  {
    FilterAppend(keys, [k], x => x != k);
    FilterKeepsAll(keys, x => x != k);
  }

  /** The same for a whole page of rows none of which was selected. */
  lemma SelectAllThenDeselectAll(keys: seq<KeyType>, ks: seq<KeyType>)
    requires forall i :: 0 <= i < |ks| ==> ks[i] !in keys
    ensures WithoutAll(keys + ks, ks) == keys
  {
    FilterAppend(keys, ks, x => x !in ks);
    FilterKeepsAll(keys, x => x !in ks);
    FilterKeepsNone(ks, x => x !in ks);
  }

  /** Unchecking keeps the remaining keys in their order. */
  lemma DeselectKeepsOrder(keys: seq<KeyType>, k: KeyType, ks: seq<KeyType>)
    ensures IsSubsequence(Without(keys, k), keys)
    ensures IsSubsequence(WithoutAll(keys, ks), keys)
  {
    FilterIsSubsequence(keys, x => x != k);
    FilterIsSubsequence(keys, x => x !in ks);
  }

  class Selection {
    var selectedRowKeys: seq<KeyType>

    /** The initial keys, or none. */
    constructor (initialRowKeys: Option<seq<KeyType>>)
      ensures selectedRowKeys == initialRowKeys.GetOr([])
    {
      selectedRowKeys := initialRowKeys.GetOr([]);
    }

    /** A bulk action is offered exactly when some row is selected. */
    predicate CanBulkAction()
      reads this
    {
      |selectedRowKeys| > 0
    }

    /** Automatic mode: the table reports the whole selection. */
    method OnChange(keys: seq<KeyType>)
      modifies this
      ensures selectedRowKeys == keys
    {
      selectedRowKeys := keys;
    }

    /** Manual mode, one row: checking appends its key (even if already present), unchecking removes every occurrence. */
    method OnSelect(rowKey: KeyType, selected: bool)
      modifies this
      ensures selected ==> selectedRowKeys == old(selectedRowKeys) + [rowKey] && CanBulkAction()
      ensures !selected ==> selectedRowKeys == Without(old(selectedRowKeys), rowKey)
    {
      var selectedValues := selectedRowKeys;
      if selected {
        selectedValues := selectedValues + [rowKey];
      } else {
        selectedValues := Without(selectedValues, rowKey);
      }
      selectedRowKeys := selectedValues;
    }

    /** Manual mode, a page: checking appends every changed row's key, unchecking removes exactly those keys. */
    method OnSelectAll(selected: bool, changeRowKeys: seq<KeyType>)
      modifies this
      ensures selected ==> selectedRowKeys == old(selectedRowKeys) + changeRowKeys
      ensures !selected ==> selectedRowKeys == WithoutAll(old(selectedRowKeys), changeRowKeys)
    {
      var selectedValues := selectedRowKeys;
      if selected {
        selectedValues := selectedValues + changeRowKeys;
      } else {
        selectedValues := WithoutAll(selectedValues, changeRowKeys);
      }
      selectedRowKeys := selectedValues;
    }
  }
}
