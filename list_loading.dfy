/**
 * Loading a page of records from the server: the list reducer, the choice of the filter
 * a load uses, and the loading / success / failure transitions of the list hook. The
 * two requests themselves (list and count) are not modelled: a load returns the filter
 * it would send, and the outcome arrives through `LoadSucceeded` or `LoadFailed`.
 */
module ListLoading {
  import opened Wrappers
  import opened JsValues
  import opened JsObjects
  import opened ServiceTypes

  /** An action of the list reducer: its type string and the state it carries. */
  datatype ListAction<T> = ListAction(actionType: string, payload: ListState<T>)

  /** The list reducer: a SET action replaces the state by its payload, anything else keeps it. */
  function ListReducer<T>(state: ListState<T>, action: ListAction<T>): (r: ListState<T>)
    ensures action.actionType == ListActionSet ==> r == action.payload
    ensures action.actionType != ListActionSet ==> r == state
  {
    if action.actionType == ListActionSet then action.payload else state
  }

  /** Dispatching the same action twice has the effect of dispatching it once. */
  lemma ListReducerIdempotent<T>(state: ListState<T>, action: ListAction<T>)
    ensures ListReducer(ListReducer(state, action), action) == ListReducer(state, action)
  {
  }

  /**
   * The filter a load sends: the parameter itself when it overrides, otherwise the
   * parameter's fields laid over the current filter, or the current filter alone.
   * `None` stands for an `undefined` filter.
   */
  function LoadFilter(current: JsObject, param: Option<JsObject>, isOverride: bool): (r: Option<JsObject>)
    ensures isOverride ==> r == param
    ensures !isOverride && param.None? ==> r == Some(current)
    ensures !isOverride && param.Some? ==> (
      r.Some? &&
      (forall k :: Has(r.value, k) <==> Has(current, k) || Has(param.value, k)) &&
      (forall k :: Lookup(r.value, k) ==
         if Has(param.value, k) then Lookup(param.value, k) else Lookup(current, k)))
    ensures !isOverride && param.Some? ==> (
      |r.value| >= |current| && forall i :: 0 <= i < |current| ==> r.value[i].0 == current[i].0)
  {
    if isOverride then param
    else if param.Some? then
      var merged := Spread(current, param.value);
      assert forall k :: (
        (Has(merged, k) <==> Has(current, k) || Has(param.value, k)) &&
        Lookup(merged, k) == (if Has(param.value, k) then Lookup(param.value, k) else Lookup(current, k))) by {
        forall k
          ensures (Has(merged, k) <==> Has(current, k) || Has(param.value, k)) &&
            Lookup(merged, k) == (if Has(param.value, k) then Lookup(param.value, k) else Lookup(current, k))
        {
          SpreadLookup(current, param.value, k);
        }
      }
      SpreadKeepsPrefix(current, param.value);
      Some(merged)
    else Some(current)
  }

  /** The list / count / loading state of the list hook. */
  class ListLoader {
    var list: seq<Rec>
    var count: Option<int>
    var loading: bool

    /** The hook's initial state: the given data, or an empty list with count 0. */
    constructor (initData: Option<ListState<Rec>>)
      ensures initData.Some? ==> list == initData.value.list && count == initData.value.count
      ensures initData.None? ==> list == [] && count == Some(0)
      ensures !loading
    {
      if initData.Some? {
        list := initData.value.list;
        count := initData.value.count;
      } else {
        list := [];
        count := Some(0);
      }
      loading := false;
    }

    /** Starting a load: the spinner turns on and the filter of `LoadFilter` is sent. */
    method HandleLoadList(current: JsObject, param: Option<JsObject>, isOverride: bool) returns (sent: Option<JsObject>)
      modifies this
      ensures sent == LoadFilter(current, param, isOverride)
      ensures loading && list == old(list) && count == old(count)
    {
      sent := LoadFilter(current, param, isOverride);
      loading := true;
    }

    /** Both requests succeeded: the list and the count are the two results. */
    method LoadSucceeded(results: seq<Rec>, total: int)
      modifies this
      ensures list == results && count == Some(total) && !loading
    {
      var state := ListReducer(ListState(list, count), ListAction(ListActionSet, ListState(results, Some(total))));
      list, count := state.list, state.count;
      loading := false;
    }

    /** A request failed: the list is emptied and the count becomes `null`. */
    method LoadFailed()
      modifies this
      ensures list == [] && count == None && !loading
    {
      var state := ListReducer(ListState(list, count), ListAction(ListActionSet, ListState([], None)));
      list, count := state.list, state.count;
      loading := false;
    }

    /**
     * Resetting the list: the filter is set to a copy of the base filter (`{}` when there
     * is none) and a load is started that overrides the filter with that same copy.
     */
    method HandleResetList(current: JsObject, baseFilter: Option<JsObject>) returns (newFilter: JsObject, sent: Option<JsObject>)
      modifies this
      ensures newFilter == baseFilter.GetOr([])
      ensures sent == Some(newFilter)
      ensures loading && list == old(list) && count == old(count)
    {
      newFilter := baseFilter.GetOr([]);
      sent := HandleLoadList(current, Some(newFilter), true);
    }
  }
}
