# A verified model of the admin front-end's service layer

This project models the `core/services` layer of a React admin front-end in Dafny. That layer holds the rules the pages share:

- **Local list engine**:
  - the list reducer and the choice of load filter;
  - manual row selection;
  - the client-side filter of flat lists, with its Id / Number / String / Date operator families;
  - the rule that puts unsaved rows in front;
  - the filter of tree-shaped lists.
- **Mapping picker of a detail page**: its reducer over parallel checked keys and checked records, and its open / cancel / save / reset transitions.
- **Model reducer and general reducer**: including how server validation errors are written into content rows.
- **Tree and value utilities**:
  - building a tree from `parentId` links, disabling subtrees, searching by key;
  - menu visibility;
  - de-duplication, emptiness, word limiting;
  - the errors-before-warnings lookups;
  - the path writer.
- **Table helpers**:
  - sort-order conversion;
  - the sort and pagination filters;
  - the in-place row edits of content tables;
  - column selection.
- **Route builders and tab repository** of master pages.
- **Shared service types**.
- **Export file name**: read from a `Content-Disposition` header, which is a loose reading of the `filename` parameter of section 4.1 of RFC 6266.

## How the model is written

**JavaScript values.** They are the `JsValues.Value` datatype:
- `undefined`, `null`, booleans, integer numbers, strings;
- moments, written as their timestamp;
- arrays and plain objects;
- instances of the filter classes, each with its operator entries in order.

**Objects.**
- Records whose key order never matters are maps.
- Filter objects are `JsObjects.JsObject`: a sequence of entries with distinct keys. A filter's key order is observable, because `Object.entries` walks it and the tree filter's result depends on the order of the entries.
- `===` on objects is structural equality.

**Code that changes state in place** becomes classes:
- `ListLoader`, `Selection`, `LocalListState`, `MappingPicker`, `GeneralState`, `ContentTableState`;
- their methods are proved against a specification function of the old state.

**Loops become methods with invariants**: `filterList`, `conditionCheckNode`, `treeFilterList`, `searchTreeNode`, `searchTree`, `mapTreeMenu`, `countValuedField`, and the key loops of `generalReducer`.

**Thrown errors.** Where a thrown `TypeError` is the observable outcome, it is `Wrappers.Result.TypeError`. This covers the file-name chain and the validation-row writes.

**Recursion that may not end.** The recursion of `buildTree` can run away, so it carries a fuel bound.

## Model

| member | source | states |
|---|---|---|
| ServiceTypes.NewTreeNode | src/core/services/service-types.ts:89-103 | With a model, the node takes its `id` as key, its `name` as title, its `disabled` flag and the record itself, and has no children. Without one, it is the root parent: key `null`, title `""`, item `{}`, not disabled. |
| ListLoading.ListReducer | src/core/services/page-services/list-service.ts:37-44 | A SET action replaces list and count by the payload; any other action type leaves the state unchanged. |
| ListLoading.ListReducerIdempotent | src/core/services/page-services/list-service.ts:37-44 | Dispatching the same action twice leaves the state that one dispatch leaves. |
| ListLoading.LoadFilter | src/core/services/page-services/list-service.ts:79-88 | With the override flag, the load uses exactly the parameter (absent included). Otherwise the parameter's fields overlay the current filter key by key: every key of either object is present, the parameter wins. The current filter's keys keep their positions. With no parameter, the current filter is used as it is. |
| ListLoading.ListLoader.constructor | src/core/services/page-services/list-service.ts:70-74 | The hook starts from the given data, or from an empty list with count 0, and is not loading. |
| ListLoading.ListLoader.HandleLoadList | src/core/services/page-services/list-service.ts:78-92 | Starting a load turns the spinner on and sends the filter `LoadFilter` chooses. List and count stay as they were until the outcome arrives. |
| ListLoading.ListLoader.LoadSucceeded | src/core/services/page-services/list-service.ts:94-101 | When both requests succeed, the list and the count become the two results and the spinner stops. |
| ListLoading.ListLoader.LoadFailed | src/core/services/page-services/list-service.ts:102-110 | A failed request empties the list, sets the count to `null` and stops the spinner. |
| ListLoading.ListLoader.HandleResetList | src/core/services/page-services/list-service.ts:117-130 | The filter is reset to a copy of the base filter (`{}` when there is none), and a load is started that overrides the filter with that same copy. |
| RowSelection.Without | src/core/services/page-services/list-service.ts:197 | Unchecking removes the key entirely, and every other key keeps its number of occurrences. |
| RowSelection.WithoutAll | src/core/services/page-services/list-service.ts:211-213 | Unchecking a page keeps exactly the selected keys that are not among the page's keys. |
| RowSelection.SelectThenDeselect | src/core/services/page-services/list-service.ts:191-200 | Checking a row whose key was not selected, then unchecking it, restores the selection. |
| RowSelection.SelectAllThenDeselectAll | src/core/services/page-services/list-service.ts:201-216 | Checking a page none of whose keys was selected, then unchecking it, restores the selection. |
| RowSelection.DeselectKeepsOrder | src/core/services/page-services/list-service.ts:191-216 | Unchecking one row or one page keeps the remaining keys in their order. |
| RowSelection.Selection.constructor | src/core/services/page-services/list-service.ts:169-171 | The selection starts from the initial keys, or from none. |
| RowSelection.Selection.OnChange | src/core/services/page-services/list-service.ts:186-189 | In automatic mode the table's reported keys become the selection. |
| RowSelection.Selection.OnSelect | src/core/services/page-services/list-service.ts:191-200 | Checking appends the row's key even if it is already there, after which a bulk action is available (`canBulkAction`, 173-176). Unchecking removes every occurrence of the key and keeps the rest in order. |
| RowSelection.Selection.OnSelectAll | src/core/services/page-services/list-service.ts:201-216 | Checking a page appends every changed row's key; unchecking it removes exactly those keys. |
| ListFilter.FilterList | src/core/services/page-services/list-service.ts:403-726 | The list after the nested loops is exactly the input rows that pass every operator entry of every filter instance, in input order. |
| ListFilter.Holds | src/core/services/page-services/list-service.ts:407-721 | The test one applying operator entry puts to a row's field. The field must have the family's type: a number for Id and Number, a string for String, a moment for Date. An Id `equal` / `notEqual` also needs a number operand and `in` / `notIn` an array operand. String entries compare, search (`indexOf`) and match prefixes and suffixes. Number and Date entries compare in the named order. |
| ListFilter.NarrowByCriterion | src/core/services/page-services/list-service.ts:405-722 | The loop over one filter instance's entries narrows the list by each entry in turn. This equals narrowing once by all the entries seen so far. |
| ListFilter.SelectedIsSubsequence | src/core/services/page-services/list-service.ts:403-726 | The filter returns an order-preserving subsequence of its input. Every row returned passes every test, and every row that passes every test is returned. |
| ListFilter.EntryStepInSteps | src/core/services/page-services/list-service.ts:403-726 | Every operator entry of every filter instance in the filter is one of the tests the filter applies. |
| ListFilter.IdWrongOperandDropsAll | src/core/services/page-services/list-service.ts:407-456 | An Id filter whose `equal` / `notEqual` operand is not a number, or whose `in` / `notIn` operand is not an array, drops every row. |
| ListFilter.WrongTypeOperandSkipped | src/core/services/page-services/list-service.ts:459-721 | A Number, String or Date entry whose operand lacks the family's type (number, string, moment) removes nothing. |
| ListFilter.NoCriteriaKeepsAll | src/core/services/page-services/list-service.ts:403-726 | A filter with no filter instances among its fields, only paging and ordering, keeps the whole list. |
| ListFilter.NumberGreaterExample | src/core/services/page-services/list-service.ts:459-522 | Of the ages 20, "30" and 40, `greater 25` keeps only 40: a string field fails a Number test. |
| LocalList.SortList | src/core/services/page-services/list-service.ts:381-401 | The lodash ordering and paging results are never assigned, so the list comes back exactly as it went in. |
| LocalList.HandleFilter | src/core/services/page-services/list-service.ts:284-320 | The method computes `Handled`. A null or undefined filter returns the list unchanged. |
| LocalList.PrependOnlyWhenShrunk | src/core/services/page-services/list-service.ts:284-320 | The rows without an `id` are put in front of the filter's result exactly when the result is shorter than the input; otherwise the result is returned alone. |
| LocalList.UnsavedAlwaysShown | src/core/services/page-services/list-service.ts:284-320 | On a flat list, every row without an `id` is shown whether or not it passes the filter. |
| LocalList.ShownRows | src/core/services/page-services/list-service.ts:303-318 | On a flat list outside combined search, every row shown is a row of the list, and every row passing the filter is shown. |
| LocalList.UnsavedShownTwiceExample | src/core/services/page-services/list-service.ts:290-318 | An unsaved row that passes the filter is shown twice once another row is dropped. |
| LocalList.AssignKeys | src/core/services/page-services/list-service.ts:254-266 | Every record ends up with a key. A record that had one is kept as it is; a record without one gets the next fresh key and is otherwise unchanged. |
| LocalList.LocalListState.constructor | src/core/services/page-services/list-service.ts:254-275 | The keyed records are shown unfiltered until the first effect, with their number as count and no pending request. |
| LocalList.LocalListState.HandleInvokeChange | src/core/services/page-services/list-service.ts:280-282 | A recomputation is requested, and nothing else changes. |
| LocalList.LocalListState.Effect | src/core/services/page-services/list-service.ts:332-357 | In automatic mode, or in manual mode with a pending request (which it clears), the list becomes the handled content and the count its length. Otherwise nothing changes. |
| TreeFilter.ConditionCheckNode | src/core/services/page-services/list-service.ts:765-910 | The accumulated flag is the node condition. It is always true in combined-search mode; otherwise it is the fold over all operator entries in filter order, starting from true. |
| TreeFilter.Test | src/core/services/page-services/list-service.ts:779-905 | The test a non-resetting operator entry conjoins to the flag. Id `equal` / `notEqual` use `===` / `!==` with no type guard, and `in` / `notIn` use `Includes`. Number entries with a number operand compare loosely, through `ToNumber`. String entries with a string operand compare and search with `indexOf`. Date entries with a moment operand compare timestamps. |
| TreeFilter.UpdateByCriterion | src/core/services/page-services/list-service.ts:779-905 | The loop over one filter instance's entries extends the fold by exactly those entries. |
| TreeFilter.FoldWithoutReset | src/core/services/page-services/list-service.ts:779-905 | With no resetting entry, the flag is the conjunction of every entry's test. |
| TreeFilter.FoldAfterLastReset | src/core/services/page-services/list-service.ts:779-905 | After the last resetting entry (a `default` branch of the Id, Number or Date family), only the tests that follow it decide the flag. |
| TreeFilter.ResetOrderMatters | src/core/services/page-services/list-service.ts:780-800 | The node condition depends on entry order: `{equal, <unknown>}` passes a node that `equal` rejects, while `{<unknown>, equal}` drops it. |
| TreeFilter.LooseNumberExample | src/core/services/page-services/list-service.ts:803-831 | The tree filter compares Number order operators loosely and keeps the string "30" for `greater 25`, where the list filter drops it. |
| TreeFilter.StringInOperand | src/core/services/page-services/list-service.ts:789-796 | With a string operand, Id `in` passes a node exactly when the text of its scalar field occurs in the operand, and `notIn` exactly when it does not. The list filter drops every row for that same filter. |
| TreeFilter.TreeFilterList | src/core/services/page-services/list-service.ts:912-935 | The reducer pushing into its accumulator computes `Forest`: each top-level row's contribution, in order. |
| TreeFilter.GetNodes | src/core/services/page-services/list-service.ts:914-931 | One node appends its contribution to the accumulator and leaves what is already there. |
| TreeFilter.EmitShape | src/core/services/page-services/list-service.ts:914-931 | A passing node is kept as it is. A failing node is emitted exactly when some descendant survives, as a copy whose `nodes` are its surviving children; otherwise nothing is emitted. |
| TreeFilter.ForestShape | src/core/services/page-services/list-service.ts:912-935 | At most one row comes back per input row, and some row comes back exactly when some input row survives. |
| TreeFilter.SearchModeKeepsAll | src/core/services/page-services/list-service.ts:768-777 | In combined-search mode every node passes, so the tree filter returns its input. |
| TreeFilter.ForestAppend | src/core/services/page-services/list-service.ts:932 | Filtering a concatenated forest concatenates the filtered parts. |
| TreeFilter.ForestKeepsOrder | src/core/services/page-services/list-service.ts:912-935 | The rows returned are input rows, possibly with `nodes` added, in input order. |
| Mapping.MappingReducer | src/core/services/page-services/detail-service.ts:51-124 | Only UPDATE_LIST changes list and count, and only UPDATE_CONTENTS changes the contents. The list and unknown actions leave the checked records. The list and unknown actions also leave the checked keys. |
| Mapping.CheckedAppends | src/core/services/page-services/detail-service.ts:75-83 | CHECKED appends the payload keys and records after the old ones, without removing duplicates. |
| Mapping.UncheckedRemoves | src/core/services/page-services/detail-service.ts:84-93 | UNCHECKED removes every occurrence of the payload key and every record with the payload record's id. Both sides keep the others in order. |
| Mapping.UncheckedEmptyPayload | src/core/services/page-services/detail-service.ts:84-93 | UNCHECKED with an empty payload compares against `undefined`: it drops the undefined keys and the records without an id. |
| Mapping.CheckThenUncheckRestores | src/core/services/page-services/detail-service.ts:75-93 | Checking a record whose key and id are not yet checked, then unchecking it, restores both keys and records. |
| Mapping.CheckedAllMerges | src/core/services/page-services/detail-service.ts:94-104 | CHECKED_ALL leaves no duplicate key and exactly the old and new keys. With duplicate-free old keys, the result is the old keys followed by the new keys not already there. The records keep one per id, the first, in order, and every id is represented. |
| Mapping.UncheckedAllRemoves | src/core/services/page-services/detail-service.ts:105-114 | UNCHECKED_ALL removes exactly the payload keys and the records whose id some payload record has, keeping the rest in order. |
| Mapping.CheckAllThenUncheckAllRestores | src/core/services/page-services/detail-service.ts:94-114 | Checking a page none of whose keys is checked, then unchecking it, restores the checked keys. |
| Mapping.ReplaceActions | src/core/services/page-services/detail-service.ts:56-74 | UPDATE_CONTENTS checks exactly the content ids. UPDATE_CHECKED and UNDO_CHECKED (115-120) replace both sides. UPDATE_LIST changes list and count only. |
| Mapping.ResetKeepsSidesParallel | src/core/services/page-services/detail-service.ts:724-740 | After a reset from the contents, the checked keys and checked records are both as long as the contents, and the list is untouched. |
| Mapping.SelectionStaysParallel | src/core/services/page-services/detail-service.ts:56-120 | When the checked keys are the ids of the checked records position by position, they stay so under CHECKED, UNCHECKED, CHECKED_ALL, UNCHECKED_ALL, UPDATE_CHECKED and UNDO_CHECKED with a payload of that form, and under the other actions. UPDATE_CONTENTS sets only the keys; it keeps the sides parallel exactly when the content ids are the ids of the checked records. |
| Mapping.MappingPicker.constructor | src/core/services/page-services/detail-service.ts:705-717 | The picker starts closed and idle, with nothing loaded or checked and both first-run guards set. |
| Mapping.MappingPicker.ResetSelection | src/core/services/page-services/detail-service.ts:725-739 | The reset action carries the contents projected through the two mapping fields, position by position. |
| Mapping.MappingPicker.HandleSaveMapping | src/core/services/page-services/detail-service.ts:718-722 | Saving closes the picker, returns the checked records and changes nothing else. |
| Mapping.MappingPicker.HandleResetMapping | src/core/services/page-services/detail-service.ts:724-740 | The checked keys and records become the projections of the contents through the two mapping fields. |
| Mapping.MappingPicker.HandleCancelMapping | src/core/services/page-services/detail-service.ts:742-747 | Cancelling always closes. Only single mapping restores the selection from the contents. |
| Mapping.MappingPicker.HandleChangeItem | src/core/services/page-services/detail-service.ts:749-771 | The table's selection replaces both sides, except that clearing all keeps the current selection. |
| Mapping.MappingPicker.HandleCheck | src/core/services/page-services/detail-service.ts:773-792 | Checking or unchecking one row dispatches CHECKED or UNCHECKED with its id and record. |
| Mapping.MappingPicker.HandleCheckAll | src/core/services/page-services/detail-service.ts:794-816 | Checking or unchecking a page dispatches CHECKED_ALL or UNCHECKED_ALL with the changed rows' ids and records. |
| Mapping.MappingPicker.HandleGetListMapping | src/core/services/page-services/detail-service.ts:818-823 | A load turns the spinner on and sends a copy of the filter, or a fresh filter at the first page of ten. |
| Mapping.MappingPicker.LoadSucceeded | src/core/services/page-services/detail-service.ts:826-841 | A finished load stores list and count through UPDATE_LIST and stops the spinner. |
| Mapping.MappingPicker.LoadFailed | src/core/services/page-services/detail-service.ts:824-829 | A failed load only stops the spinner. |
| Mapping.MappingPicker.HandleOpenMapping | src/core/services/page-services/detail-service.ts:848-862 | Opening shows the picker and loads the first page exactly when nothing is loaded yet. In multiple mapping it clears the selection. |
| Mapping.MappingPicker.HandleCloseMapping | src/core/services/page-services/detail-service.ts:864-866 | Closing changes only the open flag. |
| Mapping.MappingPicker.ContentsChanged | src/core/services/page-services/detail-service.ts:868-876 | After the first render, new contents reset the selection in single mapping; the first run only clears the guard. |
| Mapping.MappingPicker.ModelFilterChanged | src/core/services/page-services/detail-service.ts:878-886 | After the first run, a given filter starts a load with it; the first run only clears the guard. |
| ModelReducer.ModelReducer | src/core/services/page-services/detail-service.ts:126-178 | Only SET_ERRORS can throw, and an unknown action returns the state. |
| ModelReducer.SetReplaces | src/core/services/page-services/detail-service.ts:128-129 | SET makes the model a copy of the payload: the old fields are gone. |
| ModelReducer.UpdateOverlays | src/core/services/page-services/detail-service.ts:130-131 | UPDATE overlays the payload's fields onto the state and keeps every other field. |
| ModelReducer.SetErrorsStoresMessages | src/core/services/page-services/detail-service.ts:132-166 | SET_ERRORS stores exactly the truthy string entries as `errors`, or `{}` for an empty payload. It changes no other field except the content arrays named by the other entries. |
| ModelReducer.UpdateErrorsMerges | src/core/services/page-services/detail-service.ts:167-174 | UPDATE_ERRORS with an empty payload changes nothing. Otherwise it overlays the payload onto the old `errors`, and no other field changes. |
| ValidationErrors.MessageErrors | src/core/services/common-services/reducer-service.ts:30-36 | The `errors` side holds exactly the entries whose value is a truthy string, with their values. |
| ValidationErrors.RowErrorEntries | src/core/services/common-services/reducer-service.ts:30-36 | The row-error side holds exactly the other entries, with their values. |
| ValidationErrors.StoredErrors | src/core/services/common-services/reducer-service.ts:25-55 | The stored `errors` are the message entries, or `{}` for an empty payload. |
| ValidationErrors.WithRowErrors | src/core/services/common-services/reducer-service.ts:37-52 | The row pass throws exactly when some key's error value throws, that is when `Object.keys` gets `null` or `undefined` or a row write hits a primitive. |
| ValidationErrors.RowsWrittenOnArray | src/core/services/common-services/reducer-service.ts:42-50 | On a content array whose rows are objects or falsy, each row error lands in the row of the same index, and missing rows are created with `undefined` padding. Every other row is left as it was. |
| ValidationErrors.RowsWrittenStaysNone | src/core/services/common-services/reducer-service.ts:42-50 | Once a row write throws, no later entry is reached. |
| ValidationErrors.WriteRowOnArray | src/core/services/common-services/reducer-service.ts:44-49 | One write replaces the row's `errors`, creating `{}` for a falsy row, or appends the row after `undefined` padding. |
| ValidationErrors.FalsyContentsUnchanged | src/core/services/common-services/reducer-service.ts:39 | A falsy state value stays as it is: its rows go into a fresh array that is never attached. |
| ValidationErrors.NullRowErrorsThrow | src/core/services/common-services/reducer-service.ts:38-42 | A `null` error value next to a truthy one makes the row pass throw. |
| GeneralReducer.Cleared | src/core/services/common-services/reducer-service.ts:17-19 | Every existing key of the state is kept and reads `undefined`. |
| GeneralReducer.GeneralReduced | src/core/services/common-services/reducer-service.ts:11-68 | Only SET_ERRORS can throw. |
| GeneralReducer.SetClearsOldKeys | src/core/services/common-services/reducer-service.ts:16-21 | SET keeps the old keys but sets them to `undefined` unless the payload has them. Every field then reads as the payload's, and so as the model reducer's SET reads. |
| GeneralReducer.AgreesWithModelReducer | src/core/services/common-services/reducer-service.ts:22-66 | On every action but SET, the general reducer leaves what the model reducer returns, with the errors read from `errors` instead of `payload`. An unknown action therefore leaves the state as it is. |
| GeneralReducer.GeneralState.Reduce | src/core/services/common-services/reducer-service.ts:11-68 | The reducer succeeds exactly when `GeneralReduced` does, and then stores what it computes. |
| GeneralReducer.GeneralState.SetFields | src/core/services/common-services/reducer-service.ts:16-21 | After the clearing loop and the assignment, the state is the cleared old state overlaid with the payload. |
| GeneralReducer.GeneralState.SetErrors | src/core/services/common-services/reducer-service.ts:25-56 | SET_ERRORS succeeds exactly when the model reducer's SET_ERRORS does, and leaves the same state. |
| GeneralReducer.GeneralState.WriteAllRows | src/core/services/common-services/reducer-service.ts:37-52 | The key loop succeeds exactly when the row pass does, and leaves its result. |
| GeneralReducer.SplitErrors | src/core/services/common-services/reducer-service.ts:30-36 | The split loop puts each entry on exactly one side: message or row error. |
| GeneralReducer.ContentsOf | src/core/services/common-services/reducer-service.ts:39-50 | The index loop over one key's error entries leaves the key's rows as `ContentsAfter` describes. |
| UtilValues.IsEmptyVersusLodash | src/core/services/common-services/util-service.ts:144-152 | `isEmpty` looks for an own key holding a truthy value. So an object of falsy fields and every number are empty, and whatever lodash calls empty is empty here. Strings agree with lodash. |
| UtilValues.LimitWord | src/core/services/common-services/util-service.ts:154-161 | A string no longer than `max` is returned as it is. A longer one is cut by `slice(0, max)` and gets `"..."`; for a non-negative `max`, the result is the first `max` characters and is `max + 3` long. |
| UtilValues.LimitWordIdempotent | src/core/services/common-services/util-service.ts:154-161 | With a non-negative bound, limiting an already limited word changes nothing. |
| UtilValues.UniqueArray | src/core/services/common-services/util-service.ts:163-174 | The de-duplicated array is no longer than its input. |
| UtilValues.UniqueArrayDistinct | src/core/services/common-services/util-service.ts:163-174 | No two results share a field value, and every field value of the input is represented. |
| UtilValues.UniqueArrayKeepsFirst | src/core/services/common-services/util-service.ts:163-174 | The result keeps input order, and each element kept is the first of the input with its field value. |
| UtilValues.GetValidateStatus | src/core/services/common-services/util-service.ts:176-198 | A non-empty error string gives `error`. Failing that, a non-empty warning string gives `warning`; with neither, the result is `null`, in each case exactly. |
| UtilValues.GetValidateMessage | src/core/services/common-services/util-service.ts:200-222 | The message follows the same precedence: the error message if there is one, else the warning, else `null`. |
| UtilValues.GetValidateObj | src/core/services/common-services/util-service.ts:224-255 | A returned object always carries a non-empty message. |
| UtilValues.ValidateLookupsAgree | src/core/services/common-services/util-service.ts:176-255 | The three lookups agree: the object is present exactly when the status and the message are, and it pairs them. |
| UtilValues.CountValuedField | src/core/services/common-services/util-service.ts:329-342 | The counter loop counts exactly the keys whose name has no `Value`, whose value is not empty and which are not excepted. A non-object counts 0. |
| UtilValues.BracketsToDots | src/core/services/common-services/util-service.ts:300 | A path without `[` is left as it is. |
| UtilValues.BracketsOf | src/core/services/common-services/util-service.ts:300 | A bracketed word becomes a dotted segment: `a[w]b` reads `a.wb`, so `items[0].name` is `items.0.name`. |
| UtilValues.DottedPathSegments | src/core/services/common-services/util-service.ts:301 | A path `a.b` without brackets has the segments `a` and `b`. |
| UtilValues.SetPathThenGet | src/core/services/common-services/util-service.ts:303-311 | On plain objects the reduce succeeds, creating missing levels as `{}`, and the value reads back at the path. |
| UtilValues.ConvertPathStringReadsBack | src/core/services/common-services/util-service.ts:295-313 | On an object whose values along the path are plain objects or missing, or on the default `{}`, `convertPathString` succeeds and the value reads back at the path. |
| UtilMenu.CheckVisibleMenu | src/core/services/common-services/util-service.ts:257-270 | The menu shows exactly when some link is an own key of the granted map. |
| UtilMenu.ReplaceParam | src/core/services/common-services/util-service.ts:276-277 | The first `:` followed by word characters, together with its whole run of word characters, becomes `*`. A link without such a match is kept. |
| UtilMenu.ReplaceParamExample | src/core/services/common-services/util-service.ts:276-277 | `/u/:id/e` becomes `/u/*/e`. |
| UtilMenu.MapTreeMenu | src/core/services/common-services/util-service.ts:272-293 | The loop sets every entry's `show` as `Shown` does. The result says whether some entry of the level shows, and is `undefined` for an empty level. |
| UtilMenu.ShownIffGrantedLeaf | src/core/services/common-services/util-service.ts:272-293 | An entry shows exactly when one of the leaves below it has its link, with the first parameter replaced by `*`, among the granted keys. Links and shape are kept. |
| UtilMenu.LeafAndParentRule | src/core/services/common-services/util-service.ts:278-289 | A leaf shows exactly when its link is granted; a parent shows exactly when some child shows. |
| UtilTree.BuildTreeCorrect | src/core/services/common-services/util-service.ts:47-75 | The roots are the nodes of the records whose `parentId` is `null`, in order. Each node's children are the nodes of exactly its child records, in list order. With no `null` id, `keyNodes` lists exactly the keys of the nodes that received children, in pre-order. |
| UtilTree.BuildTreeExample | src/core/services/common-services/util-service.ts:47-75 | Record 2 under record 1 gives one root with one child, and records key 1. |
| UtilTree.NullIdRootDiverges | src/core/services/common-services/util-service.ts:56-71 | A root whose id is `null` is its own child, so the recursion never finishes. |
| UtilTree.DisableSubtreeShape | src/core/services/common-services/util-service.ts:81-88 | Disabling changes only flags. When sibling keys are distinct, every node of the subtree ends up disabled. |
| UtilTree.DisableSubtreeIdempotent | src/core/services/common-services/util-service.ts:84-88 | Disabling a subtree twice is disabling it once. |
| UtilTree.SetDisabledNodeCorrect | src/core/services/common-services/util-service.ts:77-96 | Only flags change. A key found on a level disables that node's subtree (sibling keys distinct) and leaves the level's other nodes. A key found nowhere changes nothing. |
| UtilTree.SetDisabledNodeIsDisableKey | src/core/services/common-services/util-service.ts:77-96 | On a forest whose keys are unique, the result is `DisableKey`: the node with the key, at whatever depth, ends up disabled with all its descendants, and every other node is unchanged. |
| UtilTree.SetOnlySelectLeafCorrect | src/core/services/common-services/util-service.ts:98-109 | Only flags change, and each node's flag is its record's `hasChildren`. Where `hasChildren` is accurate, exactly the leaves stay selectable. |
| UtilTree.SearchTreeNode | src/core/services/common-services/util-service.ts:111-123 | The index loop stops at the first child subtree with a hit, and returns what `Search` returns. |
| UtilTree.SearchIsFirstInPreorder | src/core/services/common-services/util-service.ts:111-123 | The search finds the first node with the key in pre-order, depth first, and `null` when there is none. |
| UtilTree.SearchTree | src/core/services/common-services/util-service.ts:125-138 | The two loops collect, tree by tree and key by key, every node found. |
| UtilTree.HitsCarryKeys | src/core/services/common-services/util-service.ts:125-138 | Every node returned carries one of the keys. There is at most one per tree and key. |
| TableService.GetOrderType | src/core/services/page-services/table-service.ts:318-329 | `ascend` converts to `ASC`, `descend` to `DESC`, and anything else to `undefined`, in each case exactly. |
| TableService.GetAntOrderType | src/core/services/page-services/table-service.ts:299-316 | Unless the filter sorts by the column, the result is `undefined`. Otherwise it is `ascend`, `descend` or `undefined`. |
| TableService.OrderTypeRoundTrip | src/core/services/page-services/table-service.ts:299-329 | A filter sorting in a known direction reads back its own `orderType`. |
| TableService.AntOrderRoundTrip | src/core/services/page-services/table-service.ts:299-329 | The widget's order survives the trip through a filter that sorts by the column in that order. |
| TableService.SortedFilter | src/core/services/page-services/table-service.ts:48-61 | An unchanged sorter leaves the filter. A changed one sets `orderType` to the converted order and `orderBy` to the field, or to `undefined` when the order converts to nothing. Every other key is kept and the key order is kept. |
| TableService.SortedFilterIdempotent | src/core/services/page-services/table-service.ts:48-61 | Repeating a sort change leaves the filter as the first change left it. |
| TableService.HandleTableChange | src/core/services/page-services/table-service.ts:39-68 | The dispatched filter is the sorted filter, and the reload, when there is one, receives the same filter. |
| TableService.TablePagination | src/core/services/page-services/table-service.ts:70-78 | Only `skip` and `take` change; every other key keeps its value and its place. |
| TableService.ContentTablePagination | src/core/services/page-services/table-service.ts:122-134 | A fresh filter with the new `skip` and `take` is dispatched only when there is a dispatcher. |
| TableService.PaginationsDiffer | src/core/services/page-services/table-service.ts:70-134 | The table's pagination keeps the current criteria; the content table's resets them to a fresh filter's. |
| TableService.ResetTable | src/core/services/page-services/table-service.ts:114-120 | A fresh filter is dispatched exactly when there is a dispatcher. |
| TableService.DynamicColumns | src/core/services/page-services/table-service.ts:283-290 | The result is exactly the columns whose key is among the selected columns' keys, in column order; no columns give `[]`. |
| TableService.DynamicColumnsExtremes | src/core/services/page-services/table-service.ts:279-290 | Selecting every column shows them all; selecting none shows none. |
| ContentTable.FindIndex | src/core/services/page-services/table-service.ts:143 | The index is that of the first row with the key, or -1 exactly when no row has it. |
| ContentTable.SpliceStart | src/core/services/page-services/table-service.ts:219-239 | `splice` starts at the clamped index; a negative index counts from the end. |
| ContentTable.Inserted | src/core/services/page-services/table-service.ts:230-239 | The row is inserted after `index` (at the clamped position), and every other row keeps its order. |
| ContentTable.DeletedCorrect | src/core/services/page-services/table-service.ts:219-228 | Deleting removes the first row with the key. An unknown key removes the LAST row; empty data is left alone. |
| ContentTable.InsertThenDeleteRestores | src/core/services/page-services/table-service.ts:219-239 | A row with a new key, inserted and then deleted by that key, leaves the rows as they were. |
| ContentTable.CellChanged | src/core/services/page-services/table-service.ts:136-174 | Without a validator, only the matching row's cell changes; an unknown key changes nothing. |
| ContentTable.RowChanged | src/core/services/page-services/table-service.ts:176-209 | Without a validator, only the matching row is replaced; an unknown key changes nothing. |
| ContentTable.PrependIsInsertAtStart | src/core/services/page-services/table-service.ts:211-239 | Prepending a row is inserting it after index -1. |
| ContentTable.ContentTableState.HandleChangeCell | src/core/services/page-services/table-service.ts:136-174 | The rows become `CellChanged`, and `setData` is called exactly when some row has the key. |
| ContentTable.ContentTableState.HandleChangeRow | src/core/services/page-services/table-service.ts:176-209 | The rows become `RowChanged`, and `setData` is called exactly when some row has the key. |
| ContentTable.ContentTableState.HandleAddRow | src/core/services/page-services/table-service.ts:211-217 | A new row goes in front. |
| ContentTable.ContentTableState.HandleAddRowWithData | src/core/services/page-services/table-service.ts:241-254 | The given row, or a new one, goes at the end. |
| ContentTable.ContentTableState.HandleInsertRow | src/core/services/page-services/table-service.ts:230-239 | The row is inserted after the given index. |
| ContentTable.ContentTableState.HandleDeleteRow | src/core/services/page-services/table-service.ts:219-228 | The rows become `Deleted`, and `setData` is called exactly when there were rows. |
| Routes.BaseRoute | src/core/services/page-services/master-service.ts:46-50 | The base route is `/` followed by a segment without `/`. |
| Routes.BaseRouteIsLastSegment | src/core/services/page-services/master-service.ts:46-50 | That segment is the route's last `/`-separated segment: a suffix that is the whole route or is preceded by a `/`. |
| Routes.BaseRouteExample | src/core/services/page-services/master-service.ts:46-50 | The route `/<a>/<b>` has base route `/<b>`. |
| Routes.RouteExample | src/core/services/page-services/master-service.ts:52-74 | The page `/<a>/<b>` creates at `/<a>/<b>/<b>-detail` and lists at `/<a>/<b>/<b>-master`. |
| Routes.DetailRoute | src/core/services/page-services/master-service.ts:56-63 | The detail route is the create route followed by `?id=` and the id. |
| Routes.ElseWhereRoute | src/core/services/page-services/master-service.ts:65-70 | The route is kept as a prefix, followed by `?`, the key, `=` and the value. |
| Routes.ElseWhereToDetail | src/core/services/page-services/master-service.ts:52-70 | Going elsewhere to the create route with key `id` is going to the detail route. |
| Routes.RoutesShareThePrefix | src/core/services/page-services/master-service.ts:52-92 | Every route of a page starts with its `routeView` and base route. |
| Routes.DetailGoMasterRoute | src/core/services/page-services/detail-service.ts:260-275 | The detail page goes back to the master route followed by its query parameters, if any. |
| Routes.RepositoryReducer | src/core/services/page-services/master-service.ts:24-31 | UPDATE takes the action's repository; anything else keeps the state. |
| Routes.FirstTab | src/core/services/page-services/master-service.ts:137-139 | The result is the first tab with the key, or `undefined` exactly when no tab has it. |
| Routes.InitRepo | src/core/services/page-services/master-service.ts:119-129 | With a truthy `tabKey` query parameter, the result is the first tab of that key (`undefined` when none has it). Otherwise it is the first tab. |
| Routes.TabFilter | src/core/services/page-services/master-service.ts:146-156 | The new filter has the tab's key, `skip` 0 and `take` 10. |
| Routes.TabFilterKeepsOthers | src/core/services/page-services/master-service.ts:146-156 | Every other key is the fresh filter's. |
| Routes.HandleChangeTab | src/core/services/page-services/master-service.ts:135-161 | An unknown key dispatches nothing. A known key dispatches its tab, and, exactly when there is a filter dispatcher, the tab's first-page filter. |
| Routes.ChangeTabAgreesWithInit | src/core/services/page-services/master-service.ts:119-161 | Opening with `?tabKey=k` selects the same repository as changing to tab `k`. |
| Routes.ChangeTabToCurrentKeepsRepo | src/core/services/page-services/master-service.ts:135-161 | With distinct tab keys, changing to the tab already shown keeps the repository. |
| ExportFileName.FirstContaining | src/core/services/page-services/import-export-service.ts:119 | `find` returns the first segment containing the text, or nothing exactly when none does. |
| ExportFileName.FileName | src/core/services/page-services/import-export-service.ts:117-122 | A name comes out exactly when there is a header with a segment containing `filename=`. It is that segment with its first `filename=` removed, every `"` removed, then trimmed. |
| ExportFileName.FileNameIsClean | src/core/services/page-services/import-export-service.ts:121-122 | An extracted name has no `"` and no white space at either end. |
| ExportFileName.NoFileNameThrows | src/core/services/page-services/import-export-service.ts:117-120 | A missing header, or one without `filename=` (such as `inline`), makes the chain throw. |
| ExportFileName.FileNameRoundTrip | src/core/services/page-services/import-export-service.ts:117-122 | `<type>; filename="<name>"` gives back the name. This holds for a disposition type without `;` or `=` and a name without `"` or `;` and without white space at its ends. |
| ExportFileName.OnlyFirstParamRemoved | src/core/services/page-services/import-export-service.ts:120 | Only the first `filename=` is removed: `filename=<rest>` gives `<rest>`, even when `<rest>` contains `filename=`. |

## Left out

**Framework and I/O**
- React and rxjs plumbing: hooks, memoisation, subscriptions, `forkJoin` and `finalize`.
  - A load is split into its start (`HandleLoadList`, `HandleGetListMapping`) and its outcome (`LoadSucceeded`, `LoadFailed`).
  - Overlapping loads are not guarded in the code, and no request token is invented here.
- The network and the repositories that the list, count, export and import calls reach. The UI and DOM code: `useClickOutside`, `downloadURI`, `cacheImages`. The Blob / `saveAs` handling around the file-name parse. `getGeneralError`, `isStringNumber`, `toMomentDate`. These are I/O or foreign code.
- Navigation: each route builder returns the string it would push or replace; the history object itself is not modelled.
- `combineReducers` and `useReducerWithMiddleware`: they are built on immer and the React dispatcher.
- uuid generation is non-deterministic. Fresh keys are a parameter (`AssignKeys`, `LocalListState.constructor`), and `combineFilterList`'s row keys are not needed because its outcome is known.
- The fields of a fresh `ModelFilter` come from a library this model does not see. In `DefaultMappingFilter` it is just `skip` and `take`; in `TabFilter`, `ContentTablePagination` and `ResetTable` it is a `blank` parameter.

**Values**
- Numbers are unbounded integers: there is no floating point, no `NaN` from arithmetic and no overflow.
  - Moments are their timestamps; time zones and parsing are left out.
  - `ToNumber` reads digit strings (the empty string as 0), and arrays of at most one element through their text. It does not read signs, decimals or surrounding white space.
- `===` on objects is structural equality, not reference identity.
- In-place mutation and aliasing become value updates:
  - UNCHECKED / UNCHECKED_ALL also write the old reducer state;
  - `current.key` is assigned on the caller's records;
  - `buildTree`, `setDisabledNode`, `setOnlySelectLeaf` and `mapTreeMenu` set fields of shared nodes;
  - the content-table handlers mutate the caller's array;
  - SET_ERRORS writes rows shared with the old model.

  The model returns the new values. It does not capture that other holders of the same objects see the change.

**Operations modelled by one outcome**
- `combineFilterList` is modelled by its only non-throwing outcome, an empty result. It tests `.length` on a record, so it never pushes. The `TypeError` that `item[field]["contain"]` throws on a record without such a field is not modelled.
- TreeFilter.Test: the String `startWith` / `notStartWith` / `endWith` / `notEndWith` branches call methods that do not exist on strings. They are modelled as leaving the flag unchanged rather than throwing.
- TreeFilter.Test: `indexOf` on a field that is neither a string nor an array is modelled as failing the test, and combined search reads `currentNode[field]["contain"]`. Both throw in the code.
- TreeFilter.Test: an Id `in` / `notIn` operand that is neither an array nor a string has no `includes`, and the code throws (when the flag is still true). The model fails the test instead. With a string operand, a field value that is an array, object or moment has no text in the model, and the test fails.
- TreeFilter.Test and ListFilter.Holds: a Date operand that is an object but not a moment is skipped, where the code's `toDate()` call would throw. A non-moment field reads as `undefined`.
- Reading a property of `undefined` or `null` reads `undefined`, except where the throw is the outcome: the file-name chain, the row-error pass and the path writer.

**Weaker contracts**
- UtilTree.BuildTreeCorrect: the recursion carries a fuel bound. Its contract holds for runs that finish within the fuel; a run that does not finish (`NullIdRootDiverges`) stands for the unbounded recursion of the code.
- UtilTree.BuildTreeCorrect: the contents of `keyNodes` are characterised only when no record has a `null` id; otherwise only the tree is.
- UtilTree.SetDisabledNodeCorrect: when keys repeat, the contract states only that flags change, and which nodes end up disabled is stated only for a key on the level passed in with distinct sibling keys. On a forest with unique keys, UtilTree.SetDisabledNodeIsDisableKey covers every depth.
- UtilValues.CountValuedField: a truthy array or string counts 0, where the code would count its index keys.
- ValidationErrors.WithRowErrors: only array error values are walked. An object-keyed error value contributes no row writes.
- UtilValues.ConvertPathStringReadsBack: stated for plain objects along the path. Writes into arrays are modelled by index; writes on moments and filter instances leave them as they are.
- UtilValues.UniqueArray: the code appends `current` again when the element it found is falsy (`if (!x)`), so `[0, 0]` stays `[0, 0]`; the model treats every found element as a hit. An item that is `null` or `undefined` makes `item[field]` throw; the model reads its field as `undefined`.
- UtilValues.HasProp: `s in o` in the path writer also sees inherited properties such as `toString`; the model looks only at own keys, array indices and `length`.
- ListLoading.LoadFilter and ListLoading.ListLoader.HandleResetList: `getCurrentFilter` and `dispatchFilter` are optional parameters, and calling one that is absent throws. The model takes them as given.
- UtilValues.LimitWord: the input is a string; the `undefined` input that `input?.length` tolerates is not modelled.
- Validation libraries (yup and i18n): the validator branches of `handleChangeCell` and `handleChangeRow` are foreign code. Only the paths without a validator are modelled.
- lodash `orderBy` / `drop` / `take` inside `sortList`: their results are discarded by the code, so they are not modelled.
