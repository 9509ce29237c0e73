/**
 * The general reducer of the shared stores: unlike the model reducer it changes the
 * state object itself and hands the same object back.
 */
module GeneralReducer {
  import opened Wrappers
  import opened JsValues
  import opened ServiceTypes
  import opened UtilValues
  import opened ValidationErrors
  import ModelReducer

  /** Every key of the state set to `undefined`. */
  function Cleared(state: Rec): (r: Rec)
    ensures r.Keys == state.Keys && forall k :: k in r ==> r[k] == Undefined
  {
    map k | k in state :: Undefined
  }

  /** What `generalReducer` leaves in the state; `TypeError` where SET_ERRORS throws. */
  function GeneralReduced(state: Rec, action: GeneralAction): (r: Result<Rec>)
    ensures r.TypeError? ==> action.kind == "SET_ERRORS"
  {
    if action.kind == "SET" then Ok(Cleared(state) + SpreadFields(action.payload))
    else if action.kind == "UPDATE" then Ok(state + SpreadFields(action.payload))
    else if action.kind == "SET_ERRORS" then ModelReducer.ErrorsSet(state, action.errors)
    else if action.kind == "UPDATE_ERRORS" then Ok(ModelReducer.ErrorsUpdated(state, action.errors))
    else Ok(state)
  }

  /**
   * SET keeps the old keys, now `undefined` unless the payload has them: every field
   * then reads as the payload's. So the model reducer's SET, which drops the old keys,
   * reads the same field by field.
   */
  lemma SetClearsOldKeys(state: Rec, payload: Rec, errors: Value)
    ensures var r := GeneralReduced(state, GeneralAction("SET", Obj(payload), errors)).value;
      r.Keys == state.Keys + payload.Keys &&
      (forall k :: k in state && k !in payload ==> r[k] == Undefined) &&
      (forall k :: Get(r, k) == Get(payload, k)) &&
      forall k :: Get(r, k) == Get(ModelReducer.ModelReducer(state, GeneralAction("SET", Obj(payload), errors)).value, k)
  {
  }

  /**
   * On the other actions the general reducer computes what the model reducer does, with
   * the errors read from `errors` rather than `payload`.
   */
  lemma AgreesWithModelReducer(state: Rec, kind: string, payload: Value, errors: Value)
    requires kind != "SET"
    ensures kind in {"SET_ERRORS", "UPDATE_ERRORS"} ==>
      GeneralReduced(state, GeneralAction(kind, payload, errors)) ==
      ModelReducer.ModelReducer(state, GeneralAction(kind, errors, payload))
    ensures kind !in {"SET_ERRORS", "UPDATE_ERRORS"} ==>
      GeneralReduced(state, GeneralAction(kind, payload, errors)) ==
      ModelReducer.ModelReducer(state, GeneralAction(kind, payload, errors))
  {
  }

  /** The state with the keys of `seen` set to `undefined` and the others as they were. */
  ghost function ClearedOn(state: Rec, seen: set<string>): Rec {
    map k | k in state :: if k in seen then Undefined else state[k]
  }

  /** Clearing one more key of the state. */
  lemma ClearedOnOneMore(state: Rec, seen: set<string>, k: string)
    requires k in state
    ensures ClearedOn(state, seen)[k := Undefined] == ClearedOn(state, seen + {k})
  {
  }

  /** Clearing every key is `Cleared`. */
  lemma ClearedOnAll(state: Rec)
    ensures ClearedOn(state, state.Keys) == Cleared(state)
  {
  }

  /** The entries of `seen` that hold a message (`messages` true) or a row error value (`messages` false). */
  ghost function SplitSoFar(payload: Rec, seen: set<string>, messages: bool): Rec {
    map k | k in payload && k in seen && IsMessage(payload[k]) == messages :: payload[k]
  }

  /** Splitting one more entry adds it to its own side only. */
  lemma SplitOneMore(payload: Rec, seen: set<string>, k: string)
    requires k in payload
    ensures SplitSoFar(payload, seen + {k}, IsMessage(payload[k])) ==
      SplitSoFar(payload, seen, IsMessage(payload[k]))[k := payload[k]]
    ensures SplitSoFar(payload, seen + {k}, !IsMessage(payload[k])) == SplitSoFar(payload, seen, !IsMessage(payload[k]))
  {
  }

  /** The state once the keys of `seen`, none of which throws, have received their rows. */
  ghost function WrittenOn(state: Rec, rowErrors: Rec, seen: set<string>): Rec {
    map k | k in state ::
      if k in seen && k in rowErrors && Truthy(state[k]) && ContentsAfter(state[k], rowErrors[k]).Some?
      then ContentsAfter(state[k], rowErrors[k]).value else state[k]
  }

  /** Writing the rows of one more key that does not throw. */
  lemma WrittenOneMore(state: Rec, rowErrors: Rec, seen: set<string>, k: string)
    requires k in rowErrors && k !in seen && !Throws(state, rowErrors, k)
    ensures k in state && Truthy(state[k]) ==>
      WrittenOn(state, rowErrors, seen)[k := ContentsAfter(state[k], rowErrors[k]).value] == WrittenOn(state, rowErrors, seen + {k})
    ensures !(k in state && Truthy(state[k])) ==> WrittenOn(state, rowErrors, seen) == WrittenOn(state, rowErrors, seen + {k})
  {
  }

  /** With every key written and none throwing, the state is the row pass's result. */
  lemma WrittenOnAll(state: Rec, rowErrors: Rec)
    requires forall k :: k in rowErrors ==> !Throws(state, rowErrors, k)
    ensures WithRowErrors(state, rowErrors) == Ok(WrittenOn(state, rowErrors, rowErrors.Keys))
  {
    assert !exists k :: k in rowErrors && Throws(state, rowErrors, k);
    var w := WrittenOn(state, rowErrors, rowErrors.Keys);
    forall k | k in state && k in rowErrors && Truthy(state[k])
      ensures ContentsAfter(state[k], rowErrors[k]).Some?
    {
      assert Get(state, k) == state[k];
    }
    assert WithRowErrors(state, rowErrors).value == w;
  }

  /** The store's state object. */
  class GeneralState {
    var fields: Rec

    constructor (initial: Rec)
      ensures fields == initial
    {
      fields := initial;
    }

    /** `generalReducer(state, action)`: `ok` is false where the source throws, leaving the rows written so far. */
    method Reduce(action: GeneralAction) returns (ok: bool)
      modifies this
      ensures ok <==> GeneralReduced(old(fields), action).Ok?
      ensures ok ==> fields == GeneralReduced(old(fields), action).value
    {
      ok := true;
      if action.kind == "SET" {
        SetFields(action.payload);
      } else if action.kind == "UPDATE" {
        fields := fields + SpreadFields(action.payload);
      } else if action.kind == "SET_ERRORS" {
        ok := SetErrors(action.errors);
      } else if action.kind == "UPDATE_ERRORS" {
        if Truthy(action.errors) && !IsEmpty(action.errors) {
          fields := fields["errors" := Obj(SpreadFields(Get(fields, "errors")) + SpreadFields(action.errors))];
        }
      }
    }

    /** SET: every key of the state becomes `undefined`, then the payload is assigned. */
    method SetFields(payload: Value)
      modifies this
      ensures fields == Cleared(old(fields)) + SpreadFields(payload)
    {
      ghost var f0 := fields;
      var keys := fields.Keys;
      ghost var seen: set<string> := {};
      while keys != {}
        invariant keys + seen == f0.Keys && keys !! seen
        invariant fields == ClearedOn(f0, seen)
        decreases keys
      {
        var k :| k in keys;
        ClearedOnOneMore(f0, seen, k);
        fields := fields[k := Undefined];
        keys := keys - {k};
        seen := seen + {k};
      }
      ClearedOnAll(f0);
      fields := fields + SpreadFields(payload);
    }

    /**
     * SET_ERRORS: split the payload into messages and row errors, write the row errors
     * into the content arrays, then store the messages as `errors`.
     */
    method SetErrors(errors: Value) returns (ok: bool)
      modifies this
      ensures ok <==> ModelReducer.ErrorsSet(old(fields), errors).Ok?
      ensures ok ==> fields == ModelReducer.ErrorsSet(old(fields), errors).value
    {
      var messages: Rec := map[];
      var rowErrors: Rec := map[];
      if errors.Obj? && !IsEmpty(errors) {
        messages, rowErrors := SplitErrors(errors.fields);
        if !IsEmpty(Obj(rowErrors)) {
          ok := WriteAllRows(rowErrors);
          if !ok {
            return;
          }
        }
      }
      ok := true;
      fields := fields["errors" := Obj(messages)];
    }

    /** The key loop over the row errors: each content array kept by the state receives its rows. */
    method WriteAllRows(rowErrors: Rec) returns (ok: bool)
      modifies this
      ensures ok <==> WithRowErrors(old(fields), rowErrors).Ok?
      ensures ok ==> fields == WithRowErrors(old(fields), rowErrors).value
    {
      ghost var f0 := fields;
      var keys := rowErrors.Keys;
      ghost var seen: set<string> := {};
      while keys != {}
        invariant keys + seen == rowErrors.Keys && keys !! seen
        invariant forall k :: k in seen ==> !Throws(f0, rowErrors, k)
        invariant fields == WrittenOn(f0, rowErrors, seen)
        decreases keys
      {
        var k :| k in keys;
        var current := Get(fields, k);
        assert current == Get(f0, k);
        var contents := ContentsOf(current, rowErrors[k]);
        if contents.None? {
          assert Throws(f0, rowErrors, k);
          return false;
        }
        WrittenOneMore(f0, rowErrors, seen, k);
        if Truthy(current) {
          fields := fields[k := contents.value];
        }
        keys := keys - {k};
        seen := seen + {k};
      }
      WrittenOnAll(f0, rowErrors);
      ok := true;
    }
  }

  /** The split loop: each entry goes to the messages or to the row errors. */
  method SplitErrors(payload: Rec) returns (messages: Rec, rowErrors: Rec)
    ensures messages == MessageErrors(payload) && rowErrors == RowErrorEntries(payload)
  {
    messages, rowErrors := map[], map[];
    var keys := payload.Keys;
    ghost var seen: set<string> := {};
    while keys != {}
      invariant keys + seen == payload.Keys && keys !! seen
      invariant messages == SplitSoFar(payload, seen, true)
      invariant rowErrors == SplitSoFar(payload, seen, false)
      decreases keys
    {
      var k :| k in keys;
      SplitOneMore(payload, seen, k);
      if IsMessage(payload[k]) {
        messages := messages[k := payload[k]];
      } else {
        rowErrors := rowErrors[k := payload[k]];
      }
      keys := keys - {k};
      seen := seen + {k};
    }
    assert messages == MessageErrors(payload) && rowErrors == RowErrorEntries(payload);
  }

  /** The rows of one key: `state[key] || []`, then the index loop over the error value's entries. */
  method ContentsOf(current: Value, errorValue: Value) returns (contents: Option<Value>)
    ensures contents == ContentsAfter(current, errorValue)
  {
    var c := if Truthy(current) then current else Arr([]);
    match errorValue {
      case Undefined => return None;
      case Null => return None;
      case Arr(_) =>
      case _ => return Some(c);
    }
    var entries := errorValue.elems;
    var rows := c;
    var i := 0;
    while i < |entries|
      invariant 0 <= i <= |entries|
      invariant RowsWritten(c, entries, i) == Some(rows)
      decreases |entries| - i
    {
      var next := WriteRow(rows, i, entries[i]);
      assert RowsWritten(c, entries, i + 1) == next;
      if next.None? {
        RowsWrittenStaysNone(c, entries, i + 1, |entries|);
        return None;
      }
      rows := next.value;
      i := i + 1;
    }
    assert entries == errorValue.elems && i == |entries|;
    return Some(rows);
  }
}
