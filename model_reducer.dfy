/**
 * The reducer of a detail page's model: every action returns a new model object (the
 * content arrays inside it are shared with the old one and written in place).
 */
module ModelReducer {
  import opened Wrappers
  import opened JsValues
  import opened ServiceTypes
  import opened UtilValues
  import opened ValidationErrors

  /** The state after UPDATE_ERRORS: the old errors overlaid with the payload, when the payload is not empty. */
  function ErrorsUpdated(state: Rec, payload: Value): Rec {
    if Truthy(payload) && !IsEmpty(payload) then
      state["errors" := Obj(SpreadFields(Get(state, "errors")) + SpreadFields(payload))]
    else state
  }

  /** The state after SET_ERRORS: the row pass, then `errors` replaced by the message entries. */
  function ErrorsSet(state: Rec, payload: Value): Result<Rec> {
    match AfterRowPass(state, payload)
    case TypeError => TypeError
    case Ok(s) => Ok(s["errors" := Obj(StoredErrors(payload))])
  }

  /** `modelReducer(state, action)`; `TypeError` where the row pass throws. */
  function ModelReducer(state: Rec, action: GeneralAction): (r: Result<Rec>)
    ensures r.TypeError? ==> action.kind == GeneralActionEnum.SetErrors.Text()
    ensures action.kind !in {"SET", "UPDATE", "SET_ERRORS", "UPDATE_ERRORS"} ==> r == Ok(state)
  {
    if action.kind == GeneralActionEnum.SetAction.Text() then Ok(SpreadFields(action.payload))
    else if action.kind == GeneralActionEnum.UpdateAction.Text() then Ok(state + SpreadFields(action.payload))
    else if action.kind == GeneralActionEnum.SetErrors.Text() then ErrorsSet(state, action.payload)
    else if action.kind == GeneralActionEnum.UpdateErrors.Text() then Ok(ErrorsUpdated(state, action.payload))
    else Ok(state)
  }

  /** SET makes the model a copy of the payload: the old fields are gone. */
  lemma SetReplaces(state: Rec, payload: Rec, errors: Value)
    ensures ModelReducer(state, GeneralAction("SET", Obj(payload), errors)) == Ok(payload)
  {
  }

  /** UPDATE overlays the payload's fields and keeps every other field. */
  lemma UpdateOverlays(state: Rec, payload: Rec, errors: Value)
    ensures var r := ModelReducer(state, GeneralAction("UPDATE", Obj(payload), errors)).value;
      r.Keys == state.Keys + payload.Keys &&
      forall k :: k in r ==> r[k] == if k in payload then payload[k] else state[k]
  {
  }

  /**
   * SET_ERRORS keeps exactly the message entries as `errors` (none for an empty
   * payload), and changes no field other than `errors` and the content arrays named by
   * the other entries.
   */
  lemma SetErrorsStoresMessages(state: Rec, payload: Rec, other: Value)
    requires ModelReducer(state, GeneralAction("SET_ERRORS", Obj(payload), other)).Ok?
    ensures var r := ModelReducer(state, GeneralAction("SET_ERRORS", Obj(payload), other)).value;
      r["errors"] == Obj(if IsEmpty(Obj(payload)) then map[] else MessageErrors(payload)) &&
      r.Keys == state.Keys + {"errors"} &&
      forall k :: k in state && k != "errors" && (k !in payload || IsMessage(payload[k])) ==> r[k] == state[k]
  {
  }

  /** UPDATE_ERRORS with an empty payload leaves the model as it is; otherwise it merges into `errors`. */
  lemma UpdateErrorsMerges(state: Rec, payload: Value, other: Value)
    ensures var r := ModelReducer(state, GeneralAction("UPDATE_ERRORS", payload, other)).value;
      (IsEmpty(payload) ==> r == state) &&
      (!IsEmpty(payload) ==>
        r.Keys == state.Keys + {"errors"} && r["errors"].Obj? &&
        (forall k :: k in SpreadFields(payload) ==> r["errors"].fields[k] == SpreadFields(payload)[k]) &&
        (forall k :: k in SpreadFields(Get(state, "errors")) && k !in SpreadFields(payload) ==>
          r["errors"].fields[k] == SpreadFields(Get(state, "errors"))[k]) &&
        forall k :: k in state && k != "errors" ==> r[k] == state[k])
  {
  }
}
