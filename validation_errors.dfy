/**
 * How the model and general reducers store server validation errors: entries holding a
 * non-empty message become the model's own `errors`; any other entry is a list of
 * per-row errors for the model's content array of the same name, written into each
 * row's `errors`.
 */
module ValidationErrors {
  import opened Wrappers
  import opened JsValues
  import Strings
  import opened UtilValues

  /** A truthy string: what `payload[key] && typeof payload[key] === "string"` accepts. */
  predicate IsMessage(v: Value) {
    v.Str? && |v.s| > 0
  }

  /** The entries holding a message: the new `errors` of the model. */
  function MessageErrors(payload: Rec): (r: Rec)
    ensures forall k :: k in r <==> k in payload && IsMessage(payload[k])
    ensures forall k :: k in r ==> r[k] == payload[k]
  {
    map k | k in payload && IsMessage(payload[k]) :: payload[k]
  }

  /** The other entries: `errorArrays`. */
  function RowErrorEntries(payload: Rec): (r: Rec)
    ensures forall k :: k in r <==> k in payload && !IsMessage(payload[k])
    ensures forall k :: k in r ==> r[k] == payload[k]
  {
    map k | k in payload && !IsMessage(payload[k]) :: payload[k]
  }

  /**
   * `contents[i]["errors"] = { ...entry }`, creating `contents[i] = {}` first when the
   * row is falsy; `None` where strict mode throws (a property written on a primitive).
   */
  function WriteRow(contents: Value, i: nat, entry: Value): Option<Value> {
    var key := Strings.NatToString(i);
    var errs := Obj(SpreadFields(entry));
    var cur := ReadProp(contents, key);
    if Truthy(cur) then
      match WriteProp(cur, "errors", errs)
      case None => None
      case Some(row) => WriteProp(contents, key, row)
    else WriteProp(contents, key, Obj(map["errors" := errs]))
  }

  /** The row writes for the first `n` entries of `entries`, in index order. */
  function RowsWritten(contents: Value, entries: seq<Value>, n: nat): Option<Value>
    requires n <= |entries|
  {
    if n == 0 then Some(contents)
    else
      match RowsWritten(contents, entries, n - 1)
      case None => None
      case Some(c) => WriteRow(c, n - 1, entries[n - 1])
  }

  /** Once a row write throws, the later entries are never reached. */
  lemma {:induction false} RowsWrittenStaysNone(contents: Value, entries: seq<Value>, i: nat, n: nat)
    requires i <= n <= |entries|
    requires RowsWritten(contents, entries, i).None?
    ensures RowsWritten(contents, entries, n).None?
    decreases n
  {
    if n > i {
      RowsWrittenStaysNone(contents, entries, i, n - 1);
    }
  }

  /**
   * The content array of one key after its row errors: `state[key] || []` receives a
   * write per entry of the error value; `Object.keys` on `null` or `undefined` throws,
   * other non-array error values have no entries here.
   */
  function ContentsAfter(current: Value, errorValue: Value): Option<Value> {
    var contents := if Truthy(current) then current else Arr([]);
    match errorValue
    case Undefined => None
    case Null => None
    case Arr(entries) => RowsWritten(contents, entries, |entries|)
    case _ => Some(contents)
  }

  /** The key's error value leads to a throw. */
  predicate Throws(state: Rec, rowErrors: Rec, k: string)
    requires k in rowErrors
  {
    ContentsAfter(Get(state, k), rowErrors[k]).None?
  }

  /**
   * The state after the row errors of every key; only a key whose state value is truthy
   * is changed, since the fresh array for a falsy one is never attached to the state.
   * `TypeError` when some key throws.
   */
  function WithRowErrors(state: Rec, rowErrors: Rec): (r: Result<Rec>)
    ensures r.TypeError? <==> exists k :: k in rowErrors && Throws(state, rowErrors, k)
  {
    if exists k :: k in rowErrors && Throws(state, rowErrors, k) then TypeError
    else
      Ok(map k | k in state ::
        if k in rowErrors && Truthy(state[k]) then ContentsAfter(state[k], rowErrors[k]).value else state[k])
  }

  /** The state after SET_ERRORS's row pass: rows are written only when some other entry is truthy. */
  function AfterRowPass(state: Rec, payload: Value): Result<Rec> {
    if !payload.Obj? || IsEmpty(payload) then Ok(state)
    else
      var rowErrors := RowErrorEntries(payload.fields);
      if IsEmpty(Obj(rowErrors)) then Ok(state) else WithRowErrors(state, rowErrors)
  }

  /** The `errors` SET_ERRORS stores: the message entries, or `{}` for an empty payload. */
  function StoredErrors(payload: Value): (r: Rec)
    ensures IsEmpty(payload) || !payload.Obj? ==> r == map[]
    ensures payload.Obj? && !IsEmpty(payload) ==> r == MessageErrors(payload.fields)
  {
    if !payload.Obj? || IsEmpty(payload) then map[] else MessageErrors(payload.fields)
  }

  /** A row that is an object or falsy. */
  predicate Writable(v: Value) {
    v.Obj? || !Truthy(v)
  }

  /** The row at `i`, `undefined` past the end. */
  function RowAt(rows: seq<Value>, i: nat): Value {
    if i < |rows| then rows[i] else Undefined
  }

  /** The row after its errors are written: its own fields (none for a falsy row), with `errors` replaced. */
  function RowWithErrors(row: Value, entry: Value): Value {
    Obj((if row.Obj? then row.fields else map[])["errors" := Obj(SpreadFields(entry))])
  }

  /**
   * On a content array whose first rows are objects or falsy, the row errors land on
   * the rows of the same index, create the missing rows (padding with `undefined`), and
   * leave every other row as it was.
   */
  lemma {:induction false} RowsWrittenOnArray(rows: seq<Value>, entries: seq<Value>, n: nat)
    requires n <= |entries|
    requires forall i :: 0 <= i < n ==> Writable(RowAt(rows, i))
    ensures RowsWritten(Arr(rows), entries, n).Some?
    ensures RowsWritten(Arr(rows), entries, n).value.Arr?
    ensures RowsOfEntries(rows, entries, n, RowsWritten(Arr(rows), entries, n).value.elems)
    decreases n
  {
    if n > 0 {
      RowsWrittenOnArray(rows, entries, n - 1);
      var c := RowsWritten(Arr(rows), entries, n - 1).value.elems;
      var i := n - 1;
      var w := RowWithErrors(RowAt(rows, i), entries[i]);
      var r := if i < |c| then c[i := w] else c + [w];
      assert RowsWritten(Arr(rows), entries, n) == WriteRow(Arr(c), i, entries[i]);
      assert WriteRow(Arr(c), i, entries[i]) == Some(Arr(r)) by {
        assert RowAt(c, i) == RowAt(rows, i);
        WriteRowOnArray(c, i, entries[i]);
        if i >= |c| {
          assert c + seq(i - |c|, _ => Undefined) == c;
        }
      }
      RowsOfEntriesStep(rows, entries, n, c);
    }
  }

  /** The rows after the first `n` entries are written: each written row, then the untouched rows, as long as both. */
  predicate RowsOfEntries(rows: seq<Value>, entries: seq<Value>, n: nat, r: seq<Value>)
    requires n <= |entries|
  {
    |r| == (if |rows| < n then n else |rows|) &&
    (forall i :: 0 <= i < n ==> r[i] == RowWithErrors(RowAt(rows, i), entries[i])) &&
    (forall i :: n <= i < |r| ==> r[i] == RowAt(rows, i))
  }

  /** Writing entry `n - 1` into the rows of the first `n - 1` entries. */
  lemma RowsOfEntriesStep(rows: seq<Value>, entries: seq<Value>, n: nat, c: seq<Value>)
    requires 0 < n <= |entries| && RowsOfEntries(rows, entries, n - 1, c)
    ensures var w := RowWithErrors(RowAt(rows, n - 1), entries[n - 1]);
      RowsOfEntries(rows, entries, n, if n - 1 < |c| then c[n - 1 := w] else c + [w])
  {
  }

  /** One row write on an array: the row at the index is replaced, or appended after `undefined` padding. */
  lemma WriteRowOnArray(c: seq<Value>, i: nat, entry: Value)
    requires Writable(RowAt(c, i))
    ensures WriteRow(Arr(c), i, entry) == Some(Arr(
      if i < |c| then c[i := RowWithErrors(RowAt(c, i), entry)]
      else c + seq(i - |c|, _ => Undefined) + [RowWithErrors(RowAt(c, i), entry)]))
  {
    var key := Strings.NatToString(i);
    Strings.ParseNatToString(i);
    assert Strings.IsCanonicalNat(key) && Strings.ParseNat(key) == i;
    assert ReadProp(Arr(c), key) == RowAt(c, i);
  }

  /** A falsy state value is left alone: its rows go into an array nobody keeps. */
  lemma FalsyContentsUnchanged(state: Rec, rowErrors: Rec, k: string)
    requires k in state && !Truthy(state[k])
    requires WithRowErrors(state, rowErrors).Ok?
    ensures WithRowErrors(state, rowErrors).value[k] == state[k]
  {
  }

  /** An error value that is `null` next to a truthy one makes the row pass throw. */
  lemma NullRowErrorsThrow(state: Rec)
    ensures AfterRowPass(state, Obj(map["items" := Arr([]), "other" := Null])) == TypeError
  {
    var p := map["items" := Arr([]), "other" := Null];
    var rowErrors := RowErrorEntries(p);
    assert rowErrors == p;
    assert "items" in rowErrors && Truthy(rowErrors["items"]);
    assert !IsEmpty(Obj(rowErrors));
    assert !IsEmpty(Obj(p));
    assert Throws(state, rowErrors, "other");
  }
}
