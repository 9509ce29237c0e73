/**
 * The value helpers of the utility service: the own-truthy-field emptiness test, word
 * limiting, de-duplication by a field, the errors-before-warnings lookups of form
 * validation, the count of filled fields, and the path writer used to place a value
 * at a dotted / bracketed path inside an object.
 */
module UtilValues {
  import opened Wrappers
  import opened JsValues
  import opened ServiceTypes
  import opened Sequences
  import Strings

  // ---------------------------------------------------------------- isEmpty

  /**
   * `isEmpty(obj)`: true when `obj` is falsy or none of its own enumerable keys holds a
   * truthy value. A non-empty string has truthy one-character entries; numbers and
   * booleans have no own keys; a moment object has truthy own fields.
   */
  predicate IsEmpty(obj: Value) {
    !Truthy(obj) ||
    match obj
    case Obj(m) => forall k :: k in m ==> !Truthy(m[k])
    case Arr(e) => forall i :: 0 <= i < |e| ==> !Truthy(e[i])
    case Criterion(_, ops) => forall i :: 0 <= i < |ops| ==> !Truthy(ops[i].1)
    case Str(_) => false
    case Moment(_) => false
    case _ => true
  }

  /** Unlike lodash `isEmpty`, an object whose fields are all falsy is empty, and every number is. */
  lemma IsEmptyVersusLodash(m: map<string, Value>, n: int, s: string)
    ensures LodashIsEmpty(Obj(m)) ==> IsEmpty(Obj(m))
    ensures IsEmpty(Obj(map["a" := Null])) && !LodashIsEmpty(Obj(map["a" := Null]))
    ensures IsEmpty(Num(n)) && LodashIsEmpty(Num(n))
    ensures IsEmpty(Str(s)) <==> LodashIsEmpty(Str(s))
  {
    assert "a" in map["a" := Null];
  }

  // ---------------------------------------------------------------- limitWord

  /** The end index `String.prototype.slice(0, end)` actually uses on a string of length `len`. */
  function SliceEnd(len: nat, end: int): (r: nat)
    ensures r <= len
    ensures 0 <= end <= len ==> r == end
    ensures end < 0 ==> r == if len + end < 0 then 0 else len + end
  {
    if end < 0 then (if len + end < 0 then 0 else len + end)
    else if end > len then len
    else end
  }

  /** `limitWord(input, max)`: a string longer than `max` is cut by `slice(0, max)` and gets `"..."`. */
  function LimitWord(input: string, max: int): (r: string)
    ensures |input| <= max ==> r == input
    ensures |input| > max ==> r == input[..SliceEnd(|input|, max)] + "..."
    ensures 0 <= max < |input| ==> |r| == max + 3 && r[..max] == input[..max]
  {
    if |input| > max then input[..SliceEnd(|input|, max)] + "..." else input
  }

  /** With a non-negative bound, limiting an already limited word changes nothing. */
  lemma LimitWordIdempotent(input: string, max: int)
    requires max >= 0
    ensures LimitWord(LimitWord(input, max), max) == LimitWord(input, max)
  {
    if |input| > max {
      var r := LimitWord(input, max);
      assert r[..max] == input[..max];
    }
  }

  // ---------------------------------------------------------------- uniqueArray

  /** Some element of `xs` has the field value `v`. */
  predicate HasFieldValue(xs: seq<Value>, field: string, v: Value) {
    exists j :: 0 <= j < |xs| && Prop(xs[j], field) == v
  }

  /**
   * `uniqueArray(items, field)`, the reduce: an element is appended to the accumulator
   * unless the accumulator already holds one with the same field value (`===`).
   */
  function UniqueArray(items: seq<Value>, field: string): (r: seq<Value>)
    ensures |r| <= |items|
  {
    if |items| == 0 then []
    else
      var acc := UniqueArray(items[..|items| - 1], field);
      var current := items[|items| - 1];
      if HasFieldValue(acc, field, Prop(current, field)) then acc else acc + [current]
  }

  /** No two elements of `xs` share a field value. */
  predicate Distinct(xs: seq<Value>, field: string) {
    forall i, j :: 0 <= i < j < |xs| ==> Prop(xs[i], field) != Prop(xs[j], field)
  }

  /** No two elements of the result share a field value, and every field value of the input is represented. */
  lemma {:induction false} UniqueArrayDistinct(items: seq<Value>, field: string)
    ensures Distinct(UniqueArray(items, field), field)
    ensures forall i :: 0 <= i < |items| ==> HasFieldValue(UniqueArray(items, field), field, Prop(items[i], field))
    decreases |items|
  {
    if |items| > 0 {
      var init := items[..|items| - 1];
      UniqueArrayDistinct(init, field);
      var acc := UniqueArray(init, field);
      var current := items[|items| - 1];
      if !HasFieldValue(acc, field, Prop(current, field)) {
        var r := acc + [current];
        forall i, j | 0 <= i < j < |r|
          ensures Prop(r[i], field) != Prop(r[j], field)
        {
          assert r[i] == acc[i];
          if j < |acc| {
            assert r[j] == acc[j];
            assert Prop(acc[i], field) != Prop(acc[j], field);
          } else {
            assert r[j] == current;
            assert Prop(acc[i], field) != Prop(current, field);
          }
        }
      }
      forall i | 0 <= i < |items|
        ensures HasFieldValue(UniqueArray(items, field), field, Prop(items[i], field))
      {
        if i < |items| - 1 {
          assert items[i] == init[i];
          var j :| 0 <= j < |acc| && Prop(acc[j], field) == Prop(items[i], field);
          if !HasFieldValue(acc, field, Prop(current, field)) {
            assert (acc + [current])[j] == acc[j];
          }
        } else if !HasFieldValue(acc, field, Prop(current, field)) {
          assert (acc + [current])[|acc|] == current;
        }
      }
    }
  }

  /** `x` occurs in `items` with no element before it having its field value. */
  predicate IsFirstWith(items: seq<Value>, x: Value, field: string) {
    exists i :: 0 <= i < |items| && items[i] == x && !HasFieldValue(items[..i], field, Prop(x, field))
  }

  /**
   * The result keeps input order, and each element kept is the first element of the
   * input with its field value.
   */
  lemma {:induction false} UniqueArrayKeepsFirst(items: seq<Value>, field: string)
    ensures IsSubsequence(UniqueArray(items, field), items)
    ensures forall j :: 0 <= j < |UniqueArray(items, field)| ==> IsFirstWith(items, UniqueArray(items, field)[j], field)
    decreases |items|
  {
    if |items| > 0 {
      var init := items[..|items| - 1];
      var current := items[|items| - 1];
      UniqueArrayKeepsFirst(init, field);
      var acc := UniqueArray(init, field);
      SubsequenceSnoc(acc, init, current);
      assert init + [current] == items;
      var isNew := !HasFieldValue(acc, field, Prop(current, field));
      if isNew {
        UniqueArrayDistinct(init, field);
        NotRepresented(init, acc, field, Prop(current, field));
      }
      var r := UniqueArray(items, field);
      assert r == if isNew then acc + [current] else acc;
      forall j | 0 <= j < |r|
        ensures IsFirstWith(items, r[j], field)
      {
        if j < |acc| {
          assert r[j] == acc[j];
          FirstWithExtends(init, current, acc[j], field);
        } else {
          assert r[j] == current;
          FirstWithLast(init, current, field);
        }
      }
    }
  }

  /** A field value missing from a sequence representing every field value of `init` is missing from `init`. */
  lemma NotRepresented(init: seq<Value>, acc: seq<Value>, field: string, v: Value)
    requires forall i :: 0 <= i < |init| ==> HasFieldValue(acc, field, Prop(init[i], field))
    requires !HasFieldValue(acc, field, v)
    ensures !HasFieldValue(init, field, v)
  {
    forall i | 0 <= i < |init|
      ensures Prop(init[i], field) != v
    {
      assert HasFieldValue(acc, field, Prop(init[i], field));
    }
  }

  /** An element first with its field value stays so when another element is appended. */
  lemma FirstWithExtends(init: seq<Value>, y: Value, x: Value, field: string)
    requires IsFirstWith(init, x, field)
    ensures IsFirstWith(init + [y], x, field)
  {
    var i :| 0 <= i < |init| && init[i] == x && !HasFieldValue(init[..i], field, Prop(x, field));
    assert (init + [y])[..i] == init[..i];
    assert (init + [y])[i] == x;
  }

  /** An appended element whose field value is new is the first with it. */
  lemma FirstWithLast(init: seq<Value>, y: Value, field: string)
    requires !HasFieldValue(init, field, Prop(y, field))
    ensures IsFirstWith(init + [y], y, field)
  {
    assert (init + [y])[..|init|] == init;
    assert (init + [y])[|init|] == y;
  }

  // ---------------------------------------------------------------- getValidate*

  /** `model[bag][field]` when `model[bag]` is an object owning `field` and holding a non-empty string there. */
  function BagText(model: Rec, bag: string, field: string): Option<string> {
    var b := Get(model, bag);
    if b.Obj? && field in b.fields && b.fields[field].Str? && b.fields[field].s != "" then Some(b.fields[field].s)
    else None
  }

  /** `getValidateStatus`: an error message wins over a warning; neither gives `null`. */
  function GetValidateStatus(model: Rec, field: string): (r: Option<ValidateStatus>)
    ensures r == Some(Error) <==> BagText(model, "errors", field).Some?
    ensures r == Some(Warning) <==> BagText(model, "errors", field).None? && BagText(model, "warnings", field).Some?
    ensures r.None? <==> BagText(model, "errors", field).None? && BagText(model, "warnings", field).None?
  {
    if BagText(model, "errors", field).Some? then Some(Error)
    else if BagText(model, "warnings", field).Some? then Some(Warning)
    else None
  }

  /** `getValidateMessage`: the error message if there is one, else the warning, else `null`. */
  function GetValidateMessage(model: Rec, field: string): (r: Option<string>)
    ensures BagText(model, "errors", field).Some? ==> r == BagText(model, "errors", field)
    ensures BagText(model, "errors", field).None? ==> r == BagText(model, "warnings", field)
  {
    if BagText(model, "errors", field).Some? then BagText(model, "errors", field)
    else if BagText(model, "warnings", field).Some? then BagText(model, "warnings", field)
    else None
  }

  /** `getValidateObj`: the status and the message together. */
  function GetValidateObj(model: Rec, field: string): (r: Option<(ValidateStatus, string)>)
    ensures r.Some? ==> r.value.1 != ""
  {
    if BagText(model, "errors", field).Some? then Some((Error, BagText(model, "errors", field).value))
    else if BagText(model, "warnings", field).Some? then Some((Warning, BagText(model, "warnings", field).value))
    else None
  }

  /** The three lookups agree: the object is present exactly when the status and the message are, and pairs them. */
  lemma ValidateLookupsAgree(model: Rec, field: string)
    ensures GetValidateObj(model, field).Some? <==> GetValidateStatus(model, field).Some?
    ensures GetValidateStatus(model, field).Some? <==> GetValidateMessage(model, field).Some?
    ensures GetValidateObj(model, field).Some? ==>
      GetValidateObj(model, field).value == (GetValidateStatus(model, field).value, GetValidateMessage(model, field).value)
  {
  }

  // ---------------------------------------------------------------- countValuedField

  /** A key `countValuedField` counts: its name has no `Value`, its value is not empty, and it is not excepted. */
  predicate Counted(fields: map<string, Value>, exceptField: seq<string>, key: string)
    requires key in fields
  {
    !Strings.Contains(key, "Value") && !IsEmpty(fields[key]) && key !in exceptField
  }

  /** The keys of a plain object `countValuedField` counts. */
  function CountedKeys(fields: map<string, Value>, exceptField: seq<string>): set<string> {
    set key | key in fields && Counted(fields, exceptField, key)
  }

  /** `countValuedField(obj, exceptField)`: a falsy object counts nothing; a plain object counts its counted keys. */
  method CountValuedField(obj: Value, exceptField: seq<string>) returns (count: nat)
    ensures !obj.Obj? ==> count == 0
    ensures obj.Obj? ==> count == |CountedKeys(obj.fields, exceptField)|
  {
    count := 0;
    if !obj.Obj? {
      return;
    }
    var fields := obj.fields;
    var keys := fields.Keys;
    ghost var seen: set<string> := {};
    while keys != {}
      invariant keys + seen == fields.Keys && keys !! seen
      invariant count == |CountedAmong(fields, exceptField, seen)|
      decreases keys
    {
      var key :| key in keys;
      CountedOneMore(fields, exceptField, seen, key);
      if Counted(fields, exceptField, key) {
        count := count + 1;
      }
      keys := keys - {key};
      seen := seen + {key};
    }
    assert seen == fields.Keys;
    assert CountedAmong(fields, exceptField, seen) == CountedKeys(fields, exceptField);
  }

  /** The counted keys among those of `seen`. */
  ghost function CountedAmong(fields: map<string, Value>, exceptField: seq<string>, seen: set<string>): set<string> {
    set key | key in seen && key in fields && Counted(fields, exceptField, key)
  }

  /** One more key adds one to the count exactly when it is counted. */
  lemma CountedOneMore(fields: map<string, Value>, exceptField: seq<string>, seen: set<string>, key: string)
    requires key in fields && key !in seen
    ensures |CountedAmong(fields, exceptField, seen + {key})| ==
      |CountedAmong(fields, exceptField, seen)| + if Counted(fields, exceptField, key) then 1 else 0
  {
    var before := CountedAmong(fields, exceptField, seen);
    var after := CountedAmong(fields, exceptField, seen + {key});
    if Counted(fields, exceptField, key) {
      assert after == before + {key};
    } else {
      assert after == before;
    }
  }

  // ---------------------------------------------------------------- convertPathString

  /** A `\w` character. */
  predicate IsWordChar(c: char) {
    ('a' <= c <= 'z') || ('A' <= c <= 'Z') || ('0' <= c <= '9') || c == '_'
  }

  /** The length of the run of word characters at the front of `s`. */
  function WordRun(s: string): (n: nat)
    ensures n <= |s|
    ensures forall i :: 0 <= i < n ==> IsWordChar(s[i])
    ensures n < |s| ==> !IsWordChar(s[n])
  {
    if |s| > 0 && IsWordChar(s[0]) then 1 + WordRun(s[1..]) else 0
  }

  /** A run of `n` word characters ended by a non-word character (or the end) is the word run. */
  lemma WordRunIs(s: string, n: nat)
    requires n <= |s| && forall i :: 0 <= i < n ==> IsWordChar(s[i])
    requires n < |s| ==> !IsWordChar(s[n])
    ensures WordRun(s) == n
  {
  }

  /** `path.replace(/\[(\w+)\]/g, ".$1")`: every bracketed word becomes a dotted one. */
  function BracketsToDots(path: string): (r: string)
    ensures '[' !in path ==> r == path
    decreases |path|
  {
    if |path| == 0 then ""
    else if path[0] == '[' && 1 + WordRun(path[1..]) < |path| && WordRun(path[1..]) > 0 &&
            path[1 + WordRun(path[1..])] == ']' then
      var n := WordRun(path[1..]);
      "." + path[1..1 + n] + BracketsToDots(path[2 + n..])
    else [path[0]] + BracketsToDots(path[1..])
  }

  /** `"key" in o` for an object; `None` where `in` throws (the value is not an object). */
  function HasProp(o: Value, key: string): Option<bool> {
    match o
    case Obj(m) => Some(key in m)
    case Arr(e) =>
      Some(key == "length" || (Strings.IsCanonicalNat(key) && Strings.ParseNat(key) < |e|))
    case Moment(_) => Some(false)
    case Criterion(_, _) => Some(false)
    case _ => None
  }

  /** `o[key]` after `key in o` held. */
  function ReadProp(o: Value, key: string): Value {
    match o
    case Obj(m) => Get(m, key)
    case Arr(e) =>
      if key == "length" then Num(|e|)
      else if Strings.IsCanonicalNat(key) && Strings.ParseNat(key) < |e| then e[Strings.ParseNat(key)]
      else Undefined
    case _ => Undefined
  }

  /**
   * `o[key] = v`; `None` where the assignment throws (strict mode, `o` not an object).
   * An items index at or past the end extends the items with `undefined`; other writes
   * on arrays, moments and filter instances are not represented and leave `o` as it is.
   */
  function WriteProp(o: Value, key: string, v: Value): Option<Value> {
    match o
    case Obj(m) => Some(Obj(m[key := v]))
    case Arr(e) =>
      if Strings.IsCanonicalNat(key) then
        var i := Strings.ParseNat(key);
        if i < |e| then Some(Arr(e[i := v]))
        else Some(Arr(e + seq(i - |e|, _ => Undefined) + [v]))
      else Some(o)
    case Moment(_) => Some(o)
    case Criterion(_, _) => Some(o)
    case _ => None
  }

  /**
   * The reduce of `convertPathString` over the path segments, on the object `o` it has
   * reached: the last segment receives the value; an intermediate segment already in
   * `o` is followed, otherwise a fresh `{}` is put there and followed. The new `o`, or
   * `TypeError` when a segment lands on a non-object.
   */
  function SetPath(o: Value, segs: seq<string>, value: Value): (r: Result<Value>)
    requires |segs| >= 1
    decreases |segs|
  {
    var s := segs[0];
    if |segs| == 1 then
      match WriteProp(o, s, value)
      case None => TypeError
      case Some(o') => Ok(o')
    else
      match HasProp(o, s)
      case None => TypeError
      case Some(present) =>
        var child := if present then ReadProp(o, s) else Obj(map[]);
        match SetPath(child, segs[1..], value)
        case TypeError => TypeError
        case Ok(child') =>
          match WriteProp(o, s, child')
          case None => TypeError
          case Some(o') => Ok(o')
  }

  /** The path's segments: brackets turned into dots, then split at every `.`. */
  function PathSegments(path: string): (segs: seq<string>)
    ensures |segs| >= 1
  {
    Strings.Split(BracketsToDots(path), '.')
  }

  /**
   * `convertPathString(path, obj, value)`: the object with `value` placed at `path`; an
   * `undefined` object is the parameter's default `{}`.
   */
  function ConvertPathString(path: string, obj: Value, value: Value): Result<Value> {
    SetPath(if obj == Undefined then Obj(map[]) else obj, PathSegments(path), value)
  }

  /** Reading back along a path of plain objects. */
  function GetPath(o: Value, segs: seq<string>): Value
    requires |segs| >= 1
    decreases |segs|
  {
    if |segs| == 1 then ReadProp(o, segs[0]) else GetPath(ReadProp(o, segs[0]), segs[1..])
  }

  /** Along `segs`, every value met is a plain object or missing. */
  predicate ObjectsAlong(o: Value, segs: seq<string>)
    requires |segs| >= 1
    decreases |segs|
  {
    o.Obj? && (|segs| == 1 || segs[0] !in o.fields ||
               ObjectsAlong(o.fields[segs[0]], segs[1..]))
  }

  /** On plain objects the path writer succeeds and the value can be read back at the same path. */
  lemma {:induction false} SetPathThenGet(o: Value, segs: seq<string>, value: Value)
    requires |segs| >= 1 && ObjectsAlong(o, segs)
    ensures SetPath(o, segs, value).Ok?
    ensures GetPath(SetPath(o, segs, value).value, segs) == value
    decreases |segs|
  {
    if |segs| > 1 {
      var s := segs[0];
      var child := if s in o.fields then o.fields[s] else Obj(map[]);
      SetPathThenGet(child, segs[1..], value);
    }
  }

  /**
   * On an object whose values along the path are plain objects or missing (or on the
   * default `{}`), `convertPathString` succeeds and the value reads back at the path.
   */
  lemma ConvertPathStringReadsBack(path: string, obj: Value, value: Value)
    requires ObjectsAlong(if obj == Undefined then Obj(map[]) else obj, PathSegments(path))
    ensures ConvertPathString(path, obj, value).Ok?
    ensures GetPath(ConvertPathString(path, obj, value).value, PathSegments(path)) == value
  {
    SetPathThenGet(if obj == Undefined then Obj(map[]) else obj, PathSegments(path), value);
  }

  /** A path `a.b` without brackets has the segments `a` and `b`. */
  lemma DottedPathSegments(a: string, b: string)
    requires '[' !in a && '[' !in b && '.' !in a && '.' !in b
    ensures PathSegments(a + "." + b) == [a, b]
  {
    assert a + "." + b == a + ['.'] + b;
    Strings.SplitAround(a, b, '.');
  }

  /** A prefix without `[` is copied as it is. */
  lemma {:induction false} BracketsAfterPlain(a: string, t: string)
    requires '[' !in a
    ensures BracketsToDots(a + t) == a + BracketsToDots(t)
    decreases |a|
  {
    if |a| > 0 {
      var s := a + t;
      assert s[0] == a[0] && s[1..] == a[1..] + t;
      BracketsAfterPlain(a[1..], t);
      assert [a[0]] + a[1..] == a;
    } else {
      assert a + t == t;
    }
  }

  /** A bracketed word `[<w>]` becomes `.<w>`. */
  lemma BracketedWord(w: string, b: string)
    requires |w| > 0 && forall i :: 0 <= i < |w| ==> IsWordChar(w[i])
    ensures BracketsToDots("[" + w + "]" + b) == "." + w + BracketsToDots(b)
  {
    var s := "[" + w + "]" + b;
    assert s[1..] == w + ("]" + b);
    assert forall i :: 0 <= i < |w| ==> (w + ("]" + b))[i] == w[i];
    assert (w + ("]" + b))[|w|] == ']';
    WordRunIs(w + ("]" + b), |w|);
    assert s[1 + |w|] == ']';
    assert s[1..1 + |w|] == w && s[2 + |w|..] == b;
  }

  /** A bracketed word followed by text without brackets. */
  lemma BracketedPlain(w: string, b: string)
    requires |w| > 0 && forall i :: 0 <= i < |w| ==> IsWordChar(w[i])
    requires '[' !in b
    ensures BracketsToDots("[" + w + "]" + b) == "." + w + b
  {
    BracketedWord(w, b);
  }

  /**
   * A bracketed index becomes a dotted segment: `<a>[<w>]<b>` with no other bracket
   * reads `<a>.<w><b>`, so `items[0].name` is the path `items.0.name`.
   */
  lemma BracketsOf(a: string, w: string, b: string)
    requires '[' !in a && '[' !in b
    requires |w| > 0 && forall i :: 0 <= i < |w| ==> IsWordChar(w[i])
    ensures BracketsToDots(a + "[" + w + "]" + b) == a + "." + w + b
  {
    var t := "[" + w + "]" + b;
    BracketedPlain(w, b);
    BracketsAfterPlain(a, t);
    assert a + "[" + w + "]" + b == a + t by {
      AppendRegroup4(a, "[", w, "]", b);
    }
    AppendRegroup3(a, ".", w, b);
  }
}
