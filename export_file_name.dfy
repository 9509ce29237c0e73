/**
 * The file name of an export, read from the response's `Content-Disposition` header: the
 * first `;`-separated segment that contains `filename=`, with the first `filename=`
 * removed, every `"` removed and white space trimmed. This is a loose reading of the
 * `filename` parameter of section 4.1 of RFC 6266 (no `filename*`, no quoted-string
 * escapes). A missing header, or one without such a segment, makes the chain throw.
 */
module ExportFileName {
  import opened Wrappers
  import opened Strings

  /** `parts.find((n) => n.includes(sub))`, as the index of the segment found. */
  function FirstContaining(parts: seq<string>, sub: string): (r: Option<nat>)
    ensures r.Some? ==> r.value < |parts| && Contains(parts[r.value], sub)
    ensures r.Some? ==> forall j :: 0 <= j < r.value ==> !Contains(parts[j], sub)
    ensures r.None? ==> forall j :: 0 <= j < |parts| ==> !Contains(parts[j], sub)
  {
    if |parts| == 0 then None
    else if Contains(parts[0], sub) then Some(0)
    else match FirstContaining(parts[1..], sub)
      case None => None
      case Some(k) => Some(k + 1)
  }

  const FileNameParam: string := "filename="

  /**
   * `headers["content-disposition"].split(";").find(...).replace("filename=", "")
   * .replaceAll('"', "").trim()`; `TypeError` where the chain is called on `undefined`.
   */
  function FileName(header: Option<string>): (r: Result<string>)
    ensures r.Ok? <==> header.Some? && FirstContaining(Split(header.value, ';'), FileNameParam).Some?
    ensures r.Ok? ==>
      var parts := Split(header.value, ';');
      var segment := parts[FirstContaining(parts, FileNameParam).value];
      var i := IndexOf(segment, FileNameParam);
      i >= 0 && r.value == Trim(RemoveChar(segment[..i] + segment[i + |FileNameParam|..], '"'))
  {
    match header
    case None => TypeError
    case Some(h) =>
      var parts := Split(h, ';');
      match FirstContaining(parts, FileNameParam)
      case None => TypeError
      case Some(k) =>
        var seg := parts[k];
        var i := IndexOf(seg, FileNameParam);
        assert i >= 0;
        assert seg[..i] + "" + seg[i + |FileNameParam|..] == seg[..i] + seg[i + |FileNameParam|..];
        Ok(Trim(RemoveChar(ReplaceFirst(parts[k], FileNameParam, ""), '"')))
  }

  /** The characters of a trimmed string all come from the string. */
  lemma TrimKeepsCharacters(s: string)
    ensures forall x :: x in Trim(s) ==> x in s
  {
    TrimProperties(s);
    var t := s[|s| - |TrimStart(s)|..];
    assert forall x :: x in t ==> x in s;
    assert Trim(s) == t[..|Trim(s)|];
  }

  /** An extracted file name has no `"` and no white space at either end. */
  lemma FileNameIsClean(header: Option<string>)
    requires FileName(header).Ok?
    ensures '"' !in FileName(header).value
    ensures var n := FileName(header).value; |n| > 0 ==> !IsWhiteSpace(n[0]) && !IsWhiteSpace(n[|n| - 1])
  {
    var parts := Split(header.value, ';');
    var k := FirstContaining(parts, FileNameParam).value;
    var unquoted := RemoveChar(ReplaceFirst(parts[k], FileNameParam, ""), '"');
    TrimKeepsCharacters(unquoted);
    TrimProperties(unquoted);
  }

  /** A header that names no file makes the chain throw. */
  lemma NoFileNameThrows()
    ensures FileName(None) == TypeError
    ensures FileName(Some("inline")) == TypeError
  {
    var parts := Split("inline", ';');
    assert CharIndex("inline", ';') == -1;
    assert parts == ["inline"];
    assert !OccursAt("inline", FileNameParam, 0);
    assert !Contains("inline", FileNameParam);
  }

  /** The parameter segment ` filename="<name>"` of a header. */
  function QuotedParam(name: string): string {
    " filename=\"" + name + "\""
  }

  /** `<disposition>; filename="<name>"`, the header a server sends for a download. */
  function DispositionHeader(disposition: string, name: string): string {
    disposition + ";" + QuotedParam(name)
  }

  /**
   * The usual header round-trips: `<disposition>; filename="<name>"` gives back the name,
   * for a disposition type without `;` or `=` (such as `attachment`) and a name without
   * `"` or `;` that does not start or end with white space.
   */
  lemma FileNameRoundTrip(disposition: string, name: string)
    requires ';' !in disposition && '=' !in disposition
    requires '"' !in name && ';' !in name
    requires |name| > 0 ==> !IsWhiteSpace(name[0]) && !IsWhiteSpace(name[|name| - 1])
    ensures FileName(Some(DispositionHeader(disposition, name))) == Ok(name)
  {
    var seg := QuotedParam(name);
    assert ';' !in " filename=\"" && ';' !in "\"";
    assert ';' !in seg;
    SplitAround(disposition, seg, ';');
    NoEqualsNoParam(disposition);
    ParamAfterSpace(name);
    assert FirstContaining([disposition, seg], FileNameParam) == Some(1);
    Unquoted(name);
    FileNameOfSegment(DispositionHeader(disposition, name), 1);
  }

  /** The parameter segment contains `filename=` right after its space, and loses exactly that. */
  lemma ParamAfterSpace(name: string)
    ensures Contains(QuotedParam(name), FileNameParam)
    ensures ReplaceFirst(QuotedParam(name), FileNameParam, "") == " \"" + name + "\""
  {
    var seg := QuotedParam(name);
    assert seg[1..10] == FileNameParam;
    assert seg[0..9][0] == ' ';
    assert OccursAt(seg, FileNameParam, 1) && !OccursAt(seg, FileNameParam, 0);
    assert IndexOf(seg, FileNameParam) == 1;
    assert seg[..1] + "" + seg[10..] == " \"" + name + "\"";
  }

  /** Unquoting and trimming ` "<name>"` gives the name. */
  lemma Unquoted(name: string)
    requires '"' !in name
    requires |name| > 0 ==> !IsWhiteSpace(name[0]) && !IsWhiteSpace(name[|name| - 1])
    ensures Trim(RemoveChar(" \"" + name + "\"", '"')) == name
  {
    QuotesRemoved(name);
    SpaceTrimmed(name);
  }

  lemma QuotesRemoved(name: string)
    requires '"' !in name
    ensures RemoveChar(" \"" + name + "\"", '"') == " " + name
  {
    var t := name + "\"";
    assert " \"" + name + "\"" == " \"" + t;
    RemoveCharAppend(" \"", t, '"');
    assert RemoveChar(" \"", '"') == " " by {
      RemoveCharOfQuote();
      RemoveCharCons(' ', "\"", '"');
    }
    assert RemoveChar(t, '"') == name by {
      RemoveCharAppend(name, "\"", '"');
      RemoveCharAbsent(name, '"');
      RemoveCharOfQuote();
    }
  }

  /** The string `"` alone loses its one character. */
  lemma RemoveCharOfQuote()
    ensures RemoveChar("\"", '"') == ""
  {
    RemoveCharCons('"', "", '"');
    assert ['"'] + "" == "\"";
  }

  /** Dropping a character from a string with a known first character. */
  lemma RemoveCharCons(x: char, u: string, c: char)
    ensures RemoveChar([x] + u, c) == if x == c then RemoveChar(u, c) else [x] + RemoveChar(u, c)
  {
    assert ([x] + u)[0] == x && ([x] + u)[1..] == u;
  }

  lemma SpaceTrimmed(name: string)
    requires |name| > 0 ==> !IsWhiteSpace(name[0]) && !IsWhiteSpace(name[|name| - 1])
    ensures Trim(" " + name) == name
  {
    var spaced := " " + name;
    assert spaced[1..] == name;
    assert TrimStart(spaced) == TrimStart(name);
    if |name| > 0 {
      PlainTrimmed(name);
    }
  }

  /** The file name is read from the segment `find` picks. */
  lemma FileNameOfSegment(h: string, k: nat)
    requires FirstContaining(Split(h, ';'), FileNameParam) == Some(k)
    ensures FileName(Some(h)) == Ok(Trim(RemoveChar(ReplaceFirst(Split(h, ';')[k], FileNameParam, ""), '"')))
  {
  }

  /** Without a `=` a segment cannot contain `filename=`. */
  lemma NoEqualsNoParam(s: string)
    requires '=' !in s
    ensures !Contains(s, FileNameParam)
  {
    forall i: nat
      ensures !OccursAt(s, FileNameParam, i)
    {
      if i + 9 <= |s| {
        assert s[i..i + 9][8] == s[i + 8] && s[i + 8] in s;
      }
    }
  }

  /** Dropping a character distributes over concatenation. */
  lemma {:induction false} RemoveCharAppend(a: string, b: string, c: char)
    ensures RemoveChar(a + b, c) == RemoveChar(a, c) + RemoveChar(b, c)
    decreases |a|
  {
    if |a| > 0 {
      assert (a + b)[1..] == a[1..] + b;
      RemoveCharAppend(a[1..], b, c);
    } else {
      assert a + b == b;
    }
  }

  /** A segment starting with `filename=` contains it at position 0. */
  lemma StartsWithParam(seg: string)
    requires |FileNameParam| <= |seg| && seg[..|FileNameParam|] == FileNameParam
    ensures Contains(seg, FileNameParam) && IndexOf(seg, FileNameParam) == 0
  {
    assert OccursAt(seg, FileNameParam, 0);
  }

  /** A string that neither starts nor ends with white space is its own trim. */
  lemma PlainTrimmed(s: string)
    requires |s| > 0 && !IsWhiteSpace(s[0]) && !IsWhiteSpace(s[|s| - 1])
    ensures Trim(s) == s
  {
  }

  /**
   * Only the first `filename=` of the segment is removed: a header `filename=<rest>`
   * gives `<rest>`, even when `<rest>` itself contains `filename=`.
   */
  lemma OnlyFirstParamRemoved(rest: string)
    requires '"' !in rest && ';' !in rest
    requires |rest| > 0 && !IsWhiteSpace(rest[0]) && !IsWhiteSpace(rest[|rest| - 1])
    ensures FileName(Some(FileNameParam + rest)) == Ok(rest)
  {
    var h := FileNameParam + rest;
    assert ';' !in FileNameParam;
    assert ';' !in h;
    SplitNone(h, ';');
    assert h[..|FileNameParam|] == FileNameParam && h[|FileNameParam|..] == rest;
    StartsWithParam(h);
    assert h[..0] + "" + h[9..] == rest;
    assert FirstContaining([h], FileNameParam) == Some(0);
    RemoveCharAbsent(rest, '"');
    PlainTrimmed(rest);
  }

  /** Removing a character a string does not contain leaves it as it is. */
  lemma {:induction false} RemoveCharAbsent(s: string, c: char)
    requires c !in s
    ensures RemoveChar(s, c) == s
    decreases |s|
  {
    if |s| > 0 {
      assert c !in s[1..];
      RemoveCharAbsent(s[1..], c);
      assert s == [s[0]] + s[1..];
    }
  }
}
