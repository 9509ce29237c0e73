/**
 * The few JavaScript string operations the services rely on: `indexOf` / `includes`,
 * `split` on a one-character separator, `replace` with a string pattern, `replaceAll`
 * of one character, `trim`, and the decimal rendering of integers used by template
 * literals and by `Number(key)`.
 */
module Strings {

  // ---------------------------------------------------------------- searching

  /** `sub` occurs in `s` starting at position `i`. */
  predicate OccursAt(s: string, sub: string, i: nat) {
    i + |sub| <= |s| && s[i..i + |sub|] == sub
  }

  /** First position at or after `from` where `sub` occurs, or -1. */
  function IndexFrom(s: string, sub: string, from: nat): (r: int)
    requires from <= |s| + 1
    ensures r == -1 || (from <= r && OccursAt(s, sub, r))
    ensures r == -1 ==> forall i :: from <= i && OccursAt(s, sub, i) ==> false
    ensures r >= 0 ==> forall i :: from <= i < r ==> !OccursAt(s, sub, i)
    decreases |s| + 1 - from
  {
    if from + |sub| > |s| then -1
    else if s[from..from + |sub|] == sub then from
    else IndexFrom(s, sub, from + 1)
  }

  /** `String.prototype.indexOf`: the first position of `sub` in `s`, or -1. */
  function IndexOf(s: string, sub: string): (r: int)
    ensures r == -1 || (0 <= r && OccursAt(s, sub, r))
    ensures r == -1 <==> forall i: nat :: !OccursAt(s, sub, i)
    ensures r >= 0 ==> forall i :: 0 <= i < r ==> !OccursAt(s, sub, i)
  {
    IndexFrom(s, sub, 0)
  }

  /** `String.prototype.includes` (equivalently `indexOf(sub) >= 0`). */
  predicate Contains(s: string, sub: string) {
    IndexOf(s, sub) >= 0
  }

  /** Membership of one character. */
  function CharIndex(s: string, c: char): (r: int)
    ensures r == -1 <==> c !in s
    ensures r >= 0 ==> r < |s| && s[r] == c && c !in s[..r]
  {
    if |s| == 0 then -1
    else if s[0] == c then 0
    else var k := CharIndex(s[1..], c); if k < 0 then -1 else k + 1
  }

  // ---------------------------------------------------------------- split / join

  /** `s.split(c)` for a one-character separator: the pieces between separators. */
  function Split(s: string, c: char): (r: seq<string>)
    ensures |r| >= 1
    ensures forall i :: 0 <= i < |r| ==> c !in r[i]
    decreases |s|
  {
    var k := CharIndex(s, c);
    if k < 0 then [s] else [s[..k]] + Split(s[k + 1..], c)
  }

  /** `parts.join(c)`. */
  function Join(parts: seq<string>, c: char): string
    requires |parts| >= 1
  {
    if |parts| == 1 then parts[0] else parts[0] + [c] + Join(parts[1..], c)
  }

  /** Splitting and joining again gives back the original string. */
  lemma {:induction false} JoinSplit(s: string, c: char)
    ensures Join(Split(s, c), c) == s
    decreases |s|
  {
    var k := CharIndex(s, c);
    if k >= 0 {
      JoinSplit(s[k + 1..], c);
      assert s == s[..k] + [c] + s[k + 1..];
    }
  }

  /** Two pieces without the separator, joined by it, split back into those pieces. */
  lemma SplitAround(a: string, b: string, c: char)
    requires c !in a && c !in b
    ensures Split(a + [c] + b, c) == [a, b]
  {
    var s := a + [c] + b;
    assert s[..|a|] == a && s[|a| + 1..] == b && s[|a|] == c;
    SplitTwo(s, c, |a|);
  }

  /** A string with one separator at `k` splits into the two pieces around it. */
  lemma SplitTwo(s: string, c: char, k: nat)
    requires k < |s| && s[k] == c && c !in s[..k] && c !in s[k + 1..]
    ensures Split(s, c) == [s[..k], s[k + 1..]]
  {
    assert CharIndex(s, c) == k;
    assert CharIndex(s[k + 1..], c) == -1;
  }

  /** A string without the separator is its own only piece. */
  lemma SplitNone(s: string, c: char)
    requires c !in s
    ensures Split(s, c) == [s]
  {
  }

  /** A string starting with the separator splits into an empty piece, then the pieces of the rest. */
  lemma SplitLeading(s: string, c: char)
    requires |s| > 0 && s[0] == c
    ensures Split(s, c) == [""] + Split(s[1..], c)
  {
    assert CharIndex(s, c) == 0;
  }

  /** The last element of a non-empty sequence. */
  function Last<T>(xs: seq<T>): T
    requires |xs| >= 1
  {
    xs[|xs| - 1]
  }

  /** `p` ends `s`, and is either all of `s` or preceded in it by a `c`. */
  predicate PieceEnds(s: string, p: string, c: char) {
    |p| <= |s| && s[|s| - |p|..] == p && (|p| < |s| ==> s[|s| - |p| - 1] == c)
  }

  /** The last piece of `s.split(c)` is a suffix of `s`, preceded either by nothing
      or by a `c`. */
  lemma {:induction false} LastPieceIsSuffix(s: string, c: char)
    ensures PieceEnds(s, Last(Split(s, c)), c)
    decreases |s|
  {
    var k := CharIndex(s, c);
    if k >= 0 {
      var rest := s[k + 1..];
      LastPieceIsSuffix(rest, c);
      SplitLastStep(s, c, k);
      PieceEndsAfter(s, k, Last(Split(rest, c)), c);
    } else {
      assert Split(s, c) == [s];
      assert s[0..] == s;
    }
  }

  /** After the first separator the last piece is that of the rest. */
  lemma SplitLastStep(s: string, c: char, k: nat)
    requires k == CharIndex(s, c)
    ensures Last(Split(s, c)) == Last(Split(s[k + 1..], c))
  {
    assert Split(s, c) == [s[..k]] + Split(s[k + 1..], c);
  }

  /** A piece ending the part after a `c` also ends the whole string. */
  lemma PieceEndsAfter(s: string, k: nat, p: string, c: char)
    requires k < |s| && s[k] == c && PieceEnds(s[k + 1..], p, c)
    ensures PieceEnds(s, p, c)
  {
    var rest := s[k + 1..];
    assert s[|s| - |p|..] == rest[|rest| - |p|..];
    if |p| < |rest| {
      assert s[|s| - |p| - 1] == rest[|rest| - |p| - 1];
    }
  }

  // ---------------------------------------------------------------- rewriting

  /** `s.replace(pat, rep)` with a STRING pattern: only the first occurrence is replaced. */
  function ReplaceFirst(s: string, pat: string, rep: string): (r: string)
    ensures IndexOf(s, pat) < 0 ==> r == s
    ensures IndexOf(s, pat) >= 0 ==>
      var i := IndexOf(s, pat); r == s[..i] + rep + s[i + |pat|..]
  {
    var i := IndexOf(s, pat);
    if i < 0 then s else s[..i] + rep + s[i + |pat|..]
  }

  /** `s.replaceAll(c, "")` for one character `c`: every `c` is dropped, the rest keeps its order. */
  function RemoveChar(s: string, c: char): (r: string)
    ensures c !in r
    ensures |r| <= |s|
    ensures forall x :: x != c ==> (x in r <==> x in s)
  {
    if |s| == 0 then ""
    else if s[0] == c then RemoveChar(s[1..], c)
    else [s[0]] + RemoveChar(s[1..], c)
  }

  /** The characters `String.prototype.trim` removes: WhiteSpace and LineTerminator
      of section 12.2 and 12.3 of ECMA-262. */
  predicate IsWhiteSpace(c: char) {
    c == '\t' || c == '\n' || c == '\U{B}' || c == '\U{C}' || c == '\r' || c == ' ' ||
    c == '\U{A0}' || c == '\U{1680}' || ('\U{2000}' <= c <= '\U{200A}') ||
    c == '\U{2028}' || c == '\U{2029}' || c == '\U{202F}' || c == '\U{205F}' ||
    c == '\U{3000}' || c == '\U{FEFF}'
  }

  function TrimStart(s: string): (r: string)
    ensures |r| <= |s| && r == s[|s| - |r|..]
    ensures |r| > 0 ==> !IsWhiteSpace(r[0])
  {
    if |s| > 0 && IsWhiteSpace(s[0]) then TrimStart(s[1..]) else s
  }

  function TrimEnd(s: string): (r: string)
    ensures |r| <= |s| && r == s[..|r|]
    ensures |r| > 0 ==> !IsWhiteSpace(r[|r| - 1])
  {
    if |s| > 0 && IsWhiteSpace(s[|s| - 1]) then TrimEnd(s[..|s| - 1]) else s
  }

  /** `s.trim()`: the longest infix of `s` that neither starts nor ends with white space. */
  function Trim(s: string): (r: string)
  {
    TrimEnd(TrimStart(s))
  }

  /** What trim guarantees: no white space at either end, only white space cut off,
      and the result is a contiguous piece of the input. */
  lemma TrimProperties(s: string)
    ensures |Trim(s)| > 0 ==> !IsWhiteSpace(Trim(s)[0]) && !IsWhiteSpace(Trim(s)[|Trim(s)| - 1])
    ensures |s| - |TrimStart(s)| + |Trim(s)| <= |s|
    ensures s[|s| - |TrimStart(s)|..][..|Trim(s)|] == Trim(s)
  {
    var t := TrimStart(s);
    var r := TrimEnd(t);
    if |r| > 0 {
      assert r[0] == t[0];
    }
  }

  /** Trimming the start cuts off white space only. */
  lemma {:induction false} TrimStartCutsWhiteSpace(s: string)
    ensures forall i :: 0 <= i < |s| - |TrimStart(s)| ==> IsWhiteSpace(s[i])
    decreases |s|
  {
    if |s| > 0 && IsWhiteSpace(s[0]) {
      TrimStartCutsWhiteSpace(s[1..]);
      forall i | 1 <= i < |s| - |TrimStart(s)|
        ensures IsWhiteSpace(s[i])
      {
        assert s[i] == s[1..][i - 1];
      }
    }
  }

  /** Trimming the end cuts off white space only. */
  lemma {:induction false} TrimEndCutsWhiteSpace(s: string)
    ensures forall i :: |TrimEnd(s)| <= i < |s| ==> IsWhiteSpace(s[i])
    decreases |s|
  {
    if |s| > 0 && IsWhiteSpace(s[|s| - 1]) {
      TrimEndCutsWhiteSpace(s[..|s| - 1]);
      forall i | |TrimEnd(s)| <= i < |s| - 1
        ensures IsWhiteSpace(s[i])
      {
        assert s[i] == s[..|s| - 1][i];
      }
    }
  }

  /** `trim` cuts off white space only: every character before or after the trimmed piece is white space. */
  lemma TrimCutsWhiteSpace(s: string)
    ensures forall i :: 0 <= i < |s| - |TrimStart(s)| ==> IsWhiteSpace(s[i])
    ensures forall i :: |s| - |TrimStart(s)| + |Trim(s)| <= i < |s| ==> IsWhiteSpace(s[i])
  {
    var t := TrimStart(s);
    var p := |s| - |t|;
    TrimStartCutsWhiteSpace(s);
    TrimEndCutsWhiteSpace(t);
    forall i | p + |Trim(s)| <= i < |s|
      ensures IsWhiteSpace(s[i])
    {
      assert s[i] == t[i - p];
    }
  }

  // ---------------------------------------------------------------- numbers

  predicate IsDigit(c: char) { '0' <= c <= '9' }

  predicate AllDigits(s: string) { forall i :: 0 <= i < |s| ==> IsDigit(s[i]) }

  /** A decimal numeral without superfluous leading zeros: what `String(n)` prints for a natural. */
  predicate IsCanonicalNat(s: string) {
    |s| >= 1 && AllDigits(s) && (|s| == 1 || s[0] != '0')
  }

  function DigitChar(d: nat): (c: char)
    requires d < 10
    ensures IsDigit(c)
  {
    "0123456789"[d]
  }

  function DigitValue(c: char): (d: nat)
    requires IsDigit(c)
    ensures d < 10 && DigitChar(d) == c
  {
    (c as int - '0' as int) as nat
  }

  /** Decimal rendering of a natural number, as a template literal or `String(n)` writes it. */
  function NatToString(n: nat): (r: string)
    ensures IsCanonicalNat(r)
  {
    if n < 10 then [DigitChar(n)] else NatToString(n / 10) + [DigitChar(n % 10)]
  }

  /** Decimal rendering of an integer (the sign, then the digits). */
  function IntToString(n: int): (r: string)
    ensures |r| >= 1
    ensures r[0] == '-' <==> n < 0
  {
    if n < 0 then "-" + NatToString(-n) else NatToString(n)
  }

  /** The value of a string of decimal digits, as `Number(s)` reads it. */
  function ParseNat(s: string): nat
    requires AllDigits(s)
  {
    if |s| == 0 then 0 else ParseNat(s[..|s| - 1]) * 10 + DigitValue(s[|s| - 1])
  }

  /** Reading a rendered natural gives back the natural. */
  lemma {:induction false} ParseNatToString(n: nat)
    ensures ParseNat(NatToString(n)) == n
  {
    if n >= 10 {
      var s := NatToString(n);
      assert s[..|s| - 1] == NatToString(n / 10);
      ParseNatToString(n / 10);
    }
  }

  lemma {:induction false} ParseNatPositive(s: string)
    requires |s| >= 1 && AllDigits(s) && s[0] != '0'
    ensures ParseNat(s) >= 1
  {
    if |s| > 1 {
      ParseNatPositive(s[..|s| - 1]);
    }
  }

  /** Rendering the value of a canonical numeral gives back the numeral. */
  lemma {:induction false} NatToStringParse(s: string)
    requires IsCanonicalNat(s)
    ensures NatToString(ParseNat(s)) == s
  {
    if |s| > 1 {
      var p := s[..|s| - 1];
      ParseNatPositive(p);
      NatToStringParse(p);
      var n := ParseNat(s);
      assert n / 10 == ParseNat(p) && n % 10 == DigitValue(s[|s| - 1]);
      assert s == p + [s[|s| - 1]];
    }
  }

  /** Different naturals render differently. */
  lemma NatToStringInjective(m: nat, n: nat)
    requires NatToString(m) == NatToString(n)
    ensures m == n
  {
    ParseNatToString(m);
    ParseNatToString(n);
  }
}
