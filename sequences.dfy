/** `Array.prototype.filter` and the order-preservation facts the services rely on. */
module Sequences {

  /** `xs.filter(p)`: the elements satisfying `p`, in their original order. */
  function Filter<T>(xs: seq<T>, p: T -> bool): (r: seq<T>)
    ensures |r| <= |xs|
  {
    if |xs| == 0 then []
    else if p(xs[0]) then [xs[0]] + Filter(xs[1..], p)
    else Filter(xs[1..], p)
  }

  /** What `xs.filter(p)` contains: only elements of `xs` satisfying `p`, and all of them. */
  lemma {:induction false} FilterMembers<T>(xs: seq<T>, p: T -> bool)
    ensures forall i :: 0 <= i < |Filter(xs, p)| ==> p(Filter(xs, p)[i]) && Filter(xs, p)[i] in xs
    ensures forall i :: 0 <= i < |xs| && p(xs[i]) ==> xs[i] in Filter(xs, p)
    ensures multiset(Filter(xs, p)) <= multiset(xs)
    decreases |xs|
  {
    if |xs| > 0 {
      FilterMembers(xs[1..], p);
      assert xs == [xs[0]] + xs[1..];
    }
  }

  /** Membership in `xs.filter(p)`, stated on elements; the filtered sequence keeps the order of `xs`. */
  lemma FilterContains<T>(xs: seq<T>, p: T -> bool)
    ensures forall x :: x in Filter(xs, p) <==> x in xs && p(x)
    ensures IsSubsequence(Filter(xs, p), xs)
  {
    var f := Filter(xs, p);
    FilterMembers(xs, p);
    FilterIsSubsequence(xs, p);
    forall x | x in f
      ensures x in xs && p(x)
    {
      var i :| 0 <= i < |f| && f[i] == x;
    }
    forall x | x in xs && p(x)
      ensures x in f
    {
      var i :| 0 <= i < |xs| && xs[i] == x;
    }
  }

  /** `a` is obtained from `b` by deleting elements. */
  ghost predicate IsSubsequence<T>(a: seq<T>, b: seq<T>)
    decreases |b|
  {
    |a| == 0 || (|b| > 0 && ((a[0] == b[0] && IsSubsequence(a[1..], b[1..])) || IsSubsequence(a, b[1..])))
  }

  lemma {:induction false} FilterIsSubsequence<T>(xs: seq<T>, p: T -> bool)
    ensures IsSubsequence(Filter(xs, p), xs)
    decreases |xs|
  {
    if |xs| > 0 {
      FilterIsSubsequence(xs[1..], p);
    }
  }

  /** Filtering distributes over concatenation. */
  lemma {:induction false} FilterAppend<T>(xs: seq<T>, ys: seq<T>, p: T -> bool)
    ensures Filter(xs + ys, p) == Filter(xs, p) + Filter(ys, p)
    decreases |xs|
  {
    if |xs| > 0 {
      assert (xs + ys)[0] == xs[0] && (xs + ys)[1..] == xs[1..] + ys;
      FilterAppend(xs[1..], ys, p);
      if p(xs[0]) {
        assert [xs[0]] + Filter(xs[1..], p) + Filter(ys, p) == [xs[0]] + (Filter(xs[1..], p) + Filter(ys, p));
      }
    } else {
      assert xs + ys == ys;
    }
  }

  /** A filter that rejects nothing returns its input. */
  lemma {:induction false} FilterKeepsAll<T>(xs: seq<T>, p: T -> bool)
    requires forall i :: 0 <= i < |xs| ==> p(xs[i])
    ensures Filter(xs, p) == xs
    decreases |xs|
  {
    if |xs| > 0 {
      FilterKeepsAll(xs[1..], p);
    }
  }

  /** A filter that accepts nothing returns the empty sequence. */
  lemma {:induction false} FilterKeepsNone<T>(xs: seq<T>, p: T -> bool)
    requires forall i :: 0 <= i < |xs| ==> !p(xs[i])
    ensures Filter(xs, p) == []
    decreases |xs|
  {
    if |xs| > 0 {
      FilterKeepsNone(xs[1..], p);
    }
  }

  /** Two filters in a row are one filter by (anything equivalent to) the conjunction. */
  lemma {:induction false} FilterFilter<T>(xs: seq<T>, p: T -> bool, q: T -> bool, pq: T -> bool)
    requires forall i :: 0 <= i < |xs| ==> pq(xs[i]) == (p(xs[i]) && q(xs[i]))
    ensures Filter(Filter(xs, p), q) == Filter(xs, pq)
    decreases |xs|
  {
    if |xs| > 0 {
      FilterFilter(xs[1..], p, q, pq);
    }
  }

  /** Filters agreeing on every element give the same result. */
  lemma {:induction false} FilterCongruent<T>(xs: seq<T>, p: T -> bool, q: T -> bool)
    requires forall i :: 0 <= i < |xs| ==> p(xs[i]) == q(xs[i])
    ensures Filter(xs, p) == Filter(xs, q)
    decreases |xs|
  {
    if |xs| > 0 {
      FilterCongruent(xs[1..], p, q);
    }
  }

  /** The subsequence relation is transitive. */
  lemma {:induction false} SubsequenceTransitive<T>(a: seq<T>, b: seq<T>, c: seq<T>)
    requires IsSubsequence(a, b) && IsSubsequence(b, c)
    ensures IsSubsequence(a, c)
    decreases |c|
  {
    if |a| > 0 {
      if a[0] == b[0] && IsSubsequence(a[1..], b[1..]) {
        if b[0] == c[0] && IsSubsequence(b[1..], c[1..]) {
          SubsequenceTransitive(a[1..], b[1..], c[1..]);
        } else {
          SubsequenceTransitive(a, b, c[1..]);
        }
      } else {
        if b[0] == c[0] && IsSubsequence(b[1..], c[1..]) {
          SubsequenceTransitive(a, b[1..], c[1..]);
        } else {
          SubsequenceTransitive(a, b, c[1..]);
        }
      }
    }
  }

  /** Appending the same element to both sides, or to the larger side only, keeps a subsequence. */
  lemma {:induction false} SubsequenceSnoc<T>(a: seq<T>, b: seq<T>, x: T)
    requires IsSubsequence(a, b)
    ensures IsSubsequence(a, b + [x]) && IsSubsequence(a + [x], b + [x])
    decreases |b|
  {
    if |a| == 0 {
      assert a + [x] == [x];
      if |b| > 0 {
        assert (b + [x])[1..] == b[1..] + [x];
        SubsequenceSnoc(a, b[1..], x);
      } else {
        assert b + [x] == [x];
      }
    } else {
      assert (b + [x])[0] == b[0] && (b + [x])[1..] == b[1..] + [x];
      assert (a + [x])[0] == a[0] && (a + [x])[1..] == a[1..] + [x];
      if a[0] == b[0] && IsSubsequence(a[1..], b[1..]) {
        SubsequenceSnoc(a[1..], b[1..], x);
      } else {
        SubsequenceSnoc(a, b[1..], x);
      }
    }
  }

  /** A filter that returns as many elements as it was given returned its input. */
  lemma {:induction false} FilterSameLength<T>(xs: seq<T>, p: T -> bool)
    ensures |Filter(xs, p)| == |xs| ==> Filter(xs, p) == xs
    decreases |xs|
  {
    if |xs| > 0 && p(xs[0]) {
      FilterSameLength(xs[1..], p);
    }
  }

  /** No element occurs twice. */
  predicate NoDuplicates<T(==)>(xs: seq<T>) {
    forall i, j :: 0 <= i < j < |xs| ==> xs[i] != xs[j]
  }

  /** `Array.from(new Set(xs))`: the first occurrence of each element, in order. */
  function Dedup<T(==)>(xs: seq<T>): (r: seq<T>)
  {
    if |xs| == 0 then []
    else
      var d := Dedup(xs[..|xs| - 1]);
      if xs[|xs| - 1] in d then d else d + [xs[|xs| - 1]]
  }

  /** The deduplicated sequence has the same elements, none twice, in their original order. */
  lemma {:induction false} DedupProperties<T>(xs: seq<T>)
    ensures forall x :: x in Dedup(xs) <==> x in xs
    ensures NoDuplicates(Dedup(xs))
    ensures IsSubsequence(Dedup(xs), xs)
    decreases |xs|
  {
    if |xs| > 0 {
      var init, last := xs[..|xs| - 1], xs[|xs| - 1];
      DedupProperties(init);
      assert init + [last] == xs;
      SubsequenceSnoc(Dedup(init), init, last);
      assert forall x :: x in xs <==> x in init || x == last;
    }
  }

  /**
   * Deduplicating a sequence without duplicates after something else appended: the
   * sequence itself, then the new elements not already in it, deduplicated.
   */
  lemma {:induction false} DedupAppend<T>(a: seq<T>, b: seq<T>)
    requires NoDuplicates(a)
    ensures Dedup(a + b) == a + Dedup(Filter(b, x => x !in a))
    decreases |b|
  {
    if |b| == 0 {
      assert a + b == a;
      DedupOfDistinct(a);
    } else {
      DedupAppend(a, b[..|b| - 1]);
      DedupAppendStep(a, b[..|b| - 1], b[|b| - 1]);
      assert b[..|b| - 1] + [b[|b| - 1]] == b;
    }
  }

  /** The step of `DedupAppend`: one more element after the appended ones. */
  lemma DedupAppendStep<T>(a: seq<T>, init: seq<T>, y: T)
    requires Dedup(a + init) == a + Dedup(Filter(init, x => x !in a))
    ensures Dedup(a + (init + [y])) == a + Dedup(Filter(init + [y], x => x !in a))
  {
    var notInA := (x: T) => x !in a;
    var f := Filter(init, notInA);
    var d := Dedup(f);
    assert Dedup(a + (init + [y])) == if y in a + d then a + d else a + d + [y] by {
      AppendSnoc(a, init, y);
      DedupSnoc(a + init, y);
    }
    FilterSnoc(init, y, notInA);
    if y in a {
      assert y in a + d;
    } else {
      assert y in d <==> y in f by {
        DedupMembers(f);
      }
      assert y in a + d <==> y in d;
      DedupSnoc(f, y);
      AppendSnoc(a, d, y);
    }
  }

  /** Regrouping a concatenation of four parts. */
  lemma AppendRegroup3<T>(a: seq<T>, b: seq<T>, c: seq<T>, d: seq<T>)
    ensures a + b + c + d == a + (b + c + d)
  {
  }

  /** Regrouping a concatenation of five parts. */
  lemma AppendRegroup4<T>(a: seq<T>, b: seq<T>, c: seq<T>, d: seq<T>, e: seq<T>)
    ensures a + b + c + d + e == a + (b + c + d + e)
  {
  }

  /** Appending one element after a concatenation. */
  lemma AppendSnoc<T>(a: seq<T>, b: seq<T>, x: T)
    ensures a + (b + [x]) == (a + b) + [x]
  {
  }

  lemma FilterSnoc<T>(xs: seq<T>, y: T, p: T -> bool)
    ensures Filter(xs + [y], p) == if p(y) then Filter(xs, p) + [y] else Filter(xs, p)
  {
    FilterAppend(xs, [y], p);
    assert [y][1..] == [];
  }

  /** The deduplicated sequence has the same elements. */
  lemma {:induction false} DedupMembers<T>(xs: seq<T>)
    ensures forall x :: x in Dedup(xs) <==> x in xs
    decreases |xs|
  {
    if |xs| > 0 {
      DedupMembers(xs[..|xs| - 1]);
      assert xs == xs[..|xs| - 1] + [xs[|xs| - 1]];
    }
  }

  /** One more element is kept exactly when it is new. */
  lemma DedupSnoc<T>(xs: seq<T>, y: T)
    ensures Dedup(xs + [y]) == if y in Dedup(xs) then Dedup(xs) else Dedup(xs) + [y]
  {
    assert (xs + [y])[..|xs|] == xs;
  }

  lemma {:induction false} DedupOfDistinct<T>(xs: seq<T>)
    requires NoDuplicates(xs)
    ensures Dedup(xs) == xs
    decreases |xs|
  {
    if |xs| > 0 {
      var init := xs[..|xs| - 1];
      DedupOfDistinct(init);
      assert xs[|xs| - 1] !in init;
      assert init + [xs[|xs| - 1]] == xs;
    }
  }
}
