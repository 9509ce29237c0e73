/**
 * Plain objects whose key ORDER is observable: the filter objects. `Object.entries`
 * walks them in insertion order, assigning an existing key keeps its position, and
 * the spread `{ ...a, ...b }` copies `a` and then assigns every entry of `b`.
 */
module JsObjects {
  import opened JsValues

  predicate UniqueKeys(e: seq<(string, Value)>) {
    forall i, j :: 0 <= i < j < |e| ==> e[i].0 != e[j].0
  }

  /** An object as its own enumerable entries, in order, keys distinct. */
  type JsObject = e: seq<(string, Value)> | UniqueKeys(e) witness []

  /** `Object.prototype.hasOwnProperty.call(o, k)`. */
  predicate Has(o: JsObject, k: string) {
    exists i :: 0 <= i < |o| && o[i].0 == k
  }

  /** Position of key `k` in `o`, or -1. */
  function Position(o: seq<(string, Value)>, k: string): (r: int)
    ensures -1 <= r < |o|
    ensures r >= 0 ==> o[r].0 == k
    ensures r == -1 <==> forall i :: 0 <= i < |o| ==> o[i].0 != k
  {
    if |o| == 0 then -1
    else if o[|o| - 1].0 == k then |o| - 1
    else Position(o[..|o| - 1], k)
  }

  /** `o[k]`, undefined when the key is absent. */
  function Lookup(o: JsObject, k: string): (v: Value)
    ensures !Has(o, k) ==> v == Undefined
    ensures forall i :: 0 <= i < |o| && o[i].0 == k ==> v == o[i].1
  {
    var p := Position(o, k);
    if p < 0 then Undefined else o[p].1
  }

  /** `o[k] = v` on a copy: an existing key is updated where it is, a new key goes last. */
  function Set(o: JsObject, k: string, v: Value): (r: JsObject)
    ensures Has(o, k) ==> |r| == |o|
    ensures !Has(o, k) ==> |r| == |o| + 1 && r[|o|] == (k, v)
    ensures forall i :: 0 <= i < |o| ==> r[i].0 == o[i].0
    ensures Has(r, k) && Lookup(r, k) == v
    ensures forall k' :: k' != k ==> (Has(r, k') <==> Has(o, k')) && Lookup(r, k') == Lookup(o, k')
  {
    var p := Position(o, k);
    if p >= 0 then
      var r := o[p := (k, v)];
      assert r[p].0 == k;
      assert forall i :: 0 <= i < |o| && i != p ==> r[i] == o[i];
      r
    else
      var r := o + [(k, v)];
      assert r[|o|].0 == k;
      r
  }

  /** `{ ...a, ...b }`. */
  function Spread(a: JsObject, b: JsObject): (r: JsObject)
    decreases |b|
  {
    if |b| == 0 then a else Spread(Set(a, b[0].0, b[0].1), b[1..])
  }

  /** The spread is read field by field: `b` wins wherever it has the key. */
  lemma {:induction false} SpreadLookup(a: JsObject, b: JsObject, k: string)
    ensures Has(Spread(a, b), k) <==> Has(a, k) || Has(b, k)
    ensures Lookup(Spread(a, b), k) == if Has(b, k) then Lookup(b, k) else Lookup(a, k)
    decreases |b|
  {
    if |b| > 0 {
      var a' := Set(a, b[0].0, b[0].1);
      var b' := b[1..];
      SpreadLookup(a', b', k);
      TailLookup(b, k);
    }
  }

  /** Reading an object through its first entry and the entries after it. */
  lemma TailLookup(b: JsObject, k: string)
    requires |b| > 0
    ensures k == b[0].0 ==> Has(b, k) && Lookup(b, k) == b[0].1 && !Has(b[1..], k)
    ensures k != b[0].0 ==> (Has(b, k) <==> Has(b[1..], k)) && Lookup(b, k) == Lookup(b[1..], k)
  {
    var b' := b[1..];
    if k == b[0].0 {
      forall i | 0 <= i < |b'|
        ensures b'[i].0 != k
      {
        assert b'[i] == b[i + 1];
      }
    } else {
      if Has(b, k) {
        var i :| 0 <= i < |b| && b[i].0 == k;
        assert b'[i - 1].0 == k;
        assert Lookup(b, k) == b'[i - 1].1;
      }
      if Has(b', k) {
        var i :| 0 <= i < |b'| && b'[i].0 == k;
        assert b[i + 1] == b'[i];
      }
    }
  }

  /** Keys already in `a` keep their place in `{ ...a, ...b }`; new keys come after. */
  lemma {:induction false} SpreadKeepsPrefix(a: JsObject, b: JsObject)
    ensures |Spread(a, b)| >= |a|
    ensures forall i :: 0 <= i < |a| ==> Spread(a, b)[i].0 == a[i].0
    decreases |b|
  {
    if |b| > 0 {
      var a' := Set(a, b[0].0, b[0].1);
      SpreadKeepsPrefix(a', b[1..]);
    }
  }

  /** The object as an unordered record. */
  function ToRec(o: JsObject): (r: Rec)
    ensures forall k :: (k in r <==> Has(o, k)) && Get(r, k) == Lookup(o, k)
  {
    if |o| == 0 then map[]
    else
      var init := o[..|o| - 1];
      var r := ToRec(init)[o[|o| - 1].0 := o[|o| - 1].1];
      InitLookupAll(o);
      r
  }

  /** Reading an object through the entries before its last one and that last entry. */
  lemma InitLookup(o: JsObject, k: string)
    requires |o| > 0
    ensures Has(o, k) <==> Has(o[..|o| - 1], k) || k == o[|o| - 1].0
    ensures k == o[|o| - 1].0 ==> Lookup(o, k) == o[|o| - 1].1
    ensures k != o[|o| - 1].0 ==> Lookup(o, k) == Lookup(o[..|o| - 1], k)
  {
    var init := o[..|o| - 1];
    assert forall i :: 0 <= i < |init| ==> init[i] == o[i];
    if Has(o, k) && k != o[|o| - 1].0 {
      var i :| 0 <= i < |o| && o[i].0 == k;
      assert init[i].0 == k;
    }
  }

  /** `InitLookup` for every key. */
  lemma InitLookupAll(o: JsObject)
    requires |o| > 0
    ensures forall k :: Has(o, k) <==> Has(o[..|o| - 1], k) || k == o[|o| - 1].0
    ensures forall k :: k != o[|o| - 1].0 ==> Lookup(o, k) == Lookup(o[..|o| - 1], k)
  {
    forall k
      ensures Has(o, k) <==> Has(o[..|o| - 1], k) || k == o[|o| - 1].0
      ensures k != o[|o| - 1].0 ==> Lookup(o, k) == Lookup(o[..|o| - 1], k)
    {
      InitLookup(o, k);
    }
  }
}
