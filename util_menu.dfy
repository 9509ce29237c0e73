/**
 * The menu helpers of the utility service: whether any of a list of links is granted,
 * and the visibility pass over the menu tree against the map of granted links.
 */
module UtilMenu {
  import opened Wrappers
  import opened UtilValues

  /** `checkVisibleMenu(...urls)(object)`, with `object` renamed `granted`: some link is an own key of the granted map. */
  function CheckVisibleMenu(urls: seq<string>, granted: map<string, int>): (display: bool)
    ensures display <==> exists i :: 0 <= i < |urls| && urls[i] in granted
  {
    if |urls| == 0 then false
    else CheckVisibleMenu(urls[..|urls| - 1], granted) || urls[|urls| - 1] in granted
  }

  /** A menu entry; an absent `children` is the empty sequence. */
  datatype Menu = Menu(name: string, link: string, children: seq<Menu>, show: bool)

  /** `/\:\w+/` matches at position `j`: a `:` followed by a word character. */
  predicate ParamAt(s: string, j: nat) {
    j + 1 < |s| && s[j] == ':' && IsWordChar(s[j + 1])
  }

  /** The position of the first `:` followed by a word character, where `/\:\w+/` first matches. */
  function FirstParam(s: string): (r: Option<nat>)
    ensures r.Some? ==> ParamAt(s, r.value)
    ensures r.Some? ==> forall j: nat :: j < r.value ==> !ParamAt(s, j)
    ensures r.None? ==> forall j: nat :: !ParamAt(s, j)
  {
    if |s| < 2 then None
    else if ParamAt(s, 0) then Some(0)
    else
      var r := FirstParam(s[1..]);
      assert forall j: nat :: 1 <= j ==> (ParamAt(s, j) <==> ParamAt(s[1..], j - 1));
      match r
      case None => None
      case Some(k) => Some(k + 1)
  }

  /** `link.replace(/\:\w+/, "*")`: the first `:` with the longest run of word characters after it becomes `*`. */
  function ReplaceParam(link: string): (r: string)
    ensures FirstParam(link).None? ==> r == link
    ensures FirstParam(link).Some? ==>
      var i := FirstParam(link).value;
      var n := WordRun(link[i + 1..]);
      n >= 1 && i + 1 + n <= |link| && r == Replaced(link, i, n) &&
      forall j :: i + 1 <= j < i + 1 + n ==> IsWordChar(link[j])
  {
    match FirstParam(link)
    case None => link
    case Some(i) =>
      var n := WordRun(link[i + 1..]);
      WordRunInside(link, i + 1);
      Replaced(link, i, n)
  }

  /** `link` with the `1 + n` characters from position `i` on replaced by one `*`. */
  function Replaced(link: string, i: nat, n: nat): (r: string)
    requires i + 1 + n <= |link|
    ensures |r| == |link| - n && r[i] == '*'
    ensures r[..i] == link[..i] && r[i + 1..] == link[i + 1 + n..]
  {
    link[..i] + "*" + link[i + 1 + n..]
  }

  /** The word run after position `start` is at least one character when `link[start]` is one, and is made of word characters of `link`. */
  lemma WordRunInside(link: string, start: nat)
    requires start <= |link|
    ensures var n := WordRun(link[start..]);
      start + n <= |link| && (start < |link| && IsWordChar(link[start]) ==> n >= 1) &&
      forall j :: start <= j < start + n ==> IsWordChar(link[j])
  {
    var t := link[start..];
    assert forall j :: start <= j < |link| ==> link[j] == t[j - start];
    if start < |link| {
      assert t[0] == link[start];
    }
  }

  /**
   * The first route parameter becomes `*`: a link `<a>:<w><b>` whose `a` has no `:`, whose
   * `w` is a non-empty word and whose `b` does not go on with a word character.
   */
  lemma ReplaceParamOf(a: string, w: string, b: string)
    requires ':' !in a
    requires |w| > 0 && forall i :: 0 <= i < |w| ==> IsWordChar(w[i])
    requires |b| > 0 ==> !IsWordChar(b[0])
    ensures ReplaceParam(a + ":" + w + b) == a + "*" + b
  {
    FirstParamOf(a, w, b);
    WordRunAfterParam(a, w, b);
    ReplacedOf(a, w, b);
  }

  /** The first match in `<a>:<w><b>` is the `:` after `a`. */
  lemma FirstParamOf(a: string, w: string, b: string)
    requires ':' !in a && |w| > 0 && IsWordChar(w[0])
    ensures FirstParam(a + ":" + w + b) == Some(|a|)
  {
    var t := ":" + w + b;
    assert t[0] == ':' && t[1] == w[0];
    assert FirstParam(t) == Some(0);
    FirstParamAfter(a, t);
    assert a + ":" + w + b == a + t;
  }

  /** The word run after the `:` of `<a>:<w><b>` is `w`. */
  lemma WordRunAfterParam(a: string, w: string, b: string)
    requires forall i :: 0 <= i < |w| ==> IsWordChar(w[i])
    requires |b| > 0 ==> !IsWordChar(b[0])
    ensures WordRun((a + ":" + w + b)[|a| + 1..]) == |w|
  {
    assert (a + ":" + w + b)[|a| + 1..] == w + b;
    WordRunOfWord(w, b);
  }

  /** Replacing `:<w>` in `<a>:<w><b>` leaves `<a>*<b>`. */
  lemma ReplacedOf(a: string, w: string, b: string)
    ensures Replaced(a + ":" + w + b, |a|, |w|) == a + "*" + b
  {
    var s := a + ":" + w + b;
    var r := Replaced(s, |a|, |w|);
    assert r[..|a|] == s[..|a|] == a;
    assert r[|a| + 1..] == s[|a| + 1 + |w|..] == b;
    assert r == r[..|a|] + [r[|a|]] + r[|a| + 1..];
  }

  /** A word followed by something that does not go on with a word character is the word run. */
  lemma WordRunOfWord(w: string, b: string)
    requires forall i :: 0 <= i < |w| ==> IsWordChar(w[i])
    requires |b| > 0 ==> !IsWordChar(b[0])
    ensures WordRun(w + b) == |w|
  {
    var s := w + b;
    assert forall i :: 0 <= i < |w| ==> s[i] == w[i];
    assert |w| < |s| ==> s[|w|] == b[0];
    WordRunIs(s, |w|);
  }

  /** A prefix without `:` moves the first match by its length. */
  lemma FirstParamAfter(a: string, t: string)
    requires ':' !in a && FirstParam(t) == Some(0)
    ensures FirstParam(a + t) == Some(|a|)
  {
    var s := a + t;
    assert s[|a|..] == t;
    assert forall j :: 0 <= j < |a| ==> s[j] == a[j];
    FirstParamSkips(s, |a|);
  }

  /** A route parameter becomes `*`; the rest of the link is kept. */
  lemma ReplaceParamExample()
    ensures ReplaceParam("/u/:id/e") == "/u/*/e"
  {
    assert IsWordChar('i') && IsWordChar('d') && !IsWordChar('/');
    ReplaceParamOf("/u/", "id", "/e");
    assert "/u/" + ":" + "id" + "/e" == "/u/:id/e";
  }

  /** A link without a `:` is kept as it is. */
  lemma ReplaceParamPlainExample()
    ensures ReplaceParam("/users") == "/users"
  {
    var t := "/users";
    assert forall j :: 0 <= j < |t| ==> t[j] != ':';
    NoColonNoParam(t);
  }

  /** Skipping a prefix without a `:` does not move the first match. */
  lemma {:induction false} FirstParamSkips(s: string, k: nat)
    requires k < |s| - 1
    requires forall j :: 0 <= j < k ==> s[j] != ':'
    requires FirstParam(s[k..]) == Some(0)
    ensures FirstParam(s) == Some(k)
    decreases k
  {
    if k > 0 {
      assert s[1..][k - 1..] == s[k..];
      FirstParamSkips(s[1..], k - 1);
    }
  }

  lemma {:induction false} NoColonNoParam(s: string)
    requires forall j :: 0 <= j < |s| ==> s[j] != ':'
    ensures FirstParam(s).None?
  {
  }

  /** The entry after the visibility pass: a leaf from the map, a parent from its children. */
  function Shown(m: Menu, mapper: map<string, int>): Menu
    decreases m
  {
    if |m.children| > 0 then
      var kids := seq(|m.children|, j requires 0 <= j < |m.children| => Shown(m.children[j], mapper));
      m.(children := kids, show := AnyShows(kids))
    else m.(show := ReplaceParam(m.link) in mapper)
  }

  /** `tree.filter((current) => current.show)[0] ? true : false`. */
  predicate AnyShows(tree: seq<Menu>) {
    exists j :: 0 <= j < |tree| && tree[j].show
  }

  /** The visibility pass on a level: each entry in turn. */
  function ShownAll(tree: seq<Menu>, mapper: map<string, int>): (r: seq<Menu>)
    ensures |r| == |tree|
  {
    seq(|tree|, j requires 0 <= j < |tree| => Shown(tree[j], mapper))
  }

  /**
   * `mapTreeMenu(tree, mapper)`: the loop sets every entry's `show`, descending into
   * children first, and the result says whether some entry of the level shows;
   * an empty level returns `undefined` (`None`).
   */
  method MapTreeMenu(tree: seq<Menu>, mapper: map<string, int>) returns (updated: seq<Menu>, result: Option<bool>)
    ensures updated == ShownAll(tree, mapper)
    ensures |tree| == 0 ==> result.None?
    ensures |tree| > 0 ==> result == Some(AnyShows(updated))
    decreases tree
  {
    if |tree| == 0 {
      return tree, None;
    }
    updated := [];
    var i := 0;
    while i < |tree|
      invariant 0 <= i <= |tree|
      invariant |updated| == i
      invariant forall j :: 0 <= j < i ==> updated[j] == Shown(tree[j], mapper)
    {
      var item := tree[i];
      var modifiedLink := ReplaceParam(item.link);
      item := item.(show := false);
      if |item.children| > 0 {
        var kids, isShow := MapTreeMenu(item.children, mapper);
        item := item.(children := kids, show := isShow.value);
      } else if modifiedLink in mapper {
        item := item.(show := true);
      } else {
        item := item.(show := false);
      }
      assert item == Shown(tree[i], mapper);
      updated := updated + [item];
      i := i + 1;
    }
    result := Some(exists j :: 0 <= j < |updated| && updated[j].show);
  }

  /** The links of the leaves below an entry, left to right. */
  function Leaves(m: Menu): seq<string>
    decreases m, 1
  {
    if |m.children| == 0 then [m.link] else LeavesAll(m.children)
  }

  function LeavesAll(ms: seq<Menu>): seq<string>
    decreases ms, 0
  {
    if |ms| == 0 then [] else LeavesAll(ms[..|ms| - 1]) + Leaves(ms[|ms| - 1])
  }

  /** Some leaf of the level, at any depth, has a granted link. */
  ghost predicate SomeLeafGranted(ms: seq<Menu>, mapper: map<string, int>) {
    exists l :: l in LeavesAll(ms) && ReplaceParam(l) in mapper
  }

  /**
   * After the pass an entry shows exactly when one of the leaves below it has its link,
   * first parameter replaced by `*`, among the granted keys; the links and the shape of
   * the tree are kept.
   */
  lemma {:induction false} ShownIffGrantedLeaf(m: Menu, mapper: map<string, int>)
    ensures Shown(m, mapper).show <==> exists l :: l in Leaves(m) && ReplaceParam(l) in mapper
    ensures Shown(m, mapper).link == m.link && |Shown(m, mapper).children| == |m.children|
    decreases m, 1
  {
    if |m.children| > 0 {
      ShownAllIffGrantedLeaf(m.children, mapper);
      assert Shown(m, mapper).children == ShownAll(m.children, mapper);
      assert Leaves(m) == LeavesAll(m.children);
    }
  }

  lemma {:induction false} ShownAllIffGrantedLeaf(ms: seq<Menu>, mapper: map<string, int>)
    ensures AnyShows(ShownAll(ms, mapper)) <==> SomeLeafGranted(ms, mapper)
    decreases ms, 0
  {
    if |ms| > 0 {
      var init, last := ms[..|ms| - 1], ms[|ms| - 1];
      ShownAllIffGrantedLeaf(init, mapper);
      ShownIffGrantedLeaf(last, mapper);
      var s, si := ShownAll(ms, mapper), ShownAll(init, mapper);
      assert forall j :: 0 <= j < |init| ==> s[j] == si[j];
      assert AnyShows(s) <==> AnyShows(si) || Shown(last, mapper).show by {
        if AnyShows(s) {
          var j :| 0 <= j < |s| && s[j].show;
          if j < |init| { assert si[j].show; }
        }
        if AnyShows(si) {
          var j :| 0 <= j < |si| && si[j].show;
          assert s[j].show;
        }
        if Shown(last, mapper).show {
          assert s[|ms| - 1].show;
        }
      }
      assert LeavesAll(ms) == LeavesAll(init) + Leaves(last);
    }
  }

  /** A leaf shows exactly when its link is granted; a parent shows exactly when some child shows. */
  lemma LeafAndParentRule(m: Menu, mapper: map<string, int>)
    ensures |m.children| == 0 ==> (Shown(m, mapper).show <==> ReplaceParam(m.link) in mapper)
    ensures |m.children| > 0 ==>
      (Shown(m, mapper).show <==> exists j :: 0 <= j < |m.children| && Shown(m.children[j], mapper).show)
  {
    if |m.children| > 0 {
      var s := Shown(m, mapper);
      assert forall j :: 0 <= j < |m.children| ==> s.children[j] == Shown(m.children[j], mapper);
    }
  }
}
