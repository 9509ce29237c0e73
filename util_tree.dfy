/**
 * The tree helpers of the utility service: building a tree of nodes from records that
 * point to their parent, disabling a subtree, disabling every node flagged as having
 * children, and finding nodes by key in pre-order.
 */
module UtilTree {
  import opened Wrappers
  import opened JsValues
  import opened ServiceTypes
  import opened Sequences

  /** The number of nodes of a tree, counting every descendant. */
  function TreeSize(n: TreeNode): (s: nat)
    ensures s >= 1
  {
    1 + ForestSize(n.children)
  }

  function ForestSize(ns: seq<TreeNode>): nat
    decreases ns, 0
  {
    if |ns| == 0 then 0 else ForestSize(ns[..|ns| - 1]) + TreeSize(ns[|ns| - 1])
  }

  lemma {:induction false} ForestSizeElement(ns: seq<TreeNode>, i: nat)
    requires i < |ns|
    ensures TreeSize(ns[i]) <= ForestSize(ns)
    decreases |ns|
  {
    if i < |ns| - 1 {
      assert ns[..|ns| - 1][i] == ns[i];
      ForestSizeElement(ns[..|ns| - 1], i);
    }
  }

  // ---------------------------------------------------------------- buildTree

  /** The records whose `parentId` is `key` (`===`), in list order. */
  function ChildItems(items: seq<Rec>, key: Value): seq<Rec> {
    Filter(items, (it: Rec) => Get(it, "parentId") == key)
  }

  /**
   * The recursive call of `buildTree` on the node made from `item`: its children are the
   * nodes of its child records, each built in turn; a node whose key is `null` gets no
   * children and is not recorded, though its child records are still visited. The second
   * component lists the keys of the nodes that received children, in the order they were
   * pushed. `None` means the recursion did not finish within `fuel` levels.
   */
  function BuildNode(items: seq<Rec>, item: Rec, fuel: nat): Option<(TreeNode, seq<Value>)>
    decreases fuel, 0, 0
  {
    if fuel == 0 then None
    else
      var key := Get(item, "id");
      var kids := ChildItems(items, key);
      if |kids| == 0 then Some((NewTreeNode(Some(item)), []))
      else
        match BuildNodes(items, kids, fuel - 1)
        case None => None
        case Some((nodes, keys)) =>
          if key == Null then Some((NewTreeNode(Some(item)), keys))
          else Some((NewTreeNode(Some(item)).(children := nodes), [key] + keys))
  }

  /** The nodes of `parents`, built one after the other; the recorded keys are concatenated. */
  function BuildNodes(items: seq<Rec>, parents: seq<Rec>, fuel: nat): Option<(seq<TreeNode>, seq<Value>)>
    decreases fuel, 1, |parents|
  {
    if |parents| == 0 then Some(([], []))
    else
      match BuildNode(items, parents[0], fuel)
      case None => None
      case Some((n, k1)) =>
        match BuildNodes(items, parents[1..], fuel)
        case None => None
        case Some((ns, k2)) => Some(([n] + ns, k1 + k2))
  }

  /** `buildTree(listItem)`: the roots are the records whose `parentId` is `null`. */
  function BuildTree(items: seq<Rec>, fuel: nat): Option<(seq<TreeNode>, seq<Value>)> {
    BuildNodes(items, ChildItems(items, Null), fuel)
  }

  /** The records the nodes were made from. */
  function ItemsOf(nodes: seq<TreeNode>): (r: seq<Rec>)
    ensures |r| == |nodes|
    ensures forall i :: 0 <= i < |nodes| ==> r[i] == nodes[i].item
  {
    if |nodes| == 0 then [] else [nodes[0].item] + ItemsOf(nodes[1..])
  }

  /**
   * A node as `buildTree` leaves it: made from its record by `new TreeNode`, its children
   * the nodes of exactly its child records in list order (none for a `null` key), each
   * itself built.
   */
  ghost predicate Built(items: seq<Rec>, n: TreeNode)
    decreases n
  {
    n == NewTreeNode(Some(n.item)).(children := n.children) &&
    (n.key == Null ==> n.children == []) &&
    (n.key != Null ==> ItemsOf(n.children) == ChildItems(items, n.key)) &&
    forall i :: 0 <= i < |n.children| ==> Built(items, n.children[i])
  }

  /** The keys of the nodes that have children, in pre-order. */
  function KeysWithChildren(nodes: seq<TreeNode>): seq<Value>
    decreases nodes
  {
    if |nodes| == 0 then []
    else
      (if |nodes[0].children| > 0 then [nodes[0].key] else []) + KeysWithChildren(nodes[0].children) +
      KeysWithChildren(nodes[1..])
  }

  /** The node built from `item` is made from it, and is built. */
  lemma {:induction false} BuildNodeShape(items: seq<Rec>, item: Rec, fuel: nat)
    requires BuildNode(items, item, fuel).Some?
    ensures var n := BuildNode(items, item, fuel).value.0; n.item == item && Built(items, n)
    decreases fuel, 0, 0
  {
    var key := Get(item, "id");
    var kids := ChildItems(items, key);
    var base := NewTreeNode(Some(item));
    assert base == base.(children := base.children);
    if |kids| > 0 {
      BuildNodesShape(items, kids, fuel - 1);
    }
  }

  /** The nodes built from `parents` are made from them, in order, and are built. */
  lemma {:induction false} BuildNodesShape(items: seq<Rec>, parents: seq<Rec>, fuel: nat)
    requires BuildNodes(items, parents, fuel).Some?
    ensures var nodes := BuildNodes(items, parents, fuel).value.0;
      ItemsOf(nodes) == parents && forall i :: 0 <= i < |nodes| ==> Built(items, nodes[i])
    decreases fuel, 1, |parents|
  {
    if |parents| > 0 {
      BuildNodeShape(items, parents[0], fuel);
      BuildNodesShape(items, parents[1..], fuel);
      var n := BuildNode(items, parents[0], fuel).value.0;
      var ns := BuildNodes(items, parents[1..], fuel).value.0;
      assert BuildNodes(items, parents, fuel).value.0 == [n] + ns;
      NodesCons(items, n, ns);
      assert parents == [parents[0]] + parents[1..];
    }
  }

  /** One more built node in front of built nodes. */
  lemma NodesCons(items: seq<Rec>, n: TreeNode, ns: seq<TreeNode>)
    requires Built(items, n) && forall i :: 0 <= i < |ns| ==> Built(items, ns[i])
    ensures ItemsOf([n] + ns) == [n.item] + ItemsOf(ns)
    ensures forall i :: 0 <= i < |[n] + ns| ==> Built(items, ([n] + ns)[i])
  {
    var all := [n] + ns;
    assert all[0] == n && all[1..] == ns;
    forall i | 0 <= i < |all|
      ensures Built(items, all[i])
    {
      if i > 0 {
        assert all[i] == ns[i - 1];
      }
    }
  }

  /** The pre-order keys of a node in front of others. */
  lemma KeysCons(n: TreeNode, ns: seq<TreeNode>)
    ensures KeysWithChildren([n] + ns) ==
      (if |n.children| > 0 then [n.key] else []) + KeysWithChildren(n.children) + KeysWithChildren(ns)
  {
    assert ([n] + ns)[0] == n && ([n] + ns)[1..] == ns;
  }

  /** With no `null` id, the keys recorded for a node are those of its subtree's nodes that have children. */
  lemma {:induction false} BuildNodeKeys(items: seq<Rec>, item: Rec, fuel: nat)
    requires BuildNode(items, item, fuel).Some?
    requires (forall i :: 0 <= i < |items| ==> Get(items[i], "id") != Null) && Get(item, "id") != Null
    ensures var (n, keys) := BuildNode(items, item, fuel).value;
      keys == (if |n.children| > 0 then [n.key] else []) + KeysWithChildren(n.children)
    decreases fuel, 0, 0
  {
    var key := Get(item, "id");
    var kids := ChildItems(items, key);
    if |kids| > 0 {
      assert forall i :: 0 <= i < |kids| ==> Get(kids[i], "id") != Null by {
        FilterMembers(items, (it: Rec) => Get(it, "parentId") == key);
      }
      BuildNodesKeys(items, kids, fuel - 1);
      BuildNodesShape(items, kids, fuel - 1);
      var nodes := BuildNodes(items, kids, fuel - 1).value.0;
      assert |nodes| == |ItemsOf(nodes)| == |kids|;
    }
  }

  /** With no `null` id, the keys recorded for a forest are those of its nodes that have children, in pre-order. */
  lemma {:induction false} BuildNodesKeys(items: seq<Rec>, parents: seq<Rec>, fuel: nat)
    requires BuildNodes(items, parents, fuel).Some?
    requires forall i :: 0 <= i < |items| ==> Get(items[i], "id") != Null
    requires forall i :: 0 <= i < |parents| ==> Get(parents[i], "id") != Null
    ensures var (nodes, keys) := BuildNodes(items, parents, fuel).value; keys == KeysWithChildren(nodes)
    decreases fuel, 1, |parents|
  {
    if |parents| > 0 {
      assert Get(parents[0], "id") != Null;
      assert forall i :: 0 <= i < |parents[1..]| ==> Get(parents[1..][i], "id") != Null by {
        assert forall i :: 0 <= i < |parents[1..]| ==> parents[1..][i] == parents[i + 1];
      }
      BuildNodeKeys(items, parents[0], fuel);
      BuildNodesKeys(items, parents[1..], fuel);
      var n := BuildNode(items, parents[0], fuel).value.0;
      var ns := BuildNodes(items, parents[1..], fuel).value.0;
      KeysCons(n, ns);
    }
  }

  /**
   * What `buildTree` returns when it finishes: the roots are the nodes of the records
   * whose `parentId` is `null`, in order; every node's children are the nodes of its
   * child records; and, when no record has a `null` id, the recorded keys are exactly
   * those of the nodes that received children, in pre-order.
   */
  lemma BuildTreeCorrect(items: seq<Rec>, fuel: nat)
    requires BuildTree(items, fuel).Some?
    ensures var (tree, keyNodes) := BuildTree(items, fuel).value;
      ItemsOf(tree) == ChildItems(items, Null) &&
      (forall i :: 0 <= i < |tree| ==> Built(items, tree[i])) &&
      ((forall i :: 0 <= i < |items| ==> Get(items[i], "id") != Null) ==> keyNodes == KeysWithChildren(tree))
  {
    var roots := ChildItems(items, Null);
    BuildNodesShape(items, roots, fuel);
    if forall i :: 0 <= i < |items| ==> Get(items[i], "id") != Null {
      assert forall i :: 0 <= i < |roots| ==> Get(roots[i], "id") != Null by {
        FilterMembers(items, (it: Rec) => Get(it, "parentId") == Null);
      }
      BuildNodesKeys(items, roots, fuel);
    }
  }

  /** A two-level example: record 2 under record 1 gives one root with one child, and records key 1. */
  lemma BuildTreeExample()
    ensures var a := map["id" := Num(1), "parentId" := Null];
      var b := map["id" := Num(2), "parentId" := Num(1)];
      BuildTree([a, b], 2) == Some(([NewTreeNode(Some(a)).(children := [NewTreeNode(Some(b))])], [Num(1)]))
  {
    var a := map["id" := Num(1), "parentId" := Null];
    var b := map["id" := Num(2), "parentId" := Num(1)];
    assert Get(a, "id") == Num(1) && Get(a, "parentId") == Null;
    assert Get(b, "id") == Num(2) && Get(b, "parentId") == Num(1);
    ChildItemsOfTwo(a, b, Null);
    ChildItemsOfTwo(a, b, Num(1));
    ChildItemsOfTwo(a, b, Num(2));
    assert ChildItems([a, b], Null) == [a];
    assert ChildItems([a, b], Num(1)) == [b];
    assert ChildItems([a, b], Num(2)) == [];
    assert [b][1..] == [];
    assert BuildNode([a, b], b, 1) == Some((NewTreeNode(Some(b)), []));
    assert BuildNodes([a, b], [], 1) == Some(([], []));
    var nb := NewTreeNode(Some(b));
    assert [nb] + [] == [nb];
    assert [b][0] == b;
    var e: seq<Value> := [];
    assert e + e == e;
    assert BuildNodes([a, b], [b], 1) == Some(([NewTreeNode(Some(b))], []));
    var kids := ChildItems([a, b], Get(a, "id"));
    assert kids == [b];
    assert BuildNodes([a, b], kids, 1) == Some(([nb], e));
    assert |kids| != 0;
    assert BuildNode([a, b], a, 2).Some?;
    assert BuildNode([a, b], a, 2).value.1 == [Num(1)];
    assert BuildNode([a, b], a, 2).value.0.children == [nb];
    assert BuildNode([a, b], a, 2).value.0 == NewTreeNode(Some(a)).(children := [nb]);
    assert BuildNode([a, b], a, 2) == Some((NewTreeNode(Some(a)).(children := [NewTreeNode(Some(b))]), [Num(1)]));
    assert [a][1..] == [];
    assert [Num(1)] + e == [Num(1)];
    assert BuildNodes([a, b], [], 2) == Some(([], []));
    var na := NewTreeNode(Some(a)).(children := [nb]);
    assert [na] + [] == [na];
    assert BuildNodes([a, b], [a], 2) == Some(([na], [Num(1)]));
  }

  lemma ChildItemsOfTwo(a: Rec, b: Rec, key: Value)
    ensures ChildItems([a, b], key) ==
      (if Get(a, "parentId") == key then [a] else []) + (if Get(b, "parentId") == key then [b] else [])
  {
    var p := (it: Rec) => Get(it, "parentId") == key;
    assert [a, b][1..] == [b] && [b][1..] == [];
    assert Filter([b], p) == (if p(b) then [b] else []) + Filter([], p);
    assert Filter([a, b], p) == (if p(a) then [a] else []) + Filter([b], p);
  }

  /** A root record whose id is `null` is its own child: the recursion never finishes. */
  lemma {:induction false} NullIdRootDiverges(fuel: nat)
    ensures BuildTree([map["id" := Null, "parentId" := Null]], fuel).None?
  {
    var x := map["id" := Null, "parentId" := Null];
    assert [x][1..] == [];
    assert ChildItems([x], Null) == [x];
    NullIdNodeDiverges(x, fuel);
  }

  lemma {:induction false} NullIdNodeDiverges(x: Rec, fuel: nat)
    requires x == map["id" := Null, "parentId" := Null]
    ensures BuildNode([x], x, fuel).None?
    decreases fuel
  {
    assert [x][1..] == [];
    assert ChildItems([x], Null) == [x];
    if fuel > 0 {
      NullIdNodeDiverges(x, fuel - 1);
    }
  }

  // ---------------------------------------------------------------- setDisabledNode

  /** The index of the first node of `tree` with key `key` (`filter(...)[0]`, then `indexOf`), or -1. */
  function FirstWithKey(tree: seq<TreeNode>, key: Value): (r: int)
    ensures -1 <= r < |tree|
    ensures r >= 0 ==> tree[r].key == key && forall j :: 0 <= j < r ==> tree[j].key != key
    ensures r == -1 ==> forall j :: 0 <= j < |tree| ==> tree[j].key != key
  {
    if |tree| == 0 then -1
    else if tree[0].key == key then 0
    else var k := FirstWithKey(tree[1..], key); if k < 0 then -1 else k + 1
  }

  /**
   * The found node disabled together with its subtree: each child is handled by a call
   * that disables the first sibling carrying the child's key, so a child whose key an
   * earlier sibling already has is left as it is.
   */
  function DisableSubtree(n: TreeNode): TreeNode
    decreases n
  {
    n.(disabled := Bool(true),
       children := seq(|n.children|, j requires 0 <= j < |n.children| =>
         if FirstWithKey(n.children, n.children[j].key) == j then DisableSubtree(n.children[j]) else n.children[j]))
  }

  /**
   * `setDisabledNode(nodeId, tree)`: disable the first node of this level with the key
   * and its subtree; when this level has none, search every node's children.
   */
  function SetDisabledNode(nodeId: Value, tree: seq<TreeNode>): seq<TreeNode>
    decreases tree
  {
    var i := FirstWithKey(tree, nodeId);
    if i >= 0 then tree[i := DisableSubtree(tree[i])]
    else seq(|tree|, j requires 0 <= j < |tree| => tree[j].(children := SetDisabledNode(nodeId, tree[j].children)))
  }

  /** The tree with every `disabled` flag erased: what the disabling passes must not change. */
  function Shape(n: TreeNode): TreeNode
    decreases n
  {
    n.(disabled := Null, children := seq(|n.children|, j requires 0 <= j < |n.children| => Shape(n.children[j])))
  }

  function Shapes(tree: seq<TreeNode>): seq<TreeNode> {
    seq(|tree|, j requires 0 <= j < |tree| => Shape(tree[j]))
  }

  lemma ShapeChildren(n: TreeNode)
    ensures Shape(n) == n.(disabled := Null, children := Shapes(n.children))
  {
  }

  /** Every node of the subtree is disabled. */
  ghost predicate AllDisabled(n: TreeNode)
    decreases n
  {
    n.disabled == Bool(true) && forall j :: 0 <= j < |n.children| ==> AllDisabled(n.children[j])
  }

  /** Siblings carry distinct keys, at every level of the subtree. */
  ghost predicate SiblingKeysDistinct(n: TreeNode)
    decreases n
  {
    (forall i, j :: 0 <= i < j < |n.children| ==> n.children[i].key != n.children[j].key) &&
    forall j :: 0 <= j < |n.children| ==> SiblingKeysDistinct(n.children[j])
  }

  /** Some node of the forest, at any depth, has the key. */
  ghost predicate KeyIn(tree: seq<TreeNode>, key: Value)
    decreases tree
  {
    exists j :: 0 <= j < |tree| && (tree[j].key == key || KeyIn(tree[j].children, key))
  }

  lemma {:induction false} DisableSubtreeShape(n: TreeNode)
    ensures Shape(DisableSubtree(n)) == Shape(n)
    ensures SiblingKeysDistinct(n) ==> AllDisabled(DisableSubtree(n))
    decreases n
  {
    var d := DisableSubtree(n);
    forall j | 0 <= j < |n.children|
      ensures Shape(d.children[j]) == Shape(n.children[j])
      ensures SiblingKeysDistinct(n) ==> AllDisabled(d.children[j])
    {
      DisableSubtreeShape(n.children[j]);
      if SiblingKeysDistinct(n) {
        assert FirstWithKey(n.children, n.children[j].key) == j;
      }
    }
  }

  /**
   * Disabling a subtree twice is disabling it once, so the repeated calls the source makes
   * on a child whose key several siblings share leave the same tree as one call.
   */
  lemma {:induction false} DisableSubtreeIdempotent(n: TreeNode)
    ensures DisableSubtree(DisableSubtree(n)) == DisableSubtree(n)
    decreases n
  {
    var d := DisableSubtree(n);
    assert |d.children| == |n.children|;
    forall j | 0 <= j < |n.children|
      ensures d.children[j].key == n.children[j].key
    {
      var c := n.children[j];
      assert DisableSubtree(c).key == c.key;
    }
    forall j | 0 <= j < |n.children|
      ensures FirstWithKey(d.children, d.children[j].key) == FirstWithKey(n.children, n.children[j].key)
    {
      SameKeysSameFirst(n.children, d.children, n.children[j].key);
    }
    forall j | 0 <= j < |n.children|
      ensures DisableSubtree(d).children[j] == d.children[j]
    {
      if FirstWithKey(n.children, n.children[j].key) == j {
        DisableSubtreeIdempotent(n.children[j]);
      }
    }
  }

  /** Two levels whose nodes carry the same keys in the same order have their first hits at the same places. */
  lemma {:induction false} SameKeysSameFirst(a: seq<TreeNode>, b: seq<TreeNode>, key: Value)
    requires |a| == |b| && forall j :: 0 <= j < |a| ==> a[j].key == b[j].key
    ensures FirstWithKey(a, key) == FirstWithKey(b, key)
    decreases |a|
  {
    if |a| > 0 {
      SameKeysSameFirst(a[1..], b[1..], key);
    }
  }

  /**
   * `setDisabledNode` changes only `disabled` flags; a key found on this level gets its
   * whole subtree disabled (siblings' keys distinct) and leaves the other nodes of the
   * level as they were; a key found nowhere changes nothing.
   */
  lemma {:induction false} SetDisabledNodeCorrect(nodeId: Value, tree: seq<TreeNode>)
    ensures |SetDisabledNode(nodeId, tree)| == |tree|
    ensures Shapes(SetDisabledNode(nodeId, tree)) == Shapes(tree)
    ensures var i := FirstWithKey(tree, nodeId);
      i >= 0 ==> (SiblingKeysDistinct(tree[i]) ==> AllDisabled(SetDisabledNode(nodeId, tree)[i])) &&
                 forall j :: 0 <= j < |tree| && j != i ==> SetDisabledNode(nodeId, tree)[j] == tree[j]
    ensures !KeyIn(tree, nodeId) ==> SetDisabledNode(nodeId, tree) == tree
    decreases tree
  {
    var r := SetDisabledNode(nodeId, tree);
    var i := FirstWithKey(tree, nodeId);
    if i >= 0 {
      DisableSubtreeShape(tree[i]);
      forall j | 0 <= j < |tree|
        ensures Shape(r[j]) == Shape(tree[j])
      {
      }
    } else {
      forall j | 0 <= j < |tree|
        ensures Shape(r[j]) == Shape(tree[j])
        ensures !KeyIn(tree, nodeId) ==> r[j] == tree[j]
      {
        SetDisabledNodeCorrect(nodeId, tree[j].children);
        ShapeChildren(r[j]);
        ShapeChildren(tree[j]);
        if !KeyIn(tree, nodeId) {
          assert !KeyIn(tree[j].children, nodeId);
        }
      }
    }
  }

  /** The node or one of its descendants has the key. */
  ghost predicate InSubtree(n: TreeNode, key: Value) {
    n.key == key || KeyIn(n.children, key)
  }

  /** No key occurs twice anywhere in the forest. */
  ghost predicate UniqueKeys(tree: seq<TreeNode>)
    decreases tree
  {
    (forall i, j, k :: 0 <= i < |tree| && 0 <= j < |tree| && i != j && InSubtree(tree[i], k) ==> !InSubtree(tree[j], k)) &&
    forall j :: 0 <= j < |tree| ==> !KeyIn(tree[j].children, tree[j].key) && UniqueKeys(tree[j].children)
  }

  /** Every flag of the subtree set. */
  function DisableAll(n: TreeNode): (d: TreeNode)
    ensures AllDisabled(d) && Shape(d) == Shape(n)
    decreases n
  {
    n.(disabled := Bool(true), children := seq(|n.children|, j requires 0 <= j < |n.children| => DisableAll(n.children[j])))
  }

  /**
   * What disabling a key means on a forest: the node with the key, at whatever depth,
   * is disabled together with all its descendants, and every other node keeps its flag.
   */
  function DisableKey(key: Value, tree: seq<TreeNode>): (r: seq<TreeNode>)
    ensures |r| == |tree|
    decreases tree
  {
    seq(|tree|, j requires 0 <= j < |tree| =>
      if tree[j].key == key then DisableAll(tree[j]) else tree[j].(children := DisableKey(key, tree[j].children)))
  }

  /** A forest without the key is left as it is. */
  lemma {:induction false} DisableKeyAbsent(key: Value, tree: seq<TreeNode>)
    requires !KeyIn(tree, key)
    ensures DisableKey(key, tree) == tree
    decreases tree
  {
    forall j | 0 <= j < |tree|
      ensures DisableKey(key, tree)[j] == tree[j]
    {
      assert !InSubtree(tree[j], key);
      DisableKeyAbsent(key, tree[j].children);
    }
  }

  /** With distinct sibling keys, each child's call disables it, so the whole subtree is disabled. */
  lemma {:induction false} DisableSubtreeIsDisableAll(n: TreeNode)
    requires SiblingKeysDistinct(n)
    ensures DisableSubtree(n) == DisableAll(n)
    decreases n
  {
    forall j | 0 <= j < |n.children|
      ensures DisableSubtree(n).children[j] == DisableAll(n).children[j]
    {
      assert FirstWithKey(n.children, n.children[j].key) == j;
      DisableSubtreeIsDisableAll(n.children[j]);
    }
  }

  /** Keys unique across the forest are in particular distinct among siblings. */
  lemma {:induction false} UniqueKeysSiblings(tree: seq<TreeNode>)
    requires UniqueKeys(tree)
    ensures forall j :: 0 <= j < |tree| ==> SiblingKeysDistinct(tree[j])
    decreases tree
  {
    forall j | 0 <= j < |tree|
      ensures SiblingKeysDistinct(tree[j])
    {
      var cs := tree[j].children;
      assert UniqueKeys(cs);
      forall a, b | 0 <= a < b < |cs|
        ensures cs[a].key != cs[b].key
      {
        assert InSubtree(cs[a], cs[a].key);
      }
      UniqueKeysSiblings(cs);
    }
  }

  /**
   * On a forest whose keys are unique, `setDisabledNode` is `DisableKey`: the node with
   * the key, wherever it lies, ends up disabled with all its descendants, and every other
   * node is unchanged.
   */
  lemma {:induction false} SetDisabledNodeIsDisableKey(nodeId: Value, tree: seq<TreeNode>)
    requires UniqueKeys(tree)
    ensures SetDisabledNode(nodeId, tree) == DisableKey(nodeId, tree)
    decreases tree
  {
    var r := SetDisabledNode(nodeId, tree);
    var d := DisableKey(nodeId, tree);
    var i := FirstWithKey(tree, nodeId);
    if i >= 0 {
      UniqueKeysSiblings(tree);
      DisableSubtreeIsDisableAll(tree[i]);
      forall j | 0 <= j < |tree|
        ensures r[j] == d[j]
      {
        if j != i {
          assert InSubtree(tree[i], nodeId);
          assert !InSubtree(tree[j], nodeId);
          DisableKeyAbsent(nodeId, tree[j].children);
        }
      }
    } else {
      forall j | 0 <= j < |tree|
        ensures r[j] == d[j]
      {
        SetDisabledNodeIsDisableKey(nodeId, tree[j].children);
      }
    }
  }

  // ---------------------------------------------------------------- setOnlySelectLeaf

  /** `setOnlySelectLeaf(tree)`: a node whose record says `hasChildren` is disabled and its children handled; any other node is enabled. */
  function SetOnlySelectLeaf(tree: seq<TreeNode>): seq<TreeNode>
    decreases tree
  {
    seq(|tree|, j requires 0 <= j < |tree| =>
      if Truthy(Get(tree[j].item, "hasChildren")) then tree[j].(disabled := Bool(true), children := SetOnlySelectLeaf(tree[j].children))
      else tree[j].(disabled := Bool(false)))
  }

  /** The record's `hasChildren` flag agrees with the node's children, at every level. */
  ghost predicate HasChildrenAccurate(n: TreeNode)
    decreases n
  {
    (Truthy(Get(n.item, "hasChildren")) <==> |n.children| > 0) &&
    forall j :: 0 <= j < |n.children| ==> HasChildrenAccurate(n.children[j])
  }

  /** Exactly the leaves are enabled, at every level. */
  ghost predicate OnlyLeavesEnabled(n: TreeNode)
    decreases n
  {
    n.disabled == Bool(|n.children| > 0) &&
    forall j :: 0 <= j < |n.children| ==> OnlyLeavesEnabled(n.children[j])
  }

  /**
   * `setOnlySelectLeaf` changes only flags, sets each top-level flag from `hasChildren`,
   * and, where `hasChildren` is accurate, leaves exactly the leaves selectable.
   */
  lemma {:induction false} SetOnlySelectLeafCorrect(tree: seq<TreeNode>)
    ensures Shapes(SetOnlySelectLeaf(tree)) == Shapes(tree)
    ensures forall j :: 0 <= j < |tree| ==>
      SetOnlySelectLeaf(tree)[j].disabled == Bool(Truthy(Get(tree[j].item, "hasChildren")))
    ensures (forall j :: 0 <= j < |tree| ==> HasChildrenAccurate(tree[j])) ==>
      forall j :: 0 <= j < |tree| ==> OnlyLeavesEnabled(SetOnlySelectLeaf(tree)[j])
    decreases tree
  {
    var r := SetOnlySelectLeaf(tree);
    forall j | 0 <= j < |tree|
      ensures Shape(r[j]) == Shape(tree[j])
      ensures HasChildrenAccurate(tree[j]) ==> OnlyLeavesEnabled(r[j])
    {
      SetOnlySelectLeafCorrect(tree[j].children);
      ShapeChildren(r[j]);
      ShapeChildren(tree[j]);
    }
  }

  // ---------------------------------------------------------------- searchTreeNode

  /** The first node with the key, the subtree's root first, then each child's subtree in order. */
  function Search(e: TreeNode, key: Value): Option<TreeNode>
    decreases TreeSize(e), 0
  {
    if e.key == key then Some(e) else SearchAll(e.children, key)
  }

  /** The first hit among the subtrees of `ns`, in order. */
  function SearchAll(ns: seq<TreeNode>, key: Value): Option<TreeNode>
    decreases ForestSize(ns), 1
  {
    if |ns| == 0 then None
    else
      var early := SearchAll(ns[..|ns| - 1], key);
      if early.Some? then early else (ForestSizeElement(ns, |ns| - 1); Search(ns[|ns| - 1], key))
  }

  /** `searchTreeNode(element, key)`: the index loop stops at the first child subtree that has a hit. */
  method SearchTreeNode(element: TreeNode, key: Value) returns (result: Option<TreeNode>)
    ensures result == Search(element, key)
    decreases TreeSize(element), 1
  {
    if element.key == key {
      return Some(element);
    }
    var children := element.children;
    result := None;
    var i := 0;
    assert children[..0] == [];
    while result.None? && i < |children|
      invariant 0 <= i <= |children|
      invariant result == SearchAll(children[..i], key)
    {
      assert children[..i + 1][..i] == children[..i];
      ForestSizeElement(children, i);
      result := SearchTreeNode(children[i], key);
      i := i + 1;
    }
    SearchAllPrefix(children, i, key);
  }

  /** A hit in a prefix of the children is the hit of all of them; so is the miss of all of them. */
  lemma {:induction false} SearchAllPrefix(ns: seq<TreeNode>, i: nat, key: Value)
    requires i <= |ns|
    requires SearchAll(ns[..i], key).Some? || i == |ns|
    ensures SearchAll(ns, key) == SearchAll(ns[..i], key)
    decreases |ns|
  {
    if i == |ns| {
      assert ns[..i] == ns;
    } else {
      assert ns[..|ns| - 1][..i] == ns[..i];
      SearchAllPrefix(ns[..|ns| - 1], i, key);
    }
  }

  /** The nodes of a subtree in pre-order. */
  function Preorder(e: TreeNode): (r: seq<TreeNode>)
    ensures |r| >= 1 && r[0] == e
    decreases TreeSize(e), 0
  {
    [e] + PreorderAll(e.children)
  }

  function PreorderAll(ns: seq<TreeNode>): seq<TreeNode>
    decreases ForestSize(ns), 1
  {
    if |ns| == 0 then []
    else PreorderAll(ns[..|ns| - 1]) + (ForestSizeElement(ns, |ns| - 1); Preorder(ns[|ns| - 1]))
  }

  /** The first element of `xs` with the key. */
  function FirstIn(xs: seq<TreeNode>, key: Value): Option<TreeNode> {
    if |xs| == 0 then None else if xs[0].key == key then Some(xs[0]) else FirstIn(xs[1..], key)
  }

  lemma {:induction false} FirstInAppend(a: seq<TreeNode>, b: seq<TreeNode>, key: Value)
    ensures FirstIn(a + b, key) == if FirstIn(a, key).Some? then FirstIn(a, key) else FirstIn(b, key)
    decreases |a|
  {
    if |a| > 0 {
      assert (a + b)[0] == a[0] && (a + b)[1..] == a[1..] + b;
      FirstInAppend(a[1..], b, key);
    } else {
      assert a + b == b;
    }
  }

  /** `searchTreeNode` finds the first node with the key in pre-order depth-first order, and `null` when there is none. */
  lemma {:induction false} SearchIsFirstInPreorder(e: TreeNode, key: Value)
    ensures Search(e, key) == FirstIn(Preorder(e), key)
    decreases TreeSize(e), 0
  {
    SearchAllIsFirstInPreorder(e.children, key);
    assert ([e] + PreorderAll(e.children))[1..] == PreorderAll(e.children);
  }

  lemma {:induction false} SearchAllIsFirstInPreorder(ns: seq<TreeNode>, key: Value)
    ensures SearchAll(ns, key) == FirstIn(PreorderAll(ns), key)
    decreases ForestSize(ns), 1
  {
    if |ns| > 0 {
      ForestSizeElement(ns, |ns| - 1);
      SearchAllIsFirstInPreorder(ns[..|ns| - 1], key);
      SearchIsFirstInPreorder(ns[|ns| - 1], key);
      FirstInAppend(PreorderAll(ns[..|ns| - 1]), Preorder(ns[|ns| - 1]), key);
    }
  }

  /** A hit carries the key. */
  lemma {:induction false} FirstInHasKey(xs: seq<TreeNode>, key: Value)
    ensures FirstIn(xs, key).Some? ==> FirstIn(xs, key).value.key == key && FirstIn(xs, key).value in xs
    ensures FirstIn(xs, key).None? ==> forall i :: 0 <= i < |xs| ==> xs[i].key != key
    decreases |xs|
  {
    if |xs| > 0 {
      FirstInHasKey(xs[1..], key);
      assert forall i :: 1 <= i < |xs| ==> xs[i] == xs[1..][i - 1];
    }
  }

  // ---------------------------------------------------------------- searchTree

  /** The hits of one tree for the keys, in key order. */
  function HitsOf(t: TreeNode, keys: seq<Value>): seq<TreeNode> {
    if |keys| == 0 then []
    else HitsOf(t, keys[..|keys| - 1]) + (var h := Search(t, keys[|keys| - 1]); if h.Some? then [h.value] else [])
  }

  /** The hits of every tree, tree after tree. */
  function Hits(trees: seq<TreeNode>, keys: seq<Value>): seq<TreeNode> {
    if |trees| == 0 then [] else Hits(trees[..|trees| - 1], keys) + HitsOf(trees[|trees| - 1], keys)
  }

  /** `searchTree(treeNodes, listKeys)`: for each tree and each key, push the node found, if any. */
  method SearchTree(treeNodes: seq<TreeNode>, listKeys: seq<Value>) returns (nodes: seq<TreeNode>)
    ensures nodes == Hits(treeNodes, listKeys)
  {
    nodes := [];
    var t := 0;
    assert treeNodes[..0] == [];
    while t < |treeNodes|
      invariant 0 <= t <= |treeNodes|
      invariant nodes == Hits(treeNodes[..t], listKeys)
    {
      assert treeNodes[..t + 1][..t] == treeNodes[..t];
      ghost var before := nodes;
      var k := 0;
      assert listKeys[..0] == [];
      while k < |listKeys|
        invariant 0 <= k <= |listKeys|
        invariant nodes == before + HitsOf(treeNodes[t], listKeys[..k])
      {
        assert listKeys[..k + 1][..k] == listKeys[..k];
        var node := SearchTreeNode(treeNodes[t], listKeys[k]);
        if node.Some? {
          nodes := nodes + [node.value];
        }
        k := k + 1;
      }
      assert listKeys[..k] == listKeys;
      t := t + 1;
    }
    assert treeNodes[..t] == treeNodes;
  }

  /** Every node `searchTree` returns carries one of the keys, and there is at most one per tree and key. */
  lemma {:induction false} HitsCarryKeys(trees: seq<TreeNode>, keys: seq<Value>)
    ensures forall i :: 0 <= i < |Hits(trees, keys)| ==> Hits(trees, keys)[i].key in keys
    ensures |Hits(trees, keys)| <= |trees| * |keys|
    decreases |trees|
  {
    if |trees| > 0 {
      HitsCarryKeys(trees[..|trees| - 1], keys);
      HitsOfCarryKeys(trees[|trees| - 1], keys);
      assert (|trees| - 1) * |keys| + |keys| == |trees| * |keys|;
    }
  }

  lemma {:induction false} HitsOfCarryKeys(t: TreeNode, keys: seq<Value>)
    ensures forall i :: 0 <= i < |HitsOf(t, keys)| ==> HitsOf(t, keys)[i].key in keys
    ensures |HitsOf(t, keys)| <= |keys|
    decreases |keys|
  {
    if |keys| > 0 {
      var init := keys[..|keys| - 1];
      var k := keys[|keys| - 1];
      HitsOfCarryKeys(t, init);
      SearchIsFirstInPreorder(t, k);
      FirstInHasKey(Preorder(t), k);
      assert forall x :: x in init ==> x in keys;
    }
  }
}
