/** The resumable in-order iterator: a direction per call, and a parent link
    that it leaves in each node on its way down. */
module RBIter {
  import Names
  import opened RBShape
  import RBSplit
  import opened RBHeap
  import RBContents
  import opened RBTree
  import RBSearch

  datatype Direction = LD | LU | RD | RU | RET

  /** The parent links as stored in nodes. */
  type Links = map<RBNode, RBNode?>

  ghost predicate Stored(links: Links)
    reads links.Keys
  {
    forall n :: n in links ==> n.iterParent == links[n]
  }

  /** The parent links from `n`, a node at the end of `p`, lead up the path. */
  ghost predicate Threaded(p: Path, n: RBNode, links: Links) {
    && n in links
    && links[n] == (if p.Top? then null else p.e.n)
    && (p.Step? ==> Threaded(p.up, p.e.n, links))
  }

  lemma {:induction false} ThreadedFrame(p: Path, n: RBNode, links: Links, child: RBNode, value: RBNode?)
    requires Threaded(p, n, links) && child != n && child !in PathSpots(p)
    ensures Threaded(p, n, links[child := value])
  {
    if p.Step? {
      ThreadedFrame(p.up, p.e.n, links, child, value);
    }
  }

  function Length(p: Path): (r: nat) {
    if p.Top? then 0 else 1 + Length(p.up)
  }

  /** How many entries have been returned when the iterator stands at the
      subtree `t` with this direction. */
  function Returned(iter: Direction, p: Path, t: Tree): (r: nat)
    requires t.Node?
  {
    |Before(p)| + match iter
                  case LD => 0
                  case RD => 0
                  case RU => |Inorder(t.left)|
                  case RET => |Inorder(t.left)| + 1
                  case LU => |Inorder(t)|
  }

  function Rank(iter: Direction): (r: nat) {
    match iter
    case RET => 3
    case LD => 2
    case RD => 2
    case LU => 1
    case RU => 0
  }

  ghost predicate AtPosition(tree: ILRBTree, p: Path, t: Tree, links: Links)
    reads tree, links.Keys
  {
    && Located(p, t, tree.mem, tree.head, tree.nil)
    && Before(p) + Inorder(t) + After(p) == Inorder(tree.tree)
    && t.Node? && Threaded(p, t.e.n, links) && Stored(links) && links.Keys <= tree.raw.Keys
  }

  lemma StepPosition(tree: ILRBTree, p: Path, t: Tree, left: bool)
    requires tree.Linked() && Located(p, t, tree.mem, tree.head, tree.nil) && t.Node?
    requires Before(p) + Inorder(t) + After(p) == Inorder(tree.tree)
    ensures var q, u := RBSplit.StepSide(p, t, left), if left then t.left else t.right;
            && Located(q, u, tree.mem, tree.head, tree.nil)
            && Before(q) + Inorder(u) + After(q) == Inorder(tree.tree)
            && (u.Node? ==> u.e.n in tree.raw && u.e.n != t.e.n && u.e.n !in PathSpots(p))
  {
    hide Sane;
    var q, u := RBSplit.StepSide(p, t, left), if left then t.left else t.right;
    ZoomIn(p, t, left, tree.mem, tree.head, tree.nil);
    RBSplit.PlugStep(q, u);
    tree.ReadTree(u);
  }

  /** Leaves the parent link in a child about to be visited. */
  method Thread(tree: ILRBTree, child: RBNode, parent: RBNode, ghost p: Path, ghost t: Tree, ghost left: bool, ghost links: Links)
    returns (ghost links': Links)
    requires tree.Valid() && AtPosition(tree, p, t, links) && parent == t.e.n
    requires var u := if left then t.left else t.right; u.Node? && child == u.e.n
    modifies tree.raw.Keys`iterParent
    ensures tree.Valid()
    ensures AtPosition(tree, RBSplit.StepSide(p, t, left), if left then t.left else t.right, links')
  {
    hide Sane, Located, Sorted, ChainsAgree, RB, Before, After, Inorder;
    StepPosition(tree, p, t, left);
    tree.SetIterParent(child, parent);
    links' := links[child := parent];
    ThreadedFrame(p, t.e.n, links, child, parent);
  }

  /** `ILRBTreeGetRoot`, `ILRBTreeGetLeft`, `ILRBTreeGetRight`: subtrees, with
      the `nil` sentinel turned into null. */
  function OrNull(tree: ILRBTree, n: RBNode): (r: RBNode?) {
    if n != tree.nil then n else null
  }

  lemma ReadSubtrees(tree: ILRBTree, p: Path, t: Tree, links: Links)
    requires tree.Valid() && AtPosition(tree, p, t, links)
    ensures var n := t.e.n;
            && n in tree.raw && n != tree.nil && (n.duplicate ==> n.left != null)
            && tree.GetLeft(n) == Ptr(t.left, tree.nil) && tree.GetRight(n) == Ptr(t.right, tree.nil)
            && (t.left.Node? ==> t.left.e.n != tree.nil) && (t.right.Node? ==> t.right.e.n != tree.nil)
            && n.iterParent == (if p.Top? then null else p.e.n)
  {
    hide Sane;
    tree.NilOutside();
    tree.ReadTree(t);
    tree.ReadTree(t.left);
    tree.ReadTree(t.right);
  }

  /** Back to the parent, telling the sides apart by the right link. */
  lemma UpPosition(tree: ILRBTree, p: Path, t: Tree, links: Links)
    requires tree.Valid() && AtPosition(tree, p, t, links) && p.Step?
    ensures AtPosition(tree, p.up, Fill(p, t), links)
    ensures tree.GetRight(p.e.n) != null && (tree.GetRight(p.e.n) == t.e.n) == !p.wentLeft
    ensures Returned(if p.wentLeft then RU else LU, p.up, Fill(p, t)) == Returned(LU, p, t)
  {
    hide Sane, Sorted, ChainsAgree, RB;
    ZoomOut(p, t, tree.mem, tree.head, tree.nil);
    RBSplit.PlugStep(p, t);
    ReadSubtrees(tree, p, t, links);
    ReadSubtrees(tree, p.up, Fill(p, t), links);
  }

  lemma DownCounts(p: Path, t: Tree)
    requires t.Node?
    ensures Returned(RD, p, t) == Returned(LD, p, t)
    ensures t.left.Node? ==> Returned(LD, RBSplit.StepSide(p, t, true), t.left) == Returned(LD, p, t)
    ensures t.left.Leaf? ==> Returned(RU, p, t) == Returned(LD, p, t)
    ensures t.right.Node? ==> Returned(RD, RBSplit.StepSide(p, t, false), t.right) == Returned(RET, p, t)
    ensures t.right.Leaf? ==> Returned(RET, p, t) == Returned(LU, p, t)
  {
    var l, r := Inorder(t.left), Inorder(t.right);
    assert Inorder(t) == l + [t.e] + r;
    var right := RBSplit.StepSide(p, t, false);
    var left := RBSplit.StepSide(p, t, true);
    assert Before(left) == Before(p) && Before(right) == Before(p) + l + [t.e];
    hide Inorder, Before;
    assert |l + [t.e] + r| == |l| + 1 + |r|;
    assert |Before(p) + l + [t.e]| == |Before(p)| + |l| + 1;
    EmptyLeafCount();
  }

  lemma EmptyLeafCount()
    ensures Inorder(Leaf) == []
  {
  }

  /** The entry that is due at a node, and the end of the sequence. */
  lemma Due(tree: ILRBTree, p: Path, t: Tree, links: Links)
    requires t.Node? && AtPosition(tree, p, t, links)
    ensures Returned(RU, p, t) <= |Inorder(tree.tree)|
    ensures var s, n := Inorder(tree.tree), Returned(RU, p, t);
            && n < |s| && s[n] == t.e && Returned(RET, p, t) == n + 1
    ensures p.Top? ==> Returned(LU, p, t) == |Inorder(tree.tree)|
  {
    var a, b := Before(p) + Inorder(t.left), Inorder(t.right) + After(p);
    RBContents.Around(p, t);
    assert (a + [t.e] + b)[|a|] == t.e;
  }

  /** `ILRBTreeIterNext`: the entry after those already returned, or null
      when all have been. */
  method IterNext(tree: ILRBTree, node: RBNode?, iter: Direction, ghost p: Path, ghost t: Tree, ghost links: Links)
    returns (next: RBNode?, iter': Direction, ghost p': Path, ghost t': Tree, ghost links': Links)
    requires tree.Valid()
    requires node != null ==> AtPosition(tree, p, t, links) && t.Node? && node == t.e.n
    modifies tree.raw.Keys`iterParent
    ensures tree.Valid()
    ensures var s := Inorder(tree.tree);
            var n := if node == null then 0 else Returned(iter, p, t);
            && n <= |s| && (next == null <==> n == |s|)
            && (next != null ==>
                  && next == s[n].n && iter'.RET?
                  && AtPosition(tree, p', t', links') && t'.Node? && next == t'.e.n && Returned(RET, p', t') == n + 1)
    decreases if node == null then 4 else Rank(iter),
              if iter.LU? then Length(p) else if iter.LD? || iter.RD? then RBSplit.Size(t) else 0
  {
    hide ILRBTree.Valid, AtPosition, Inorder, Returned, PathSpots, Spots;
    p', t', links' := p, t, links;
    if node == null {
      iter' := LD;
      AtTop(tree);
      var root := OrNull(tree, tree.head.right);
      if root != null {
        assert tree.tree.Node?;
        tree.SetIterParent(root, null);
        RootPosition(tree, map[root := null]);
        next, iter', p', t', links' := IterNext(tree, root, LD, Top, tree.tree, map[root := null]);
      } else {
        next := null;
      }
      return;
    }
    ReadSubtrees(tree, p, t, links);
    DownCounts(p, t);
    Due(tree, p, t, links);
    if iter.RD? || iter.LD? {
      iter' := LD;
      var child := OrNull(tree, tree.GetLeft(node));
      if child != null {
        links' := Thread(tree, child, node, p, t, true, links);
        next, iter', p', t', links' := IterNext(tree, child, LD, RBSplit.StepSide(p, t, true), t.left, links');
      } else {
        iter' := RET;
        next := node;
      }
      return;
    }
    if iter.RET? {
      var child := OrNull(tree, tree.GetRight(node));
      if child != null {
        links' := Thread(tree, child, node, p, t, false, links);
        next, iter', p', t', links' := IterNext(tree, child, RD, RBSplit.StepSide(p, t, false), t.right, links');
        return;
      }
    }
    if iter.RET? || iter.LU? {
      iter' := iter;
      var parent := node.iterParent;
      if parent != null {
        UpPosition(tree, p, t, links);
        if node == OrNull(tree, tree.GetRight(parent)) {
          next, iter', p', t', links' := IterNext(tree, parent, LU, p.up, Fill(p, t), links);
        } else {
          next, iter', p', t', links' := IterNext(tree, parent, RU, p.up, Fill(p, t), links);
        }
      } else {
        next := null;
      }
      return;
    }
    iter' := RET;
    next := node;
  }

  lemma RootPosition(tree: ILRBTree, links: Links)
    requires tree.Valid() && tree.tree.Node? && tree.tree.e.n.iterParent == null
    requires links == map[tree.tree.e.n := null]
    ensures AtPosition(tree, Top, tree.tree, links) && Returned(LD, Top, tree.tree) == 0
  {
    hide Sane;
    AtTop(tree);
  }

  lemma AtTop(tree: ILRBTree)
    requires tree.Valid()
    ensures tree.head.right == Ptr(tree.tree, tree.nil)
    ensures tree.tree.Leaf? <==> tree.head.right == tree.nil
    ensures tree.tree.Leaf? ==> Inorder(tree.tree) == []
    ensures Located(Top, tree.tree, tree.mem, tree.head, tree.nil)
    ensures Before(Top) == [] && Before(Top) + Inorder(tree.tree) + After(Top) == Inorder(tree.tree)
    ensures tree.tree.Node? ==> tree.tree.e.n in tree.raw && tree.tree.e.n == tree.head.right
    ensures tree.tree.Leaf? ==> |Inorder(tree.tree)| == 0
  {
    hide Sane;
    RBSearch.AtRoot(tree);
    RBSearch.AtEnd(tree, Top, tree.tree);
    tree.ReadTree(tree.tree);
  }

  /** Calling the iterator from NULL until it returns null visits every node
      of the tree once, in ascending order of name. */
  method Traverse(tree: ILRBTree) returns (nodes: seq<RBNode>)
    requires tree.Valid()
    modifies tree.raw.Keys`iterParent
    ensures tree.Valid()
    ensures |nodes| == |Inorder(tree.tree)| && forall i :: 0 <= i < |nodes| ==> nodes[i] == Inorder(tree.tree)[i].n
    ensures forall i, j :: 0 <= i < j < |nodes| ==> Names.Precedes(nodes[i].name, nodes[j].name)
    ensures forall key :: key in tree.Items() <==> exists i :: 0 <= i < |nodes| && nodes[i].name == key
  {
    hide Sane, Located, Sorted, ChainsAgree, RB, Before, After, Inorder, PathSpots, Spots, Returned;
    nodes := [];
    ghost var p, t, links := Top, Leaf, map[];
    var node: RBNode?, iter := null, LD;
    node, iter, p, t, links := IterNext(tree, node, iter, p, t, links);
    while node != null
      invariant tree.Valid()
      invariant var s := Inorder(tree.tree);
                && |nodes| <= |s| && (node == null <==> |nodes| == |s|)
                && (node != null ==>
                      && iter.RET? && AtPosition(tree, p, t, links) && t.Node? && node == t.e.n
                      && node == s[|nodes|].n && Returned(RET, p, t) == |nodes| + 1)
      invariant forall i :: 0 <= i < |nodes| ==> nodes[i] == Inorder(tree.tree)[i].n
      decreases |Inorder(tree.tree)| - |nodes|
    {
      nodes := nodes + [node];
      node, iter, p, t, links := IterNext(tree, node, iter, p, t, links);
    }
    TraversedAll(tree, nodes);
  }

  lemma TraversedAll(tree: ILRBTree, nodes: seq<RBNode>)
    requires tree.Valid() && |nodes| == |Inorder(tree.tree)|
    requires forall i :: 0 <= i < |nodes| ==> nodes[i] == Inorder(tree.tree)[i].n
    ensures forall i, j :: 0 <= i < j < |nodes| ==> Names.Precedes(nodes[i].name, nodes[j].name)
    ensures forall key :: key in tree.Items() <==> exists i :: 0 <= i < |nodes| && nodes[i].name == key
  {
    hide ILRBTree.Linked, Located, ChainsAgree, RB;
    var s := Inorder(tree.tree);
    forall i, j | 0 <= i < j < |nodes| ensures Names.Precedes(nodes[i].name, nodes[j].name) {
      Names.StrCmpPrecedes(nodes[i].name, nodes[j].name);
    }
    forall key | key in tree.Items() ensures exists i :: 0 <= i < |nodes| && nodes[i].name == key {
      var i := RBContents.ContentsIndex(s, key);
      assert nodes[i].name == key;
    }
    forall i | 0 <= i < |nodes| ensures nodes[i].name in tree.Items() {
      RBContents.ContentsAt(s, i);
    }
  }
}
