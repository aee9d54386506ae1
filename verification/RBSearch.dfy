/** Searching the tree, walking the nodes of one name, and how many
    comparisons a search can take. */
module RBSearch {
  import opened Names
  import opened RBShape
  import opened RBSplit
  import RBContents
  import opened RBHeap
  import opened RBTree

  function Pow2(n: nat): (r: nat) {
    if n == 0 then 1 else 2 * Pow2(n - 1)
  }

  function Height(t: Tree): (r: nat) {
    if t.Leaf? then 0
    else 1 + if Height(t.left) < Height(t.right) then Height(t.right) else Height(t.left)
  }

  /** At most every second node on a way down is red. */
  lemma {:induction false} HeightBound(t: Tree, h: nat)
    requires RB(t, h)
    ensures Height(t) <= 2 * h + (if IsRed(t) then 1 else 0)
  {
    if t.Node? {
      HeightBound(t.left, if t.red then h else h - 1);
      HeightBound(t.right, if t.red then h else h - 1);
    }
  }

  lemma {:induction false} SizeBound(t: Tree, h: nat)
    requires RB(t, h)
    ensures Pow2(h) <= Size(t) + 1
  {
    if t.Node? {
      SizeBound(t.left, if t.red then h else h - 1);
      SizeBound(t.right, if t.red then h else h - 1);
    }
  }

  lemma {:induction false} Pow2Double(h: nat)
    ensures Pow2(2 * h) == Pow2(h) * Pow2(h)
  {
    if h > 0 {
      Pow2Double(h - 1);
      assert Pow2(2 * h) == 2 * Pow2(2 * h - 1) == 4 * Pow2(2 * (h - 1));
    }
  }

  lemma {:induction false} Pow2Monotone(a: nat, b: nat)
    requires a <= b
    ensures Pow2(a) <= Pow2(b)
  {
    if a < b {
      Pow2Monotone(a, b - 1);
    }
  }

  lemma {:induction false} SizeIsLength(t: Tree)
    ensures |Inorder(t)| == Size(t)
  {
    if t.Node? {
      SizeIsLength(t.left);
      SizeIsLength(t.right);
    }
  }

  /** One key per entry. */
  lemma {:induction false} ContentsSize(s: seq<Entry>)
    requires Sorted(s)
    ensures |Contents(s)| == |s|
  {
    if s != [] {
      var s', key := s[..|s|-1], s[|s|-1].n.name;
      ContentsSize(s');
      if key in Contents(s') {
        var i := RBContents.ContentsIndex(s', key);
        StrCmpEqual(s[i].n.name, s[|s|-1].n.name);
      }
      assert Contents(s).Keys == Contents(s').Keys + {key};
    }
  }

  /** A way down of `steps` nodes in a tree of `n` names with a black root
      satisfies 2^steps <= (n + 1)^2, that is steps <= 2 log2(n + 1). */
  lemma StepsBound(t: Tree, h: nat, steps: nat)
    requires RB(t, h) && !IsRed(t) && Sorted(Inorder(t)) && steps <= Height(t)
    ensures var n := |Contents(Inorder(t))|; Pow2(steps) <= (n + 1) * (n + 1)
  {
    HeightBound(t, h);
    SizeBound(t, h);
    SizeIsLength(t);
    ContentsSize(Inorder(t));
    Pow2Monotone(steps, 2 * h);
    Pow2Double(h);
    var n := |Contents(Inorder(t))|;
    assert Pow2(h) * Pow2(h) <= (n + 1) * (n + 1) by {
      MulMonotone(Pow2(h), n + 1);
    }
  }

  lemma MulMonotone(a: nat, b: nat)
    requires a <= b
    ensures a * a <= b * b
  {
  }

  lemma FoundHere(tree: ILRBTree, p: Path, t: Tree)
    requires tree.Ordered() && t.Node?
    requires Before(p) + Inorder(t) + After(p) == Inorder(tree.tree)
    ensures t.e.n.name in tree.Items() && tree.Items()[t.e.n.name] == [t.e.n] + t.e.dups
    ensures t.e.n in tree.chains && tree.chains[t.e.n] == t.e.dups
  {
    var a, b := Before(p) + Inorder(t.left), Inorder(t.right) + After(p);
    RBContents.Around(p, t);
    assert (a + [t.e] + b)[|a|] == t.e;
    RBContents.ContentsAt(a + [t.e] + b, |a|);
  }

  lemma NotFound(tree: ILRBTree, p: Path, key: Name)
    requires tree.Ordered() && Heads(p, key)
    requires Before(p) + Inorder(Leaf) + After(p) == Inorder(tree.tree)
    ensures key !in tree.Items()
  {
    assert Before(p) + [] + After(p) == Before(p) + After(p);
    RBContents.HeadsBounds(p, [], key);
    RBContents.ContentsFresh(Before(p), After(p), key);
  }

  /** One step of a search, in a tree at rest. */
  lemma SearchStep(tree: ILRBTree, p: Path, t: Tree, key: Name)
    requires tree.Linked() && Located(p, t, tree.mem, tree.head, tree.nil) && Heads(p, key) && t.Node?
    requires StrCmp(key, t.e.n.name) != 0
    ensures var q, u := StepDown(p, t, key), KeyChild(t, key);
            && Located(q, u, tree.mem, tree.head, tree.nil) && Heads(q, key)
            && Height(u) < Height(t)
            && Before(q) + Inorder(u) + After(q) == Before(p) + Inorder(t) + After(p)
            && (t.e.n.duplicate ==> t.e.n.left != null)
            && Ptr(u, tree.nil) == (if StrCmp(key, t.e.n.name) < 0
                                    then (if !t.e.n.duplicate then t.e.n.left else t.e.n.left.left)
                                    else t.e.n.right)
  {
    hide Sane;
    tree.ReadTree(t);
    ZoomIn(p, t, StrCmp(key, t.e.n.name) < 0, tree.mem, tree.head, tree.nil);
    PlugStep(StepDown(p, t, key), KeyChild(t, key));
  }

  lemma AtEnd(tree: ILRBTree, p: Path, t: Tree)
    requires tree.Linked() && Located(p, t, tree.mem, tree.head, tree.nil)
    ensures Ptr(t, tree.nil) == tree.nil <==> t.Leaf?
  {
    tree.NilOutside();
  }

  lemma AtRoot(tree: ILRBTree)
    requires tree.Linked() && Located(Top, tree.tree, tree.mem, tree.head, tree.nil)
    ensures tree.head.right == Ptr(tree.tree, tree.nil)
    ensures Before(Top) + Inorder(tree.tree) + After(Top) == Inorder(tree.tree)
  {
    hide Sane;
    tree.ReadPath(Top, Ptr(tree.tree, tree.nil), "");
  }

  /** `ILRBTreeSearch`: the first node of the name, if there is one. */
  method Search(tree: ILRBTree, key: Name) returns (node: RBNode?, ghost steps: nat)
    requires tree.Valid()
    ensures node != null <==> key in tree.Items()
    ensures node != null ==> |tree.Items()[key]| > 0 && node == tree.Items()[key][0]
    ensures !IsRed(tree.tree) ==> var n := |tree.Items()|; Pow2(steps) <= (n + 1) * (n + 1)
  {
    hide Sane, Located, Sorted, ChainsAgree, RB, Contents, Height, Pow2, Inorder, Before, After, Heads;
    ghost var p, t := Top, tree.tree;
    steps := 0;
    AtRoot(tree);
    NoHeads(key);
    node := tree.head.right;
    AtEnd(tree, p, t);
    while node != tree.nil
      invariant Located(p, t, tree.mem, tree.head, tree.nil) && Heads(p, key) && node == Ptr(t, tree.nil)
      invariant node == tree.nil <==> t.Leaf?
      invariant Before(p) + Inorder(t) + After(p) == Inorder(tree.tree)
      invariant steps + Height(t) <= Height(tree.tree)
      decreases Height(t)
    {
      var cmp := StrCmp(key, node.name);
      if cmp == 0 {
        StrCmpEqual(key, node.name);
        HeightPositive(t);
        FoundHere(tree, p, t);
        if !IsRed(tree.tree) {
          StepsBound(tree.tree, tree.blackHeight, steps + 1);
        }
        steps := steps + 1;
        return;
      }
      SearchStep(tree, p, t, key);
      steps := steps + 1;
      if cmp < 0 {
        if !node.duplicate {
          node := node.left;
        } else {
          node := node.left.left;
        }
      } else {
        node := node.right;
      }
      p, t := StepDown(p, t, key), KeyChild(t, key);
      AtEnd(tree, p, t);
    }
    NotFound(tree, p, key);
    if !IsRed(tree.tree) {
      StepsBound(tree.tree, tree.blackHeight, steps);
    }
    node := null;
  }

  lemma NoHeads(key: Name)
    ensures Heads(Top, key)
  {
  }

  lemma HeightPositive(t: Tree)
    requires t.Node?
    ensures Height(t) >= 1
  {
  }

  /** `ILRBTreeNext`: the node inserted next under the same name. */
  method Next(tree: ILRBTree, node: RBNode, ghost key: Name, ghost i: nat) returns (next: RBNode?)
    requires tree.Valid() && key in tree.Items() && i < |tree.Items()[key]| && node == tree.Items()[key][i]
    ensures next == if i + 1 < |tree.Items()[key]| then tree.Items()[key][i + 1] else null
  {
    hide Sane, Located, Sorted, ChainsAgree, RB, Contents, Inorder;
    NextReads(tree, node, key, i);
    if node.duplicate {
      next := node.left;
    } else if node.continued {
      next := node.right;
    } else {
      next := null;
    }
  }

  lemma NextReads(tree: ILRBTree, node: RBNode, key: Name, i: nat)
    requires tree.Valid() && key in tree.Items() && i < |tree.Items()[key]| && node == tree.Items()[key][i]
    ensures var s := tree.Items()[key];
            && node.duplicate == (i == 0 && |s| > 1)
            && (node.duplicate ==> node.left == s[1])
            && (i == 0 ==> !node.continued)
            && (i > 0 ==> node.continued == (i + 1 < |s|) && (node.continued ==> node.right == s[i + 1]))
  {
    hide Located, RB;
    var entries := Inorder(tree.tree);
    var j := RBContents.ContentsIndex(entries, key);
    RBContents.ContentsAt(entries, j);
    var n, dups := entries[j].n, entries[j].dups;
    assert CellRep(n, tree.mem[n], dups, tree.raw);
    if i > 0 {
      tree.ReadLink(n, i - 1);
    } else if dups != [] {
      tree.ReadLink(n, 0);
    }
  }
}
