/** Whole runs of insertions into an empty tree, seen as the sequence of tree
    values between the calls. */
module RBRuns {
  import Names
  import opened RBShape
  import opened RBSplit
  import opened RBContents
  import RBHeap
  import opened RBTree
  import RBSearch

  /** The nodes of one name, in the order they were inserted. */
  function Under(nodes: seq<RBNode>, key: Names.Name): (r: seq<RBNode>) {
    if nodes == [] then []
    else
      var before := Under(nodes[..|nodes|-1], key);
      if nodes[|nodes|-1].name == key then before + [nodes[|nodes|-1]] else before
  }

  /** What a sorted multimap holds after the run. */
  ghost predicate Holds(m: map<Names.Name, seq<RBNode>>, nodes: seq<RBNode>) {
    forall key :: (key in m <==> Under(nodes, key) != []) && (key in m ==> m[key] == Under(nodes, key))
  }

  /** Consecutive states of a run; from a red root nothing is promised. */
  ghost predicate Run(ts: seq<Tree>, nodes: seq<RBNode>) {
    && |ts| == |nodes| + 1 && ts[0] == Leaf
    && forall i :: 0 <= i < |nodes| ==> IsRed(ts[i]) || Inserts(ts[i], nodes[i], ts[i + 1])
  }

  /** A later node of a known name does not meet a root that will be split. */
  ghost predicate Undisturbed(ts: seq<Tree>, nodes: seq<RBNode>, n: nat)
    requires |ts| == |nodes| + 1 && n <= |nodes|
  {
    forall i :: 0 <= i < n ==>
      !(nodes[i].name in Contents(Inorder(ts[i])) && TwoRedChildren(ts[i]))
  }

  lemma {:induction false} RunRoots(ts: seq<Tree>, nodes: seq<RBNode>, n: nat)
    requires Run(ts, nodes) && n < |ts| && Undisturbed(ts, nodes, n)
    ensures !IsRed(ts[n])
  {
    if n > 0 {
      RunRoots(ts, nodes, n - 1);
      assert Inserts(ts[n - 1], nodes[n - 1], ts[n]);
    }
  }

  /** The root is black after every step of a run if and only if no chained
      node met a root with two red children. */
  lemma RunBlackExactly(ts: seq<Tree>, nodes: seq<RBNode>)
    requires Run(ts, nodes)
    ensures (forall i :: 0 <= i < |ts| ==> !IsRed(ts[i])) <==> Undisturbed(ts, nodes, |nodes|)
  {
    if Undisturbed(ts, nodes, |nodes|) {
      forall i | 0 <= i < |ts| ensures !IsRed(ts[i]) {
        RunRoots(ts, nodes, i);
      }
    }
    if forall i :: 0 <= i < |ts| ==> !IsRed(ts[i]) {
      forall i | 0 <= i < |nodes|
        ensures !(nodes[i].name in Contents(Inorder(ts[i])) && TwoRedChildren(ts[i]))
      {
        assert !IsRed(ts[i]) && !IsRed(ts[i + 1]);
      }
    }
  }

  /** No step before the `n`th has left a red root. */
  ghost predicate BlackBefore(ts: seq<Tree>, n: nat)
    requires n <= |ts|
  {
    forall i :: 0 <= i < n ==> !IsRed(ts[i])
  }

  /** A run refines a sorted multimap, up to and including the first step that
      leaves a red root. */
  lemma {:induction false} RunContents(ts: seq<Tree>, nodes: seq<RBNode>, n: nat)
    requires Run(ts, nodes) && n <= |nodes| && BlackBefore(ts, n)
    ensures Holds(Contents(Inorder(ts[n])), nodes[..n])
  {
    hide RB, Sorted, BlackHeight, Inorder;
    EmptyTree();
    if n > 0 {
      RunContents(ts, nodes, n - 1);
      assert Inserts(ts[n - 1], nodes[n - 1], ts[n]);
      assert nodes[..n][..n - 1] == nodes[..n - 1];
    }
  }

  lemma EmptyTree()
    ensures Contents(Inorder(Leaf)) == map[]
  {
  }

  lemma {:induction false} UnderWitness(nodes: seq<RBNode>, key: Names.Name)
    requires Under(nodes, key) != []
    ensures exists i :: 0 <= i < |nodes| && nodes[i].name == key
  {
    if nodes[|nodes|-1].name != key {
      UnderWitness(nodes[..|nodes|-1], key);
    }
  }

  /** A run of distinct names is never disturbed. */
  lemma {:induction false} DistinctUndisturbed(ts: seq<Tree>, nodes: seq<RBNode>, n: nat)
    requires Run(ts, nodes) && n <= |nodes|
    requires forall i, j :: 0 <= i < j < |nodes| ==> nodes[i].name != nodes[j].name
    ensures Undisturbed(ts, nodes, n)
  {
    if n > 0 {
      DistinctUndisturbed(ts, nodes, n - 1);
      forall i | 0 <= i < n - 1 ensures !IsRed(ts[i]) {
        RunRoots(ts, nodes, i);
      }
      RunContents(ts, nodes, n - 1);
      if nodes[n - 1].name in Contents(Inorder(ts[n - 1])) {
        UnderWitness(nodes[..n - 1], nodes[n - 1].name);
      }
    }
  }

  // ------------------------------------------------------ runs on the heap

  lemma RunOne(ts: seq<Tree>, nodes: seq<RBNode>, k: nat, t: Tree)
    requires k < |nodes| && Run(ts, nodes[..k]) && Inserts(ts[k], nodes[k], t)
    ensures Run(ts + [t], nodes[..k + 1])
  {
    hide Inserts;
    var ts', ns := ts + [t], nodes[..k + 1];
    forall i | 0 <= i < |ns| ensures IsRed(ts'[i]) || Inserts(ts'[i], ns[i], ts'[i + 1]) {
      if i < k {
        assert nodes[..k][i] == ns[i];
      }
    }
  }

  predicate DistinctNames(nodes: seq<RBNode>) {
    forall i, j :: 0 <= i < j < |nodes| ==> nodes[i].name != nodes[j].name
  }

  lemma DistinctRun(ts: seq<Tree>, nodes: seq<RBNode>)
    requires Run(ts, nodes) && DistinctNames(nodes)
    ensures !IsRed(ts[|nodes|])
  {
    DistinctUndisturbed(ts, nodes, |nodes|);
    RunRoots(ts, nodes, |nodes|);
  }

  /** What `ILRBTreeGetRoot` shows of the colour. */
  lemma RootColour(tree: ILRBTree)
    requires tree.Valid()
    ensures tree.head.right != null && tree.head.right.red == IsRed(tree.tree)
  {
    hide RBHeap.Sane;
    RBSearch.AtRoot(tree);
    tree.ReadTree(tree.tree);
  }

  /** Inserting nodes one by one into a new tree for as long as the root is
      black: always a red-black tree that holds the nodes inserted so far, each
      name's nodes in order.  Distinct names all get in. */
  method InsertAll(nodes: seq<RBNode>) returns (tree: ILRBTree, count: nat, ghost ts: seq<Tree>)
    requires forall i, j :: 0 <= i < j < |nodes| ==> nodes[i] != nodes[j]
    modifies nodes
    ensures fresh(tree) && tree.Valid() && count <= |nodes|
    ensures Run(ts, nodes[..count]) && tree.tree == ts[count] && BlackBefore(ts, count)
    ensures Holds(tree.Items(), nodes[..count])
    ensures count < |nodes| ==> IsRed(tree.tree)
    ensures DistinctNames(nodes) ==> count == |nodes| && !IsRed(tree.tree)
  {
    hide ILRBTree.Valid, Run, Holds, Contents, Inorder, DistinctNames;
    tree := new ILRBTree();
    ghost var sentinels := tree.raw.Keys;
    ts := [tree.tree];
    NoRun(nodes);
    count := 0;
    RootColour(tree);
    while count < |nodes| && !tree.head.right.red
      invariant count <= |nodes| && |ts| == count + 1 && tree.head.right != null
      invariant tree.Valid() && Run(ts, nodes[..count]) && tree.tree == ts[count] && BlackBefore(ts, count)
      invariant tree.head.right.red == IsRed(tree.tree)
      invariant tree.raw.Keys == sentinels + set n | n in nodes[..count]
    {
      tree.Insert(nodes[count], nodes[count].name);
      RunOne(ts, nodes, count, tree.tree);
      ts := ts + [tree.tree];
      assert nodes[..count + 1] == nodes[..count] + [nodes[count]];
      count := count + 1;
      RootColour(tree);
    }
    RunContents(ts, nodes[..count], count);
    assert nodes[..count][..count] == nodes[..count];
    AllOrRed(ts, nodes, count);
  }

  lemma AllOrRed(ts: seq<Tree>, nodes: seq<RBNode>, count: nat)
    requires count <= |nodes| && Run(ts, nodes[..count])
    ensures DistinctNames(nodes) ==> !IsRed(ts[count])
  {
    hide Run, IsRed;
    if DistinctNames(nodes) {
      DistinctRun(ts, nodes[..count]);
    }
  }

  lemma NoRun(nodes: seq<RBNode>)
    ensures Run([Leaf], nodes[..0]) && !IsRed(Leaf)
  {
  }

  /** How few nodes decide the shape of the root. */
  lemma SmallTrees(t: Tree)
    requires RB(t, BlackHeight(t))
    ensures Size(t) < 3 ==> !TwoRedChildren(t)
    ensures Size(t) == 3 && BlackHeight(t) == 1 && !IsRed(t) ==> TwoRedChildren(t)
  {
    if TwoRedChildren(t) {
      assert Size(t.left) >= 1 && Size(t.right) >= 1;
    }
    if Size(t) == 3 && BlackHeight(t) == 1 && !IsRed(t) {
      AtMostOne(t.left);
      AtMostOne(t.right);
    }
  }

  lemma AtMostOne(t: Tree)
    requires RB(t, 0)
    ensures Size(t) <= 1 && (Size(t) == 1 ==> IsRed(t))
  {
    if t.Node? {
      assert RB(t.left, 0) && !IsRed(t.left) && RB(t.right, 0) && !IsRed(t.right);
    }
  }

  /** Up to three names, a tree is one black node high. */
  lemma {:induction false} FewNames(ts: seq<Tree>, nodes: seq<RBNode>, n: nat)
    requires Run(ts, nodes) && DistinctNames(nodes) && n <= |nodes| && n <= 3
    ensures !IsRed(ts[n]) && RB(ts[n], BlackHeight(ts[n]))
    ensures Size(ts[n]) == n == |Contents(Inorder(ts[n]))|
    ensures BlackHeight(ts[n]) == (if n == 0 then 0 else 1)
    ensures Holds(Contents(Inorder(ts[n])), nodes[..n])
  {
    hide Contents, Inorder, Holds, RB;
    if n == 0 {
      NoNames();
    } else {
      FewNames(ts, nodes, n - 1);
      NewName(ts[n - 1], nodes, n - 1);
      SmallTrees(ts[n - 1]);
      assert Inserts(ts[n - 1], nodes[n - 1], ts[n]);
      InsertedSize(ts[n - 1], nodes[n - 1], ts[n]);
      AllBlack(ts, nodes, n);
      RunContents(ts, nodes, n);
    }
  }

  lemma NoNames()
    ensures Holds(Contents(Inorder(Leaf)), []) && RB(Leaf, 0) && |Contents(Inorder(Leaf))| == 0
  {
  }

  lemma AllBlack(ts: seq<Tree>, nodes: seq<RBNode>, n: nat)
    requires Run(ts, nodes) && DistinctNames(nodes) && n <= |nodes|
    ensures BlackBefore(ts, n)
  {
    DistinctUndisturbed(ts, nodes, |nodes|);
    forall i | 0 <= i < n ensures !IsRed(ts[i]) {
      RunRoots(ts, nodes, i);
    }
  }

  lemma NewName(t: Tree, nodes: seq<RBNode>, n: nat)
    requires DistinctNames(nodes) && n < |nodes| && Holds(Contents(Inorder(t)), nodes[..n])
    ensures nodes[n].name !in Contents(Inorder(t))
  {
    if nodes[n].name in Contents(Inorder(t)) {
      UnderWitness(nodes[..n], nodes[n].name);
    }
  }

  lemma InsertedSize(t: Tree, node: RBNode, t': Tree)
    requires Inserts(t, node, t') && node.name !in Contents(Inorder(t)) && |Contents(Inorder(t))| == Size(t)
    ensures Size(t') == Size(t) + 1 == |Contents(Inorder(t'))|
  {
    hide RB;
    RBSearch.ContentsSize(Inorder(t'));
    RBSearch.SizeIsLength(t');
  }

  /** The guard is needed, and soon: after any three names, a second node of one
      of them leaves a red root. */
  method DuplicateLeavesRedRoot(nodes: seq<RBNode>) returns (tree: ILRBTree)
    requires |nodes| == 4 && DistinctNames(nodes[..3]) && exists i :: 0 <= i < 3 && nodes[i].name == nodes[3].name
    requires forall i, j :: 0 <= i < j < |nodes| ==> nodes[i] != nodes[j]
    modifies nodes
    ensures tree.Valid() && Holds(tree.Items(), nodes) && IsRed(tree.tree)
  {
    hide ILRBTree.Valid, Run, Holds, Contents, Inorder, DistinctNames;
    var count;
    ghost var ts;
    tree, count, ts := InsertAll(nodes);
    FourthReddens(ts, nodes, count);
    assert nodes[..count] == nodes;
  }

  lemma FourthReddens(ts: seq<Tree>, nodes: seq<RBNode>, count: nat)
    requires |nodes| == 4 && DistinctNames(nodes[..3]) && exists i :: 0 <= i < 3 && nodes[i].name == nodes[3].name
    requires count <= 4 && Run(ts, nodes[..count]) && (count < 4 ==> IsRed(ts[count]))
    ensures count == 4 && IsRed(ts[4])
  {
    hide Contents, Inorder, RB, Holds;
    if count < 4 {
      assert nodes[..count] == nodes[..3][..count];
      DistinctRun(ts, nodes[..count]);
    } else {
      assert nodes[..4] == nodes && nodes[..3][..3] == nodes[..3];
      RunPrefix(ts, nodes, 3);
      FewNames(ts[..4], nodes[..3], 3);
      SmallTrees(ts[3]);
      Known(ts[3], nodes);
      assert Inserts(ts[3], nodes[3], ts[4]);
    }
  }

  lemma RunPrefix(ts: seq<Tree>, nodes: seq<RBNode>, n: nat)
    requires Run(ts, nodes) && n <= |nodes|
    ensures Run(ts[..n + 1], nodes[..n])
  {
    hide Inserts;
    var ts', ns := ts[..n + 1], nodes[..n];
    forall i | 0 <= i < n ensures IsRed(ts'[i]) || Inserts(ts'[i], ns[i], ts'[i + 1]) {
      assert IsRed(ts[i]) || Inserts(ts[i], nodes[i], ts[i + 1]);
    }
  }

  lemma Known(t: Tree, nodes: seq<RBNode>)
    requires |nodes| == 4 && Holds(Contents(Inorder(t)), nodes[..3]) && exists i :: 0 <= i < 3 && nodes[i].name == nodes[3].name
    ensures nodes[3].name in Contents(Inorder(t))
  {
    var i :| 0 <= i < 3 && nodes[i].name == nodes[3].name;
    UnderAt(nodes[..3], i);
  }

  lemma {:induction false} UnderAt(nodes: seq<RBNode>, i: nat)
    requires i < |nodes|
    ensures Under(nodes, nodes[i].name) != []
  {
    if i < |nodes| - 1 {
      UnderAt(nodes[..|nodes|-1], i);
    }
  }

  /** `ILRBTreeSearch` followed by `ILRBTreeNext` until it returns null: the
      nodes of the name, in the order they were inserted. */
  method AllUnder(tree: ILRBTree, key: Names.Name) returns (found: seq<RBNode>)
    requires tree.Valid()
    ensures found == if key in tree.Items() then tree.Items()[key] else []
  {
    hide ILRBTree.Valid;
    found := [];
    var node, steps := RBSearch.Search(tree, key);
    while node != null
      invariant node != null ==> key in tree.Items() && |found| < |tree.Items()[key]| && node == tree.Items()[key][|found|]
      invariant key in tree.Items() ==> found <= tree.Items()[key]
      invariant node == null ==> found == if key in tree.Items() then tree.Items()[key] else []
      decreases if node == null then 0 else |tree.Items()[key]| - |found|
    {
      var i := |found|;
      found := found + [node];
      node := RBSearch.Next(tree, node, key, i);
    }
  }
}
