/** The red-black tree of codegen/cg_rbtree.c on heap nodes. */
module RBTree {
  import opened Names
  import opened RBShape
  import opened RBSplit
  import opened RBHeap
  import opened RBContents

  class ILRBTree {
    const head: RBNode
    const nil: RBNode
    ghost var tree: Tree
    ghost var blackHeight: nat
    ghost var raw: Store
    ghost var mem: Mem
    ghost var chains: Chains
    ghost var owner: map<RBNode, (RBNode, int)>

    ghost function Repr(): (r: set<object>)
      reads this
    {
      {this} + raw.Keys
    }

    /** `raw` is what the nodes really hold. */
    ghost predicate Snapshot()
      reads `raw, raw.Keys
    {
      forall n :: n in raw ==> Fields(n.left, n.right, n.red, n.duplicate, n.continued) == raw[n]
    }

    ghost predicate Linked()
      reads `raw, `mem, `chains, `owner, raw.Keys
    {
      && Snapshot() && Sane(raw, mem, chains, owner)
      && head != nil && nil in raw && nil !in owner
      && raw[nil] == Fields(nil, nil, false, false, false)
    }

    /** The invariant between calls. */
    ghost predicate Valid()
      reads this, raw.Keys
    {
      && Linked() && Located(Top, tree, mem, head, nil)
      && Ordered() && RB(tree, blackHeight)
    }

    /** The entries of `tree` are sorted and have the recorded chains. */
    ghost predicate Ordered()
      reads this
    {
      ChainsAgree(Inorder(tree), chains) && Sorted(Inorder(tree))
    }

    /** What users see: for each name the nodes inserted under it, in order. */
    ghost function Items(): (r: map<Name, seq<RBNode>>)
      reads this
    {
      Contents(Inorder(tree))
    }

    constructor ()
      ensures Valid() && fresh(raw.Keys) && tree == Leaf
      ensures mem == map[head := Cell(null, nil, false)] && chains == map[head := []]
    {
      var h := new RBNode(0, "", 0);
      var n := new RBNode(0, "", 0);
      n.left, n.right := n, n;
      h.left, h.right := null, n;
      head, nil := h, n;
      raw := map[h := Fields(null, n, false, false, false), n := Fields(n, n, false, false, false)];
      mem := map[h := Cell(null, n, false)];
      chains := map[h := []];
      owner := map[h := (h, -1)];
      tree, blackHeight := Leaf, 0;
    }

    function GetLeft(node: RBNode): (r: RBNode?)
      requires node.duplicate ==> node.left != null
      reads node, node.left
    {
      if node.duplicate then node.left.left else node.left
    }

    function GetRight(node: RBNode): (r: RBNode?)
      reads node
    {
      node.right
    }

    function Compare(key: Name, node: RBNode): (r: int) {
      if node == nil || node == head then 1 else StrCmp(key, node.name)
    }

    method PutLeft(at: RBNode, value: RBNode?)
      requires Snapshot() && at in raw
      modifies at, `raw
      ensures Snapshot() && raw == old(raw)[at := old(raw)[at].(left := value)]
    {
      at.left := value;
      raw := raw[at := raw[at].(left := value)];
    }

    method PutRight(at: RBNode, value: RBNode?)
      requires Snapshot() && at in raw
      modifies at, `raw
      ensures Snapshot() && raw == old(raw)[at := old(raw)[at].(right := value)]
    {
      at.right := value;
      raw := raw[at := raw[at].(right := value)];
    }

    method PutRed(at: RBNode, value: bool)
      requires Snapshot() && at in raw
      modifies at, `raw
      ensures Snapshot() && raw == old(raw)[at := old(raw)[at].(red := value)]
    {
      at.red := value;
      raw := raw[at := raw[at].(red := value)];
    }

    /** The iterator's link is not part of the recorded fields. */
    method SetIterParent(node: RBNode, value: RBNode?)
      requires Valid() && node in raw
      modifies node`iterParent
      ensures Valid() && node.iterParent == value
    {
      hide Sane, Located, Sorted, ChainsAgree, RB;
      node.iterParent := value;
      assert Snapshot();
    }

    method SetLeft(node: RBNode, value: RBNode?)
      requires Linked() && node in mem
      modifies Repr()
      ensures Linked() && Same()
      ensures mem == old(mem)[node := old(mem)[node].(left := value)]
    {
      hide Sane;
      SetLeftSane(node, value, raw, mem, chains, owner);
      if node.duplicate {
        PutLeft(node.left, value);
      } else {
        PutLeft(node, value);
      }
      mem := mem[node := mem[node].(left := value)];
    }

    method SetRight(node: RBNode, value: RBNode?)
      requires Linked() && node in mem
      modifies Repr()
      ensures Linked() && Same()
      ensures mem == old(mem)[node := old(mem)[node].(right := value)]
    {
      hide Sane;
      SetRightSane(node, value, raw, mem, chains, owner);
      PutRight(node, value);
      mem := mem[node := mem[node].(right := value)];
    }

    method SetRed(node: RBNode, value: bool)
      requires Linked() && (node in mem || (node == nil && !value))
      modifies Repr()
      ensures Linked() && Same()
      ensures mem == if node in old(mem) then old(mem)[node := old(mem)[node].(red := value)] else old(mem)
    {
      hide Sane;
      if node in mem {
        SetRedSane(node, value, raw, mem, chains, owner);
        mem := mem[node := mem[node].(red := value)];
      }
      PutRed(node, value);
      assert old(raw)[nil := old(raw)[nil].(red := false)] == old(raw);
    }

    /** Link and colour writes leave the set of nodes and the chains alone. */
    twostate predicate Same()
      reads this
    {
      && tree == old(tree) && blackHeight == old(blackHeight)
      && raw.Keys == old(raw).Keys && chains == old(chains) && owner == old(owner)
    }
  
    /** What the link macros read at a tree node. */
    lemma ReadCell(node: RBNode)
      requires Linked() && node in mem
      ensures node in raw && node != nil && node in chains
      ensures node.duplicate ==> node.left != null && node.left in raw
      ensures GetLeft(node) == mem[node].left && GetRight(node) == mem[node].right
      ensures node.red == mem[node].red && node.duplicate == (chains[node] != [])
    {
      assert CellRep(node, mem[node], chains[node], raw);
    }

    lemma NilOutside()
      requires Linked()
      ensures nil !in mem
    {
    }

    /** The same for the pointer to a subtree, which may be `nil`. */
    lemma ReadTree(t: Tree)
      requires Linked() && Shape(t, mem, nil)
      ensures var n := Ptr(t, nil);
              && n in raw && (n.duplicate ==> n.left != null) && (n in mem) == t.Node?
              && n.red == IsRed(t)
              && GetLeft(n) == (if t.Leaf? then nil else Ptr(t.left, nil))
              && GetRight(n) == (if t.Leaf? then nil else Ptr(t.right, nil))
    {
      hide Sane;
      NilOutside();
      if t.Node? {
        ReadCell(t.e.n);
      }
    }

    lemma ReadPath(p: Path, hole: RBNode, key: Name)
      requires Linked() && PathShape(p, hole, mem, head, nil) && Heads(p, key)
      ensures var n := PathPtr(p, head);
              && n in mem && n.red == PathRed(p)
              && (Compare(key, n) < 0) == (p.Step? && p.wentLeft)
              && n in raw && (n.duplicate ==> n.left != null)
              && (if p.Step? && p.wentLeft then GetLeft(n) else GetRight(n)) == hole
    {
      hide Sane;
      PathInMem(p, hole, mem, head, nil);
      ReadCell(PathPtr(p, head));
    }

    /** What a rotation reads, and that its four link writes rotate the tree. */
    lemma RotateReads(key: Name, p: Path, c: Tree)
      requires Linked() && Located(p, c, mem, head, nil) && Heads(p, key)
      requires c.Node? && KeyChild(c, key).Node?
      ensures var n := PathPtr(p, head);
              && n in mem && n in raw && (n.duplicate ==> n.left != null)
              && (Compare(key, n) < 0) == (p.Step? && p.wentLeft)
              && (if Compare(key, n) < 0 then GetLeft(n) else GetRight(n)) == c.e.n
      ensures c.e.n in mem && c.e.n in raw && (c.e.n.duplicate ==> c.e.n.left != null)
      ensures Compare(key, c.e.n) == StrCmp(key, c.e.n.name)
      ensures var g := KeyChild(c, key).e.n;
              && g in mem && g in raw && (g.duplicate ==> g.left != null) && g != c.e.n
              && (if StrCmp(key, c.e.n.name) < 0 then GetLeft(c.e.n) else GetRight(c.e.n)) == g
              && GetLeft(g) == mem[g].left && GetRight(g) == mem[g].right
      ensures var fromLeft := StrCmp(key, c.e.n.name) < 0;
              var t := RotateTree(c, fromLeft);
              var mem' := LiftMem(c, fromLeft, mem);
              && t.e.n == KeyChild(c, key).e.n && PathPtr(p, head) in mem'
              && Located(p, t, Relink(p, t.e.n, mem', head), head, nil)
    {
      hide Sane;
      ReadPath(p, c.e.n, key);
      assert Shape(KeyChild(c, key), mem, nil);
      ReadCell(c.e.n);
      ReadCell(KeyChild(c, key).e.n);
      RotateLocated(p, c, StrCmp(key, c.e.n.name) < 0, mem, head, nil);
    }

    /** `Rotate`: the child of `around` towards `key`, the root of `c`, swaps
        places with its own child towards `key`. */
    method Rotate(key: Name, around: RBNode, ghost p: Path, ghost c: Tree) returns (grandChild: RBNode)
      requires Linked() && Located(p, c, mem, head, nil)
      requires around == PathPtr(p, head) && Heads(p, key)
      requires c.Node? && KeyChild(c, key).Node?
      modifies Repr()
      ensures Linked() && Same()
      ensures grandChild == KeyChild(c, key).e.n
      ensures Located(p, RotateTree(c, StrCmp(key, c.e.n.name) < 0), mem, head, nil)
    {
      hide Sane, Located, Shape, PathShape, RotateTree;
      ghost var fromLeft := StrCmp(key, c.e.n.name) < 0;
      RotateReads(key, p, c);
      var setOnLeft := Compare(key, around) < 0;
      var child := if setOnLeft then GetLeft(around) else GetRight(around);
      if Compare(key, child) < 0 {
        grandChild := GetLeft(child);
        SetLeft(child, GetRight(grandChild));
        SetRight(grandChild, child);
      } else {
        grandChild := GetRight(child);
        SetRight(child, GetLeft(grandChild));
        SetLeft(grandChild, child);
      }
      assert mem == LiftMem(c, fromLeft, old(mem));
      if setOnLeft {
        SetLeft(around, grandChild);
      } else {
        SetRight(around, grandChild);
      }
    }
  
    /** First half of the `Split` macro: the colour flip. */
    method FlipColours(temp: RBNode, ghost p: Path, ghost t: Tree)
      requires Linked() && Located(p, t, mem, head, nil)
      requires t.Node? && temp == t.e.n
      modifies Repr()
      ensures Linked() && Same()
      ensures Located(p, Flip(t), mem, head, nil)
    {
      hide Sane, PathShape;
      ReadTree(t);
      ReadTree(t.left);
      ReadTree(t.right);
      SetRedLocated(p, t, true, mem, head, nil);
      ghost var t1 := t.(red := true);
      SetRed(temp, true);
      FlipChild(temp, true, p, t1);
      FlipChild(temp, false, p, t1.(left := Blacken(t.left)));
    }

    method FlipChild(temp: RBNode, left: bool, ghost p: Path, ghost t: Tree)
      requires Linked() && Located(p, t, mem, head, nil)
      requires t.Node? && temp == t.e.n
      modifies Repr()
      ensures Linked() && Same()
      ensures Located(p, if left then t.(left := Blacken(t.left)) else t.(right := Blacken(t.right)), mem, head, nil)
    {
      hide Sane, PathShape;
      ReadTree(t);
      ReadTree(if left then t.left else t.right);
      BlackenChild(p, t, left, mem, head, nil);
      var child := if left then GetLeft(temp) else GetRight(temp);
      SetRed(child, false);
    }

    /** The `Split` macro: flip colours at `temp`, and repair a red parent by
        one or two rotations directed by the key. */
    method Split(key: Name, temp0: RBNode, parent0: RBNode, grandParent: RBNode, greatGrandParent: RBNode, ghost p: Path, ghost t: Tree)
      returns (temp: RBNode, parent: RBNode, ghost q: Path, ghost u: Tree)
      requires Linked() && Located(p, t, mem, head, nil) && Heads(p, key)
      requires t.Node? && temp0 == t.e.n && parent0 == PathPtr(p, head)
      requires PathRed(p) ==>
        p.up.Step? && grandParent == PathPtr(p.up, head) && greatGrandParent == PathPtr(p.up.up, head)
      modifies Repr()
      ensures Linked() && Same() && Located(q, u, mem, head, nil)
      ensures u.Node? && temp == u.e.n
      ensures if PathRed(p) then q == p.up.up && u == Raise(p, Flip(t))
              else q == p && u == Flip(t) && parent == parent0
    {
      hide Sane, Shape, Raise;
      temp, parent, q, u := temp0, parent0, p, Flip(t);
      FlipColours(temp, p, t);
      ReadPath(p, temp, key);
      if parent.red {
        RedGrandParent(key, grandParent, p, u);
        parent := StraightenUp(key, parent, grandParent, p, Flip(t));
        temp := RaiseUp(key, greatGrandParent, p, Flip(t));
        q, u := p.up.up, Raise(p, Flip(t));
      }
    }

    /** An inner grandchild is first rotated above its parent. */
    method StraightenUp(key: Name, parent0: RBNode, grandParent: RBNode, ghost p: Path, ghost x: Tree) returns (parent: RBNode)
      requires p.Step? && p.up.Step? && x.Node?
      requires Linked() && Located(p.up.(red := true), Fill(p, x), mem, head, nil) && Heads(p, key)
      requires parent0 == p.e.n && grandParent == p.up.e.n
      modifies Repr()
      ensures Linked() && Same() && Located(p.up.(red := true), Straighten(p, x), mem, head, nil)
    {
      hide Sane, Shape;
      ghost var q := p.up.(red := true);
      ReadPath(q, p.e.n, key);
      parent := parent0;
      ReadTree(Fill(p, x));
      NilOutside();
      if (Compare(key, grandParent) < 0) != (Compare(key, parent) < 0) {
        parent := Rotate(key, grandParent, q, Fill(p, x));
      }
    }

    /** The outer rotation, whose new top is black. */
    method RaiseUp(key: Name, greatGrandParent: RBNode, ghost p: Path, ghost x: Tree) returns (temp: RBNode)
      requires p.Step? && p.up.Step? && x.Node?
      requires Linked() && Located(p.up.(red := true), Straighten(p, x), mem, head, nil) && Heads(p, key)
      requires greatGrandParent == PathPtr(p.up.up, head)
      modifies Repr()
      ensures Linked() && Same() && Located(p.up.up, Raise(p, x), mem, head, nil)
      ensures temp == Raise(p, x).e.n
    {
      hide Sane, Shape, PathShape;
      ghost var g := Fill(p.up.(red := true), Straighten(p, x));
      ZoomOut(p.up.(red := true), Straighten(p, x), mem, head, nil);
      temp := Rotate(key, greatGrandParent, p.up.up, g);
      ghost var top := RotateTree(g, p.up.wentLeft);
      ReadTree(top);
      SetRedLocated(p.up.up, top, false, mem, head, nil);
      SetRed(temp, false);
    }

    /** Colours the grandparent and moves the position up to the parent. */
    method RedGrandParent(key: Name, grandParent: RBNode, ghost p: Path, ghost x: Tree)
      requires Linked() && Located(p, x, mem, head, nil) && Heads(p, key)
      requires x.Node? && p.Step? && p.up.Step? && grandParent == p.up.e.n
      modifies Repr()
      ensures Linked() && Same() && Located(p.up.(red := true), Fill(p, x), mem, head, nil)
    {
      hide Sane, PathShape;
      ZoomOut(p, x, mem, head, nil);
      ghost var u := Fill(p, x);
      ZoomOut(p.up, u, mem, head, nil);
      ghost var g := Fill(p.up, u);
      SetRedLocated(p.up.up, g, true, mem, head, nil);
      SetRed(grandParent, true);
      ZoomIn(p.up.up, g.(red := true), p.up.wentLeft, mem, head, nil);
    }
  
    lemma ReadLink(at: RBNode, i: nat)
      requires Linked() && at in mem && at in chains && i < |chains[at]|
      ensures var d := chains[at][i];
              && d in raw && d != nil && d.name == at.name && !d.duplicate
              && d.continued == (i + 1 < |chains[at]|)
              && d.right == (if i + 1 < |chains[at]| then chains[at][i + 1] else null)
      ensures at in raw && at.left == chains[at][0] && at.duplicate
    {
      assert LinkRep(at, chains[at], i, raw, owner);
      assert CellRep(at, mem[at], chains[at], raw);
    }

    /** Walks to the last node chained onto `at`. */
    method LastOfChain(at: RBNode) returns (temp: RBNode)
      requires Linked() && at in mem && at.duplicate
      ensures at in chains && chains[at] != [] && temp == chains[at][|chains[at]| - 1]
      ensures temp in raw && temp != nil
    {
      hide Linked;
      ReadCell(at);
      ReadLink(at, 0);
      temp := at.left;
      ghost var k: nat := 0;
      while temp.right != null
        invariant k < |chains[at]| && temp == chains[at][k]
        decreases |chains[at]| - k
      {
        ReadLink(at, k);
        temp := temp.right;
        k := k + 1;
      }
      ReadLink(at, k);
    }

    method PutLinks(node: RBNode, left: RBNode?, right: RBNode?)
      requires Snapshot()
      modifies node, `raw
      ensures Snapshot() && raw == old(raw)[node := Fields(left, right, node.red, node.duplicate, node.continued)]
      ensures node.red == old(node.red) && node.duplicate == old(node.duplicate) && node.continued == old(node.continued)
    {
      node.left, node.right := left, right;
      raw := raw[node := Fields(left, right, node.red, node.duplicate, node.continued)];
    }

    method PutFlags(node: RBNode, red: bool, duplicate: bool, continued: bool)
      requires Snapshot()
      modifies node, `raw
      ensures Snapshot() && raw == old(raw)[node := Fields(node.left, node.right, red, duplicate, continued)]
      ensures node.left == old(node.left) && node.right == old(node.right)
    {
      node.red, node.duplicate, node.continued := red, duplicate, continued;
      raw := raw[node := Fields(node.left, node.right, red, duplicate, continued)];
    }

    method PutFields(node: RBNode, left: RBNode?, right: RBNode?, red: bool, duplicate: bool, continued: bool)
      requires Snapshot()
      modifies node, `raw
      ensures Snapshot() && raw == old(raw)[node := Fields(left, right, red, duplicate, continued)]
    {
      hide Snapshot;
      PutLinks(node, left, right);
      PutFlags(node, red, duplicate, continued);
    }

    lemma Real(n: RBNode)
      requires Snapshot() && n in raw
      ensures Fields(n.left, n.right, n.red, n.duplicate, n.continued) == raw[n]
    {
    }

    method ChainFirst(at: RBNode, node: RBNode)
      requires Snapshot() && at in raw && node !in raw
      modifies at, node, `raw
      ensures Snapshot() && raw == AppendStore(at, node, [], old(raw))
    {
      hide Snapshot;
      Real(at);
      var left := at.left;
      PutFields(at, node, at.right, at.red, true, at.continued);
      PutFields(node, left, null, false, false, false);
    }

    method ChainAfter(temp: RBNode, node: RBNode)
      requires Snapshot() && temp in raw && node !in raw
      modifies temp, node, `raw
      ensures Snapshot() && raw == AppendStore(temp, node, [temp], old(raw))
    {
      hide Snapshot;
      Real(temp);
      PutFields(temp, temp.left, node, temp.red, temp.duplicate, true);
      PutFields(node, null, null, false, false, false);
    }

    /** Chains `node` onto the tree node `at`, after the nodes already there. */
    method AddDuplicate(at: RBNode, node: RBNode)
      requires Linked() && at in mem && node !in raw && node.name == at.name
      modifies Repr(), node
      ensures Linked() && mem == old(mem) && tree == old(tree)
      ensures chains == old(chains)[at := old(chains)[at] + [node]]
      ensures raw.Keys == old(raw).Keys + {node}
    {
      hide Sane, Snapshot;
      AppendSane(at, node, raw, mem, chains, owner);
      ReadCell(at);
      ghost var dups := chains[at];
      if at.duplicate {
        var temp := LastOfChain(at);
        ChainAfter(temp, node);
      } else {
        ChainFirst(at, node);
      }
      assert raw == AppendStore(at, node, dups, old(raw));
      chains := chains[at := dups + [node]];
      owner := owner[node := (at, |dups|)];
    }
  
    // ---------------------------------------------------------- insertion

    /** The C variables of the descent point where they are needed to. */
    ghost predicate Pointers(mode: Mode, temp: RBNode, parent: RBNode, grandParent: RBNode, greatGrandParent: RBNode, p: Path, t: Tree) {
      match mode
      case AtHead => temp == head && parent == head && grandParent == head
      case Down =>
        && temp == Ptr(t, nil) && parent == PathPtr(p, head) && grandParent == PathPtr(Up(p), head)
        && (t.Leaf? && PathRed(p) ==> greatGrandParent == PathPtr(Up(Up(p)), head))
      case Safe => temp == Ptr(t, nil) && parent == PathPtr(p, head)
      case Fixed => temp == Ptr(t, nil)
    }

    ghost predicate Descending(mode: Mode, temp: RBNode, parent: RBNode, grandParent: RBNode, greatGrandParent: RBNode, p: Path, t: Tree, h: nat, key: Name)
      reads this
    {
      && Located(p, t, mem, head, nil)
      && Fits(p, t, h) && Heads(p, key) && InMode(mode, p, t, key)
      && Pointers(mode, temp, parent, grandParent, greatGrandParent, p, t)
    }

    /** One step of the descent, before any split. */
    lemma NextPosition(mode: Mode, temp: RBNode, parent: RBNode, grandParent: RBNode, greatGrandParent: RBNode, p: Path, t: Tree, h: nat, key: Name)
      returns (k: nat)
      requires Linked() && Descending(mode, temp, parent, grandParent, greatGrandParent, p, t, h, key)
      requires temp != nil && Compare(key, temp) != 0
      ensures mode.AtHead? || t.Node?
      ensures Arrived(mode, temp, parent, grandParent, p, t, h, NextPath(mode, p, t, key), NextTree(mode, t, key), k, NextMode(mode), key)
    {
      hide Sane;
      if mode.AtHead? {
        k := h;
        PathInMem(p, Ptr(t, nil), mem, head, nil);
        RootBelow(t, key);
      } else {
        ReadTree(t);
        k := StepBelow(mode, p, t, h, key);
        ZoomIn(p, t, StrCmp(key, t.e.n.name) < 0, mem, head, nil);
        PathInMem(p, t.e.n, mem, head, nil);
        assert t.e.n != head;
      }
    }

    /** The position `q`, `u` below: what it keeps of the one above, and what
        the pointers are good for there, with or without a pending split. */
    ghost predicate Arrived(mode: Mode, temp: RBNode, parent: RBNode, grandParent: RBNode, p: Path, t: Tree, h: nat, q: Path, u: Tree, k: nat, mode': Mode, key: Name)
      reads this
    {
      && Located(q, u, mem, head, nil) && Fits(q, u, k) && Heads(q, key)
      && temp in mem && temp == PathPtr(q, head) && (Compare(key, temp) < 0) == (q.Step? && q.wentLeft)
      && (TwoRedChildren(u) ==>
            && Ready(q) && InMode(mode, p, t, key) && 3 * Size(u) < StepsLeft(mode, p, t, key)
            && (PathRed(q) ==> parent == PathPtr(q.up, head) && grandParent == PathPtr(q.up.up, head)))
      && (!TwoRedChildren(u) ==>
            && !mode'.AtHead?
            && Descending(mode', Ptr(u, nil), temp, parent, grandParent, q, u, k, key)
            && InMode(mode, p, t, key) && StepsLeft(mode', q, u, key) < StepsLeft(mode, p, t, key))
      && Before(q) + Inorder(u) + After(q) == Before(p) + Inorder(t) + After(p) && RootHeight(q, k) == RootHeight(p, h)
      && (if mode.AtHead? then q.Top? && u == t else q.Step? && RootRed(q, u) == RootRed(p, t))
    }

    /** Links a new red node at the end of the path. */
    method AttachNew(node: RBNode, key: Name, parent: RBNode, ghost p: Path)
      requires Linked() && Located(p, Leaf, mem, head, nil) && Heads(p, key)
      requires parent == PathPtr(p, head) && node !in raw
      modifies Repr(), node
      ensures Linked() && tree == old(tree)
      ensures Located(p, Node(Entry(node, []), true, Leaf, Leaf), mem, head, nil)
      ensures node !in old(chains) && chains == old(chains)[node := []]
      ensures raw.Keys == old(raw).Keys + {node}
    {
      hide Sane, Snapshot, Located, PathShape;
      AttachReads(node, key, p);
      var onLeft := Compare(key, parent) < 0;
      PutFields(node, nil, nil, true, false, false);
      mem := mem[node := Cell(nil, nil, true)];
      chains := chains[node := []];
      owner := owner[node := (node, -1)];
      if onLeft {
        SetLeft(parent, node);
      } else {
        SetRight(parent, node);
      }
    }

    lemma AttachReads(node: RBNode, key: Name, p: Path)
      requires Linked() && Located(p, Leaf, mem, head, nil) && Heads(p, key) && node !in raw
      ensures PathPtr(p, head) in mem && node !in chains && node != nil
      ensures (Compare(key, PathPtr(p, head)) < 0) == (p.Step? && p.wentLeft)
      ensures Sane(raw[node := Fields(nil, nil, true, false, false)], mem[node := Cell(nil, nil, true)],
                   chains[node := []], owner[node := (node, -1)])
      ensures Located(p, Node(Entry(node, []), true, Leaf, Leaf),
                      Relink(p, node, mem[node := Cell(nil, nil, true)], head), head, nil)
    {
      NewNodeSane(node, nil, raw, mem, chains, owner);
      ReadPath(p, nil, key);
      HangNew(p, node, mem, head, nil);
    }

    /** `tree->head._right->_red = 0`. */
    method BlackenRoot(ghost root: Tree)
      requires Linked() && Located(Top, root, mem, head, nil)
      modifies Repr()
      ensures Linked() && Same() && Located(Top, Blacken(root), mem, head, nil)
    {
      hide Sane, Snapshot;
      ReadPath(Top, Ptr(root, nil), "");
      ReadTree(root);
      if root.Node? {
        SetRedLocated(Top, root, false, mem, head, nil);
      }
      hide Located, PathShape, Shape;
      SetRed(head.right, false);
    }

    lemma StartFacts()
      requires Valid() && !IsRed(tree)
      ensures forall key :: Descending(AtHead, head, head, head, head, Top, tree, blackHeight, key)
      ensures Before(Top) + Inorder(tree) + After(Top) == Inorder(tree)
      ensures RootHeight(Top, blackHeight) == blackHeight
    {
    }

    lemma ReadChildren(u: Tree)
      requires Linked() && Shape(u, mem, nil)
      ensures var n := Ptr(u, nil);
              && (n.duplicate ==> n.left != null) && GetLeft(n) != null && GetRight(n) != null
              && (GetLeft(n).red && GetRight(n).red <==> TwoRedChildren(u))
    {
      hide Sane;
      ReadTree(u);
      if u.Node? {
        ReadTree(u.left);
        ReadTree(u.right);
      } else {
        ReadTree(Leaf);
      }
    }

    /** The value side of chaining `node` onto the entry found at `t`. */
    lemma ChainKeeps(p: Path, t: Tree, h: nat, node: RBNode, key: Name)
      requires Linked() && Ordered() && t.Node? && t.e.n.name == key && Fits(p, t, h)
      requires Located(p, t, mem, head, nil)
      requires Before(p) + Inorder(t) + After(p) == Inorder(tree)
      ensures t.e.n in chains && chains[t.e.n] == t.e.dups
      ensures key in Items()
      ensures var dups := t.e.dups + [node];
              var tree' := Plug(p, t.(e := Entry(t.e.n, dups)));
              && ChainsAgree(Inorder(tree'), chains[t.e.n := dups])
              && Sorted(Inorder(tree')) && RB(tree', RootHeight(p, h))
              && Contents(Inorder(tree')) == Items()[key := Items()[key] + [node]]
              && Located(Top, tree', mem, head, nil)
              && IsRed(tree') == RootRed(p, t)
    {
      hide Linked, Located, PathRB, RB, Contents, Inorder, Plug;
      var t' := t.(e := Entry(t.e.n, t.e.dups + [node]));
      var a, b := Before(p) + Inorder(t.left), Inorder(t.right) + After(p);
      Around(p, t);
      Around(p, t');
      PlugInorder(p, t');
      assert (a + [t.e] + b)[|a|] == t.e;
      ContentsAppend(a, t.e, b, node);
      ChainsAppend(a, t.e, b, node, chains);
      ContentsAt(a + [t.e] + b, |a|);
      ChainFits(p, t, h, t');
      PlugRB(p, t', h);
      assert Located(p, t', mem, head, nil) by { ChainLocated(p, t, t'); }
      ZoomAll(p, t', mem, head, nil);
      PlugRootRed(p, t');
      RootRedSame(p, t, t');
    }

    lemma ChainLocated(p: Path, t: Tree, t': Tree)
      requires Located(p, t, mem, head, nil) && t.Node?
      requires t'.Node? && t'.e.n == t.e.n && t' == t.(e := t'.e)
      ensures Located(p, t', mem, head, nil)
    {
    }

    /** Records the value of the finished tree. */
    ghost method Settle(tree': Tree, k: nat)
      requires Linked() && Located(Top, tree', mem, head, nil)
      requires ChainsAgree(Inorder(tree'), chains) && Sorted(Inorder(tree')) && RB(tree', k)
      modifies `tree, `blackHeight
      ensures Valid() && tree == tree' && blackHeight == k
    {
      hide Linked, Located, ChainsAgree, Sorted, RB, Inorder;
      tree, blackHeight := tree', k;
    }

    lemma FoundInMem(p: Path, t: Tree, key: Name)
      requires Linked() && Located(p, t, mem, head, nil) && t.Node? && StrCmp(key, t.e.n.name) == 0
      ensures t.e.n in mem && t.e.n.name == key
    {
      StrCmpEqual(key, t.e.n.name);
    }

    /** The name is already in the tree. */
    method Chain(temp: RBNode, node: RBNode, key: Name, ghost p: Path, ghost t: Tree, ghost h: nat)
      requires Linked() && Ordered() && t.Node? && temp == t.e.n && StrCmp(key, temp.name) == 0 && Fits(p, t, h)
      requires Located(p, t, mem, head, nil)
      requires Before(p) + Inorder(t) + After(p) == Inorder(tree)
      requires node !in raw && node.name == key
      modifies Repr(), node
      ensures Valid() && raw.Keys == old(raw).Keys + {node}
      ensures key in old(Items()) && Items() == old(Items())[key := old(Items())[key] + [node]]
      ensures IsRed(tree) == RootRed(p, t) && blackHeight == RootHeight(p, h)
    {
      hide Linked, Sane, Snapshot, Located, PathShape, Shape, Sorted, ChainsAgree, RB, Plug, Inorder, Contents, Before, After, Fits, RootRed, RootHeight;
      FoundInMem(p, t, key);
      ChainKeeps(p, t, h, node, key);
      AddDuplicate(temp, node);
      Settle(Plug(p, t.(e := Entry(t.e.n, t.e.dups + [node]))), RootHeight(p, h));
    }

    lemma FoundFacts(mode: Mode, temp: RBNode, parent: RBNode, grandParent: RBNode, greatGrandParent: RBNode, p: Path, t: Tree, h: nat, key: Name)
      requires Linked() && Descending(mode, temp, parent, grandParent, greatGrandParent, p, t, h, key)
      requires temp != nil && Compare(key, temp) == 0
      ensures !mode.AtHead? && t.Node? && temp == t.e.n && StrCmp(key, temp.name) == 0
      ensures Located(p, t, mem, head, nil) && Fits(p, t, h)
    {
    }

    lemma FellOffFacts(mode: Mode, temp: RBNode, parent: RBNode, grandParent: RBNode, greatGrandParent: RBNode, p: Path, t: Tree, h: nat, key: Name)
      requires Linked() && Descending(mode, temp, parent, grandParent, greatGrandParent, p, t, h, key)
      requires temp == nil
      ensures t.Leaf? && mode.Down? && parent == PathPtr(p, head)
      ensures PathRed(p) ==> p.up.Step? && grandParent == PathPtr(p.up, head) && greatGrandParent == PathPtr(p.up.up, head)
      ensures Located(p, t, mem, head, nil) && Fits(p, Leaf, h) && Ready(p) && Heads(p, key)
    {
      hide Sane;
      NilOutside();
      PathInMem(p, Ptr(t, nil), mem, head, nil);
      ReadTree(t);
    }

    /** Only in the empty tree does the search fall off at the head. */
    lemma OnlyEmpty(p: Path)
      requires Before(p) + After(p) == Inorder(tree)
      ensures p.Top? <==> tree.Leaf?
    {
      assert tree.Node? ==> |Inorder(tree)| > 0;
      assert p.Step? ==> |Before(p) + After(p)| > 0;
    }

    lemma EmptyLeaf()
      ensures Inorder(Leaf) == []
    {
    }

    /** The value side of hanging a new entry where the search fell off. */
    lemma AttachContents(p: Path, node: RBNode, key: Name)
      requires Ordered() && node !in chains && node.name == key && Heads(p, key)
      requires Before(p) + After(p) == Inorder(tree)
      ensures var s := Before(p) + [Entry(node, [])] + After(p);
              && Sorted(s) && ChainsAgree(s, chains[node := []])
              && key !in Items() && Contents(s) == Items()[key := [node]]
    {
      hide Linked;
      assert Before(p) + [] + After(p) == Before(p) + After(p);
      HeadsBounds(p, [], key);
      SortedInsert(Before(p), Entry(node, []), After(p));
      ContentsInsert(Before(p), Entry(node, []), After(p));
      assert [node] + [] == [node];
      ContentsFresh(Before(p), After(p), key);
      ChainsInsert(Before(p), After(p), node, chains);
    }

    /** The black height once a new node hangs at the end of the path: one more
        if that made the root red before it is coloured black. */
    ghost function HangHeight(p: Path, h: nat): (r: nat) {
      RootHeight(p, h) + if p.Top? || RootRed(p, Leaf) then 1 else 0
    }

    /** The value side of the final split and of blackening the root. */
    lemma AttachShape(p: Path, node: RBNode, q: Path, u: Tree, h: nat)
      requires Fits(p, Leaf, h) && Ready(p)
      requires SplitStep(p, Node(Entry(node, []), true, Leaf, Leaf), q, u)
      requires Located(q, u, mem, head, nil)
      ensures var tree' := Plug(q, u);
              && Located(Top, tree', mem, head, nil) && RB(Blacken(tree'), HangHeight(p, h))
              && Inorder(Blacken(tree')) == Before(p) + [Entry(node, [])] + After(p)
    {
      var k0 := AttachKeeps(p, Entry(node, []), q, u, h);
      PlugRB(q, u, k0);
      BlackenRB(Plug(q, u), RootHeight(q, k0));
      PlugInorder(q, u);
      ZoomAll(q, u, mem, head, nil);
    }

    lemma PositionReads(q: Path, u: Tree, key: Name)
      requires Linked() && Located(q, u, mem, head, nil) && Heads(q, key)
      ensures var n := PathPtr(q, head);
              && (n.duplicate ==> n.left != null)
              && (if q.Step? && q.wentLeft then GetLeft(n) else GetRight(n)) == Ptr(u, nil)
      ensures var n := Ptr(u, nil);
              && (n.duplicate ==> n.left != null) && GetLeft(n) != null && GetRight(n) != null
              && (GetLeft(n).red && GetRight(n).red <==> TwoRedChildren(u))
    {
      hide Sane;
      ReadPath(q, Ptr(u, nil), key);
      ReadChildren(u);
    }

    /** The name is new.  In the C code `temp` is the `nil` sentinel at this last
        split, which colours it red and black again; here the split is done at
        the new node, with the same effect on all nodes. */
    method Attach(node: RBNode, key: Name, parent: RBNode, grandParent: RBNode, greatGrandParent: RBNode, ghost p: Path, ghost h: nat)
      requires Linked() && Ordered() && parent == PathPtr(p, head)
      requires PathRed(p) ==> p.up.Step? && grandParent == PathPtr(p.up, head) && greatGrandParent == PathPtr(p.up.up, head)
      requires Located(p, Leaf, mem, head, nil) && Fits(p, Leaf, h) && Ready(p) && Heads(p, key)
      requires Before(p) + After(p) == Inorder(tree)
      requires node !in raw && node.name == key
      modifies Repr(), node
      ensures Valid() && raw.Keys == old(raw).Keys + {node}
      ensures key !in old(Items()) && Items() == old(Items())[key := [] + [node]]
      ensures !IsRed(tree) && blackHeight == HangHeight(p, h)
    {
      hide Linked, Sane, Snapshot, Located, PathShape, Shape, Sorted, ChainsAgree, RB, Fits, Heads, Plug, Inorder, Contents, Before, After, HangHeight;
      AttachReads(node, key, p);
      AttachContents(p, node, key);
      assert [] + [node] == [node];
      AttachNew(node, key, parent, p);
      ghost var x := Node(Entry(node, []), true, Leaf, Leaf);
      var temp, parent', q, u := Split(key, node, parent, grandParent, greatGrandParent, p, x);
      AttachShape(p, node, q, u, h);
      BlackenRoot(Plug(q, u));
      Settle(Blacken(Plug(q, u)), HangHeight(p, h));
    }

    lemma InsertDone(t: Tree, h: nat, node: RBNode)
      requires Valid() && RB(t, h)
      requires var m := Contents(Inorder(t));
               && Items() == m[node.name := (if node.name in m then m[node.name] else []) + [node]]
               && IsRed(tree) == (node.name in m && TwoRedChildren(t))
               && blackHeight == h + if node.name !in m && (t.Leaf? || TwoRedChildren(t)) then 1 else 0
      ensures Inserts(t, node, tree)
    {
      hide Linked, Located, ChainsAgree, Sorted, RB, Contents, Inorder;
      BlackHeightIs(t, h);
      BlackHeightIs(tree, blackHeight);
    }

    /** `ILRBTreeInsert`.  A later node of a known name is chained onto the
        first; that path returns before the root is made black again, so the
        root stays red exactly when the descent has split it. */
    method Insert(node: RBNode, key: Name)
      requires Valid() && !IsRed(tree)
      requires node !in raw && node.name == key
      modifies Repr(), node
      ensures Valid() && raw.Keys == old(raw).Keys + {node}
      ensures Inserts(old(tree), node, tree)
    {
      hide Inserts, Linked, Sane, Snapshot, Located, PathShape, Shape, Sorted, ChainsAgree, RB, Fits, Heads, Plug, Inorder, Contents, RootHeight;
      var temp: RBNode, greatGrandParent: RBNode, grandParent: RBNode, parent: RBNode := head, head, head, head;
      ghost var p, t, h, mode := Top, tree, blackHeight, AtHead;
      StartFacts();
      while temp != nil
        invariant Linked() && tree == old(tree) && raw.Keys == old(raw).Keys && chains == old(chains)
        invariant Descending(mode, temp, parent, grandParent, greatGrandParent, p, t, h, key)
        invariant Before(p) + Inorder(t) + After(p) == Inorder(tree)
        invariant if mode.AtHead? then t == tree else RootRed(p, t) == TwoRedChildren(tree)
        invariant RootHeight(p, h) == blackHeight == old(blackHeight)
        decreases StepsLeft(mode, p, t, key)
      {
        if Compare(key, temp) == 0 {
          FoundFacts(mode, temp, parent, grandParent, greatGrandParent, p, t, h, key);
          Chain(temp, node, key, p, t, h);
          InsertDone(old(tree), old(blackHeight), node);
          return;
        }
        ghost var k := NextPosition(mode, temp, parent, grandParent, greatGrandParent, p, t, h, key);
        ghost var q, u, mode' := NextPath(mode, p, t, key), NextTree(mode, t, key), NextMode(mode);
        PositionReads(q, u, key);
        greatGrandParent, grandParent, parent := grandParent, parent, temp;
        temp := if Compare(key, temp) < 0 then GetLeft(temp) else GetRight(temp);
        if GetLeft(temp).red && GetRight(temp).red {
          temp, parent, p, t := Split(key, temp, parent, grandParent, greatGrandParent, q, u);
          h, mode := SplitKeeps(q, u, p, t, k, key);
        } else {
          p, t, h, mode := q, u, k, mode';
        }
      }
      assert Before(p) + [] + After(p) == Before(p) + After(p);
      EmptyLeaf();
      FellOffFacts(mode, temp, parent, grandParent, greatGrandParent, p, t, h, key);
      OnlyEmpty(p);
      Attach(node, key, parent, grandParent, greatGrandParent, p, h);
      InsertDone(old(tree), old(blackHeight), node);
    }
  }
}
