/** What one `Split` of the top-down insertion does to the shape of the tree,
    and why it keeps the colours, the contents and the usefulness of the
    ancestor pointers. */
module RBSplit {
  import opened Names
  import opened RBShape

  /** Colour flip: a black node with two red children becomes red, its
      children black. */
  function Flip(t: Tree): (r: Tree)
    requires t.Node?
  {
    Node(t.e, true, Blacken(t.left), Blacken(t.right))
  }

  /** Rotate a subtree so that its left (or right) child comes up. */
  function RotateTree(t: Tree, fromLeft: bool): (r: Tree)
    requires t.Node? && (if fromLeft then t.left.Node? else t.right.Node?)
  {
    if fromLeft
    then Node(t.left.e, t.left.red, t.left.left, Node(t.e, t.red, t.left.right, t.right))
    else Node(t.right.e, t.right.red, Node(t.e, t.red, t.left, t.right.left), t.right.right)
  }

  /** The parent's subtree once the inner grandchild, if that is where `x`
      is, has been rotated above the parent. */
  function Straighten(p: Path, x: Tree): (r: Tree)
    requires p.Step? && p.up.Step? && x.Node?
  {
    if p.wentLeft != p.up.wentLeft then RotateTree(Fill(p, x), p.wentLeft) else Fill(p, x)
  }

  /** The repaired subtree that replaces the grandparent. */
  function Raise(p: Path, x: Tree): (t: Tree)
    requires p.Step? && p.up.Step? && x.Node?
    ensures t.Node?
  {
    Blacken(RotateTree(Fill(p.up.(red := true), Straighten(p, x)), p.up.wentLeft))
  }

  predicate TwoRedChildren(t: Tree) {
    t.Node? && IsRed(t.left) && IsRed(t.right)
  }

  /** Where the search for `key` goes from the root of `t`. */
  function KeyChild(t: Tree, key: Name): (r: Tree)
    requires t.Node?
  {
    if StrCmp(key, t.e.n.name) < 0 then t.left else t.right
  }

  /** A red node whose child towards `key` is black, present and cannot split. */
  predicate SafeRed(t: Tree, key: Name) {
    && IsRed(t)
    && var c := KeyChild(t, key);
       c.Node? && !c.red && !IsRed(c.left) && !IsRed(c.right)
  }

  /** The sides taken along the path are the ones `key` leads to. */
  predicate Heads(p: Path, key: Name) {
    p.Step? ==>
      && (if p.wentLeft then StrCmp(key, p.e.n.name) < 0 else StrCmp(key, p.e.n.name) > 0)
      && Heads(p.up, key)
  }

  lemma FlipFacts(t: Tree, h: nat, key: Name)
    requires RB(t, h) && TwoRedChildren(t)
    ensures RB(Flip(t), h) && SafeRed(Flip(t), key)
    ensures Inorder(Flip(t)) == Inorder(t)
  {
  }

  lemma RotateInorder(t: Tree, fromLeft: bool)
    requires t.Node? && (if fromLeft then t.left.Node? else t.right.Node?)
    ensures Inorder(RotateTree(t, fromLeft)) == Inorder(t)
  {
    if fromLeft {
      Reassociate(Inorder(t.left.left), [t.left.e], Inorder(t.left.right), [t.e], Inorder(t.right));
    } else {
      Reassociate(Inorder(t.left), [t.e], Inorder(t.right.left), [t.right.e], Inorder(t.right.right));
    }
  }

  lemma Reassociate<T>(a: seq<T>, b: seq<T>, c: seq<T>, d: seq<T>, e: seq<T>)
    ensures (a + b + c) + d + e == a + b + (c + d + e)
  {
  }

  lemma RaiseInorder(p: Path, x: Tree)
    requires p.Step? && p.up.Step? && x.Node?
    ensures Inorder(Raise(p, x)) == Inorder(Fill(p.up, Fill(p, x)))
  {
    if p.wentLeft != p.up.wentLeft {
      RotateInorder(Fill(p, x), p.wentLeft);
    }
    RotateInorder(Fill(p.up.(red := true), Straighten(p, x)), p.up.wentLeft);
  }

  /** A red node about to be hung under the path can be repaired: a red
      parent has a black parent, whose other child is not red. */
  predicate Ready(p: Path) {
    PathRed(p) ==> p.up.Step? && !IsRed(p.up.sib)
  }

  /** No split is pending at `t`, and a split below it can be repaired. */
  predicate Calm(p: Path, t: Tree) {
    && !TwoRedChildren(t)
    && (IsRed(t) ==> p.Step? && !IsRed(p.sib))
    && (t.Leaf? ==> Ready(p))
  }

  /** The black top of a repaired subtree, with its safe child. */
  predicate Repaired(t: Tree, key: Name) {
    t.Node? && !t.red && SafeRed(KeyChild(t, key), key)
  }

  /** Repairing a red node under a red parent gives a black-rooted subtree
      that fits where the grandparent was. */
  lemma RaiseFits(p: Path, x: Tree, h: nat)
    requires PathRB(p, h) && PathRed(p) && Ready(p)
    requires RB(x, h) && IsRed(x)
    ensures Fits(p.up.up, Raise(p, x), h + 1) && !IsRed(Raise(p, x))
  {
    assert PathRB(p.up, h) && !p.up.red;
    var up := Fill(p.up.(red := true), Straighten(p, x));
    if p.wentLeft != p.up.wentLeft {
      assert RB(x.left, h) && RB(x.right, h) && RB(p.sib, h);
    }
    assert RB(Raise(p, x).left, h) && RB(Raise(p, x).right, h);
  }

  /** After the repair the search continues at a black node whose child
      towards `key` is a red node that cannot need a repair itself: this is
      why the ancestor pointers may be stale for two steps. */
  lemma RaiseIsSafe(p: Path, x: Tree, key: Name)
    requires p.Step? && p.up.Step? && p.red && Heads(p, key)
    requires SafeRed(x, key)
    ensures Repaired(Raise(p, x), key)
    ensures KeyChild(KeyChild(Raise(p, x), key), key) == KeyChild(x, key)
  {
  }

  function StepSide(p: Path, t: Tree, goLeft: bool): (r: Path)
    requires t.Node?
  {
    Step(t.e, t.red, goLeft, if goLeft then t.right else t.left, p)
  }

  function StepDown(p: Path, t: Tree, key: Name): (r: Path)
    requires t.Node?
  {
    StepSide(p, t, StrCmp(key, t.e.n.name) < 0)
  }

  /** Where the descent is: at the head sentinel, going down with correct
      ancestor pointers, at a red node whose next two steps need none, or at
      the top of a subtree that has just been repaired. */
  datatype Mode = AtHead | Down | Safe | Fixed

  /** The next position of the search, and its mode unless it is to be split. */
  function NextPath(mode: Mode, p: Path, t: Tree, key: Name): (r: Path)
    requires mode.AtHead? || t.Node?
  {
    if mode.AtHead? then p else StepDown(p, t, key)
  }

  function NextTree(mode: Mode, t: Tree, key: Name): (r: Tree)
    requires mode.AtHead? || t.Node?
  {
    if mode.AtHead? then t else KeyChild(t, key)
  }

  function NextMode(mode: Mode): (r: Mode) {
    if mode.Fixed? then Safe else Down
  }

  ghost predicate InMode(mode: Mode, p: Path, t: Tree, key: Name) {
    match mode
    case AtHead => p.Top? && !IsRed(t)
    case Down => Calm(p, t)
    case Safe => SafeRed(t, key)
    case Fixed => Repaired(t, key)
  }

  function Size(t: Tree): (r: nat) {
    if t.Leaf? then 0 else 1 + Size(t.left) + Size(t.right)
  }

  /** Bounds the steps left: a repair moves up two levels, but not above the
      child that the search goes on to. */
  ghost function StepsLeft(mode: Mode, p: Path, t: Tree, key: Name): (r: nat)
    requires InMode(mode, p, t, key)
  {
    match mode
    case AtHead => 3 * Size(t) + 1
    case Down => 3 * Size(t)
    case Safe => 3 * Size(KeyChild(t, key)) + 1
    case Fixed => 3 * Size(KeyChild(KeyChild(t, key), key)) + 2
  }

  /** The position below, from which a pending split is then handled. */
  ghost predicate Below(mode: Mode, mode': Mode, p: Path, t: Tree, key: Name) {
    && (t.Leaf? ==> mode'.Down?)
    && (if TwoRedChildren(t) then Ready(p) && mode in {AtHead, Down}
        else !mode'.AtHead? && InMode(mode', p, t, key))
    && (mode.Safe? ==> mode'.Down? && t.Node? && p.Step?)
    && (mode.Fixed? ==> mode'.Safe?)
    && (mode in {AtHead, Down} ==> mode'.Down?)
  }

  lemma StepBelow(mode: Mode, p: Path, t: Tree, h: nat, key: Name) returns (k: nat)
    requires !mode.AtHead? && InMode(mode, p, t, key)
    requires t.Node? && Fits(p, t, h) && Heads(p, key) && StrCmp(key, t.e.n.name) != 0
    ensures var q, u, mode' := StepDown(p, t, key), KeyChild(t, key), NextMode(mode);
            && Fits(q, u, k) && Heads(q, key) && Below(mode, mode', q, u, key)
            && (TwoRedChildren(u) ==> 3 * Size(u) < StepsLeft(mode, p, t, key))
            && (!TwoRedChildren(u) ==> StepsLeft(mode', q, u, key) < StepsLeft(mode, p, t, key))
            && Before(q) + Inorder(u) + After(q) == Before(p) + Inorder(t) + After(p)
            && RootRed(q, u) == RootRed(p, t) && RootHeight(q, k) == RootHeight(p, h)
  {
    k := if t.red then h else h - 1;
    var q, u := StepDown(p, t, key), KeyChild(t, key);
    if q.wentLeft {
      Regroup(Before(p), Inorder(t.left), [t.e], Inorder(t.right), After(p));
    } else {
      Regroup(Before(p), Inorder(t.left), [t.e], Inorder(t.right), After(p));
    }
    RootRedInside(p, t, u);
  }

  /** The head sentinel: the first step goes to the root. */
  lemma RootBelow(t: Tree, key: Name)
    requires !IsRed(t)
    ensures Below(AtHead, Down, Top, t, key)
    ensures 3 * Size(t) < StepsLeft(AtHead, Top, t, key)
  {
  }

  /** What a split leaves behind. */
  ghost predicate SplitStep(p: Path, t: Tree, q: Path, u: Tree)
    requires t.Node?
  {
    if PathRed(p) then p.up.Step? && q == p.up.up && u == Raise(p, Flip(t)) else q == p && u == Flip(t)
  }

  lemma SplitKeeps(p: Path, t: Tree, q: Path, u: Tree, h: nat, key: Name) returns (k: nat, mode: Mode)
    requires Fits(p, t, h) && Heads(p, key) && TwoRedChildren(t) && Ready(p)
    requires SplitStep(p, t, q, u)
    ensures Fits(q, u, k) && Heads(q, key)
    ensures mode == (if PathRed(p) then Fixed else Safe) && InMode(mode, q, u, key)
    ensures StepsLeft(mode, q, u, key) <= 3 * Size(t)
    ensures Before(q) + Inorder(u) + After(q) == Before(p) + Inorder(t) + After(p)
    ensures if p.Top? then RootRed(q, u) else RootRed(q, u) == RootRed(p, t)
    ensures RootHeight(q, k) == RootHeight(p, h)
  {
    FlipFacts(t, h, key);
    if PathRed(p) {
      k, mode := h + 1, Fixed;
      RaiseHeight(p, h);
      RaiseFits(p, Flip(t), h);
      RaiseIsSafe(p, Flip(t), key);
      RaiseKeepsInorder(p, Flip(t));
      RaiseKeepsRoot(p, t, u);
    } else {
      k, mode := h, Safe;
      RootRedInside(p, t, u);
    }
  }

  lemma RaiseKeepsInorder(p: Path, x: Tree)
    requires p.Step? && p.up.Step? && x.Node?
    ensures Before(p.up.up) + Inorder(Raise(p, x)) + After(p.up.up) == Before(p) + Inorder(x) + After(p)
  {
    RaiseInorder(p, x);
    PlugStep(p, x);
    PlugStep(p.up, Fill(p, x));
  }

  lemma PlugStep(p: Path, x: Tree)
    requires p.Step?
    ensures Before(p.up) + Inorder(Fill(p, x)) + After(p.up) == Before(p) + Inorder(x) + After(p)
  {
    if p.wentLeft {
      Regroup(Before(p.up), Inorder(x), [p.e], Inorder(p.sib), After(p.up));
    } else {
      Regroup(Before(p.up), Inorder(p.sib), [p.e], Inorder(x), After(p.up));
    }
  }

  lemma RaiseKeepsRoot(p: Path, t: Tree, u: Tree)
    requires p.Step? && p.up.Step? && !p.up.red && !IsRed(u)
    ensures RootRed(p.up.up, u) == RootRed(p, t)
  {
    RootRedInside(p.up.up, u, t);
  }

  /** Hanging a red leaf under the path and splitting there. */
  lemma AttachKeeps(p: Path, e: Entry, q: Path, u: Tree, h: nat) returns (k: nat)
    requires Fits(p, Leaf, h) && Ready(p)
    requires SplitStep(p, Node(e, true, Leaf, Leaf), q, u)
    ensures Fits(q, u, k) && RootHeight(q, k) == RootHeight(p, h)
    ensures IsRed(Plug(q, u)) == (p.Top? || RootRed(p, Leaf))
    ensures Before(q) + Inorder(u) + After(q) == Before(p) + [e] + After(p)
  {
    var x := Node(e, true, Leaf, Leaf);
    assert Inorder(x) == [e];
    if PathRed(p) {
      k := h + 1;
      RaiseFits(p, x, h);
      RaiseKeepsInorder(p, x);
      RaiseHeight(p, h);
      RaiseKeepsRoot(p, Leaf, u);
    } else {
      k := h;
      RootRedInside(p, Leaf, u);
    }
    PlugRootRed(q, u);
  }

  /** The repaired subtree is one higher, in the place of a black node. */
  lemma RaiseHeight(p: Path, h: nat)
    requires PathRed(p) && PathRB(p, h) && p.up.Step?
    ensures PathRB(p.up, h) && !p.up.red && RootHeight(p.up.up, h + 1) == RootHeight(p, h)
  {
    assert PathRB(p.up, h);
  }

  lemma BlackenRB(t: Tree, h: nat)
    requires RB(t, h)
    ensures RB(Blacken(t), if IsRed(t) then h + 1 else h)
  {
  }
}
