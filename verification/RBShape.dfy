/** Values that describe a red-black tree of heap nodes: the tree itself, the
    path from the head sentinel down to a position in it, their colours and
    their in-order contents.  Nothing here reads the heap. */
module RBShape {
  import opened Names

  /** `ILRBTreeNode` together with the `ILScopeData` that starts with it. */
  class RBNode {
    var left: RBNode?
    var right: RBNode?
    var iterParent: RBNode?
    var red: bool
    var duplicate: bool
    var continued: bool
    const kind: int
    const name: Name
    const data: int

    constructor (kind: int, name: Name, data: int)
      ensures this.kind == kind && this.name == name && this.data == data
      ensures !red && !duplicate && !continued
    {
      this.kind, this.name, this.data := kind, name, data;
      left, right, iterParent := null, null, null;
      red, duplicate, continued := false, false, false;
    }
  }

  /** A node that sits in the tree, with the later nodes of the same name
      that were chained onto it, oldest first. */
  datatype Entry = Entry(n: RBNode, dups: seq<RBNode>)

  datatype Tree = Leaf | Node(e: Entry, red: bool, left: Tree, right: Tree)

  /** The way from the head sentinel to a position: for each node passed,
      the side taken and the subtree on the other side. */
  datatype Path = Top | Step(e: Entry, red: bool, wentLeft: bool, sib: Tree, up: Path)

  function EntryNodes(e: Entry): (r: set<RBNode>) {
    {e.n} + set d | d in e.dups
  }

  function Nodes(t: Tree): (r: set<RBNode>) {
    match t
    case Leaf => {}
    case Node(e, _, l, r) => EntryNodes(e) + Nodes(l) + Nodes(r)
  }

  function PathNodes(p: Path): (r: set<RBNode>) {
    match p
    case Top => {}
    case Step(e, _, _, sib, up) => EntryNodes(e) + Nodes(sib) + PathNodes(up)
  }

  function Fill(p: Path, t: Tree): (r: Tree)
    requires p.Step?
  {
    if p.wentLeft then Node(p.e, p.red, t, p.sib) else Node(p.e, p.red, p.sib, t)
  }

  function Plug(p: Path, t: Tree): (r: Tree)
    decreases p
  {
    if p.Top? then t else Plug(p.up, Fill(p, t))
  }

  function Up(p: Path): (r: Path) {
    if p.Top? then Top else p.up
  }

  // ---------------------------------------------------------------- contents

  function Inorder(t: Tree): (r: seq<Entry>) {
    match t
    case Leaf => []
    case Node(e, _, l, r) => Inorder(l) + [e] + Inorder(r)
  }

  function Before(p: Path): (r: seq<Entry>) {
    match p
    case Top => []
    case Step(e, _, wentLeft, sib, up) =>
      if wentLeft then Before(up) else Before(up) + Inorder(sib) + [e]
  }

  function After(p: Path): (r: seq<Entry>) {
    match p
    case Top => []
    case Step(e, _, wentLeft, sib, up) =>
      if wentLeft then [e] + Inorder(sib) + After(up) else After(up)
  }

  lemma Regroup<T>(a: seq<T>, b: seq<T>, c: seq<T>, d: seq<T>, e: seq<T>)
    ensures a + (b + c + d) + e == a + b + (c + d + e)
    ensures a + (b + c + d) + e == (a + b + c) + d + e
  {
  }

  lemma {:induction false} PlugInorder(p: Path, t: Tree)
    ensures Inorder(Plug(p, t)) == Before(p) + Inorder(t) + After(p)
    decreases p
  {
    if p.Top? {
      assert [] + Inorder(t) + [] == Inorder(t);
    } else {
      PlugInorder(p.up, Fill(p, t));
      if p.wentLeft {
        Regroup(Before(p.up), Inorder(t), [p.e], Inorder(p.sib), After(p.up));
      } else {
        Regroup(Before(p.up), Inorder(p.sib), [p.e], Inorder(t), After(p.up));
      }
    }
  }

  predicate Sorted(s: seq<Entry>) {
    forall i, j :: 0 <= i < j < |s| ==> StrCmp(s[i].n.name, s[j].n.name) < 0
  }

  predicate AllBelow(s: seq<Entry>, key: Name) {
    forall i :: 0 <= i < |s| ==> StrCmp(key, s[i].n.name) > 0
  }

  predicate AllAbove(s: seq<Entry>, key: Name) {
    forall i :: 0 <= i < |s| ==> StrCmp(key, s[i].n.name) < 0
  }

  /** What the tree means to its users: for each name, the nodes declared
      under it, oldest first. */
  function Contents(s: seq<Entry>): (r: map<Name, seq<RBNode>>) {
    if s == [] then map[]
    else Contents(s[..|s|-1])[s[|s|-1].n.name := [s[|s|-1].n] + s[|s|-1].dups]
  }

  // ----------------------------------------------------------------- colours

  predicate IsRed(t: Tree) {
    t.Node? && t.red
  }

  predicate PathRed(p: Path) {
    p.Step? && p.red
  }

  function Blacken(t: Tree): (r: Tree) {
    if t.Leaf? then Leaf else t.(red := false)
  }

  /** No red node has a red child, and every way down passes `h` black nodes. */
  predicate RB(t: Tree, h: nat) {
    match t
    case Leaf => h == 0
    case Node(_, red, l, r) =>
      if red then !IsRed(l) && !IsRed(r) && RB(l, h) && RB(r, h)
      else h > 0 && RB(l, h - 1) && RB(r, h - 1)
  }

  /** The number of black nodes on any way down a red-black tree. */
  function BlackHeight(t: Tree): (h: nat) {
    match t
    case Leaf => 0
    case Node(_, red, l, _) => BlackHeight(l) + if red then 0 else 1
  }

  lemma {:induction false} BlackHeightIs(t: Tree, h: nat)
    requires RB(t, h)
    ensures BlackHeight(t) == h
  {
    if t.Node? {
      BlackHeightIs(t.left, if t.red then h else h - 1);
    }
  }

  /** The same for the part of a tree outside a position of black height `h`. */
  predicate PathRB(p: Path, h: nat) {
    match p
    case Top => true
    case Step(_, red, _, sib, up) =>
      && RB(sib, h)
      && (red ==> !IsRed(sib) && !PathRed(up))
      && PathRB(up, if red then h else h + 1)
  }

  predicate Fits(p: Path, t: Tree, h: nat) {
    RB(t, h) && PathRB(p, h) && !(PathRed(p) && IsRed(t))
  }

  /** The black height of the whole tree, from that of a position in it. */
  function RootHeight(p: Path, h: nat): (r: nat)
    decreases p
  {
    if p.Top? then h else RootHeight(p.up, if p.red then h else h + 1)
  }

  lemma {:induction false} PlugRB(p: Path, t: Tree, h: nat)
    requires Fits(p, t, h)
    ensures RB(Plug(p, t), RootHeight(p, h))
    decreases p
  {
    if p.Step? {
      PlugRB(p.up, Fill(p, t), if p.red then h else h + 1);
    }
  }

  /** The colour of the root of the whole tree, read off the path. */
  predicate RootRed(p: Path, t: Tree) {
    if p.Top? then IsRed(t)
    else if p.up.Top? then p.red
    else RootRed(p.up, t)
  }

  lemma {:induction false} PlugRootRed(p: Path, t: Tree)
    ensures IsRed(Plug(p, t)) == RootRed(p, t)
    decreases p
  {
    if p.Step? {
      PlugRootRed(p.up, Fill(p, t));
      RootRedInside(p.up, t, Fill(p, t));
    }
  }

  lemma {:induction false} RootRedInside(p: Path, t: Tree, u: Tree)
    ensures p.Step? ==> RootRed(p, t) == RootRed(p, u)
  {
    if p.Step? {
      RootRedInside(p.up, t, u);
    }
  }
}
