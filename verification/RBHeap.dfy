/** How a tree value is laid out in linked nodes.  `Mem` records, for every
    node that sits in the tree, the logical fields of that node; the heap
    predicate of the tree class ties it to the real fields, one node at a
    time, so that everything about shape is about values. */
module RBHeap {
  import Names
  import opened RBShape
  import RBSplit

  /** The link and flag fields of a node, as stored. */
  datatype Fields = Fields(left: RBNode?, right: RBNode?, red: bool, duplicate: bool, continued: bool)

  type Store = map<RBNode, Fields>

  /** The logical fields of a tree node: its subtrees and colour. */
  datatype Cell = Cell(left: RBNode?, right: RBNode?, red: bool)

  type Mem = map<RBNode, Cell>

  /** For each tree node, the later nodes of the same name. */
  type Chains = map<RBNode, seq<RBNode>>

  /** With a chain, the left link moves from the node to the chain's head. */
  ghost predicate CellRep(n: RBNode, c: Cell, dups: seq<RBNode>, raw: Store) {
    && n in raw
    && raw[n].red == c.red && !raw[n].continued && raw[n].right == c.right
    && raw[n].duplicate == (dups != [])
    && (if dups == [] then raw[n].left == c.left
        else dups[0] in raw && raw[n].left == dups[0] && raw[dups[0]].left == c.left)
  }

  /** Later nodes of a name hang in a list off the first one. */
  ghost predicate LinkRep(n: RBNode, dups: seq<RBNode>, i: int, raw: Store, owner: map<RBNode, (RBNode, int)>) {
    0 <= i < |dups| ==>
    && dups[i] in owner && owner[dups[i]] == (n, i)
    && dups[i] in raw && dups[i].name == n.name
    && !raw[dups[i]].duplicate
    && raw[dups[i]].continued == (i + 1 < |dups|)
    && raw[dups[i]].right == (if i + 1 < |dups| then dups[i + 1] else null)
  }

  /** The stored fields are the logical ones, and no node is used twice:
      each node of a chain belongs to one tree node, at one place. */
  ghost predicate Sane(raw: Store, mem: Mem, chains: Chains, owner: map<RBNode, (RBNode, int)>) {
    && mem.Keys == chains.Keys
    && (forall n :: n in mem ==> CellRep(n, mem[n], chains[n], raw))
    && (forall n :: n in mem ==> n in owner && owner[n] == (n, -1))
    && (forall n, i :: n in mem ==> LinkRep(n, chains[n], i, raw, owner))
  }

  lemma SetLeftSane(node: RBNode, value: RBNode?, raw: Store, mem: Mem, chains: Chains, owner: map<RBNode, (RBNode, int)>)
    requires Sane(raw, mem, chains, owner) && node in mem
    ensures node in raw && node in owner
    ensures var at := if raw[node].duplicate then raw[node].left else node;
            && at != null && at in raw && at in owner
            && Sane(raw[at := raw[at].(left := value)], mem[node := mem[node].(left := value)], chains, owner)
  {
    assert CellRep(node, mem[node], chains[node], raw) && LinkRep(node, chains[node], 0, raw, owner);
    var at: RBNode := if raw[node].duplicate then raw[node].left else node;
    forall n | n in mem ensures CellRep(n, mem[node := mem[node].(left := value)][n], chains[n], raw[at := raw[at].(left := value)]) {
      assert CellRep(n, mem[n], chains[n], raw) && LinkRep(n, chains[n], 0, raw, owner);
    }
    var raw' := raw[at := raw[at].(left := value)];
    forall n, i | n in mem ensures LinkRep(n, chains[n], i, raw', owner) {
      assert LinkRep(n, chains[n], i, raw, owner);
    }
  }

  lemma SetRightSane(node: RBNode, value: RBNode?, raw: Store, mem: Mem, chains: Chains, owner: map<RBNode, (RBNode, int)>)
    requires Sane(raw, mem, chains, owner) && node in mem
    ensures node in raw && node in owner
    ensures Sane(raw[node := raw[node].(right := value)], mem[node := mem[node].(right := value)], chains, owner)
  {
    assert CellRep(node, mem[node], chains[node], raw);
    forall n | n in mem ensures CellRep(n, mem[node := mem[node].(right := value)][n], chains[n], raw[node := raw[node].(right := value)]) {
      assert CellRep(n, mem[n], chains[n], raw) && LinkRep(n, chains[n], 0, raw, owner);
    }
    var raw' := raw[node := raw[node].(right := value)];
    forall n, i | n in mem ensures LinkRep(n, chains[n], i, raw', owner) {
      assert LinkRep(n, chains[n], i, raw, owner);
    }
  }

  lemma SetRedSane(node: RBNode, value: bool, raw: Store, mem: Mem, chains: Chains, owner: map<RBNode, (RBNode, int)>)
    requires Sane(raw, mem, chains, owner) && node in mem
    ensures node in raw && node in owner
    ensures Sane(raw[node := raw[node].(red := value)], mem[node := mem[node].(red := value)], chains, owner)
  {
    assert CellRep(node, mem[node], chains[node], raw);
    forall n | n in mem ensures CellRep(n, mem[node := mem[node].(red := value)][n], chains[n], raw[node := raw[node].(red := value)]) {
      assert CellRep(n, mem[n], chains[n], raw) && LinkRep(n, chains[n], 0, raw, owner);
    }
    var raw' := raw[node := raw[node].(red := value)];
    forall n, i | n in mem ensures LinkRep(n, chains[n], i, raw', owner) {
      assert LinkRep(n, chains[n], i, raw, owner);
    }
  }

  /** Stored fields after chaining `node` onto the tree node `at`. */
  function AppendStore(at: RBNode, node: RBNode, dups: seq<RBNode>, raw: Store): (r: Store)
    requires at in raw && (dups != [] ==> dups[|dups|-1] in raw)
  {
    if dups == [] then
      raw[at := raw[at].(duplicate := true, left := node)]
         [node := Fields(raw[at].left, null, false, false, false)]
    else
      var last := dups[|dups|-1];
      raw[last := raw[last].(continued := true, right := node)]
         [node := Fields(null, null, false, false, false)]
  }

  lemma AppendSane(at: RBNode, node: RBNode, raw: Store, mem: Mem, chains: Chains, owner: map<RBNode, (RBNode, int)>)
    requires Sane(raw, mem, chains, owner) && at in mem && node !in raw && node.name == at.name
    ensures at in raw && (chains[at] != [] ==> chains[at][|chains[at]|-1] in raw)
    ensures Sane(AppendStore(at, node, chains[at], raw), mem, chains[at := chains[at] + [node]],
                 owner[node := (at, |chains[at]|)])
  {
    var dups := chains[at];
    assert CellRep(at, mem[at], dups, raw) && LinkRep(at, dups, |dups| - 1, raw, owner);
    var raw' := AppendStore(at, node, dups, raw);
    var chains' := chains[at := dups + [node]];
    var owner' := owner[node := (at, |dups|)];
    forall n | n in mem ensures CellRep(n, mem[n], chains'[n], raw') && n in owner' && owner'[n] == (n, -1) {
      assert CellRep(n, mem[n], chains[n], raw) && LinkRep(n, chains[n], 0, raw, owner);
    }
    forall n, i | n in mem ensures LinkRep(n, chains'[n], i, raw', owner') {
      assert LinkRep(n, chains[n], i, raw, owner);
    }
  }

  lemma NewNodeSane(node: RBNode, nil: RBNode, raw: Store, mem: Mem, chains: Chains, owner: map<RBNode, (RBNode, int)>)
    requires Sane(raw, mem, chains, owner) && node !in raw
    ensures node !in mem
    ensures Sane(raw[node := Fields(nil, nil, true, false, false)], mem[node := Cell(nil, nil, true)],
                 chains[node := []], owner[node := (node, -1)])
  {
    assert forall n :: n in mem ==> CellRep(n, mem[n], chains[n], raw);
    var raw' := raw[node := Fields(nil, nil, true, false, false)];
    var mem' := mem[node := Cell(nil, nil, true)];
    var chains' := chains[node := []];
    var owner' := owner[node := (node, -1)];
    forall n | n in mem' ensures CellRep(n, mem'[n], chains'[n], raw') && n in owner' && owner'[n] == (n, -1) {
      assert n in mem ==> CellRep(n, mem[n], chains[n], raw) && LinkRep(n, chains[n], 0, raw, owner);
    }
    forall n, i | n in mem' ensures LinkRep(n, chains'[n], i, raw', owner') {
      assert n in mem ==> LinkRep(n, chains[n], i, raw, owner);
    }
  }

  function Ptr(t: Tree, nil: RBNode): (r: RBNode) {
    if t.Leaf? then nil else t.e.n
  }

  function PathPtr(p: Path, head: RBNode): (r: RBNode) {
    if p.Top? then head else p.e.n
  }

  function Spots(t: Tree): (r: set<RBNode>) {
    match t
    case Leaf => {}
    case Node(e, _, l, r) => {e.n} + Spots(l) + Spots(r)
  }

  function PathSpots(p: Path): (r: set<RBNode>) {
    match p
    case Top => {}
    case Step(e, _, _, sib, up) => {e.n} + Spots(sib) + PathSpots(up)
  }

  ghost predicate Shape(t: Tree, mem: Mem, nil: RBNode) {
    match t
    case Leaf => true
    case Node(e, red, l, r) =>
      && e.n in mem && mem[e.n] == Cell(Ptr(l, nil), Ptr(r, nil), red)
      && Shape(l, mem, nil) && Shape(r, mem, nil)
      && e.n !in Spots(l) && e.n !in Spots(r) && Spots(l) !! Spots(r)
  }

  /** `hole` is the node that the end of the path points to. */
  ghost predicate PathShape(p: Path, hole: RBNode, mem: Mem, head: RBNode, nil: RBNode) {
    match p
    case Top => head in mem && mem[head] == Cell(null, hole, false)
    case Step(e, red, wentLeft, sib, up) =>
      && e.n in mem && e.n != head
      && mem[e.n] == (if wentLeft then Cell(hole, Ptr(sib, nil), red)
                      else Cell(Ptr(sib, nil), hole, red))
      && Shape(sib, mem, nil) && PathShape(up, e.n, mem, head, nil)
      && e.n !in Spots(sib) && e.n !in PathSpots(up) && Spots(sib) !! PathSpots(up)
      && head !in Spots(sib)
  }

  /** The whole tree lies in `mem`, with the position `t` at the end of `p`. */
  ghost predicate Located(p: Path, t: Tree, mem: Mem, head: RBNode, nil: RBNode) {
    && PathShape(p, Ptr(t, nil), mem, head, nil) && Shape(t, mem, nil)
    && Spots(t) !! PathSpots(p) && head !in Spots(t)
  }

  lemma {:induction false} ShapeFrame(t: Tree, mem: Mem, mem': Mem, nil: RBNode)
    requires Shape(t, mem, nil)
    requires forall n :: n in Spots(t) && n in mem ==> n in mem' && mem'[n] == mem[n]
    ensures Shape(t, mem', nil)
  {
    if t.Node? {
      ShapeFrame(t.left, mem, mem', nil);
      ShapeFrame(t.right, mem, mem', nil);
    }
  }

  lemma {:induction false} PathFrame(p: Path, hole: RBNode, mem: Mem, mem': Mem, head: RBNode, nil: RBNode)
    requires PathShape(p, hole, mem, head, nil)
    requires forall n :: (n == head || n in PathSpots(p)) && n in mem ==> n in mem' && mem'[n] == mem[n]
    ensures PathShape(p, hole, mem', head, nil)
  {
    if p.Step? {
      ShapeFrame(p.sib, mem, mem', nil);
      PathFrame(p.up, p.e.n, mem, mem', head, nil);
    }
  }

  /** Storing `value` at the end of the path only touches the node there. */
  function Relink(p: Path, value: RBNode, mem: Mem, head: RBNode): (r: Mem)
    requires PathPtr(p, head) in mem
  {
    var n := PathPtr(p, head);
    if p.Step? && p.wentLeft then mem[n := mem[n].(left := value)] else mem[n := mem[n].(right := value)]
  }

  lemma {:induction false} RelinkShape(p: Path, hole: RBNode, value: RBNode, mem: Mem, head: RBNode, nil: RBNode)
    requires PathShape(p, hole, mem, head, nil)
    requires head !in PathSpots(p)
    ensures PathShape(p, value, Relink(p, value, mem, head), head, nil)
  {
    var mem' := Relink(p, value, mem, head);
    if p.Step? {
      ShapeFrame(p.sib, mem, mem', nil);
      PathFrame(p.up, p.e.n, mem, mem', head, nil);
    }
  }

  lemma {:induction false} HeadOffPath(p: Path, hole: RBNode, mem: Mem, head: RBNode, nil: RBNode)
    requires PathShape(p, hole, mem, head, nil)
    ensures head !in PathSpots(p)
  {
    if p.Step? {
      HeadOffPath(p.up, p.e.n, mem, head, nil);
    }
  }

  /** The two link writes between a node and the child that comes up. */
  function LiftMem(c: Tree, fromLeft: bool, mem: Mem): (r: Mem)
    requires c.Node? && (if fromLeft then c.left.Node? else c.right.Node?)
    requires c.e.n in mem && (if fromLeft then c.left else c.right).e.n in mem
  {
    var g := if fromLeft then c.left else c.right;
    if fromLeft
    then mem[c.e.n := mem[c.e.n].(left := mem[g.e.n].right)][g.e.n := mem[g.e.n].(right := c.e.n)]
    else mem[c.e.n := mem[c.e.n].(right := mem[g.e.n].left)][g.e.n := mem[g.e.n].(left := c.e.n)]
  }

  lemma LiftShape(c: Tree, fromLeft: bool, mem: Mem, nil: RBNode)
    requires c.Node? && (if fromLeft then c.left.Node? else c.right.Node?)
    requires Shape(c, mem, nil)
    ensures c.e.n in mem && (if fromLeft then c.left else c.right).e.n in mem
    ensures Shape(RBSplit.RotateTree(c, fromLeft), LiftMem(c, fromLeft, mem), nil)
    ensures Spots(RBSplit.RotateTree(c, fromLeft)) == Spots(c)
  {
    var g := if fromLeft then c.left else c.right;
    assert Shape(g, mem, nil);
    var mem' := LiftMem(c, fromLeft, mem);
    ShapeFrame(g.left, mem, mem', nil);
    ShapeFrame(g.right, mem, mem', nil);
    ShapeFrame(if fromLeft then c.right else c.left, mem, mem', nil);
  }

  /** A rotation around the end of the path, on the recorded fields. */
  lemma RotateLocated(p: Path, c: Tree, fromLeft: bool, mem: Mem, head: RBNode, nil: RBNode)
    requires c.Node? && (if fromLeft then c.left.Node? else c.right.Node?)
    requires Located(p, c, mem, head, nil)
    ensures c.e.n in mem && (if fromLeft then c.left else c.right).e.n in mem
    ensures PathPtr(p, head) in LiftMem(c, fromLeft, mem)
    ensures var mem' := LiftMem(c, fromLeft, mem);
            var t := RBSplit.RotateTree(c, fromLeft);
            Located(p, t, Relink(p, t.e.n, mem', head), head, nil)
  {
    assert Shape(if fromLeft then c.left else c.right, mem, nil);
    var mem' := LiftMem(c, fromLeft, mem);
    var t := RBSplit.RotateTree(c, fromLeft);
    LiftShape(c, fromLeft, mem, nil);
    PathFrame(p, c.e.n, mem, mem', head, nil);
    HeadOffPath(p, c.e.n, mem, head, nil);
    RelinkShape(p, c.e.n, t.e.n, mem', head, nil);
    ShapeFrame(t, mem', Relink(p, t.e.n, mem', head), nil);
  }

  /** Moving the position up or down the tree. */
  lemma ZoomOut(p: Path, t: Tree, mem: Mem, head: RBNode, nil: RBNode)
    requires p.Step? && Located(p, t, mem, head, nil)
    ensures Located(p.up, Fill(p, t), mem, head, nil)
  {
  }

  lemma ZoomIn(p: Path, t: Tree, goLeft: bool, mem: Mem, head: RBNode, nil: RBNode)
    requires t.Node? && Located(p, t, mem, head, nil)
    ensures Located(RBSplit.StepSide(p, t, goLeft), if goLeft then t.left else t.right, mem, head, nil)
  {
  }

  function RedMem(t: Tree, value: bool, mem: Mem): (r: Mem) {
    if t.Node? && t.e.n in mem then mem[t.e.n := mem[t.e.n].(red := value)] else mem
  }

  lemma SetRedLocated(p: Path, t: Tree, value: bool, mem: Mem, head: RBNode, nil: RBNode)
    requires t.Node? && Located(p, t, mem, head, nil)
    ensures Located(p, t.(red := value), RedMem(t, value, mem), head, nil)
  {
    var mem' := RedMem(t, value, mem);
    ShapeFrame(t.left, mem, mem', nil);
    ShapeFrame(t.right, mem, mem', nil);
    PathFrame(p, t.e.n, mem, mem', head, nil);
  }

  lemma BlackenChild(p: Path, t: Tree, left: bool, mem: Mem, head: RBNode, nil: RBNode)
    requires t.Node? && Located(p, t, mem, head, nil)
    ensures var c := if left then t.left else t.right;
            Located(p, if left then t.(left := Blacken(c)) else t.(right := Blacken(c)), RedMem(c, false, mem), head, nil)
  {
    ZoomIn(p, t, left, mem, head, nil);
    var c := if left then t.left else t.right;
    if c.Node? {
      var q := RBSplit.StepSide(p, t, left);
      SetRedLocated(q, c, false, mem, head, nil);
      ZoomOut(q, Blacken(c), RedMem(c, false, mem), head, nil);
    }
  }

  /** Hanging a new red node where the search fell off the tree. */
  lemma HangNew(p: Path, node: RBNode, mem: Mem, head: RBNode, nil: RBNode)
    requires Located(p, Leaf, mem, head, nil) && node !in mem && PathPtr(p, head) in mem
    ensures var mem' := mem[node := Cell(nil, nil, true)];
            Located(p, Node(Entry(node, []), true, Leaf, Leaf), Relink(p, node, mem', head), head, nil)
  {
    var mem' := mem[node := Cell(nil, nil, true)];
    HeadOffPath(p, nil, mem, head, nil);
    PathInMem(p, nil, mem, head, nil);
    PathFrame(p, nil, mem, mem', head, nil);
    RelinkShape(p, nil, node, mem', head, nil);
  }

  lemma {:induction false} ShapeInMem(t: Tree, mem: Mem, nil: RBNode)
    requires Shape(t, mem, nil)
    ensures forall n :: n in Spots(t) ==> n in mem
  {
    if t.Node? {
      ShapeInMem(t.left, mem, nil);
      ShapeInMem(t.right, mem, nil);
    }
  }

  lemma {:induction false} PathInMem(p: Path, hole: RBNode, mem: Mem, head: RBNode, nil: RBNode)
    requires PathShape(p, hole, mem, head, nil)
    ensures head in mem && PathPtr(p, head) in mem
    ensures forall n :: n in PathSpots(p) ==> n in mem
  {
    if p.Step? {
      ShapeInMem(p.sib, mem, nil);
      PathInMem(p.up, p.e.n, mem, head, nil);
    }
  }

  lemma {:induction false} ZoomAll(p: Path, t: Tree, mem: Mem, head: RBNode, nil: RBNode)
    requires Located(p, t, mem, head, nil)
    ensures Located(Top, Plug(p, t), mem, head, nil)
    decreases p
  {
    if p.Step? {
      ZoomOut(p, t, mem, head, nil);
      ZoomAll(p.up, Fill(p, t), mem, head, nil);
    }
  }

  /** The chains recorded for the tree nodes are those of the entries. */
  ghost predicate ChainsAgree(s: seq<Entry>, chains: Chains) {
    forall i :: 0 <= i < |s| ==> s[i].n in chains && chains[s[i].n] == s[i].dups
  }

  lemma ChainsInsert(a: seq<Entry>, b: seq<Entry>, node: RBNode, chains: Chains)
    requires ChainsAgree(a + b, chains) && node !in chains
    ensures ChainsAgree(a + [Entry(node, [])] + b, chains[node := []])
  {
    var s := a + [Entry(node, [])] + b;
    forall i | 0 <= i < |s| ensures s[i].n in chains[node := []] && chains[node := []][s[i].n] == s[i].dups {
      if i != |a| {
        assert s[i] == (a + b)[if i < |a| then i else i - 1];
      }
    }
  }

  lemma ChainsAppend(a: seq<Entry>, e: Entry, b: seq<Entry>, node: RBNode, chains: Chains)
    requires ChainsAgree(a + [e] + b, chains) && Sorted(a + [e] + b)
    ensures var dups := e.dups + [node];
            ChainsAgree(a + [Entry(e.n, dups)] + b, chains[e.n := dups])
  {
    var s := a + [e] + b;
    var s' := a + [Entry(e.n, e.dups + [node])] + b;
    assert s[|a|] == e;
    forall i | 0 <= i < |s'| && i != |a| ensures s'[i] == s[i] && s[i].n != e.n {
      Names.StrCmpEqual(s[i].n.name, e.n.name);
      Names.StrCmpEqual(e.n.name, s[i].n.name);
      assert if i < |a| then Names.StrCmp(s[i].n.name, s[|a|].n.name) < 0 else Names.StrCmp(s[|a|].n.name, s[i].n.name) < 0;
    }
  }
}
