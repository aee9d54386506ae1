/** Documentation trees as first-child/next-sibling values, the event stream
    that a tree stands for, and how a tree lies in linked nodes. */
module DocShape {

  /** What the XML reader delivers; `Skipped` is any other item. */
  datatype Item = StartTag(text: string) | SingletonTag(text: string) | Text(text: string) | EndTag | Skipped

  class ILDocText {
    const isTag: bool
    const text: string
    var parent: ILDocText?
    var next: ILDocText?
    var children: ILDocText?

    constructor (isTag: bool, text: string, parent: ILDocText?)
      ensures this.isTag == isTag && this.text == text
      ensures this.parent == parent && next == null && children == null
    {
      this.isTag, this.text, this.parent := isTag, text, parent;
      next, children := null, null;
    }
  }

  /** A list of siblings: the first node, its children, the other siblings. */
  datatype Forest = Nil | Cons(n: ILDocText, kids: Forest, rest: Forest)

  /** A singleton tag stands for a start and an end; skipped items for nothing. */
  function Expand(es: seq<Item>): (r: seq<Item>) {
    if es == [] then []
    else
      var e := es[|es|-1];
      Expand(es[..|es|-1]) +
      match e
      case SingletonTag(t) => [StartTag(t), EndTag]
      case Skipped => []
      case _ => [e]
  }

  /** Other items stand for themselves. */
  lemma {:induction false} ExpandPlain(es: seq<Item>)
    requires forall e :: e in es ==> e.StartTag? || e.Text? || e.EndTag?
    ensures Expand(es) == es
  {
    if es != [] {
      ExpandPlain(es[..|es|-1]);
    }
  }

  lemma {:induction false} ExpandConcat(a: seq<Item>, b: seq<Item>)
    ensures Expand(a + b) == Expand(a) + Expand(b)
  {
    if b == [] {
      assert a + b == a;
    } else {
      assert (a + b)[..|a + b|-1] == a + b[..|b|-1];
      ExpandConcat(a, b[..|b|-1]);
    }
  }

  lemma ExpandInside(a: seq<Item>, x: seq<Item>, b: seq<Item>)
    ensures Expand(a + x + b) == Expand(a) + Expand(x) + Expand(b)
  {
    hide Expand;
    ExpandConcat(a + x, b);
    ExpandConcat(a, x);
  }

  lemma ExpandOne(t: string)
    ensures Expand([SingletonTag(t)]) == [StartTag(t), EndTag] && Expand([Skipped]) == []
  {
    assert [SingletonTag(t)][..0] == [] && [Skipped][..0] == [];
  }

  /** A singleton tag is read like a start tag and an end tag, and a skipped
      item like nothing, wherever they stand. */
  lemma SingletonIsPair(a: seq<Item>, t: string, b: seq<Item>)
    ensures Expand(a + [SingletonTag(t)] + b) == Expand(a + [StartTag(t), EndTag] + b)
    ensures Expand(a + [Skipped] + b) == Expand(a + b)
  {
    hide Expand;
    ExpandOne(t);
    ExpandPlain([StartTag(t), EndTag]);
    ExpandInside(a, [SingletonTag(t)], b);
    ExpandInside(a, [StartTag(t), EndTag], b);
    ExpandInside(a, [Skipped], b);
    ExpandConcat(a, b);
    assert Expand(a) + [] == Expand(a);
  }

  /** Open tags after a stream. */
  function Level(es: seq<Item>): (r: int) {
    if es == [] then 0
    else Level(es[..|es|-1]) + match es[|es|-1]
                               case StartTag(_) => 1
                               case EndTag => -1
                               case _ => 0
  }

  ghost predicate Balanced(es: seq<Item>) {
    Level(es) == 0 && forall k :: 0 <= k <= |es| ==> Level(es[..k]) >= 0
  }

  /** The pre-order printer. */
  function Print(f: Forest): (r: seq<Item>) {
    match f
    case Nil => []
    case Cons(n, kids, rest) => PrintNode(n, Print(kids)) + Print(rest)
  }

  function PrintNode(n: ILDocText, inner: seq<Item>): (r: seq<Item>) {
    if n.isTag then [StartTag(n.text)] + inner + [EndTag] else [Text(n.text)]
  }

  /** The last `d` nested tags are still open. */
  predicate Deep(f: Forest, d: nat) {
    d == 0 || (f.Cons? && if f.rest.Cons? then Deep(f.rest, d) else f.n.isTag && Deep(f.kids, d - 1))
  }

  /** Printing without the ends of the open tags. */
  function PrintOpen(f: Forest, d: nat): (r: seq<Item>)
    requires Deep(f, d)
  {
    if d == 0 then Print(f)
    else if f.rest.Cons? then PrintNode(f.n, Print(f.kids)) + PrintOpen(f.rest, d)
    else [StartTag(f.n.text)] + PrintOpen(f.kids, d - 1)
  }

  /** Adds a node after the last one inside the open tags. */
  function Append(f: Forest, d: nat, x: ILDocText): (r: Forest)
    requires Deep(f, d)
  {
    match f
    case Nil => Cons(x, Nil, Nil)
    case Cons(n, kids, rest) =>
      if rest.Cons? then Cons(n, kids, Append(rest, d, x))
      else if d == 0 then Cons(n, kids, Cons(x, Nil, Nil))
      else Cons(n, Append(kids, d - 1, x), Nil)
  }

  /** The innermost open tag, and the last node inside it. */
  function Parent(f: Forest, d: nat, p: ILDocText?): (r: ILDocText?)
    requires Deep(f, d)
  {
    if d == 0 then p
    else if f.rest.Cons? then Parent(f.rest, d, p)
    else Parent(f.kids, d - 1, f.n)
  }

  function LastIn(f: Forest, d: nat): (r: ILDocText?)
    requires Deep(f, d)
  {
    if f.Nil? then null
    else if f.rest.Cons? then LastIn(f.rest, d)
    else if d == 0 then f.n
    else LastIn(f.kids, d - 1)
  }

  // ----------------------------------------------------- effect on printing

  lemma {:induction false} AppendPrints(f: Forest, d: nat, x: ILDocText)
    requires Deep(f, d)
    ensures Deep(Append(f, d, x), d)
    ensures PrintOpen(Append(f, d, x), d) == PrintOpen(f, d) + PrintNode(x, [])
    ensures x.isTag ==>
      Deep(Append(f, d, x), d + 1) && PrintOpen(Append(f, d, x), d + 1) == PrintOpen(f, d) + [StartTag(x.text)]
    decreases f
  {
    var one := Cons(x, Nil, Nil);
    assert Print(one) == PrintNode(x, []) + [];
    match f
    case Nil =>
    case Cons(n, kids, rest) =>
      if rest.Cons? {
        AppendPrints(rest, d, x);
        Assoc(PrintNode(n, Print(kids)), PrintOpen(rest, d), PrintNode(x, []));
        Assoc(PrintNode(n, Print(kids)), PrintOpen(rest, d), [StartTag(x.text)]);
        PrintOpenZero(Append(rest, d, x), d);
        PrintOpenZero(rest, d);
      } else if d == 0 {
        Assoc(PrintNode(n, Print(kids)), [], PrintNode(x, []));
      } else {
        AppendPrints(kids, d - 1, x);
        Assoc([StartTag(n.text)], PrintOpen(kids, d - 1), PrintNode(x, []));
        Assoc([StartTag(n.text)], PrintOpen(kids, d - 1), [StartTag(x.text)]);
      }
  }

  /** Where the next node will go after an append. */
  lemma {:induction false} AppendPlace(f: Forest, d: nat, x: ILDocText, p: ILDocText?)
    requires Deep(f, d)
    ensures Deep(Append(f, d, x), d)
    ensures LastIn(Append(f, d, x), d) == x && Parent(Append(f, d, x), d, p) == Parent(f, d, p)
    ensures x.isTag ==>
      Deep(Append(f, d, x), d + 1) && LastIn(Append(f, d, x), d + 1) == null && Parent(Append(f, d, x), d + 1, p) == x
    decreases f
  {
    if f.Cons? {
      if f.rest.Cons? {
        AppendPlace(f.rest, d, x, p);
      } else if d == 0 {
        var one := Cons(x, Nil, Nil);
        assert Deep(Nil, 0) && LastIn(Nil, 0) == null && Parent(Nil, 0, x) == x;
        assert x.isTag ==> Deep(one, 1) && LastIn(one, 1) == null && Parent(one, 1, p) == x;
      } else {
        AppendPlace(f.kids, d - 1, x, f.n);
      }
    }
  }

  /** An end tag closes the innermost open tag, which becomes the last node. */
  lemma {:induction false} ClosePrints(f: Forest, d: nat, p: ILDocText?)
    requires d > 0 && Deep(f, d)
    ensures Deep(f, d - 1)
    ensures PrintOpen(f, d - 1) == PrintOpen(f, d) + [EndTag]
    ensures LastIn(f, d - 1) == Parent(f, d, p) && Parent(f, d, p) != null
    decreases f
  {
    if f.rest.Cons? {
      ClosePrints(f.rest, d, p);
      Assoc(PrintNode(f.n, Print(f.kids)), PrintOpen(f.rest, d), [EndTag]);
      PrintOpenZero(f.rest, d - 1);
    } else if d == 1 {
      assert Print(f) == PrintNode(f.n, Print(f.kids)) + [];
      assert PrintOpen(f, 1) == [StartTag(f.n.text)] + PrintOpen(f.kids, 0);
    } else {
      ClosePrints(f.kids, d - 1, f.n);
      Assoc([StartTag(f.n.text)], PrintOpen(f.kids, d - 1), [EndTag]);
    }
  }

  lemma PrintOpenZero(f: Forest, d: nat)
    requires Deep(f, d)
    ensures d == 0 ==> PrintOpen(f, d) == Print(f)
  {
  }

  lemma Assoc<T>(a: seq<T>, b: seq<T>, c: seq<T>)
    ensures a + (b + c) == (a + b) + c
  {
  }

  // ------------------------------------------------------------ heap layout

  datatype Links = Links(parent: ILDocText?, next: ILDocText?, children: ILDocText?)

  type Store = map<ILDocText, Links>

  function Ptr(f: Forest): (r: ILDocText?) {
    if f.Nil? then null else f.n
  }

  function Nodes(f: Forest): (r: set<ILDocText>) {
    if f.Nil? then {} else {f.n} + Nodes(f.kids) + Nodes(f.rest)
  }

  /** The links are those of the forest, with every parent link correct, and
      no node occurs twice. */
  ghost predicate Shape(f: Forest, parent: ILDocText?, store: Store) {
    match f
    case Nil => true
    case Cons(n, kids, rest) =>
      && n in store && store[n] == Links(parent, Ptr(rest), Ptr(kids))
      && (!n.isTag ==> kids.Nil?)
      && Shape(kids, n, store) && Shape(rest, parent, store)
      && n !in Nodes(kids) && n !in Nodes(rest) && Nodes(kids) !! Nodes(rest)
  }

  lemma {:induction false} ShapeFrame(f: Forest, parent: ILDocText?, store: Store, store': Store)
    requires Shape(f, parent, store)
    requires forall n :: n in Nodes(f) && n in store ==> n in store' && store'[n] == store[n]
    ensures Shape(f, parent, store')
  {
    if f.Cons? {
      ShapeFrame(f.kids, f.n, store, store');
      ShapeFrame(f.rest, parent, store, store');
    }
  }

  /** The link writes for a new node: into the last node, or into the parent
      when the tag is still empty, or nowhere for the very first node. */
  function LinkIn(store: Store, x: ILDocText, last: ILDocText?, parent: ILDocText?): (r: Store)
    requires last != null ==> last in store
    requires last == null && parent != null ==> parent in store
  {
    var s := store[x := Links(parent, null, null)];
    if last != null then s[last := s[last].(next := x)]
    else if parent != null then s[parent := s[parent].(children := x)]
    else s
  }

  lemma {:induction false} OpenNodes(f: Forest, d: nat, p: ILDocText?, store: Store)
    requires Deep(f, d) && Shape(f, p, store)
    ensures LastIn(f, d) != null ==> LastIn(f, d) in Nodes(f) && LastIn(f, d) in store
    ensures d > 0 ==> Parent(f, d, p) != null && Parent(f, d, p) in Nodes(f) && Parent(f, d, p) in store
    ensures d > 0 ==> Deep(f, d - 1) && store[Parent(f, d, p)].parent == Parent(f, d - 1, p)
    decreases f
  {
    if f.Cons? {
      if f.rest.Cons? {
        OpenNodes(f.rest, d, p, store);
      } else if d > 0 {
        OpenNodes(f.kids, d - 1, f.n, store);
      }
    }
  }

  lemma {:induction false} AppendNodes(f: Forest, d: nat, x: ILDocText)
    requires Deep(f, d)
    ensures Nodes(Append(f, d, x)) == Nodes(f) + {x}
    decreases f
  {
    if f.Cons? {
      if f.rest.Cons? {
        AppendNodes(f.rest, d, x);
      } else if d > 0 {
        AppendNodes(f.kids, d - 1, x);
      }
    }
  }

  lemma {:induction false} AppendShape(f: Forest, d: nat, p: ILDocText?, x: ILDocText, store: Store)
    requires Deep(f, d) && Shape(f, p, store) && x !in store && (p != null ==> p !in Nodes(f))
    requires x !in Nodes(f)
    requires LastIn(f, d) != null ==> LastIn(f, d) in store
    requires LastIn(f, d) == null && Parent(f, d, p) != null ==> Parent(f, d, p) in store
    ensures Shape(Append(f, d, x), p, LinkIn(store, x, LastIn(f, d), Parent(f, d, p)))
    decreases f
  {
    var store' := LinkIn(store, x, LastIn(f, d), Parent(f, d, p));
    AppendNodes(f, d, x);
    match f
    case Nil =>
    case Cons(n, kids, rest) =>
      if rest.Cons? {
        AppendShape(rest, d, p, x, store);
        AppendBeyond(n, kids, rest, d, p, x, store);
        AppendNodes(rest, d, x);
      } else if d == 0 {
        ShapeFrame(kids, n, store, store');
      } else {
        AppendShape(kids, d - 1, n, x, store);
        AppendInside(n, kids, d - 1, x, store);
        AppendNodes(kids, d - 1, x);
      }
  }

  /** An append among later siblings leaves a node and its children alone. */
  lemma AppendBeyond(n: ILDocText, kids: Forest, rest: Forest, d: nat, p: ILDocText?, x: ILDocText, store: Store)
    requires Deep(rest, d) && rest.Cons? && Shape(rest, p, store) && Shape(kids, n, store)
    requires n in store && n !in Nodes(rest) && Nodes(kids) !! Nodes(rest) && x !in store && x !in Nodes(kids)
    requires p != null ==> p != n && p !in Nodes(kids)
    requires LastIn(rest, d) != null ==> LastIn(rest, d) in store
    requires LastIn(rest, d) == null && Parent(rest, d, p) != null ==> Parent(rest, d, p) in store
    ensures var store' := LinkIn(store, x, LastIn(rest, d), Parent(rest, d, p));
            && n in store' && store'[n] == store[n] && Shape(kids, n, store')
    ensures Ptr(Append(rest, d, x)) == Ptr(rest)
  {
    hide Shape;
    OpenNodes(rest, d, p, store);
    var store' := LinkIn(store, x, LastIn(rest, d), Parent(rest, d, p));
    ShapeFrame(kids, n, store, store');
  }

  /** An append below a tag leaves its own links alone, but for the first
      child of an empty tag. */
  lemma AppendInside(n: ILDocText, kids: Forest, d: nat, x: ILDocText, store: Store)
    requires Deep(kids, d) && Shape(kids, n, store) && n in store && n !in Nodes(kids) && x !in store
    requires store[n].children == Ptr(kids)
    ensures LastIn(kids, d) != null ==> LastIn(kids, d) in store
    ensures LastIn(kids, d) == null && Parent(kids, d, n) != null ==> Parent(kids, d, n) in store
    ensures var store' := LinkIn(store, x, LastIn(kids, d), Parent(kids, d, n));
            && n in store' && store'[n] == store[n].(children := Ptr(Append(kids, d, x)))
  {
    OpenNodes(kids, d, n, store);
    if kids.Cons? {
      if d == 0 {
        LastPresent(kids);
      }
    }
  }

  lemma {:induction false} LastPresent(f: Forest)
    requires f.Cons?
    ensures LastIn(f, 0) != null
  {
    if f.rest.Cons? {
      LastPresent(f.rest);
    }
  }

  lemma {:induction false} StoreNodes(f: Forest, p: ILDocText?, store: Store)
    requires Shape(f, p, store)
    ensures Nodes(f) <= store.Keys
  {
    if f.Cons? {
      StoreNodes(f.kids, f.n, store);
      StoreNodes(f.rest, p, store);
    }
  }

  // ------------------------------------------------------------ uniqueness

  /** What a forest says, without its node identities. */
  datatype Content = Done | Element(isTag: bool, text: string, kids: Content, rest: Content)

  function Erase(f: Forest): (r: Content) {
    match f
    case Nil => Done
    case Cons(n, kids, rest) => Element(n.isTag, n.text, Erase(kids), Erase(rest))
  }

  /** Text nodes have no children. */
  predicate Proper(f: Forest) {
    f.Cons? ==> (f.n.isTag || f.kids.Nil?) && Proper(f.kids) && Proper(f.rest)
  }

  lemma {:induction false} ShapeProper(f: Forest, p: ILDocText?, store: Store)
    requires Shape(f, p, store)
    ensures Proper(f)
  {
    if f.Cons? {
      ShapeProper(f.kids, f.n, store);
      ShapeProper(f.rest, p, store);
    }
  }

  /** The printed stream determines the tree. */
  lemma {:induction false} PrintInjective(f: Forest, g: Forest, u: seq<Item>, v: seq<Item>)
    requires Proper(f) && Proper(g)
    requires (u == [] || u[0] == EndTag) && (v == [] || v[0] == EndTag)
    requires Print(f) + u == Print(g) + v
    ensures Erase(f) == Erase(g) && u == v
    decreases f, g
  {
    hide Print;
    FirstItem(f, u);
    FirstItem(g, v);
    if f.Cons? && g.Cons? {
      var r, r' := Print(f.rest) + u, Print(g.rest) + v;
      Cancel(Head(f), if f.n.isTag then Print(f.kids) + ([EndTag] + r) else r,
             Head(g), if g.n.isTag then Print(g.kids) + ([EndTag] + r') else r');
      if f.n.isTag {
        PrintInjective(f.kids, g.kids, [EndTag] + r, [EndTag] + r');
        Cancel(EndTag, r, EndTag, r');
      }
      PrintInjective(f.rest, g.rest, u, v);
    }
  }

  function Head(f: Forest): (r: Item)
    requires f.Cons?
  {
    if f.n.isTag then StartTag(f.n.text) else Text(f.n.text)
  }

  lemma Cancel<T>(x: T, a: seq<T>, y: T, b: seq<T>)
    requires [x] + a == [y] + b
    ensures x == y && a == b
  {
    assert ([x] + a)[0] == x && ([x] + a)[1..] == a && ([y] + b)[1..] == b;
  }

  /** How a printed forest continues into what follows it. */
  lemma FirstItem(f: Forest, u: seq<Item>)
    ensures f.Nil? ==> Print(f) + u == u
    ensures f.Cons? && f.n.isTag ==>
      Print(f) + u == [StartTag(f.n.text)] + (Print(f.kids) + ([EndTag] + (Print(f.rest) + u)))
    ensures f.Cons? && !f.n.isTag ==> Print(f) + u == [Text(f.n.text)] + (Print(f.rest) + u)
  {
    if f.Nil? {
      assert [] + u == u;
    } else if f.n.isTag {
      FlattenTag([StartTag(f.n.text)], Print(f.kids), [EndTag], Print(f.rest), u);
    } else {
      Assoc([Text(f.n.text)], Print(f.rest), u);
    }
  }

  lemma FlattenTag<T>(a: seq<T>, b: seq<T>, c: seq<T>, d: seq<T>, e: seq<T>)
    ensures (a + b + c) + d + e == a + (b + (c + (d + e)))
  {
  }
}
