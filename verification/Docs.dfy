/** Parsing a documentation element from an event stream. */
module Docs {
  import opened DocShape

  class DocLoader {
    ghost var store: Store

    constructor ()
      ensures store == map[]
    {
      store := map[];
    }

    /** The store is what the nodes hold. */
    ghost predicate Snapshot()
      reads `store, store.Keys
    {
      forall n :: n in store ==> store[n] == Links(n.parent, n.next, n.children)
    }

    /** A new node, linked after `last`, or as the first child of `parent`, or
        as the whole document. */
    method Attach(isTag: bool, text: string, last: ILDocText?, parent: ILDocText?, doc: ILDocText?)
      returns (node: ILDocText, doc': ILDocText?)
      requires Snapshot() && (last != null ==> last in store) && (parent != null ==> parent in store)
      modifies `store, store.Keys
      ensures Snapshot() && fresh(node) && node.isTag == isTag && node.text == text && node !in old(store)
      ensures store == LinkIn(old(store), node, last, parent) && store.Keys == old(store).Keys + {node}
      ensures doc' == if last == null && parent == null then node else doc
    {
      node := new ILDocText(isTag, text, parent);
      ghost var s := store[node := Links(parent, null, null)];
      doc' := doc;
      if last != null {
        last.next := node;
        store := s[last := s[last].(next := node)];
      } else if parent != null {
        parent.children := node;
        store := s[parent := s[parent].(children := node)];
      } else {
        doc' := node;
        store := s;
      }
    }

    /** One item of the stream, on the value side. */
    static lemma OneMore(items: seq<Item>, i: nat)
      requires i < |items|
      ensures Expand(items[..i + 1]) == Expand(items[..i]) +
        match items[i]
        case SingletonTag(t) => [StartTag(t), EndTag]
        case Skipped => []
        case _ => [items[i]]
      ensures Level(items[..i + 1]) == Level(items[..i]) + match items[i]
                                                           case StartTag(_) => 1
                                                           case EndTag => -1
                                                           case _ => 0
    {
      assert items[..i + 1][..i] == items[..i];
    }

    static lemma Started(items: seq<Item>)
      ensures items[..0] == [] && Expand([]) == [] && Level([]) == 0
      ensures Deep(Nil, 0) && PrintOpen(Nil, 0) == [] && LastIn(Nil, 0) == null && Parent(Nil, 0, null) == null
      ensures forall s :: Shape(Nil, null, s)
    {
    }

    static lemma InStore(f: Forest, d: nat, s: Store)
      requires Deep(f, d) && Shape(f, null, s)
      ensures LastIn(f, d) != null ==> LastIn(f, d) in s
      ensures Parent(f, d, null) != null ==> Parent(f, d, null) in s
      ensures d > 0 ==> Parent(f, d, null) != null && Deep(f, d - 1) && s[Parent(f, d, null)].parent == Parent(f, d - 1, null)
      ensures LastIn(f, d) == null && Parent(f, d, null) == null <==> f.Nil?
    {
      OpenNodes(f, d, null, s);
      if f.Cons? && d == 0 {
        LastPresent(f);
      }
    }

    /** A node that has been attached. */
    static lemma Appended(f: Forest, d: nat, x: ILDocText, s: Store, s': Store)
      requires Deep(f, d) && Shape(f, null, s) && x !in s
      requires LastIn(f, d) != null ==> LastIn(f, d) in s
      requires Parent(f, d, null) != null ==> Parent(f, d, null) in s
      requires s' == LinkIn(s, x, LastIn(f, d), Parent(f, d, null))
      ensures var g := Append(f, d, x);
              && Deep(g, d) && Shape(g, null, s') && Ptr(g) == (if f.Nil? then x else Ptr(f))
              && PrintOpen(g, d) == PrintOpen(f, d) + PrintNode(x, [])
              && LastIn(g, d) == x && Parent(g, d, null) == Parent(f, d, null)
              && (x.isTag ==>
                    && Deep(g, d + 1) && PrintOpen(g, d + 1) == PrintOpen(f, d) + [StartTag(x.text)]
                    && LastIn(g, d + 1) == null && Parent(g, d + 1, null) == x)
    {
      StoreNodes(f, null, s);
      AppendShape(f, d, null, x, s);
      AppendPrints(f, d, x);
      AppendPlace(f, d, x, null);
    }

    /** `ParseDocs`: reads items until the end of the stream or an end tag
        that closes nothing opened here. */
    method ParseDocs(items: seq<Item>) returns (doc: ILDocText?, ghost f: Forest, ghost depth: nat, read: nat)
      requires store == map[]
      modifies `store
      ensures Snapshot() && Shape(f, null, store) && doc == Ptr(f)
      ensures Deep(f, depth) && read <= |items| && depth == Level(items[..read])
      ensures PrintOpen(f, depth) == Expand(items[..read])
      ensures read < |items| ==> depth == 0 && items[read] == EndTag
      ensures Balanced(items) ==> Print(f) == Expand(items)
    {
      hide Shape, PrintOpen, Print, Expand, Level, Append, Deep, LastIn, Parent, LinkIn;
      var last: ILDocText?, parent: ILDocText? := null, null;
      doc, f, depth, read := null, Nil, 0, 0;
      var level := 0;
      Started(items);
      while read < |items|
        invariant read <= |items| && level == depth && Snapshot() && fresh(store.Keys)
        invariant Deep(f, depth) && Shape(f, null, store) && doc == Ptr(f)
        invariant last == LastIn(f, depth) && parent == Parent(f, depth, null)
        invariant PrintOpen(f, depth) == Expand(items[..read]) && depth == Level(items[..read])
        decreases |items| - read
      {
        var item := items[read];
        OneMore(items, read);
        InStore(f, depth, store);
        ghost var before := store;
        if item.StartTag? {
          var text;
          text, doc := Attach(true, item.text, last, parent, doc);
          Appended(f, depth, text, before, store);
          f := Append(f, depth, text);
          last, parent := null, text;
          level, depth := level + 1, depth + 1;
        } else if item.SingletonTag? {
          last, doc := Attach(true, item.text, last, parent, doc);
          Appended(f, depth, last, before, store);
          f := Append(f, depth, last);
        } else if item.Text? {
          last, doc := Attach(false, item.text, last, parent, doc);
          Appended(f, depth, last, before, store);
          f := Append(f, depth, last);
        } else if item.EndTag? {
          if level == 0 {
            break;
          }
          ClosePrints(f, depth, null);
          level, depth := level - 1, depth - 1;
          last := parent;
          parent := parent.parent;
        }
        read := read + 1;
      }
      WholeStream(items, f, depth, read);
    }

    static lemma WholeStream(items: seq<Item>, f: Forest, d: nat, read: nat)
      requires read <= |items| && Deep(f, d) && d == Level(items[..read])
      requires PrintOpen(f, d) == Expand(items[..read])
      requires read < |items| ==> d == 0 && items[read] == EndTag
      ensures Balanced(items) ==> Print(f) == Expand(items)
    {
      if Balanced(items) {
        if read < |items| {
          OneMore(items, read);
        } else {
          assert items[..read] == items;
          PrintOpenZero(f, d);
        }
      }
    }
  }
}
