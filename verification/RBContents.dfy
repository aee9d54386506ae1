/** The sorted sequence of entries as a map from names to chains, and what
    the two kinds of insertion do to it. */
module RBContents {
  import opened Names
  import opened RBShape
  import RBSplit

  lemma {:induction false} ContentsAt(s: seq<Entry>, i: nat)
    requires Sorted(s) && i < |s|
    ensures s[i].n.name in Contents(s) && Contents(s)[s[i].n.name] == [s[i].n] + s[i].dups
  {
    if i < |s| - 1 {
      ContentsAt(s[..|s|-1], i);
      StrCmpEqual(s[i].n.name, s[|s|-1].n.name);
    }
  }

  lemma {:induction false} ContentsIndex(s: seq<Entry>, key: Name) returns (i: nat)
    requires key in Contents(s)
    ensures i < |s| && s[i].n.name == key
  {
    if s[|s|-1].n.name == key {
      i := |s| - 1;
    } else {
      i := ContentsIndex(s[..|s|-1], key);
    }
  }

  lemma ContentsFresh(a: seq<Entry>, b: seq<Entry>, key: Name)
    requires AllBelow(a, key) && AllAbove(b, key)
    ensures key !in Contents(a + b)
  {
    if key in Contents(a + b) {
      var i := ContentsIndex(a + b, key);
      StrCmpEqual(key, (a + b)[i].n.name);
    }
  }

  lemma SortedInsert(a: seq<Entry>, e: Entry, b: seq<Entry>)
    requires Sorted(a + b) && AllBelow(a, e.n.name) && AllAbove(b, e.n.name)
    ensures Sorted(a + [e] + b)
  {
    var s := a + [e] + b;
    forall i, j | 0 <= i < j < |s| ensures StrCmp(s[i].n.name, s[j].n.name) < 0 {
      if i < |a| {
        assert (a + b)[i] == a[i];
        StrCmpFlip(e.n.name, a[i].n.name);
        StrCmpFlip(a[i].n.name, e.n.name);
        if j > |a| {
          assert (a + b)[j - 1] == s[j];
        } else if j < |a| {
          assert (a + b)[j] == s[j];
        }
      } else if i > |a| {
        assert (a + b)[i - 1] == s[i] && (a + b)[j - 1] == s[j];
      }
    }
  }

  /** Inserting a new name. */
  lemma ContentsInsert(a: seq<Entry>, e: Entry, b: seq<Entry>)
    requires Sorted(a + b) && AllBelow(a, e.n.name) && AllAbove(b, e.n.name)
    ensures Contents(a + [e] + b) == Contents(a + b)[e.n.name := [e.n] + e.dups]
  {
    SortedInsert(a, e, b);
    var s, s', key := a + b, a + [e] + b, e.n.name;
    assert s'[|a|] == e;
    ContentsAt(s', |a|);
    forall k | k in Contents(s') && k != key ensures k in Contents(s) && Contents(s)[k] == Contents(s')[k] {
      var i := ContentsIndex(s', k);
      ContentsAt(s', i);
      var j := if i < |a| then i else i - 1;
      assert s[j] == s'[i];
      ContentsAt(s, j);
    }
    forall k | k in Contents(s) && k != key ensures k in Contents(s') {
      var i := ContentsIndex(s, k);
      var j := if i < |a| then i else i + 1;
      assert s[i] == s'[j];
      ContentsAt(s', j);
    }
  }

  /** Chaining another node onto a name. */
  lemma ContentsAppend(a: seq<Entry>, e: Entry, b: seq<Entry>, node: RBNode)
    requires Sorted(a + [e] + b)
    ensures var s, s' := a + [e] + b, a + [Entry(e.n, e.dups + [node])] + b;
            && Sorted(s') && e.n.name in Contents(s)
            && Contents(s') == Contents(s)[e.n.name := Contents(s)[e.n.name] + [node]]
  {
    var s, s', key := a + [e] + b, a + [Entry(e.n, e.dups + [node])] + b, e.n.name;
    assert forall i :: 0 <= i < |s| ==> s'[i].n == s[i].n;
    assert s[|a|] == e && s'[|a|] == Entry(e.n, e.dups + [node]);
    ContentsAt(s, |a|);
    ContentsAt(s', |a|);
    assert [e.n] + (e.dups + [node]) == [e.n] + e.dups + [node];
    forall k | k in Contents(s') && k != key ensures k in Contents(s) && Contents(s)[k] == Contents(s')[k] {
      var i := ContentsIndex(s', k);
      ContentsAt(s', i);
      ContentsAt(s, i);
      assert s[i] == s'[i];
    }
    forall k | k in Contents(s) && k != key ensures k in Contents(s') {
      var i := ContentsIndex(s, k);
      ContentsAt(s', i);
    }
  }

  /** The search key lies between what is before and after its position. */
  lemma {:induction false} HeadsBounds(p: Path, mid: seq<Entry>, key: Name)
    requires Sorted(Before(p) + mid + After(p)) && RBSplit.Heads(p, key)
    ensures AllBelow(Before(p), key) && AllAbove(After(p), key)
    decreases p
  {
    if p.Step? {
      var s := Before(p) + mid + After(p);
      var side := Inorder(p.sib);
      if p.wentLeft {
        Regroup(Before(p.up), mid, [p.e], side, After(p.up));
        HeadsBounds(p.up, mid + [p.e] + side, key);
        assert After(p)[0] == p.e;
        var k := |Before(p)| + |mid|;
        forall i | 0 <= i < |After(p)| ensures StrCmp(key, After(p)[i].n.name) < 0 {
          assert s[k + i] == After(p)[i] && s[k] == p.e;
          if i > 0 {
            StrCmpTransitive(key, p.e.n.name, After(p)[i].n.name);
          }
        }
      } else {
        Regroup(Before(p.up), side, [p.e], mid, After(p.up));
        HeadsBounds(p.up, side + [p.e] + mid, key);
        var k := |Before(p)| - 1;
        forall i | 0 <= i < |Before(p)| ensures StrCmp(key, Before(p)[i].n.name) > 0 {
          assert s[i] == Before(p)[i] && s[k] == p.e;
          if i < k {
            StrCmpFlip(p.e.n.name, key);
            StrCmpTransitive(Before(p)[i].n.name, p.e.n.name, key);
            StrCmpFlip(Before(p)[i].n.name, key);
          } else {
            assert Before(p)[i] == p.e;
          }
        }
      }
    }
  }

  /** The entry at the root of the current position, in the whole sequence. */
  lemma Around(p: Path, t: Tree)
    requires t.Node?
    ensures Before(p) + Inorder(t) + After(p) == (Before(p) + Inorder(t.left)) + [t.e] + (Inorder(t.right) + After(p))
  {
    Regroup(Before(p), Inorder(t.left), [t.e], Inorder(t.right), After(p));
    Flatten(Before(p), Inorder(t.left), [t.e], Inorder(t.right), After(p));
  }

  lemma Flatten<T>(a: seq<T>, b: seq<T>, c: seq<T>, d: seq<T>, e: seq<T>)
    ensures a + (b + c + d) + e == (a + b) + c + (d + e)
  {
  }

  /** Replacing the entry at the root of a position keeps the colours. */
  lemma ChainFits(p: Path, t: Tree, h: nat, t': Tree)
    requires Fits(p, t, h) && t.Node? && t'.Node? && t' == t.(e := t'.e)
    ensures Fits(p, t', h)
  {
  }

  lemma RootRedSame(p: Path, t: Tree, t': Tree)
    requires t.Node? && t'.Node? && t' == t.(e := t'.e)
    ensures RootRed(p, t') == RootRed(p, t)
  {
    RootRedInside(p, t, t');
  }

  /** What one insertion does to the tree: the node goes after the others of
      its name, the root ends up red exactly when the name was known and the
      descent has split the root, and a red-black tree comes out, one higher
      exactly when the root of a new name's tree was split or missing. */
  ghost predicate Inserts(t: Tree, node: RBNode, t': Tree) {
    var m, key := Contents(Inorder(t)), node.name;
    && Contents(Inorder(t')) == m[key := (if key in m then m[key] else []) + [node]]
    && IsRed(t') == (key in m && RBSplit.TwoRedChildren(t))
    && Sorted(Inorder(t')) && RB(t', BlackHeight(t'))
    && BlackHeight(t') == BlackHeight(t) + if key !in m && (t.Leaf? || RBSplit.TwoRedChildren(t)) then 1 else 0
  }
}
