/** Namespace scopes: finding, or creating, the scope of a dotted name. */
module Namespaces {
  import opened Names

  /** What a name stands for in a scope: a namespace, or anything else. */
  datatype Item = Subscope(scope: NamespaceScope) | Other(kind: int)

  type Table = map<Name, Item>

  /** The name table of every scope. */
  type Store = map<NamespaceScope, Table>

  datatype Outcome = Found(scope: NamespaceScope) | Blocked | Missing

  /** A normal scope.  `names` holds the first declaration of each name, and
      `userData` the full name of the namespace, empty when there is none. */
  class NamespaceScope {
    const parent: NamespaceScope?
    var names: Table
    var userData: Name

    constructor (parent: NamespaceScope?)
      ensures this.parent == parent && names == map[] && userData == ""
    {
      this.parent := parent;
      names, userData := map[], "";
    }
  }

  // ------------------------------------------------------------ dotted names

  function ComponentEnd(s: Name, k: nat): (e: nat)
    requires k <= |s|
    ensures k <= e <= |s| && '.' !in s[k..e]
    ensures e < |s| ==> s[e] == '.'
    decreases |s| - k
  {
    if k == |s| || s[k] == '.' then k else ComponentEnd(s, k + 1)
  }

  /** The pieces between the dots; empty pieces do not count. */
  function Components(s: Name): (cs: seq<Name>)
    ensures forall c :: c in cs ==> Proper(c)
    decreases |s|
  {
    if s == [] then []
    else if s[0] == '.' then Components(s[1..])
    else
      var e := ComponentEnd(s, 0);
      [s[..e]] + Components(s[e..])
  }

  predicate Proper(c: Name) {
    c != "" && '.' !in c
  }

  function Dotted(path: Name, c: Name): (r: Name) {
    if path == "" then c else path + "." + c
  }

  function Join(path: Name, cs: seq<Name>): (r: Name) {
    if cs == [] then path else Dotted(Join(path, cs[..|cs|-1]), cs[|cs|-1])
  }

  lemma ComponentEndIs(s: Name, k: nat, e: nat)
    requires k <= e <= |s| && '.' !in s[k..e] && (e < |s| ==> s[e] == '.')
    ensures ComponentEnd(s, k) == e
    decreases e - k
  {
    if k < e {
      assert s[k] in s[k..e];
      assert forall c :: c in s[k + 1..e] ==> c in s[k..e];
      ComponentEndIs(s, k + 1, e);
    }
  }

  lemma ComponentsOne(c: Name)
    requires Proper(c)
    ensures Components(c) == [c]
  {
    assert c[..|c|] == c && c[|c|..] == [];
    assert c[0] in c;
    ComponentEndIs(c, 0, |c|);
  }

  lemma {:induction false} ComponentsDotted(s: Name, c: Name)
    requires Proper(c)
    ensures Components(s + "." + c) == Components(s) + [c]
    decreases |s|
  {
    var t := s + "." + c;
    if s == [] {
      assert t[1..] == c;
      ComponentsOne(c);
    } else if s[0] == '.' {
      assert t[1..] == s[1..] + "." + c;
      ComponentsDotted(s[1..], c);
    } else {
      var e := ComponentEnd(s, 0);
      assert t[0..e] == s[0..e] && (e < |s| ==> t[e] == s[e]) && (e == |s| ==> t[e] == '.');
      ComponentEndIs(t, 0, e);
      assert t[e..] == s[e..] + "." + c && t[..e] == s[..e];
      if e == 0 {
        assert false;
      }
      ComponentsDotted(s[e..], c);
      assert [s[..e]] + (Components(s[e..]) + [c]) == ([s[..e]] + Components(s[e..])) + [c];
    }
  }

  /** A full name splits into the names it was made of. */
  lemma {:induction false} JoinSplits(cs: seq<Name>)
    requires forall c :: c in cs ==> Proper(c)
    ensures Components(Join("", cs)) == cs
  {
    if cs != [] {
      var before, c := cs[..|cs|-1], cs[|cs|-1];
      JoinSplits(before);
      assert cs == before + [c];
      if Join("", before) == "" {
        assert before == Components("") == [];
        ComponentsOne(c);
      } else {
        ComponentsDotted(Join("", before), c);
      }
    }
  }

  /** Neither a dot at an end nor two in a row. */
  predicate WellFormed(s: Name) {
    forall i :: 0 <= i < |s| && s[i] == '.' ==> 0 < i < |s| - 1 && s[i + 1] != '.'
  }

  lemma {:induction false} JoinFirst(c: Name, cs: seq<Name>)
    requires c != "" && forall d :: d in cs ==> Proper(d)
    ensures Join("", [c] + cs) == (if cs == [] then c else c + "." + Join("", cs))
    ensures cs != [] ==> Join("", cs) != ""
  {
    if cs == [] {
      assert ([c] + cs)[..0] == [] && ([c] + cs)[0] == c;
      assert Join("", []) == "";
    } else {
      var n := |cs| - 1;
      assert ([c] + cs)[..n + 1] == [c] + cs[..n] && ([c] + cs)[n + 1] == cs[n];
      JoinFirst(c, cs[..n]);
      assert cs[n] in cs && Proper(cs[n]);
      assert c + "." + (Join("", cs[..n]) + "." + cs[n]) == c + "." + Join("", cs[..n]) + "." + cs[n];
    }
  }

  /** Joining the components of a well-formed name gives it back. */
  lemma {:induction false} SplitJoins(s: Name)
    requires WellFormed(s)
    ensures Join("", Components(s)) == s
    decreases |s|
  {
    if s != "" {
      var e := ComponentEnd(s, 0);
      var c := s[..e];
      if e == |s| {
        ComponentsOne(s);
        JoinFirst(s, []);
      } else {
        var rest := s[e + 1..];
        assert s[e..][1..] == rest && s == c + "." + rest;
        SplitJoins(rest);
        JoinFirst(c, Components(rest));
      }
    }
  }

  // ------------------------------------------------------------- resolution

  /** Following the components from a scope. */
  function Walk(store: Store, s: NamespaceScope, cs: seq<Name>): (r: Outcome)
    decreases |cs|
  {
    if cs == [] then Found(s)
    else if s !in store || cs[0] !in store[s] then Missing
    else match store[s][cs[0]]
         case Other(_) => Blocked
         case Subscope(t) => Walk(store, t, cs[1..])
  }

  /** Bindings are only added. */
  ghost predicate Extends(store': Store, store: Store) {
    forall s, c :: s in store && c in store[s] ==> s in store' && c in store'[s] && store'[s][c] == store[s][c]
  }

  lemma {:induction false} WalkExtends(store: Store, store': Store, s: NamespaceScope, cs: seq<Name>)
    requires Extends(store', store) && !Walk(store, s, cs).Missing?
    ensures Walk(store', s, cs) == Walk(store, s, cs)
    decreases |cs|
  {
    if cs != [] && store[s][cs[0]].Subscope? {
      WalkExtends(store, store', store[s][cs[0]].scope, cs[1..]);
    }
  }

  lemma {:induction false} WalkOn(store: Store, s: NamespaceScope, a: seq<Name>, b: seq<Name>)
    requires Walk(store, s, a).Found?
    ensures Walk(store, s, a + b) == Walk(store, Walk(store, s, a).scope, b)
    decreases |a|
  {
    if a == [] {
      assert [] + b == b;
    } else {
      assert (a + b)[1..] == a[1..] + b;
      WalkOn(store, store[s][a[0]].scope, a[1..], b);
    }
  }

  /** An old scope is only found where it was found before. */
  ghost predicate NothingElse(store': Store, store: Store) {
    forall s, c :: s in store && s in store' && c in store'[s] && c !in store[s] ==>
      store'[s][c].Subscope? && store'[s][c].scope !in store
  }

  /** Scopes outside the old ones only lead to scopes outside. */
  ghost predicate Outside(store': Store, store: Store) {
    forall s, c :: s in store' && s !in store && c in store'[s] ==> store'[s][c].Subscope? && store'[s][c].scope !in store
  }

  lemma {:induction false} WalkOutside(store: Store, store': Store, s: NamespaceScope, cs: seq<Name>)
    requires Outside(store', store) && s !in store
    ensures Walk(store', s, cs).Found? ==> Walk(store', s, cs).scope !in store
    decreases |cs|
  {
    if cs != [] && s in store' && cs[0] in store'[s] {
      WalkOutside(store, store', store'[s][cs[0]].scope, cs[1..]);
    }
  }

  /** Names that lead to a scope that was there before led to it before. */
  lemma {:induction false} WalkBack(store: Store, store': Store, s: NamespaceScope, cs: seq<Name>)
    requires Extends(store', store) && NothingElse(store', store) && Outside(store', store)
    requires s in store && Walk(store', s, cs).Found? && Walk(store', s, cs).scope in store
    requires forall r, c :: r in store && c in store[r] && store[r][c].Subscope? ==> store[r][c].scope in store
    ensures Walk(store, s, cs) == Walk(store', s, cs)
    decreases |cs|
  {
    if cs != [] {
      var t := store'[s][cs[0]].scope;
      if cs[0] in store[s] {
        WalkBack(store, store', t, cs[1..]);
      } else {
        WalkOutside(store, store', t, cs[1..]);
      }
    }
  }

  // ------------------------------------------------------------ the operation

  class ScopePool {
    ghost var pool: set<NamespaceScope>

    constructor ()
      ensures pool == {}
    {
      pool := {};
    }

    ghost function Tables(): (store: Store)
      reads this, pool
    {
      map s | s in pool :: s.names
    }

    /** A namespace carries its full name and knows the scope it lies in. */
    ghost predicate Valid()
      reads this, pool
    {
      forall s, c :: s in pool && c in s.names && s.names[c].Subscope? ==>
        var t := s.names[c].scope;
        t in pool && t.parent == s && Proper(c) && t.userData == Dotted(s.userData, c)
    }

    /** Adds an empty scope for a name that is not yet bound. */
    method AddNamespace(scope: NamespaceScope, newName: Name) returns (newScope: NamespaceScope)
      requires Valid() && scope in pool && newName !in scope.names && Proper(newName)
      modifies this, scope`names
      ensures Valid() && fresh(newScope) && pool == old(pool) + {newScope}
      ensures newScope.names == map[] && newScope.parent == scope && newScope.userData == Dotted(scope.userData, newName)
      ensures scope.names == old(scope.names)[newName := Subscope(newScope)]
    {
      newScope := new NamespaceScope(scope);
      scope.names := scope.names[newName := Subscope(newScope)];
      if scope.userData != "" {
        newScope.userData := scope.userData + "." + newName;
      } else {
        newScope.userData := newName;
      }
      pool := pool + {newScope};
    }

    /** `FindNamespaceScope`.  A failing call changes nothing; a successful
        one binds the missing components and nothing else. */
    method FindNamespaceScope(scope0: NamespaceScope, name: Name, addIfMissing: bool) returns (found: NamespaceScope?)
      requires Valid() && scope0 in pool
      modifies this, pool
      ensures Valid() && old(pool) <= pool && fresh(pool - old(pool))
      ensures var w := Walk(old(Tables()), scope0, Components(name));
              found == null <==> w.Blocked? || (w.Missing? && !addIfMissing)
      ensures found == null || Walk(old(Tables()), scope0, Components(name)).Found? ==> Tables() == old(Tables())
      ensures found != null ==>
                && found in pool && Walk(Tables(), scope0, Components(name)) == Found(found)
                && found.userData == Join(old(scope0.userData), Components(name))
      ensures Extends(Tables(), old(Tables())) && NothingElse(Tables(), old(Tables())) && Outside(Tables(), old(Tables()))
      ensures forall s :: s in old(pool) ==> s.userData == old(s.userData)
    {
      hide Valid, Extends, NothingElse, Outside, Walk, Components, Join, Dotted, Proper;
      var scope := scope0;
      var i := 0;
      ghost var old0, path := Tables(), scope0.userData;
      ghost var comps, done, added := Components(name), [], false;
      Starting(name, scope0, path, old0);
      while i < |name|
        invariant i <= |name| && Valid() && scope in pool
        invariant old(pool) <= pool && fresh(pool - old(pool))
        invariant comps == done + Components(name[i..])
        invariant Walk(Tables(), scope0, done) == Found(scope)
        invariant scope.userData == Join(path, done)
        invariant Extends(Tables(), old0) && NothingElse(Tables(), old0) && Outside(Tables(), old0)
        invariant forall s :: s in old(pool) ==> s.userData == old(s.userData)
        invariant !added ==> Tables() == old0
        invariant added ==> addIfMissing && scope.names == map[] && Walk(old0, scope0, comps).Missing?
      {
        if name[i] == '.' {
          SkipDot(name, i);
          i := i + 1;
          continue;
        }
        var len := i;
        while len < |name| && name[len] != '.'
          invariant i <= len <= |name| && '.' !in name[i..len]
        {
          len := len + 1;
        }
        var newName := name[i..len];
        NextComponent(name, i, len);
        ghost var rest := Components(name[len..]);
        assert comps == done + ([newName] + rest);
        Ahead(Tables(), scope0, done, scope, newName, rest);
        JoinStep(path, done, newName);
        if newName in scope.names {
          var data := scope.names[newName];
          if data.Subscope? {
            StepIn(Tables(), scope0, done, scope, newName, data.scope);
            Named(scope, newName);
            scope := data.scope;
          } else {
            return null;
          }
        } else if addIfMissing {
          scope := Grow(scope0, scope, newName, done, old0);
          added := true;
        } else {
          return null;
        }
        done := done + [newName];
        assert done + rest == comps;
        i := len;
      }
      Ending(name, done);
      return scope;
    }

    /** A missing component, with what it does to the walk so far. */
    method Grow(scope0: NamespaceScope, scope: NamespaceScope, newName: Name, ghost done: seq<Name>, ghost old0: Store)
      returns (newScope: NamespaceScope)
      requires Valid() && scope in pool && newName !in scope.names && Proper(newName)
      requires old0.Keys <= pool && Walk(Tables(), scope0, done) == Found(scope)
      requires Extends(Tables(), old0) && NothingElse(Tables(), old0) && Outside(Tables(), old0)
      modifies this, scope`names
      ensures Valid() && fresh(newScope) && pool == old(pool) + {newScope}
      ensures newScope.names == map[] && newScope.userData == Dotted(scope.userData, newName)
      ensures Walk(Tables(), scope0, done + [newName]) == Found(newScope)
      ensures Extends(Tables(), old0) && NothingElse(Tables(), old0) && Outside(Tables(), old0)
    {
      hide Valid, Extends, NothingElse, Outside, Walk, Dotted, Proper;
      ghost var before := Tables();
      newScope := AddNamespace(scope, newName);
      ghost var after := Tables();
      ghost var bound: Store := before[scope := before[scope][newName := Subscope(newScope)]];
      assert after == bound[newScope := map[]];
      Added(old0, before, after, scope, newName, newScope);
      WalkExtends(before, after, scope0, done);
      StepIn(after, scope0, done, scope, newName, newScope);
    }

    lemma Named(scope: NamespaceScope, c: Name)
      requires Valid() && scope in pool && c in scope.names && scope.names[c].Subscope?
      ensures scope.names[c].scope in pool && scope.names[c].scope.userData == Dotted(scope.userData, c) && Proper(c)
    {
    }
  }

  lemma Starting(name: Name, s: NamespaceScope, path: Name, store: Store)
    ensures Components(name) == [] + Components(name[0..])
    ensures Walk(store, s, []) == Found(s) && Join(path, []) == path
    ensures Extends(store, store) && NothingElse(store, store) && Outside(store, store)
  {
    assert name[0..] == name;
    assert [] + Components(name) == Components(name);
  }

  lemma Ending(name: Name, done: seq<Name>)
    ensures done + Components(name[|name|..]) == done
  {
    assert name[|name|..] == [];
  }

  lemma SkipDot(name: Name, i: nat)
    requires i < |name| && name[i] == '.'
    ensures Components(name[i..]) == Components(name[i + 1..])
  {
    assert name[i..][1..] == name[i + 1..];
  }

  lemma JoinStep(path: Name, done: seq<Name>, c: Name)
    ensures Join(path, done + [c]) == Dotted(Join(path, done), c)
  {
    assert (done + [c])[..|done|] == done;
  }

  /** What the rest of a walk depends on. */
  lemma Ahead(store: Store, s: NamespaceScope, done: seq<Name>, at: NamespaceScope, c: Name, rest: seq<Name>)
    requires Walk(store, s, done) == Found(at) && at in store
    ensures Walk(store, s, done + ([c] + rest)) ==
      if c !in store[at] then Missing
      else match store[at][c]
           case Other(_) => Blocked
           case Subscope(t) => Walk(store, t, rest)
  {
    WalkOn(store, s, done, [c] + rest);
    assert ([c] + rest)[1..] == rest;
  }

  lemma StepIn(store: Store, s: NamespaceScope, done: seq<Name>, at: NamespaceScope, c: Name, t: NamespaceScope)
    requires Walk(store, s, done) == Found(at) && at in store && c in store[at] && store[at][c] == Subscope(t)
    ensures Walk(store, s, done + [c]) == Found(t)
  {
    assert [c] + [] == [c];
    Ahead(store, s, done, at, c, []);
  }

  lemma NextComponent(name: Name, i: nat, len: nat)
    requires i < |name| && name[i] != '.' && i <= len <= |name| && '.' !in name[i..len]
    requires len < |name| ==> name[len] == '.'
    ensures Proper(name[i..len]) && i < len
    ensures Components(name[i..]) == [name[i..len]] + Components(name[len..])
  {
    var s := name[i..];
    assert s[0..len - i] == name[i..len] && s[len - i..] == name[len..];
    ComponentEndIs(s, 0, len - i);
  }

  /** What one new namespace does to the tables. */
  lemma Added(old0: Store, before: Store, after: Store, scope: NamespaceScope, c: Name, t: NamespaceScope)
    requires Extends(before, old0) && NothingElse(before, old0) && Outside(before, old0)
    requires scope in before && c !in before[scope] && t !in before && old0.Keys <= before.Keys
    requires after == before[scope := before[scope][c := Subscope(t)]][t := map[]]
    ensures Extends(after, before) && Extends(after, old0) && NothingElse(after, old0) && Outside(after, old0)
  {
  }

  /** Namespaces that could be found before can be found afterwards, and the
      scopes that were there before are reached by the same names only. */
  lemma OthersUntouched(store: Store, store': Store, s: NamespaceScope, cs: seq<Name>)
    requires Extends(store', store) && NothingElse(store', store) && Outside(store', store)
    requires s in store
    requires forall r, c :: r in store && c in store[r] && store[r][c].Subscope? ==> store[r][c].scope in store
    ensures forall t :: t in store ==> (Walk(store, s, cs) == Found(t) <==> Walk(store', s, cs) == Found(t))
  {
    forall t | t in store ensures Walk(store, s, cs) == Found(t) <==> Walk(store', s, cs) == Found(t) {
      if Walk(store, s, cs) == Found(t) {
        WalkExtends(store, store', s, cs);
      }
      if Walk(store', s, cs) == Found(t) {
        WalkBack(store, store', s, cs);
      }
    }
  }

  /** On the way from a scope to a namespace the full name grows with the
      components passed, each of which is a proper name. */
  lemma {:induction false} WalkPath(pool: ScopePool, s: NamespaceScope, cs: seq<Name>)
    requires pool.Valid() && s in pool.pool && Walk(pool.Tables(), s, cs).Found?
    ensures var t := Walk(pool.Tables(), s, cs).scope;
            t in pool.pool && t.userData == Join(s.userData, cs) && forall c :: c in cs ==> Proper(c)
    decreases |cs|
  {
    if cs != [] {
      var before, c := cs[..|cs|-1], cs[|cs|-1];
      WalkFront(pool.Tables(), s, cs);
      WalkPath(pool, s, before);
      pool.Named(Walk(pool.Tables(), s, before).scope, c);
      assert cs == before + [c];
    }
  }

  lemma {:induction false} WalkFront(store: Store, s: NamespaceScope, cs: seq<Name>)
    requires cs != [] && Walk(store, s, cs).Found?
    ensures var w := Walk(store, s, cs[..|cs|-1]);
            && w.Found? && w.scope in store && cs[|cs|-1] in store[w.scope]
            && store[w.scope][cs[|cs|-1]] == Subscope(Walk(store, s, cs).scope)
    decreases |cs|
  {
    if |cs| == 1 {
      assert cs[1..] == [];
    } else {
      assert cs[..|cs|-1][1..] == cs[1..][..|cs|-2];
      WalkFront(store, store[s][cs[0]].scope, cs[1..]);
    }
  }

  /** The full name of a namespace below the global scope leads back to it. */
  lemma FullNameFinds(pool: ScopePool, global: NamespaceScope, cs: seq<Name>, t: NamespaceScope)
    requires pool.Valid() && global in pool.pool && global.userData == ""
    requires Walk(pool.Tables(), global, cs) == Found(t)
    ensures Components(t.userData) == cs && Walk(pool.Tables(), global, Components(t.userData)) == Found(t)
  {
    WalkPath(pool, global, cs);
    JoinSplits(cs);
  }
}
