/** Name scopes on top of the tree: declaring locals, constants and aliases,
    lookup through enclosing scopes, and iterating the locals. */
module Scopes {
  import opened Names
  import opened Options
  import opened RBShape
  import RBContents
  import opened RBHeap
  import opened RBTree
  import RBSearch
  import opened RBIter

  const SUBSCOPE := 1
  const IMPORTED_TYPE := 3
  const DECLARED_TYPE := 4
  const LOCAL := 9
  const LOCAL_CONST := 10
  const ALIAS := 11

  const ERROR_OK := 0
  const ERROR_IMPORT_CONFLICT := 1
  const ERROR_REDECLARED := 2
  const ERROR_NAME_IS_NAMESPACE := 4
  const ERROR_OTHER := 5

  datatype Decl = Decl(kind: int, data: int)

  /** How a clash with an existing declaration is reported. */
  function ClashError(kind: int): (r: int)
    ensures r != ERROR_OK
    ensures (r == ERROR_REDECLARED <==> kind == DECLARED_TYPE) && (r == ERROR_NAME_IS_NAMESPACE <==> kind == SUBSCOPE)
    ensures r == ERROR_IMPORT_CONFLICT <==> kind == IMPORTED_TYPE
  {
    if kind == DECLARED_TYPE then ERROR_REDECLARED
    else if kind == SUBSCOPE then ERROR_NAME_IS_NAMESPACE
    else if kind == IMPORTED_TYPE then ERROR_IMPORT_CONFLICT
    else ERROR_OTHER
  }

  /** Binding a name that is already bound changes nothing. */
  function Bind(m: map<Name, Decl>, name: Name, d: Decl): (r: map<Name, Decl>) {
    if name in m then m else m[name := d]
  }

  function BindAll(ds: seq<(Name, Decl)>): (r: map<Name, Decl>) {
    if ds == [] then map[]
    else Bind(BindAll(ds[..|ds|-1]), ds[|ds|-1].0, ds[|ds|-1].1)
  }

  /** After any run of declarations each name has its first declaration. */
  lemma {:induction false} FirstWins(ds: seq<(Name, Decl)>, name: Name)
    ensures name in BindAll(ds) <==> exists i :: 0 <= i < |ds| && ds[i].0 == name
    ensures name in BindAll(ds) ==>
      exists i :: 0 <= i < |ds| && ds[i].0 == name && ds[i].1 == BindAll(ds)[name]
                  && forall j :: 0 <= j < i ==> ds[j].0 != name
  {
    if ds != [] {
      var n := |ds| - 1;
      var before := ds[..n];
      FirstWins(before, name);
      if name in BindAll(before) {
        var i :| 0 <= i < n && before[i].0 == name && before[i].1 == BindAll(before)[name]
                 && forall j :: 0 <= j < i ==> before[j].0 != name;
        assert ds[i] == before[i] && forall j :: 0 <= j < i ==> ds[j] == before[j];
      } else {
        assert forall j :: 0 <= j < n ==> before[j].0 != name && ds[j] == before[j];
        if name == ds[n].0 {
          assert ds[n].1 == BindAll(ds)[name];
        }
      }
    }
  }

  // ------------------------------------------------- looking names up

  /** What a scope declares itself, and which scopes are searched after it. */
  datatype View = View(declared: map<Name, Decl>, searched: seq<Scope>)

  type Views = map<Scope, View>

  /** The directives lead round no circle. */
  ghost predicate Ranked(views: Views, rank: map<Scope, nat>) {
    && views.Keys == rank.Keys
    && forall s, u :: s in views && u in views[s].searched ==> u in views && rank[u] < rank[s]
  }

  /** The scopes that a lookup visits, in order. */
  ghost function Order(views: Views, rank: map<Scope, nat>, s: Scope): (scopes: seq<Scope>)
    requires Ranked(views, rank) && s in views
    ensures forall u :: u in scopes ==> u in views
    decreases rank[s], 1, 0
  {
    [s] + Orders(views, rank, s, 0)
  }

  ghost function Orders(views: Views, rank: map<Scope, nat>, s: Scope, k: nat): (scopes: seq<Scope>)
    requires Ranked(views, rank) && s in views
    ensures forall u :: u in scopes ==> u in views
    decreases rank[s], 0, |views[s].searched| - k
  {
    if k >= |views[s].searched| then []
    else
      assert views[s].searched[k] in views[s].searched;
      Order(views, rank, views[s].searched[k]) + Orders(views, rank, s, k + 1)
  }

  /** The first of some scopes that declares the name. */
  ghost function FirstIn(views: Views, scopes: seq<Scope>, name: Name): (r: Option<Decl>)
    requires forall s :: s in scopes ==> s in views
    decreases |scopes|
  {
    if scopes == [] then None
    else if name in views[scopes[0]].declared then Some(views[scopes[0]].declared[name])
    else FirstIn(views, scopes[1..], name)
  }

  ghost function Answer(data: RBNode?): (r: Option<Decl>) {
    if data == null then None else Some(Decl(data.kind, data.data))
  }

  lemma {:induction false} FirstInConcat(views: Views, a: seq<Scope>, b: seq<Scope>, name: Name)
    requires forall s :: s in a + b ==> s in views
    ensures (forall s :: s in a ==> s in views) && (forall s :: s in b ==> s in views)
    ensures FirstIn(views, a + b, name) ==
      if FirstIn(views, a, name).Some? then FirstIn(views, a, name) else FirstIn(views, b, name)
    decreases |a|
  {
    assert forall s :: s in a ==> s in a + b;
    assert forall s :: s in b ==> s in a + b;
    if a == [] {
      assert [] + b == b;
    } else {
      assert (a + b)[1..] == a[1..] + b;
      FirstInConcat(views, a[1..], b, name);
    }
  }

  lemma OrderStep(views: Views, rank: map<Scope, nat>, s: Scope, name: Name)
    requires Ranked(views, rank) && s in views
    ensures FirstIn(views, Order(views, rank, s), name) ==
      if name in views[s].declared then Some(views[s].declared[name]) else FirstIn(views, Orders(views, rank, s, 0), name)
    ensures views[s].searched == [] ==> FirstIn(views, Orders(views, rank, s, 0), name).None?
  {
    hide Orders;
    OrdersEnd(views, rank, s, |views[s].searched|, name);
    assert ([s] + Orders(views, rank, s, 0))[1..] == Orders(views, rank, s, 0);
  }

  lemma OrdersStep(views: Views, rank: map<Scope, nat>, s: Scope, k: nat, name: Name)
    requires Ranked(views, rank) && s in views && k < |views[s].searched|
    ensures views[s].searched[k] in views
    ensures var here := FirstIn(views, Order(views, rank, views[s].searched[k]), name);
            FirstIn(views, Orders(views, rank, s, k), name) ==
              if here.Some? then here else FirstIn(views, Orders(views, rank, s, k + 1), name)
  {
    hide Order, FirstIn;
    assert views[s].searched[k] in views[s].searched;
    FirstInConcat(views, Order(views, rank, views[s].searched[k]), Orders(views, rank, s, k + 1), name);
  }

  lemma OrdersEnd(views: Views, rank: map<Scope, nat>, s: Scope, k: nat, name: Name)
    requires Ranked(views, rank) && s in views && k >= |views[s].searched|
    ensures FirstIn(views, Orders(views, rank, s, k), name).None?
  {
  }

  lemma RankBelow(views: Views, rank: map<Scope, nat>, s: Scope, k: nat)
    requires Ranked(views, rank) && s in views && k < |views[s].searched|
    ensures var u := views[s].searched[k]; u in views && u in rank && s in rank && rank[u] < rank[s]
  {
    assert views[s].searched[k] in views[s].searched;
  }

  class Scope {
    const parent: Scope?
    const nameTree: ILRBTree
    var hasUsing: bool
    var aliases: Scope?
    var using: seq<Scope>

    ghost predicate Valid()
      reads nameTree, nameTree.raw.Keys
    {
      nameTree.Valid() && !IsRed(nameTree.tree)
    }

    /** The first declaration of each name. */
    ghost function Declared(): (r: map<Name, Decl>)
      reads nameTree
      requires nameTree.Ordered()
    {
      map key | key in nameTree.Items() :: FirstDecl(nameTree, key)
    }

    /** Where a name is looked for when it is not declared here: nowhere, unless
        the scope's lookup function is the one for `using` directives. */
    ghost function Searched(): (scopes: seq<Scope>)
      reads this
    {
      if hasUsing then (if aliases != null then [aliases] else []) + using else []
    }

    /** The end of `ILScopeUsing`: the latest directive is searched first. */
    method Using(refScope: Scope)
      modifies `using, `hasUsing
      ensures Searched() == (if aliases != null then [aliases] else []) + [refScope] + old(using)
    {
      using := [refScope] + using;
      hasUsing := true;
    }

    /** No name has been declared twice. */
    ghost predicate Distinct()
      reads nameTree
    {
      forall key :: key in nameTree.Items() ==> |nameTree.Items()[key]| == 1
    }

    constructor (parent: Scope?)
      ensures Valid() && Distinct() && Declared() == map[] && this.parent == parent
      ensures fresh(nameTree) && fresh(nameTree.raw.Keys) && Searched() == []
    {
      this.parent := parent;
      hasUsing, aliases, using := false, null, [];
      nameTree := new ILRBTree();
    }

    /** `AddToScope` */
    method AddToScope(name: Name, kind: int, data: int)
      requires Valid()
      modifies nameTree.Repr()
      ensures nameTree.Valid() && fresh(nameTree.raw.Keys - old(nameTree.raw.Keys))
      ensures exists node: RBNode ::
        node.name == name && node.kind == kind && node.data == data && RBContents.Inserts(old(nameTree.tree), node, nameTree.tree)
    {
      var sdata := new RBNode(kind, name, data);
      nameTree.Insert(sdata, name);
    }

    /** `NormalScope_Lookup` */
    method LookupHere(name: Name) returns (data: RBNode?)
      requires nameTree.Valid()
      ensures data != null <==> name in Declared()
      ensures data != null ==> Decl(data.kind, data.data) == Declared()[name] && data.name == name
    {
      hide ILRBTree.Linked, Located, RB, Sorted, ChainsAgree;
      ghost var steps;
      data, steps := RBSearch.Search(nameTree, name);
      if data != null {
        FirstDeclIs(nameTree, name);
      }
    }

    /** The lookup functions of normal scopes and of those with directives. */
    method LookupFrom(name: Name, ghost views: Views, ghost rank: map<Scope, nat>) returns (data: RBNode?)
      requires this in views && Ranked(views, rank)
      requires forall s :: s in views ==> s.nameTree.Valid() && views[s] == View(s.Declared(), s.Searched())
      ensures Answer(data) == FirstIn(views, Order(views, rank, this), name) && (data != null ==> data.name == name)
      decreases rank[this]
    {
      hide ILRBTree.Valid, ILRBTree.Linked, Located, RB, Sorted, ChainsAgree, FirstIn, Order, Orders, Ranked, Declared;
      OrderStep(views, rank, this, name);
      data := LookupHere(name);
      if data != null {
        return;
      }
      if !hasUsing {
        return;
      }
      if aliases != null {
        RankBelow(views, rank, this, 0);
        OrdersStep(views, rank, this, 0, name);
        data := aliases.LookupFrom(name, views, rank);
        if data != null {
          return;
        }
      }
      ghost var first := if aliases != null then 1 else 0;
      var k := 0;
      while k < |using|
        invariant k <= |using| && data == null
        invariant FirstIn(views, Orders(views, rank, this, 0), name) == FirstIn(views, Orders(views, rank, this, first + k), name)
      {
        RankBelow(views, rank, this, first + k);
        OrdersStep(views, rank, this, first + k, name);
        data := using[k].LookupFrom(name, views, rank);
        if data != null {
          return;
        }
        k := k + 1;
      }
      OrdersEnd(views, rank, this, first + k, name);
    }

    /** The code shared by the three declaring operations: a name that the scope's
        lookup function finds, here or through directives, is a clash, which
        leaves the scope as it is; otherwise the name is bound. */
    method Declare(name: Name, kind: int, info: int, ghost views: Views, ghost rank: map<Scope, nat>) returns (error: int)
      requires Valid() && this in views && Ranked(views, rank)
      requires forall s :: s in views ==> s.nameTree.Valid() && views[s] == View(s.Declared(), s.Searched())
      modifies nameTree.Repr()
      ensures Valid() && fresh(nameTree.raw.Keys - old(nameTree.raw.Keys))
      ensures var found := FirstIn(views, Order(views, rank, this), name);
              && error == (if found.Some? then ClashError(found.value.kind) else ERROR_OK)
              && Declared() == if found.Some? then old(Declared()) else old(Declared())[name := Decl(kind, info)]
      ensures old(Distinct()) ==> Distinct()
    {
      hide ILRBTree.Linked, Located, RB, Sorted, ChainsAgree, FirstIn, Order, Orders, Ranked, Contents, Inorder;
      OrderStep(views, rank, this, name);
      var data := LookupFrom(name, views, rank);
      if data != null {
        if data.kind == DECLARED_TYPE {
          return ERROR_REDECLARED;
        } else if data.kind == SUBSCOPE {
          return ERROR_NAME_IS_NAMESPACE;
        } else if data.kind == IMPORTED_TYPE {
          return ERROR_IMPORT_CONFLICT;
        } else {
          return ERROR_OTHER;
        }
      }
      AddFirst(name, kind, info);
      return ERROR_OK;
    }

    /** `AddToScope` for a name that is not declared here. */
    method AddFirst(name: Name, kind: int, info: int)
      requires Valid() && name !in Declared()
      modifies nameTree.Repr()
      ensures Valid() && fresh(nameTree.raw.Keys - old(nameTree.raw.Keys))
      ensures Declared() == old(Declared())[name := Decl(kind, info)]
      ensures old(Distinct()) ==> Distinct()
    {
      hide ILRBTree.Linked, Located, RB, Sorted, ChainsAgree;
      AddToScope(name, kind, info);
    }

    /** `ILScopeDeclareLocal` */
    method DeclareLocal(name: Name, index: nat, ghost views: Views, ghost rank: map<Scope, nat>) returns (error: int)
      requires Valid() && this in views && Ranked(views, rank)
      requires forall s :: s in views ==> s.nameTree.Valid() && views[s] == View(s.Declared(), s.Searched())
      modifies nameTree.Repr()
      ensures Valid() && fresh(nameTree.raw.Keys - old(nameTree.raw.Keys))
      ensures var found := FirstIn(views, Order(views, rank, this), name);
              && error == (if found.Some? then ClashError(found.value.kind) else ERROR_OK)
              && Declared() == if found.Some? then old(Declared()) else old(Declared())[name := Decl(LOCAL, index)]
      ensures old(Distinct()) ==> Distinct()
    {
      hide FirstIn, Order, Ranked, Distinct, Declared;
      error := Declare(name, LOCAL, index, views, rank);
    }

    /** `ILScopeDeclareLocalConst` */
    method DeclareLocalConst(name: Name, guarded: int, ghost views: Views, ghost rank: map<Scope, nat>) returns (error: int)
      requires Valid() && this in views && Ranked(views, rank)
      requires forall s :: s in views ==> s.nameTree.Valid() && views[s] == View(s.Declared(), s.Searched())
      modifies nameTree.Repr()
      ensures Valid() && fresh(nameTree.raw.Keys - old(nameTree.raw.Keys))
      ensures var found := FirstIn(views, Order(views, rank, this), name);
              && error == (if found.Some? then ClashError(found.value.kind) else ERROR_OK)
              && Declared() == if found.Some? then old(Declared()) else old(Declared())[name := Decl(LOCAL_CONST, guarded)]
      ensures old(Distinct()) ==> Distinct()
    {
      hide FirstIn, Order, Ranked, Distinct, Declared;
      error := Declare(name, LOCAL_CONST, guarded, views, rank);
    }

    /** `ILScopeDeclareAlias` */
    method DeclareAlias(name: Name, valueNode: int, ghost views: Views, ghost rank: map<Scope, nat>) returns (error: int)
      requires Valid() && this in views && Ranked(views, rank)
      requires forall s :: s in views ==> s.nameTree.Valid() && views[s] == View(s.Declared(), s.Searched())
      modifies nameTree.Repr()
      ensures Valid() && fresh(nameTree.raw.Keys - old(nameTree.raw.Keys))
      ensures var found := FirstIn(views, Order(views, rank, this), name);
              && error == (if found.Some? then ClashError(found.value.kind) else ERROR_OK)
              && Declared() == if found.Some? then old(Declared()) else old(Declared())[name := Decl(ALIAS, valueNode)]
      ensures old(Distinct()) ==> Distinct()
    {
      hide FirstIn, Order, Ranked, Distinct, Declared;
      error := Declare(name, ALIAS, valueNode, views, rank);
    }

    /** `ILScopeLookup`: from the innermost enclosing scope outwards, the first
        whose search finds the name. */
    method Lookup(name: Name, up: bool, ghost chain: seq<Scope>, ghost views: Views, ghost rank: map<Scope, nat>)
      returns (data: RBNode?)
      requires chain != [] && chain[0] == this && chain[|chain| - 1].parent == null
      requires forall i :: 0 <= i < |chain| - 1 ==> chain[i].parent == chain[i + 1]
      requires (forall i :: 0 <= i < |chain| ==> chain[i] in views) && Ranked(views, rank)
      requires forall s :: s in views ==> s.nameTree.Valid() && views[s] == View(s.Declared(), s.Searched())
      ensures var n := if up then |chain| else 1;
              && (data == null <==> forall i :: 0 <= i < n ==> FirstIn(views, Order(views, rank, chain[i]), name).None?)
              && (data != null ==>
                    exists i :: 0 <= i < n && FirstIn(views, Order(views, rank, chain[i]), name) == Answer(data) && data.name == name
                      && forall j :: 0 <= j < i ==> FirstIn(views, Order(views, rank, chain[j]), name).None?)
    {
      hide ILRBTree.Valid, ILRBTree.Linked, Located, RB, Sorted, ChainsAgree, FirstIn, Order, Orders, Ranked, Declared;
      var scope: Scope? := this;
      ghost var k := 0;
      while scope != null
        invariant 0 <= k <= |chain|
        invariant scope == if k < |chain| then chain[k] else null
        invariant k > 0 ==> up
        invariant forall i :: 0 <= i < k ==> FirstIn(views, Order(views, rank, chain[i]), name).None?
        decreases |chain| - k
      {
        data := scope.LookupFrom(name, views, rank);
        if data != null {
          return;
        }
        k := k + 1;
        if up {
          scope := scope.parent;
        } else {
          break;
        }
      }
      data := null;
    }

    /** `ILScopeLocalsIter`: the next local at or after the iterator's place. */
    method LocalsIter(prev: RBNode?, iter: Direction, ghost p: Path, ghost t: Tree, ghost links: Links)
      returns (next: RBNode?, iter': Direction, index: int, name: Name, ghost p': Path, ghost t': Tree, ghost links': Links)
      requires nameTree.Valid()
      requires prev != null ==> AtPosition(nameTree, p, t, links) && t.Node? && prev == t.e.n && iter.RET?
      modifies nameTree.raw.Keys`iterParent
      ensures nameTree.Valid()
      ensures var s := Inorder(nameTree.tree);
              var n := if prev == null then 0 else Returned(RET, p, t);
              && n <= |s|
              && (next == null ==> forall i :: n <= i < |s| ==> s[i].n.kind != LOCAL)
              && (next != null ==>
                    && iter'.RET? && AtPosition(nameTree, p', t', links') && t'.Node? && next == t'.e.n
                    && var m := Returned(RET, p', t') - 1;
                    && n <= m < |s| && next == s[m].n && next.kind == LOCAL
                    && index == next.data && name == next.name
                    && forall i :: n <= i < m ==> s[i].n.kind != LOCAL)
    {
      hide ILRBTree.Linked, Located, RB, Sorted, ChainsAgree, Inorder, Before, After, Returned;
      index, name, p', t', links' := 0, "", p, t, links;
      next, iter', p', t', links' := IterNext(nameTree, prev, iter, p, t, links);
      ghost var n := if prev == null then 0 else Returned(RET, p, t);
      ghost var m := n;
      while next != null
        invariant nameTree.Valid() && n <= m <= |Inorder(nameTree.tree)|
        invariant next == null <==> m == |Inorder(nameTree.tree)|
        invariant next != null ==>
          && iter'.RET? && AtPosition(nameTree, p', t', links') && t'.Node? && next == t'.e.n
          && Returned(RET, p', t') == m + 1 && next == Inorder(nameTree.tree)[m].n
        invariant forall i :: n <= i < m ==> Inorder(nameTree.tree)[i].n.kind != LOCAL
        decreases |Inorder(nameTree.tree)| - m
      {
        if next.kind == LOCAL {
          index, name := next.data, next.name;
          return;
        }
        next, iter', p', t', links' := IterNext(nameTree, next, iter', p', t', links');
        m := m + 1;
      }
    }
  }

  /** What each declaration of a run reports: a clash with the declaration that
      its name has before. */
  ghost predicate Answers(ds: seq<(Name, Decl)>, errors: seq<int>) {
    |errors| <= |ds| && forall i :: 0 <= i < |errors| ==>
      var m, name := BindAll(ds[..i]), ds[i].0;
      errors[i] == if name in m then ClashError(m[name].kind) else ERROR_OK
  }

  lemma OneAnswer(ds: seq<(Name, Decl)>, errors: seq<int>, error: int)
    requires Answers(ds, errors) && |errors| < |ds|
    requires var m, name := BindAll(ds[..|errors|]), ds[|errors|].0;
             error == if name in m then ClashError(m[name].kind) else ERROR_OK
    ensures Answers(ds, errors + [error])
    ensures BindAll(ds[..|errors| + 1]) == Bind(BindAll(ds[..|errors|]), ds[|errors|].0, ds[|errors|].1)
  {
    assert ds[..|errors| + 1][..|errors|] == ds[..|errors|];
  }

  lemma NoAnswer(ds: seq<(Name, Decl)>)
    ensures Answers(ds, []) && BindAll(ds[..0]) == map[]
  {
  }

  /** A run of declarations in a new scope: each name keeps its first one, only
      that one is accepted, and no name is bound twice. */
  method DeclareAll(ds: seq<(Name, Decl)>) returns (scope: Scope, errors: seq<int>)
    ensures fresh(scope) && scope.Valid() && scope.Distinct()
    ensures scope.Declared() == BindAll(ds)
    ensures |errors| == |ds| && Answers(ds, errors)
  {
    hide ILRBTree.Linked, Located, RB, Sorted, ChainsAgree, Contents, Inorder, Scope.Distinct, Scope.Declared, Scope.Searched, ClashError,
         BindAll, Answers, FirstIn, Order, Ranked;
    scope := new Scope(null);
    errors := [];
    NoAnswer(ds);
    while |errors| < |ds|
      invariant |errors| <= |ds| && Answers(ds, errors)
      invariant scope.Valid() && scope.Distinct() && scope.Searched() == [] && fresh(scope.nameTree) && fresh(scope.nameTree.raw.Keys)
      invariant scope.Declared() == BindAll(ds[..|errors|])
      decreases |ds| - |errors|
    {
      var (name, d) := ds[|errors|];
      ghost var keys := scope.nameTree.raw.Keys;
      ghost var views, rank := map[scope := View(scope.Declared(), [])], map[scope := 0];
      Alone(scope, views, rank, name);
      var error := scope.Declare(name, d.kind, d.data, views, rank);
      assert scope.nameTree.raw.Keys <= keys + (scope.nameTree.raw.Keys - keys);
      OneAnswer(ds, errors, error);
      errors := errors + [error];
    }
    assert ds[..|errors|] == ds;
  }

  /** Without directives only the scope itself is searched. */
  lemma Alone(scope: Scope, views: Views, rank: map<Scope, nat>, name: Name)
    requires views.Keys == {scope} && views[scope].searched == [] && rank == map[scope := 0]
    ensures Ranked(views, rank)
    ensures FirstIn(views, Order(views, rank, scope), name) ==
      if name in views[scope].declared then Some(views[scope].declared[name]) else None
  {
    assert Ranked(views, rank);
    OrderStep(views, rank, scope, name);
  }

  /** The locals of a scope, in order of name, with their indices. */
  function Locals(s: seq<Entry>): (r: seq<(Name, int)>) {
    if s == [] then []
    else
      var last := s[|s|-1].n;
      Locals(s[..|s|-1]) + if last.kind == LOCAL then [(last.name, last.data)] else []
  }

  lemma {:induction false} LocalsSkip(s: seq<Entry>, n: nat, m: nat)
    requires n <= m <= |s| && forall i :: n <= i < m ==> s[i].n.kind != LOCAL
    ensures Locals(s[..m]) == Locals(s[..n])
  {
    if n < m {
      LocalsSkip(s, n, m - 1);
      assert s[..m][..m - 1] == s[..m - 1];
    }
  }

  /** Iterating from NULL yields each local exactly once, in name order. */
  method AllLocals(scope: Scope) returns (locals: seq<(Name, int)>)
    requires scope.nameTree.Valid()
    modifies scope.nameTree.raw.Keys`iterParent
    ensures scope.nameTree.Valid()
    ensures locals == Locals(Inorder(scope.nameTree.tree))
  {
    hide *;
    locals := [];
    ghost var s := Inorder(scope.nameTree.tree);
    ghost var p, t, links := Top, Leaf, map[];
    ghost var n := 0;
    var item: RBNode?, iter, index, name := null, LD, 0, "";
    item, iter, index, name, p, t, links := scope.LocalsIter(null, iter, p, t, links);
    ghost var m := if item == null then |s| else Returned(RET, p, t) - 1;
    NoLocals(s, m);
    while item != null
      invariant scope.nameTree.Valid() && s == Inorder(scope.nameTree.tree)
      invariant m <= |s| && locals == Locals(s[..m])
      invariant item == null ==> m == |s|
      invariant item != null ==>
        && m < |s| && item == s[m].n && item.kind == LOCAL && index == item.data && name == item.name
        && iter.RET? && AtPosition(scope.nameTree, p, t, links) && t.Node? && item == t.e.n && Returned(RET, p, t) == m + 1
      decreases |s| - m
    {
      OneLocal(s, m);
      locals := locals + [(name, index)];
      n := m + 1;
      item, iter, index, name, p, t, links := scope.LocalsIter(item, iter, p, t, links);
      m := if item == null then |s| else Returned(RET, p, t) - 1;
      LocalsSkip(s, n, m);
    }
    assert s[..|s|] == s;
  }

  lemma NoLocals(s: seq<Entry>, m: nat)
    requires m <= |s| && forall i :: 0 <= i < m ==> s[i].n.kind != LOCAL
    ensures Locals(s[..m]) == []
  {
    LocalsSkip(s, 0, m);
  }

  lemma OneLocal(s: seq<Entry>, m: nat)
    requires m < |s| && s[m].n.kind == LOCAL
    ensures Locals(s[..m + 1]) == Locals(s[..m]) + [(s[m].n.name, s[m].n.data)]
  {
    assert s[..m + 1][..m] == s[..m];
  }

  /** For distinct names the list is exactly the declared locals. */
  lemma {:induction false} LocalsMeaning(s: seq<Entry>, name: Name, index: int)
    requires Sorted(s)
    ensures (name, index) in Locals(s) <==>
      exists i :: 0 <= i < |s| && s[i].n.name == name && s[i].n.kind == LOCAL && s[i].n.data == index
  {
    if s != [] {
      var before := s[..|s|-1];
      LocalsMeaning(before, name, index);
      assert forall i :: 0 <= i < |before| ==> before[i] == s[i];
    }
  }

  lemma LocalsAreDeclared(scope: Scope, name: Name, index: int)
    requires scope.nameTree.Ordered()
    ensures (name, index) in Locals(Inorder(scope.nameTree.tree)) <==>
      name in scope.Declared() && scope.Declared()[name] == Decl(LOCAL, index)
  {
    var s := Inorder(scope.nameTree.tree);
    LocalsMeaning(s, name, index);
    forall i | 0 <= i < |s| && s[i].n.name == name
      ensures name in scope.Declared() && scope.Declared()[name] == Decl(s[i].n.kind, s[i].n.data)
    {
      RBContents.ContentsAt(s, i);
    }
    if name in scope.Declared() {
      var i := RBContents.ContentsIndex(s, name);
      assert s[i].n.name == name;
    }
  }

  lemma {:induction false} LocalEntry(s: seq<Entry>, i: nat) returns (k: nat)
    requires i < |Locals(s)|
    ensures k < |s| && s[k].n.name == Locals(s)[i].0
  {
    var before := s[..|s|-1];
    if i < |Locals(before)| {
      k := LocalEntry(before, i);
    } else {
      k := |s| - 1;
    }
  }

  lemma {:induction false} LocalsAscend(s: seq<Entry>, i: nat, j: nat)
    requires Sorted(s) && i < j < |Locals(s)|
    ensures Precedes(Locals(s)[i].0, Locals(s)[j].0)
  {
    StrCmpPrecedes(Locals(s)[i].0, Locals(s)[j].0);
    var before := s[..|s|-1];
    if j < |Locals(before)| {
      LocalsAscend(before, i, j);
    } else {
      var k := LocalEntry(before, i);
      assert s[k] == before[k];
    }
  }

  ghost function FirstDecl(tree: ILRBTree, key: Name): (r: Decl)
    requires tree.Ordered() && key in tree.Items()
    reads tree
  {
    FirstDeclIs(tree, key);
    var n := tree.Items()[key][0];
    Decl(n.kind, n.data)
  }

  lemma FirstDeclIs(tree: ILRBTree, key: Name)
    requires tree.Ordered() && key in tree.Items()
    ensures |tree.Items()[key]| > 0 && tree.Items()[key][0].name == key
  {
    var i := RBContents.ContentsIndex(Inorder(tree.tree), key);
    RBContents.ContentsAt(Inorder(tree.tree), i);
  }
}
