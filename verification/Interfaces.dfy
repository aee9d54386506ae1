/** Checking that a class implements all the interfaces it inherits. */
module Interfaces {
  import opened Graphs
  import opened Options

  type Class = nat
  type Method = nat

  /** A member of an interface.  The accessors of a property or event are
      listed from semantics kind 0x0100 down to 0x0001. */
  datatype Member =
    | MethodMember(m: Method, specialName: bool)
    | SemanticsMember(id: nat, accessors: seq<Option<Method>>)
    | OtherMember(id: nat)

  /** Calls of the two callbacks. */
  datatype Call = ErrorCall(member: Member) | ProxyCall(m: Method)

  /** The metadata: direct interfaces, members, and which methods the class
      under check implements or can reach by a proxy. */
  datatype Metadata = Metadata(
    inherits: Graph<Class>, members: map<Class, seq<Member>>, implemented: set<Method>, proxied: set<Method>)

  /** Interfaces rank below what inherits them. */
  ghost predicate Ranked(g: Graph<Class>, rank: map<Class, nat>) {
    && Closed(g) && g.Keys == rank.Keys
    && forall a, b :: a in g && b in g[a] ==> b in rank && rank[b] < rank[a]
  }

  ghost function ReachedFrom(g: Graph<Class>, c: Class): (r: set<Class>) {
    set d | d in g && Reaches(g, c, d)
  }

  /** The number of classes reached is such a rank. */
  ghost function Rank(g: Graph<Class>): (rank: map<Class, nat>) {
    map c | c in g :: |ReachedFrom(g, c)|
  }

  /** Inheritance without a cycle can be ranked. */
  lemma AcyclicIsRanked(g: Graph<Class>)
    requires Closed(g) && Acyclic(g)
    ensures Ranked(g, Rank(g))
  {
    forall a, b | a in g && b in g[a] ensures |ReachedFrom(g, b)| < |ReachedFrom(g, a)| {
      ReachesSelf(g, a);
      forall c | c in ReachedFrom(g, b) ensures c in ReachedFrom(g, a) {
        ReachesUnfold(g, a, c);
      }
      assert a in ReachedFrom(g, a) && a !in ReachedFrom(g, b);
      SubsetSmaller(ReachedFrom(g, b), ReachedFrom(g, a));
    }
  }

  lemma SubsetSmaller(a: set<Class>, b: set<Class>)
    requires a < b
    ensures |a| < |b|
  {
    assert |b - a| > 0 && b == a + (b - a);
  }

  // ----------------------------------------------------- what is expected

  /** The method can be called on the class, directly or by a proxy. */
  predicate Available(md: Metadata, m: Method) {
    m in md.implemented || m in md.proxied
  }

  /** Nothing the member asks for is missing. */
  ghost predicate Satisfied(md: Metadata, member: Member) {
    match member
    case MethodMember(m, special) => special || Available(md, m)
    case SemanticsMember(_, accessors) => forall a :: a in accessors && a.Some? ==> Available(md, a.value)
    case OtherMember(_) => true
  }

  /** An interface that is reached from a direct interface of the class. */
  ghost predicate Inherited(g: Graph<Class>, c: Class, i: Class) {
    c in g && exists d :: d in g[c] && Reaches(g, d, i)
  }

  /** The callbacks for one member, in order. */
  function MethodReport(md: Metadata, m: Method, member: Member): (r: seq<Call>) {
    if m in md.implemented then []
    else if m in md.proxied then [ProxyCall(m)]
    else [ErrorCall(member)]
  }

  function SemanticsReport(md: Metadata, accessors: seq<Option<Method>>, member: Member): (r: seq<Call>) {
    if accessors == [] then []
    else if accessors[0].None? || accessors[0].value in md.implemented then SemanticsReport(md, accessors[1..], member)
    else if accessors[0].value in md.proxied then [ProxyCall(accessors[0].value)] + SemanticsReport(md, accessors[1..], member)
    else [ErrorCall(member)]
  }

  function MemberReport(md: Metadata, member: Member): (r: seq<Call>) {
    match member
    case MethodMember(m, special) => if special then [] else MethodReport(md, m, member)
    case SemanticsMember(_, accessors) => SemanticsReport(md, accessors, member)
    case OtherMember(_) => []
  }

  function MembersReport(md: Metadata, members: seq<Member>): (r: seq<Call>) {
    if members == [] then [] else MembersReport(md, members[..|members|-1]) + MemberReport(md, members[|members|-1])
  }

  /** The callbacks for a list of interfaces, each processed once. */
  function Reports(md: Metadata, classes: seq<Class>): (r: seq<Call>)
    requires forall c :: c in classes ==> c in md.members
  {
    if classes == [] then []
    else Reports(md, classes[..|classes|-1]) + MembersReport(md, md.members[classes[|classes|-1]])
  }

  // ------------------------------------------------ which callbacks are made

  /** The member asks for a method: an ordinary method for itself, a property or
      event for its accessors up to the first missing one. */
  ghost predicate Asks(md: Metadata, member: Member, m: Method) {
    match member
    case MethodMember(n, special) => !special && n == m
    case SemanticsMember(_, accessors) =>
      exists k :: 0 <= k < |accessors| && accessors[k] == Some(m) && PresentBefore(md, accessors, k)
    case OtherMember(_) => false
  }

  ghost predicate PresentBefore(md: Metadata, accessors: seq<Option<Method>>, k: nat)
    requires k <= |accessors|
  {
    forall j :: 0 <= j < k && accessors[j].Some? ==> Available(md, accessors[j].value)
  }

  predicate ByProxy(md: Metadata, m: Method) {
    m !in md.implemented && m in md.proxied
  }

  lemma MethodReportIs(md: Metadata, m: Method, member: Member)
    ensures |MethodReport(md, m, member)| <= 1
    ensures forall n: Method :: ProxyCall(n) in MethodReport(md, m, member) <==> n == m && ByProxy(md, m)
    ensures forall x :: ErrorCall(x) in MethodReport(md, m, member) <==> x == member && !Available(md, m)
  {
  }

  /** Accessors are reported one after the other, up to the first error. */
  lemma {:induction false} SemanticsAppend(md: Metadata, a: seq<Option<Method>>, b: Option<Method>, member: Member)
    ensures SemanticsReport(md, a + [b], member) ==
      SemanticsReport(md, a, member)
      + if b.None? || HasError(SemanticsReport(md, a, member)) then [] else MethodReport(md, b.value, member)
    decreases |a|
  {
    if a == [] {
      assert [] + [b] == [b];
    } else {
      assert (a + [b])[1..] == a[1..] + [b];
      SemanticsAppend(md, a[1..], b, member);
      var rest := SemanticsReport(md, a[1..], member);
      if a[0].Some? && a[0].value !in md.implemented {
        if a[0].value in md.proxied {
          HasErrorConcat([ProxyCall(a[0].value)], rest);
        } else {
          assert [ErrorCall(member)][0].ErrorCall?;
        }
      }
    }
  }

  lemma {:induction false} SemanticsReportIs(md: Metadata, id: nat, accessors: seq<Option<Method>>, member: Member)
    ensures forall m: Method :: ProxyCall(m) in SemanticsReport(md, accessors, member) <==>
      Asks(md, SemanticsMember(id, accessors), m) && ByProxy(md, m)
    ensures forall x :: ErrorCall(x) in SemanticsReport(md, accessors, member) ==> x == member
    decreases |accessors|
  {
    if accessors != [] {
      var n := |accessors| - 1;
      var a, b := accessors[..n], accessors[n];
      assert accessors == a + [b];
      SemanticsReportIs(md, id, a, member);
      SemanticsAppend(md, a, b, member);
      SemanticsReportError(md, a, member);
      if b.Some? {
        MethodReportIs(md, b.value, member);
      }
      forall m: Method ensures Asks(md, SemanticsMember(id, accessors), m) <==>
        Asks(md, SemanticsMember(id, a), m) || (b == Some(m) && PresentBefore(md, a, n)) {
        AsksMore(md, id, a, b, m);
      }
    }
  }

  lemma AsksMore(md: Metadata, id: nat, a: seq<Option<Method>>, b: Option<Method>, m: Method)
    ensures Asks(md, SemanticsMember(id, a + [b]), m) <==>
      Asks(md, SemanticsMember(id, a), m) || (b == Some(m) && PresentBefore(md, a, |a|))
  {
    var s := a + [b];
    forall k: nat | k <= |a| ensures PresentBefore(md, s, k) <==> PresentBefore(md, a, k) {
      assert forall j :: 0 <= j < k ==> s[j] == a[j];
    }
    if k :| 0 <= k < |a| && a[k] == Some(m) && PresentBefore(md, a, k) {
      assert s[k] == Some(m);
    }
    if b == Some(m) && PresentBefore(md, a, |a|) {
      assert s[|a|] == Some(m);
    }
  }

  /** A proxy is requested for exactly the methods asked for that have only a
      proxy, and an error names the member exactly if it is not satisfied. */
  lemma MemberReportIs(md: Metadata, member: Member)
    ensures forall m: Method :: ProxyCall(m) in MemberReport(md, member) <==> Asks(md, member, m) && ByProxy(md, m)
    ensures forall x :: ErrorCall(x) in MemberReport(md, member) <==> x == member && !Satisfied(md, member)
  {
    MemberReportError(md, member);
    match member
    case MethodMember(m, special) => MethodReportIs(md, m, member);
    case SemanticsMember(id, accessors) => SemanticsReportIs(md, id, accessors, member);
    case OtherMember(_) =>
  }

  lemma {:induction false} MembersReportIs(md: Metadata, members: seq<Member>)
    ensures forall m: Method :: ProxyCall(m) in MembersReport(md, members) <==>
      ByProxy(md, m) && exists x :: x in members && Asks(md, x, m)
    ensures forall x :: ErrorCall(x) in MembersReport(md, members) <==> x in members && !Satisfied(md, x)
  {
    hide Asks, Satisfied;
    if members != [] {
      var last := members[|members|-1];
      MembersReportIs(md, members[..|members|-1]);
      MemberReportIs(md, last);
      assert members == members[..|members|-1] + [last];
    }
  }

  /** The same over a list of interfaces. */
  lemma {:induction false} ReportsAre(md: Metadata, classes: seq<Class>)
    requires forall c :: c in classes ==> c in md.members
    ensures forall m: Method :: ProxyCall(m) in Reports(md, classes) <==>
      ByProxy(md, m) && exists c, x :: c in classes && x in md.members[c] && Asks(md, x, m)
    ensures forall x :: ErrorCall(x) in Reports(md, classes) <==> !Satisfied(md, x) && exists c :: c in classes && x in md.members[c]
  {
    hide Asks, Satisfied, ByProxy;
    if classes != [] {
      var last := classes[|classes|-1];
      var before := classes[..|classes|-1];
      ReportsAre(md, before);
      MembersReportIs(md, md.members[last]);
      assert classes == before + [last];
    }
  }

  /** Some member of an inherited interface asks for the method, and only a
      proxy has it. */
  ghost predicate NeedsProxy(md: Metadata, c: Class, m: Method) {
    ByProxy(md, m) && exists i, x :: Inherited(md.inherits, c, i) && i in md.members && x in md.members[i] && Asks(md, x, m)
  }

  /** The member of an inherited interface is not satisfied. */
  ghost predicate Missing(md: Metadata, c: Class, x: Member) {
    !Satisfied(md, x) && exists i :: Inherited(md.inherits, c, i) && i in md.members && x in md.members[i]
  }

  lemma CallbacksAre(md: Metadata, c: Class, list: seq<Class>)
    requires (forall i :: i in list <==> Inherited(md.inherits, c, i)) && forall i :: i in list ==> i in md.members
    ensures forall m: Method :: ProxyCall(m) in Reports(md, list) <==> NeedsProxy(md, c, m)
    ensures forall x :: ErrorCall(x) in Reports(md, list) <==> Missing(md, c, x)
  {
    hide Reports, Inherited, Asks, Satisfied;
    ReportsAre(md, list);
  }

  ghost predicate HasError(calls: seq<Call>) {
    exists k :: 0 <= k < |calls| && calls[k].ErrorCall?
  }

  lemma HasErrorConcat(a: seq<Call>, b: seq<Call>)
    ensures HasError(a + b) <==> HasError(a) || HasError(b)
  {
    if HasError(a) {
      var k :| 0 <= k < |a| && a[k].ErrorCall?;
      assert (a + b)[k].ErrorCall?;
    }
    if HasError(b) {
      var k :| 0 <= k < |b| && b[k].ErrorCall?;
      assert (a + b)[|a| + k].ErrorCall?;
    }
  }

  lemma {:induction false} SemanticsReportError(md: Metadata, accessors: seq<Option<Method>>, member: Member)
    ensures HasError(SemanticsReport(md, accessors, member)) <==>
      !(forall a :: a in accessors && a.Some? ==> Available(md, a.value))
  {
    if accessors != [] {
      SemanticsReportError(md, accessors[1..], member);
      var a := accessors[0];
      assert accessors == [a] + accessors[1..];
      if a.Some? && a.value !in md.implemented {
        if a.value in md.proxied {
          HasErrorConcat([ProxyCall(a.value)], SemanticsReport(md, accessors[1..], member));
        } else {
          assert [ErrorCall(member)][0].ErrorCall?;
        }
      }
    }
  }

  lemma MemberReportError(md: Metadata, member: Member)
    ensures HasError(MemberReport(md, member)) <==> !Satisfied(md, member)
  {
    match member
    case MethodMember(m, special) =>
      assert [ErrorCall(member)][0].ErrorCall?;
    case SemanticsMember(_, accessors) =>
      SemanticsReportError(md, accessors, member);
    case OtherMember(_) =>
  }

  lemma {:induction false} MembersReportError(md: Metadata, members: seq<Member>)
    ensures HasError(MembersReport(md, members)) <==> exists m :: m in members && !Satisfied(md, m)
  {
    if members != [] {
      var last := members[|members|-1];
      MembersReportError(md, members[..|members|-1]);
      MemberReportError(md, last);
      HasErrorConcat(MembersReport(md, members[..|members|-1]), MemberReport(md, last));
      assert members == members[..|members|-1] + [last];
    }
  }

  lemma {:induction false} ReportsError(md: Metadata, classes: seq<Class>)
    requires forall c :: c in classes ==> c in md.members
    ensures HasError(Reports(md, classes)) <==>
      exists c, m :: c in classes && m in md.members[c] && !Satisfied(md, m)
  {
    if classes != [] {
      var last := classes[|classes|-1];
      var before := classes[..|classes|-1];
      ReportsError(md, before);
      MembersReportError(md, md.members[last]);
      HasErrorConcat(Reports(md, before), MembersReport(md, md.members[last]));
      assert classes == before + [last];
    }
  }

  lemma {:induction false} ReportsConcat(md: Metadata, a: seq<Class>, b: seq<Class>)
    requires forall c :: c in a + b ==> c in md.members
    ensures (forall c :: c in a ==> c in md.members) && (forall c :: c in b ==> c in md.members)
    ensures Reports(md, a + b) == Reports(md, a) + Reports(md, b)
  {
    hide Reports;
    assert forall c :: c in a ==> c in a + b;
    assert forall c :: c in b ==> c in a + b;
    ReportsNone(md);
    if b == [] {
      assert a + b == a;
    } else {
      var n := |b| - 1;
      assert b == b[..n] + [b[n]] && a + b == (a + b[..n]) + [b[n]];
      ReportsConcat(md, a, b[..n]);
      ReportsOne(md, a + b[..n], b[n]);
      ReportsOne(md, b[..n], b[n]);
    }
  }

  lemma ReportsNone(md: Metadata)
    ensures Reports(md, []) == []
  {
  }

  lemma ReportsOne(md: Metadata, s: seq<Class>, c: Class)
    requires c in md.members && forall d :: d in s ==> d in md.members
    ensures Reports(md, s + [c]) == Reports(md, s) + MembersReport(md, md.members[c])
  {
    hide MembersReport;
    assert (s + [c])[..|s|] == s;
  }

  // ---------------------------------------------------------- spanning size

  /** Interfaces along all inheritance paths, counted with repetition. */
  ghost function Span(g: Graph<Class>, rank: map<Class, nat>, c: Class): (n: nat)
    requires Ranked(g, rank) && c in g
    ensures n >= 1
    decreases rank[c], 1, 0
  {
    1 + SpanAll(g, rank, c, |g[c]|)
  }

  ghost function SpanAll(g: Graph<Class>, rank: map<Class, nat>, c: Class, k: nat): (r: nat)
    requires Ranked(g, rank) && c in g && k <= |g[c]|
    decreases rank[c], 0, k
  {
    if k == 0 then 0
    else
      assert g[c][k - 1] in g[c];
      SpanAll(g, rank, c, k - 1) + Span(g, rank, g[c][k - 1])
  }

  lemma {:induction false} SpanAllGrows(g: Graph<Class>, rank: map<Class, nat>, c: Class, k: nat, n: nat)
    requires Ranked(g, rank) && c in g && k <= n <= |g[c]|
    ensures SpanAll(g, rank, c, k) <= SpanAll(g, rank, c, n)
  {
    if k < n {
      SpanAllGrows(g, rank, c, k, n - 1);
    }
  }

  // ------------------------------------------------------------ the check

  ghost predicate NoDuplicates(s: seq<Class>) {
    forall i, j :: 0 <= i < j < |s| ==> s[i] != s[j]
  }

  /** Going from `before` to `after` has processed every interface reached
      from one of `roots` that was not there before, each once. */
  ghost predicate Visits(g: Graph<Class>, roots: seq<Class>, before: seq<Class>, after: seq<Class>) {
    && before <= after
    && (NoDuplicates(before) ==> NoDuplicates(after))
    && (forall r :: r in roots ==> r in after)
    && (forall v :: v in after[|before|..] ==> v in g && forall d :: d in g[v] ==> d in after)
    && (forall v :: v in after[|before|..] ==> exists r :: r in roots && Reaches(g, r, v))
  }

  lemma VisitsNone(g: Graph<Class>, before: seq<Class>)
    ensures Visits(g, [], before, before)
  {
  }

  /** One more root, visited after the others. */
  lemma VisitsMore(g: Graph<Class>, roots: seq<Class>, root: Class, a: seq<Class>, b: seq<Class>, c: seq<Class>)
    requires Visits(g, roots, a, b) && Visits(g, [root], b, c)
    ensures Visits(g, roots + [root], a, c)
    ensures c[|a|..] == b[|a|..] + c[|b|..]
  {
    assert c[..|b|] == b;
    assert c[|a|..] == b[|a|..] + c[|b|..];
    forall v | v in c[|a|..] ensures v in g && forall d :: d in g[v] ==> d in c {
      if v in b[|a|..] {
        assert forall d :: d in b ==> d in c;
      }
    }
    forall v | v in c[|a|..] ensures exists r :: r in roots + [root] && Reaches(g, r, v) {
      if v in b[|a|..] {
        var r :| r in roots && Reaches(g, r, v);
        assert r in roots + [root];
      }
    }
    forall r | r in roots + [root] ensures r in c {
      assert r in roots ==> r in b;
    }
  }

  /** A new root, and then everything below it. */
  lemma VisitsRoot(g: Graph<Class>, root: Class, a: seq<Class>, c: seq<Class>)
    requires root in g && root !in a && Visits(g, g[root], a + [root], c)
    ensures Visits(g, [root], a, c)
    ensures c[|a|..] == [root] + c[|a| + 1..]
  {
    assert c[..|a| + 1] == a + [root];
    assert c[|a|] == root;
    assert c[|a|..] == [root] + c[|a| + 1..];
    assert NoDuplicates(a) ==> NoDuplicates(a + [root]);
    ReachesSelf(g, root);
    forall v | v in c[|a|..] ensures exists r :: r in [root] && Reaches(g, r, v) {
      if v != root {
        var r :| r in g[root] && Reaches(g, r, v);
        ReachesUnfold(g, root, v);
      }
      assert root in [root];
    }
  }

  lemma {:induction false} ClosedReach(g: Graph<Class>, after: seq<Class>, a: Class, b: Class, n: nat)
    requires a in after && forall v :: v in after ==> v in g && forall d :: d in g[v] ==> d in after
    requires ReachesIn(g, a, b, n)
    ensures b in after
    decreases n
  {
    if n > 0 {
      var x :| x in g[a] && ReachesIn(g, x, b, n - 1);
      ClosedReach(g, after, x, b, n - 1);
    }
  }

  /** Starting from nothing, exactly the inherited interfaces are visited. */
  lemma VisitsAll(g: Graph<Class>, c: Class, after: seq<Class>)
    requires c in g && Visits(g, g[c], [], after)
    ensures forall i :: i in after <==> Inherited(g, c, i)
  {
    forall i ensures i in after <==> Inherited(g, c, i) {
      if i in after {
        VisitedInherited(g, c, after, i);
      }
      if Inherited(g, c, i) {
        InheritedVisited(g, c, after, i);
      }
    }
  }

  lemma VisitedInherited(g: Graph<Class>, c: Class, after: seq<Class>, i: Class)
    requires c in g && Visits(g, g[c], [], after) && i in after
    ensures Inherited(g, c, i)
  {
    assert i in after[0..];
  }

  lemma InheritedVisited(g: Graph<Class>, c: Class, after: seq<Class>, i: Class)
    requires c in g && Visits(g, g[c], [], after) && Inherited(g, c, i)
    ensures i in after
  {
    assert after[0..] == after;
    var d :| d in g[c] && Reaches(g, d, i);
    var n: nat :| ReachesIn(g, d, i, n);
    assert d in after;
    hide Reaches;
    ClosedReach(g, after, d, i, n);
  }

  class Checker {
    const md: Metadata
    ghost const rank: map<Class, nat>
    var visited: array<Class>
    var visitedSize: nat
    var calls: seq<Call>

    ghost predicate Valid()
      reads `visited, `visitedSize
    {
      && Ranked(md.inherits, rank) && md.members.Keys == md.inherits.Keys
      && visitedSize <= visited.Length
    }

    ghost function List(): (r: seq<Class>)
      reads `visited, `visitedSize, visited
      requires visitedSize <= visited.Length
    {
      visited[..visitedSize]
    }

    constructor (md: Metadata)
      requires Closed(md.inherits) && Acyclic(md.inherits) && md.members.Keys == md.inherits.Keys
      ensures Valid() && this.md == md && calls == [] && visitedSize == 0
    {
      AcyclicIsRanked(md.inherits);
      this.md, this.rank := md, Rank(md.inherits);
      visited, visitedSize, calls := new Class[0], 0, [];
    }

    /** `ImplementsMethod`: true on error. */
    method ImplementsMethod(m: Method, member: Member) returns (error: bool)
      modifies `calls
      ensures calls == old(calls) + MethodReport(md, m, member)
      ensures error <==> HasError(MethodReport(md, m, member))
    {
      assert [ErrorCall(member)][0].ErrorCall?;
      if m !in md.implemented {
        if m !in md.proxied {
          calls := calls + [ErrorCall(member)];
          return true;
        } else {
          calls := calls + [ProxyCall(m)];
          return false;
        }
      } else {
        return false;
      }
    }

    /** `ImplementsMethodSem`: true on error; the first missing accessor ends
        the scan. */
    method ImplementsMethodSem(accessors: seq<Option<Method>>, member: Member) returns (error: bool)
      modifies `calls
      ensures calls == old(calls) + SemanticsReport(md, accessors, member)
      ensures error <==> HasError(SemanticsReport(md, accessors, member))
    {
      hide HasError, SemanticsReport;
      var k := 0;
      ghost var report := SemanticsReport(md, accessors, member);
      ghost var sofar: seq<Call> := [];
      NoError();
      assert accessors[0..] == accessors;
      while k < |accessors|
        invariant k <= |accessors|
        invariant calls == old(calls) + sofar && !HasError(sofar)
        invariant report == sofar + SemanticsReport(md, accessors[k..], member)
      {
        var a := accessors[k];
        AccessorStep(accessors, k, member);
        if a.Some? && a.value !in md.implemented {
          ghost var call := if a.value in md.proxied then ProxyCall(a.value) else ErrorCall(member);
          OneCall(sofar, call);
          if a.value !in md.proxied {
            calls := calls + [ErrorCall(member)];
            return true;
          } else {
            calls := calls + [ProxyCall(a.value)];
            sofar := sofar + [ProxyCall(a.value)];
          }
        }
        k := k + 1;
      }
      AccessorsEnd(accessors, k, member);
      assert sofar + [] == sofar;
      return false;
    }

    lemma AccessorStep(accessors: seq<Option<Method>>, k: nat, member: Member)
      requires k < |accessors|
      ensures var a, rest := accessors[k], SemanticsReport(md, accessors[k + 1..], member);
              SemanticsReport(md, accessors[k..], member) ==
                if a.None? || a.value in md.implemented then rest
                else if a.value in md.proxied then [ProxyCall(a.value)] + rest
                else [ErrorCall(member)]
    {
      assert accessors[k..][1..] == accessors[k + 1..];
    }

    lemma AccessorsEnd(accessors: seq<Option<Method>>, k: nat, member: Member)
      requires k == |accessors|
      ensures SemanticsReport(md, accessors[k..], member) == []
    {
    }

    lemma OneCall(sofar: seq<Call>, call: Call)
      ensures HasError(sofar + [call]) <==> HasError(sofar) || call.ErrorCall?
    {
      HasErrorConcat(sofar, [call]);
      assert [call][0] == call;
    }

    /** Special-named methods are left to the properties and events. */
    method CheckMember(member: Member) returns (error: bool)
      modifies `calls
      ensures calls == old(calls) + MemberReport(md, member)
      ensures error <==> HasError(MemberReport(md, member))
    {
      hide MethodReport, SemanticsReport;
      error := false;
      if member.MethodMember? && !member.specialName {
        error := ImplementsMethod(member.m, member);
      } else if member.SemanticsMember? {
        error := ImplementsMethodSem(member.accessors, member);
      } else {
        assert calls + [] == calls;
      }
    }

    /** The loop over the members of one interface. */
    method CheckMembers(members: seq<Member>) returns (sawErrors: bool)
      modifies `calls
      ensures calls == old(calls) + MembersReport(md, members)
      ensures sawErrors <==> HasError(MembersReport(md, members))
    {
      hide HasError, MemberReport;
      sawErrors := false;
      NoError();
      var k := 0;
      assert calls + [] == calls;
      while k < |members|
        invariant k <= |members|
        invariant calls == old(calls) + MembersReport(md, members[..k])
        invariant sawErrors <==> HasError(MembersReport(md, members[..k]))
      {
        ghost var sofar := MembersReport(md, members[..k]);
        var error := CheckMember(members[k]);
        sawErrors := sawErrors || error;
        assert members[..k + 1][..k] == members[..k];
        HasErrorConcat(sofar, MemberReport(md, members[k]));
        k := k + 1;
      }
      assert members[..k] == members;
    }

    lemma NoError()
      ensures !HasError([])
    {
    }

    /** `ImplementsInterface`: true on error. */
    method ImplementsInterface(i: Class) returns (error: bool)
      requires Valid() && i in md.inherits
      requires visitedSize + Span(md.inherits, rank, i) <= visited.Length
      requires forall c :: c in List() ==> c in md.members
      modifies `calls, `visitedSize, visited
      ensures Valid() && visitedSize <= old(visitedSize) + Span(md.inherits, rank, i)
      ensures Visits(md.inherits, [i], old(List()), List())
      ensures forall c :: c in List() ==> c in md.members
      ensures Processed(old(List()), List(), old(calls), calls, error)
      decreases rank[i], 1, 0
    {
      hide Visits, Processed, Reports, Ranked, HasError;
      ghost var before, was := List(), calls;
      var seen := AlreadyVisited(i);
      if seen {
        NothingNew(i, before, was);
        return false;
      }
      SpanUnfold(i);
      Mark(i);
      error := CheckMembers(md.members[i]);
      ghost var now := calls;
      var below := ImplementsAllInterfaces(i);
      VisitsRoot(md.inherits, i, before, List());
      ProcessedRoot(i, before, List(), was, now, calls, error, below);
      error := error || below;
    }

    /** The search of the array. */
    method AlreadyVisited(i: Class) returns (seen: bool)
      requires Valid()
      ensures seen <==> i in List()
    {
      var posn := 0;
      while posn < visitedSize
        invariant posn <= visitedSize
        invariant i !in visited[..posn]
      {
        if visited[posn] == i {
          return true;
        }
        posn := posn + 1;
      }
      return false;
    }

    method Mark(i: Class)
      requires Valid() && visitedSize < visited.Length && i in md.members
      requires forall c :: c in List() ==> c in md.members
      modifies `visitedSize, visited
      ensures Valid() && List() == old(List()) + [i] && visitedSize == old(visitedSize) + 1
      ensures forall c :: c in List() ==> c in md.members
    {
      visited[visitedSize] := i;
      visitedSize := visitedSize + 1;
    }

    lemma NothingNew(i: Class, s: seq<Class>, was: seq<Call>)
      requires i in s && forall c :: c in s ==> c in md.members
      ensures Visits(md.inherits, [i], s, s) && Processed(s, s, was, was, false)
    {
      assert s[|s|..] == [];
      assert was + [] == was;
    }

    lemma SpanUnfold(i: Class)
      requires Ranked(md.inherits, rank) && i in md.inherits
      ensures Span(md.inherits, rank, i) == 1 + SpanAll(md.inherits, rank, i, |md.inherits[i]|)
    {
    }

    lemma ProcessedRoot(i: Class, before: seq<Class>, after: seq<Class>, was: seq<Call>, mid: seq<Call>, now: seq<Call>, error: bool, below: bool)
      requires i in md.members && mid == was + MembersReport(md, md.members[i])
      requires error <==> HasError(MembersReport(md, md.members[i]))
      requires Processed(before + [i], after, mid, now, below)
      ensures Processed(before, after, was, now, error || below)
    {
      hide MembersReport;
      var rest := after[|before| + 1..];
      assert after[..|before| + 1] == before + [i] && after[|before|] == i;
      assert after[|before|..] == [i] + rest;
      forall c | c in [i] + rest ensures c in md.members {
      }
      ReportsConcat(md, [i], rest);
      assert Reports(md, [i]) == MembersReport(md, md.members[i]) by {
        assert [i][..0] == [] && Reports(md, []) == [];
      }
      HasErrorConcat(Reports(md, [i]), Reports(md, rest));
    }

    /** The callbacks made are those for the interfaces added. */
    ghost predicate Processed(before: seq<Class>, after: seq<Class>, was: seq<Call>, now: seq<Call>, error: bool) {
      && before <= after && (forall c :: c in after ==> c in md.members)
      && (forall c :: c in after[|before|..] ==> c in md.members)
      && now == was + Reports(md, after[|before|..])
      && (error <==> HasError(Reports(md, after[|before|..])))
    }

    /** `ImplementsAllInterfaces`: true on error. */
    method ImplementsAllInterfaces(refClass: Class) returns (sawErrors: bool)
      requires Valid() && refClass in md.inherits
      requires visitedSize + SpanAll(md.inherits, rank, refClass, |md.inherits[refClass]|) <= visited.Length
      requires forall c :: c in List() ==> c in md.members
      modifies `calls, `visitedSize, visited
      ensures Valid()
      ensures visitedSize <= old(visitedSize) + SpanAll(md.inherits, rank, refClass, |md.inherits[refClass]|)
      ensures Visits(md.inherits, md.inherits[refClass], old(List()), List())
      ensures forall c :: c in List() ==> c in md.members
      ensures Processed(old(List()), List(), old(calls), calls, sawErrors)
      decreases rank[refClass], 0, 0
    {
      hide Visits, Processed, Reports, HasError, Span;
      ghost var g, before, was := md.inherits, List(), calls;
      var parents := md.inherits[refClass];
      VisitsNone(g, before);
      ProcessedNone(before, was);
      sawErrors := false;
      var k := 0;
      assert parents[..0] == [];
      while k < |parents|
        invariant k <= |parents| && Valid()
        invariant visitedSize <= old(visitedSize) + SpanAll(g, rank, refClass, k)
        invariant Visits(g, parents[..k], before, List())
        invariant forall c :: c in List() ==> c in md.members
        invariant Processed(before, List(), was, calls, sawErrors)
      {
        ghost var middle, sofar := List(), calls;
        ParentFacts(refClass, k);
        var error := ImplementsInterface(parents[k]);
        VisitsMore(g, parents[..k], parents[k], before, middle, List());
        ProcessedMore(before, middle, List(), was, sofar, calls, sawErrors, error);
        assert parents[..k + 1] == parents[..k] + [parents[k]];
        sawErrors := sawErrors || error;
        k := k + 1;
      }
      assert parents[..k] == parents;
    }

    lemma ParentFacts(refClass: Class, k: nat)
      requires Ranked(md.inherits, rank) && refClass in md.inherits && k < |md.inherits[refClass]|
      ensures md.inherits[refClass][k] in md.inherits && refClass in rank && rank[md.inherits[refClass][k]] < rank[refClass]
      ensures SpanAll(md.inherits, rank, refClass, k + 1) ==
        SpanAll(md.inherits, rank, refClass, k) + Span(md.inherits, rank, md.inherits[refClass][k])
      ensures SpanAll(md.inherits, rank, refClass, k + 1) <= SpanAll(md.inherits, rank, refClass, |md.inherits[refClass]|)
    {
      assert md.inherits[refClass][k] in md.inherits[refClass];
      SpanAllGrows(md.inherits, rank, refClass, k + 1, |md.inherits[refClass]|);
    }

    lemma ProcessedNone(s: seq<Class>, was: seq<Call>)
      requires forall c :: c in s ==> c in md.members
      ensures Processed(s, s, was, was, false)
    {
      assert s[|s|..] == [];
      assert was + [] == was;
    }

    lemma ProcessedMore(a: seq<Class>, b: seq<Class>, c: seq<Class>, was: seq<Call>, mid: seq<Call>, now: seq<Call>, e1: bool, e2: bool)
      requires Processed(a, b, was, mid, e1) && Processed(b, c, mid, now, e2)
      ensures Processed(a, c, was, now, e1 || e2)
    {
      hide Reports, HasError;
      assert c[..|b|] == b;
      assert c[|a|..] == b[|a|..] + c[|b|..];
      ReportsConcat(md, b[|a|..], c[|b|..]);
      HasErrorConcat(Reports(md, b[|a|..]), Reports(md, c[|b|..]));
    }

    /** `GetSpanningSize` */
    method GetSpanningSize(interface: Class) returns (size: nat)
      requires Ranked(md.inherits, rank) && interface in md.inherits
      ensures size == Span(md.inherits, rank, interface)
      decreases rank[interface]
    {
      SpanUnfold(interface);
      size := 1;
      var k := 0;
      while k < |md.inherits[interface]|
        invariant k <= |md.inherits[interface]|
        invariant size == 1 + SpanAll(md.inherits, rank, interface, k)
      {
        ParentFacts(interface, k);
        var below := GetSpanningSize(md.inherits[interface][k]);
        size := size + below;
        k := k + 1;
      }
    }

    /** `ILGenImplementsAllInterfaces`: true exactly when every member of
        every inherited interface is available; each such interface is
        processed once, in the space of the array. */
    method ImplementsAll(classInfo: Class) returns (ok: bool)
      requires Valid() && classInfo in md.inherits
      modifies this
      ensures Valid() && fresh(visited)
      ensures NoDuplicates(List()) && forall i :: i in List() <==> Inherited(md.inherits, classInfo, i)
      ensures (forall c :: c in List() ==> c in md.members) && calls == old(calls) + Reports(md, List())
      ensures ok <==> forall i, m ::
        i in md.members && Inherited(md.inherits, classInfo, i) && m in md.members[i] ==> Satisfied(md, m)
      ensures forall m: Method :: ProxyCall(m) in calls[|old(calls)|..] <==> NeedsProxy(md, classInfo, m)
      ensures forall x :: ErrorCall(x) in calls[|old(calls)|..] <==> Missing(md, classInfo, x)
    {
      hide Reports, HasError, Inherited, Satisfied, NeedsProxy, Missing;
      var size := GetSpanningSize(classInfo);
      SpanUnfold(classInfo);
      visited := new Class[size];
      visitedSize := 0;
      var sawErrors := ImplementsAllInterfaces(classInfo);
      assert List()[0..] == List();
      VisitsAll(md.inherits, classInfo, List());
      ReportsError(md, List());
      CallbacksAre(md, classInfo, List());
      assert calls[|old(calls)|..] == Reports(md, List());
      ok := !sawErrors;
    }
  }
}
