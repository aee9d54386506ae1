/** The targets of a build file and the dependencies between them, kept
    acyclic one edge at a time. */
module Targets {
  import opened Graphs
  import opened Options

  /** A target's name; the global target has none. */
  datatype TargetName = Global | Named(name: string)

  /** A task element: the tag and, for `<call>`, the `target` parameter. */
  datatype Task = Task(name: string, target: Option<string>)

  class Target {
    const name: TargetName
    var tasks: seq<Task>
    var dependsOn: seq<Target>
    var built: bool

    constructor (name: TargetName)
      ensures this.name == name && tasks == [] && dependsOn == [] && !built
    {
      this.name := name;
      tasks, dependsOn, built := [], [], false;
    }
  }

  /** The pieces of a comma-separated list; never empty. */
  function Split(s: string): (r: seq<string>)
    ensures r != []
  {
    if s == [] then [""]
    else if s[0] == ',' then [""] + Split(s[1..])
    else var r := Split(s[1..]); [[s[0]] + r[0]] + r[1..]
  }

  function CommaJoin(pieces: seq<string>): (s: string)
    requires pieces != []
  {
    if |pieces| == 1 then pieces[0] else pieces[0] + "," + CommaJoin(pieces[1..])
  }

  /** The pieces are what stands between the commas. */
  lemma {:induction false} SplitJoins(s: string)
    ensures CommaJoin(Split(s)) == s
    ensures forall p :: p in Split(s) ==> ',' !in p
  {
    if s != [] {
      SplitJoins(s[1..]);
      var r := Split(s[1..]);
      if s[0] == ',' {
        assert ([""] + r)[1..] == r;
        assert "" + "," + s[1..] == s;
      } else {
        var q := [[s[0]] + r[0]] + r[1..];
        assert q[1..] == r[1..];
        assert CommaJoin(q) == [s[0]] + CommaJoin(r);
        assert [s[0]] + s[1..] == s;
      }
    }
  }

  /** The dependency graph on names. */
  type Depends = Graph<TargetName>

  function Ensure(g: Depends, name: TargetName): (r: Depends) {
    if name in g then g else g[name := []]
  }

  /** Recording `target` -> piece for each piece in turn, up to the first one
      that would close a cycle. */
  ghost function Recorded(g: Depends, target: TargetName, pieces: seq<string>): (r: (Depends, bool))
    decreases |pieces|
  {
    if pieces == [] then (g, true)
    else
      var h := Ensure(Ensure(g, target), Named(pieces[0]));
      if Reaches(h, Named(pieces[0]), target) then (h, false)
      else Recorded(AddEdge(h, target, Named(pieces[0])), target, pieces[1..])
  }

  /** All the dependencies of a list, whether or not they close a cycle. */
  function AllAdded(g: Depends, target: TargetName, pieces: seq<string>): (r: Depends)
    decreases |pieces|
  {
    if pieces == [] then g
    else AllAdded(AddEdge(Ensure(Ensure(g, target), Named(pieces[0])), target, Named(pieces[0])), target, pieces[1..])
  }

  lemma {:induction false} AllAddedExtends(g: Depends, target: TargetName, pieces: seq<string>)
    ensures Extends(AllAdded(g, target, pieces), g)
    decreases |pieces|
  {
    if pieces != [] {
      var k := AddEdge(Ensure(Ensure(g, target), Named(pieces[0])), target, Named(pieces[0]));
      AllAddedExtends(k, target, pieces[1..]);
      assert Extends(k, g);
    }
  }

  lemma EnsureKeeps(g: Depends, name: TargetName)
    requires Closed(g) && Acyclic(g)
    ensures Closed(Ensure(g, name)) && Acyclic(Ensure(g, name))
  {
    if name !in g {
      AddVertexAcyclic(g, name);
    }
  }

  /** A list of dependencies is accepted exactly when recording all of it
      leaves the graph without a cycle; what is recorded, even of a rejected
      list, leaves it so. */
  lemma {:induction false} RecordedExactly(g: Depends, target: TargetName, pieces: seq<string>)
    requires Closed(g) && Acyclic(g)
    ensures var (h, ok) := Recorded(g, target, pieces);
            && (ok <==> Acyclic(AllAdded(g, target, pieces)))
            && (ok ==> h == AllAdded(g, target, pieces))
            && Closed(h) && Acyclic(h)
    decreases |pieces|
  {
    if pieces != [] {
      var p := Named(pieces[0]);
      EnsureKeeps(g, target);
      EnsureKeeps(Ensure(g, target), p);
      var h := Ensure(Ensure(g, target), p);
      var k := AddEdge(h, target, p);
      if Reaches(h, p, target) {
        var n: nat :| ReachesIn(h, p, target, n);
        assert Extends(k, h);
        AllAddedExtends(k, target, pieces[1..]);
        assert p in k[target];
        ExtendsReaches(AllAdded(g, target, pieces), h, p, target, n);
      } else {
        AddEdgeAcyclic(h, target, p);
        RecordedExactly(k, target, pieces[1..]);
      }
    }
  }

  function Names(pieces: seq<string>): (r: seq<TargetName>) {
    seq(|pieces|, i requires 0 <= i < |pieces| => Named(pieces[i]))
  }

  function Listed(g: Depends, t: TargetName): (r: seq<TargetName>) {
    if t in g then g[t] else []
  }

  /** Dependencies are appended to one target, and no other target gets any;
      none but the target and the listed ones becomes known. */
  ghost predicate Appended(g: Depends, h: Depends, target: TargetName, names: seq<TargetName>, known: seq<TargetName>) {
    && Listed(h, target) == Listed(g, target) + names
    && (forall t :: t != target ==> Listed(h, t) == Listed(g, t))
    && (forall t :: t in h <==> t in g || (known != [] && t == target) || t in known)
  }

  lemma AppendedOne(g: Depends, target: TargetName, name: TargetName)
    ensures target in Ensure(Ensure(g, target), name)
    ensures Appended(g, AddEdge(Ensure(Ensure(g, target), name), target, name), target, [name], [name])
  {
  }

  lemma AppendedMore(g: Depends, h: Depends, k: Depends, target: TargetName, name: TargetName, names: seq<TargetName>, known: seq<TargetName>)
    requires Appended(g, h, target, [name], [name]) && Appended(h, k, target, names, known)
    ensures Appended(g, k, target, [name] + names, [name] + known)
  {
    hide Listed;
    assert Listed(g, target) + [name] + names == Listed(g, target) + ([name] + names);
  }

  lemma NamesStep(pieces: seq<string>, k: nat)
    requires 0 < k <= |pieces|
    ensures Names(pieces[..k]) == [Named(pieces[0])] + Names(pieces[1..][..k - 1])
  {
    assert pieces[..k][1..] == pieces[1..][..k - 1];
  }

  /** The pieces before the rejected one are recorded, in their order. */
  lemma {:induction false} RecordedInOrder(g: Depends, target: TargetName, pieces: seq<string>) returns (n: nat)
    ensures n <= |pieces| && (Recorded(g, target, pieces).1 <==> n == |pieces|)
    ensures var (h, ok) := Recorded(g, target, pieces);
            Appended(g, h, target, Names(pieces[..n]), Names(pieces[..if ok then n else n + 1]))
    decreases |pieces|
  {
    hide Appended, Names, Reaches;
    n := 0;
    if pieces == [] {
      NothingAppended(g, target);
    } else {
      var p := Named(pieces[0]);
      var h := Ensure(Ensure(g, target), p);
      if Reaches(h, p, target) {
        NamesStep(pieces, 1);
        OnlyKnown(g, target, p, pieces);
      } else {
        var k := AddEdge(h, target, p);
        var m := RecordedInOrder(k, target, pieces[1..]);
        var (end, ok) := Recorded(k, target, pieces[1..]);
        n := m + 1;
        NamesStep(pieces, n);
        NamesStep(pieces, if ok then n else n + 1);
        AppendedOne(g, target, p);
        AppendedMore(g, k, end, target, p, Names(pieces[1..][..m]), Names(pieces[1..][..if ok then m else m + 1]));
      }
    }
  }

  lemma NothingAppended(g: Depends, target: TargetName)
    ensures Appended(g, g, target, Names([]), Names([]))
  {
  }

  lemma OnlyKnown(g: Depends, target: TargetName, p: TargetName, pieces: seq<string>)
    requires pieces != [] && p == Named(pieces[0])
    ensures Appended(g, Ensure(Ensure(g, target), p), target, Names(pieces[..0]), Names(pieces[..1]))
  {
    assert Names(pieces[..1]) == [p];
  }

  /** The descriptor's dependencies are the ones `g` records. */
  ghost predicate Describes(t: Target, ts: seq<Target>, g: Depends)
    reads t
  {
    && t.name in g && |g[t.name]| == |t.dependsOn|
    && (forall i :: 0 <= i < |t.dependsOn| ==> t.dependsOn[i] in ts && g[t.name][i] == t.dependsOn[i].name)
  }

  class Project {
    var targets: seq<Target>
    ghost var graph: Depends

    /** One descriptor per name, and `graph` is what they say. */
    ghost predicate Mirrors()
      reads this, targets
    {
      && (forall i, j :: 0 <= i < j < |targets| ==> targets[i].name != targets[j].name)
      && (forall t :: t in targets ==> Describes(t, targets, graph))
      && (forall n :: n in graph ==> exists t :: t in targets && t.name == n)
    }

    ghost predicate Valid()
      reads this, targets
    {
      Mirrors() && Closed(graph) && Acyclic(graph)
    }

    ghost function Members(): (r: set<Target>)
      reads this
    {
      set t | t in targets
    }

    constructor ()
      ensures Valid() && targets == [] && graph == map[]
    {
      targets := [];
      graph := map[];
    }

    /** `CSAntFindTarget`: the descriptor of a name, if there is one. */
    method Find(name: TargetName) returns (found: Target?)
      requires Mirrors()
      ensures found == null <==> name !in graph
      ensures found != null ==> found in targets && found.name == name
    {
      var i := 0;
      while i < |targets|
        invariant i <= |targets|
        invariant forall j :: 0 <= j < i ==> targets[j].name != name
      {
        if targets[i].name == name {
          assert Describes(targets[i], targets, graph);
          return targets[i];
        }
        i := i + 1;
      }
      found := null;
    }

    /** `FindTarget`: the same, adding an empty descriptor at the head of the
        list when the name is new. */
    method FindOrAdd(name: TargetName) returns (found: Target)
      requires Valid()
      modifies `targets, `graph
      ensures Valid() && found in targets && found.name == name
      ensures graph == Ensure(old(graph), name)
      ensures old(Members()) <= Members() && fresh(Members() - old(Members()))
    {
      hide Closed, Acyclic;
      var existing := Find(name);
      if existing != null {
        return existing;
      }
      found := new Target(name);
      AddVertexAcyclic(graph, name);
      Prepend(found);
    }

    /** Links a new descriptor without dependencies into the list. */
    method Prepend(found: Target)
      requires Mirrors() && found !in targets && found.name !in graph && found.dependsOn == []
      modifies `targets, `graph
      ensures Mirrors() && targets == [found] + old(targets) && graph == old(graph)[found.name := []]
    {
      PrependKeeps(found);
      targets := [found] + targets;
      graph := graph[found.name := []];
    }

    lemma PrependKeeps(found: Target)
      requires Mirrors() && found !in targets && found.name !in graph && found.dependsOn == []
      ensures var ts, g := [found] + targets, graph[found.name := []];
              && (forall i, j :: 0 <= i < j < |ts| ==> ts[i].name != ts[j].name)
              && (forall t :: t in ts ==> Describes(t, ts, g))
              && (forall n :: n in g ==> exists t :: t in ts && t.name == n)
    {
      var ts, g := [found] + targets, graph[found.name := []];
      forall i, j | 0 <= i < j < |ts| ensures ts[i].name != ts[j].name {
        assert ts[j] == targets[j - 1] && Describes(targets[j - 1], targets, graph);
      }
      forall t | t in ts ensures Describes(t, ts, g) {
        if t != found {
          assert Describes(t, targets, graph);
        }
      }
      forall n | n in g ensures exists t :: t in ts && t.name == n {
        if n == found.name {
          assert ts[0] == found;
        } else {
          var t :| t in targets && t.name == n;
          assert t in ts;
        }
      }
    }

    lemma SameTarget(a: Target, b: Target)
      requires Mirrors() && a in targets && b in targets && a.name == b.name
      ensures a == b
    {
    }

    lemma DependsAt(t: Target, i: nat)
      requires Mirrors() && t in targets
      ensures t.name in graph && |graph[t.name]| == |t.dependsOn|
      ensures i < |t.dependsOn| ==> t.dependsOn[i] in targets && t.dependsOn[i].name == graph[t.name][i]
      ensures forall j :: 0 <= j < |t.dependsOn| ==> t.dependsOn[j] in targets && t.dependsOn[j].name == graph[t.name][j]
    {
      assert Describes(t, targets, graph);
    }

    lemma NotAbove(above: set<TargetName>, n: TargetName)
      requires Acyclic(graph) && above <= graph.Keys
      requires forall a :: a in above ==> exists x :: x in graph[a] && Reaches(graph, x, n)
      ensures n !in above
    {
    }

    /** `IncludesDependency`: depth-first search that needs no marks because
        the graph has no cycle.  `above` names the callers' targets. */
    method IncludesDependency(desc1: Target, desc2: Target, ghost above: set<TargetName>) returns (r: bool)
      requires Valid() && desc1 in targets && desc2 in targets
      requires above <= graph.Keys
      requires forall a :: a in above ==> exists x :: x in graph[a] && Reaches(graph, x, desc1.name)
      ensures r <==> Reaches(graph, desc1.name, desc2.name)
      decreases graph.Keys - above
    {
      hide Mirrors, Closed, Acyclic, Reaches;
      ghost var n := desc1.name;
      NotAbove(above, n);
      ReachesUnfold(graph, n, desc2.name);
      if desc1 == desc2 {
        return true;
      }
      if n == desc2.name {
        SameTarget(desc1, desc2);
      }
      var posn := 0;
      DependsAt(desc1, 0);
      while posn < |desc1.dependsOn|
        invariant posn <= |desc1.dependsOn|
        invariant forall j :: 0 <= j < posn ==> !Reaches(graph, graph[n][j], desc2.name)
      {
        var next := desc1.dependsOn[posn];
        DependsAt(desc1, posn);
        Deeper(graph, above, n, next.name);
        var below := IncludesDependency(next, desc2, above + {n});
        if below {
          return true;
        }
        posn := posn + 1;
      }
      return false;
    }

    /** Appends one dependency that closes no cycle. */
    method AddDependency(desc1: Target, desc2: Target)
      requires Mirrors() && desc1 in targets && desc2 in targets
      modifies `graph, desc1`dependsOn
      ensures Mirrors() && desc1.name in old(graph) && graph == AddEdge(old(graph), desc1.name, desc2.name)
    {
      hide Describes;
      DependsAt(desc1, 0);
      ghost var g := AddEdge(graph, desc1.name, desc2.name);
      OthersKept(desc1, desc2.name);
      graph := g;
      desc1.dependsOn := desc1.dependsOn + [desc2];
      ChangedDescribed(desc1, desc2, old(graph), old(desc1.dependsOn));
    }

    lemma OthersKept(desc1: Target, name: TargetName)
      requires Mirrors() && desc1 in targets
      ensures desc1.name in graph
      ensures forall t :: t in targets && t != desc1 ==> Describes(t, targets, AddEdge(graph, desc1.name, name))
    {
      assert Describes(desc1, targets, graph);
      forall t | t in targets && t != desc1 ensures Describes(t, targets, AddEdge(graph, desc1.name, name)) {
        assert Describes(t, targets, graph);
        if t.name == desc1.name {
          SameTarget(t, desc1);
        }
      }
    }

    lemma ChangedDescribed(desc1: Target, desc2: Target, g: Depends, before: seq<Target>)
      requires desc1.name in g && graph == AddEdge(g, desc1.name, desc2.name) && desc1.dependsOn == before + [desc2]
      requires desc2 in targets && |g[desc1.name]| == |before|
      requires forall i :: 0 <= i < |before| ==> before[i] in targets && before[i].name == g[desc1.name][i]
      ensures Describes(desc1, targets, graph)
    {
    }

    /** One piece: find both descriptors, reject a cycle, or add the edge. */
    method RecordOne(target: TargetName, piece: string) returns (cycle: bool)
      requires Valid()
      modifies `targets, `graph, Members()
      ensures Valid()
      ensures fresh(Members() - old(Members()))
      ensures var h := Ensure(Ensure(old(graph), target), Named(piece));
              && cycle == Reaches(h, Named(piece), target)
              && graph == if cycle then h else AddEdge(h, target, Named(piece))
    {
      hide Mirrors, Closed, Acyclic, Reaches;
      var desc1 := FindOrAdd(target);
      var desc2 := FindOrAdd(Named(piece));
      cycle := IncludesDependency(desc2, desc1, {});
      if !cycle {
        AddEdgeAcyclic(graph, target, Named(piece));
        AddEdgeClosed(graph, target, Named(piece));
        AddDependency(desc1, desc2);
      }
    }

    /** `RecordDependency`: the dependencies of one `depends` attribute. */
    method RecordDependency(target: TargetName, dependsOn: string) returns (ok: bool)
      requires Valid()
      modifies `targets, `graph, Members()
      ensures Valid() && (graph, ok) == Recorded(old(graph), target, Split(dependsOn))
    {
      hide Valid, Reaches, Recorded, Split, Ensure;
      var pos := 0;
      assert dependsOn[0..] == dependsOn;
      while true
        invariant Valid() && 0 <= pos <= |dependsOn|
        invariant fresh(Members() - old(Members()))
        invariant Recorded(graph, target, Split(dependsOn[pos..])) == Recorded(old(graph), target, Split(dependsOn))
        decreases |dependsOn| - pos
      {
        var comma := NextComma(dependsOn, pos);
        RecordedStep(graph, target, dependsOn, pos, comma);
        ghost var before := Members();
        var cycle := RecordOne(target, dependsOn[pos..comma]);
        assert Members() - old(Members()) <= (Members() - before) + (before - old(Members()));
        if cycle {
          return false;
        }
        if comma == |dependsOn| {
          return true;
        }
        pos := comma + 1;
      }
    }
  }

  /** `strchr` for the next comma, or the end of the string. */
  method NextComma(s: string, pos: nat) returns (comma: nat)
    requires pos <= |s|
    ensures pos <= comma <= |s| && ',' !in s[pos..comma]
    ensures comma < |s| ==> s[comma] == ','
  {
    comma := pos;
    while comma < |s| && s[comma] != ','
      invariant pos <= comma <= |s|
      invariant ',' !in s[pos..comma]
    {
      comma := comma + 1;
    }
  }

  lemma RecordedStep(g: Depends, target: TargetName, s: string, pos: nat, comma: nat)
    requires pos <= comma <= |s| && ',' !in s[pos..comma]
    requires comma < |s| ==> s[comma] == ','
    ensures var p := Named(s[pos..comma]);
            var h := Ensure(Ensure(g, target), p);
            && target in h
            && Recorded(g, target, Split(s[pos..])) ==
              (if Reaches(h, p, target) then (h, false)
               else if comma == |s| then (AddEdge(h, target, p), true)
               else Recorded(AddEdge(h, target, p), target, Split(s[comma + 1..])))
  {
    hide Reaches;
    SplitAt(s, pos, comma);
    var rest := if comma < |s| then Split(s[comma + 1..]) else [];
    assert ([s[pos..comma]] + rest)[1..] == rest;
  }

  lemma AddEdgeClosed(g: Depends, a: TargetName, b: TargetName)
    requires Closed(g) && a in g && b in g
    ensures Closed(AddEdge(g, a, b))
  {
  }

  lemma {:induction false} SplitAt(s: string, pos: nat, comma: nat)
    requires pos <= comma <= |s| && ',' !in s[pos..comma]
    requires comma < |s| ==> s[comma] == ','
    ensures Split(s[pos..]) == [s[pos..comma]] + if comma < |s| then Split(s[comma + 1..]) else []
    decreases comma - pos
  {
    if pos < comma {
      assert s[pos..][1..] == s[pos + 1..] && s[pos..][0] == s[pos];
      assert s[pos..comma] == [s[pos]] + s[pos + 1..comma];
      assert s[pos] in s[pos..comma];
      SplitAt(s, pos + 1, comma);
    } else if comma < |s| {
      assert s[pos..][1..] == s[pos + 1..] && s[pos..][0] == ',';
      assert s[pos..comma] == "";
    } else {
      assert s[pos..] == [] && s[pos..comma] == "";
    }
  }

  lemma Deeper(g: Depends, above: set<TargetName>, a: TargetName, b: TargetName)
    requires a in g && b in g[a]
    requires forall c :: c in above ==> c in g && exists x :: x in g[c] && Reaches(g, x, a)
    ensures forall c :: c in above + {a} ==> exists x :: x in g[c] && Reaches(g, x, b)
  {
    ReachesSelf(g, b);
    forall c | c in above + {a} ensures exists x :: x in g[c] && Reaches(g, x, b) {
      if c != a {
        var x :| x in g[c] && Reaches(g, x, a);
        ReachesUnfold(g, a, b);
        ReachesTransitive(g, x, a, b);
      }
    }
  }
}
