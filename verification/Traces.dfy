/** What a build does, as the sequence of its events, and the discipline that
    every build keeps. */
module Traces {
  import Graphs
  import opened Targets

  /** A target is entered; its `i`th task is started; that task has ended; the
      target is left. */
  datatype Event =
    | Begin(t: TargetName)
    | Start(t: TargetName, i: nat)
    | Done(t: TargetName, i: nat, ok: bool)
    | Leave(t: TargetName)

  type Trace = seq<Event>

  /** An entry of the task table. */
  datatype TaskInfo = TaskInfo(name: string, installMode: bool)

  /** What stays fixed during a build; `outcome` is the result of the `n`th
      task function that is called. */
  datatype Plan = Plan(
    g: Depends, tasks: map<TargetName, seq<Task>>, keepGoing: bool,
    table: seq<TaskInfo>, installMode: bool, outcome: (nat, Task) -> bool)

  function Last(tr: Trace): (r: Event) requires tr != [] { tr[|tr|-1] }
  function Front(tr: Trace): (r: Trace) requires tr != [] { tr[..|tr|-1] }

  /** The number of tasks that failed. */
  function Failures(tr: Trace): (r: nat) {
    if tr == [] then 0
    else Failures(Front(tr)) + if Last(tr).Done? && !Last(tr).ok then 1 else 0
  }

  /** The number of tasks of `t` that were started. */
  function Starts(tr: Trace, t: TargetName): (r: nat) {
    if tr == [] then 0
    else Starts(Front(tr), t) + if Last(tr).Start? && Last(tr).t == t then 1 else 0
  }

  ghost predicate Finished(tr: Trace, t: TargetName, i: nat) {
    Done(t, i, true) in tr || Done(t, i, false) in tr
  }

  /** Every task of `t` has been run to its end. */
  ghost predicate AllFinished(plan: Plan, tr: Trace, t: TargetName) {
    t in plan.tasks ==> forall i :: 0 <= i < |plan.tasks[t]| ==> Finished(tr, t, i)
  }

  /** `d` is a dependency of `t`, direct or not. */
  ghost predicate DependsOn(g: Depends, t: TargetName, d: TargetName) {
    t in g && exists x :: x in g[t] && Graphs.Reaches(g, x, d)
  }

  /** The target has been entered and not left: it is on the recursion stack. */
  ghost predicate Open(tr: Trace, t: TargetName) {
    Begin(t) in tr && Leave(t) !in tr
  }

  /** The dependency is finished, or an open target stands in between. */
  ghost predicate FinishedOrOpen(plan: Plan, tr: Trace, t: TargetName, d: TargetName) {
    AllFinished(plan, tr, d) || exists x :: Open(tr, x) && DependsOn(plan.g, t, x) && Graphs.Reaches(plan.g, x, d)
  }

  /** No `<call>` task occurs, and the dependencies have no cycle. */
  ghost predicate Plain(plan: Plan) {
    && Graphs.Acyclic(plan.g)
    && forall t, i :: t in plan.tasks && 0 <= i < |plan.tasks[t]| ==> plan.tasks[t][i].name != "call"
  }

  /** Whether more work may be done after `tr`. */
  predicate Live(plan: Plan, tr: Trace) {
    plan.keepGoing || Failures(tr) == 0
  }

  /** What an event demands of the events before it. */
  ghost predicate Allowed(plan: Plan, tr: Trace, e: Event) {
    match e
    case Begin(t) => Live(plan, tr) && Begin(t) !in tr
    case Start(t, i) =>
      && Live(plan, tr) && Begin(t) in tr
      && t in plan.tasks && i < |plan.tasks[t]| && Starts(tr, t) == i
      && (forall d :: DependsOn(plan.g, t, d) ==> FinishedOrOpen(plan, tr, t, d))
      && (Plain(plan) ==> forall d :: DependsOn(plan.g, t, d) ==> AllFinished(plan, tr, d))
    case Done(t, i, _) => Start(t, i) in tr
    case Leave(t) => Open(tr, t)
  }

  ghost predicate Good(plan: Plan, tr: Trace) {
    tr != [] ==> Good(plan, Front(tr)) && Allowed(plan, Front(tr), Last(tr))
  }

  lemma Extend(plan: Plan, tr: Trace, e: Event)
    requires Good(plan, tr) && Allowed(plan, tr, e)
    ensures Good(plan, tr + [e])
    ensures Failures(tr + [e]) == Failures(tr) + if e.Done? && !e.ok then 1 else 0
    ensures forall t :: Starts(tr + [e], t) == Starts(tr, t) + if e.Start? && e.t == t then 1 else 0
  {
    assert Front(tr + [e]) == tr && Last(tr + [e]) == e;
  }

  lemma {:induction false} GoodAt(plan: Plan, tr: Trace, k: nat)
    requires Good(plan, tr) && k < |tr|
    ensures Allowed(plan, tr[..k], tr[k])
  {
    if k < |tr| - 1 {
      GoodAt(plan, Front(tr), k);
      assert Front(tr)[..k] == tr[..k];
    }
  }

  /** A target that was not entered has no task started. */
  lemma {:induction false} NotEntered(plan: Plan, tr: Trace, t: TargetName)
    requires Good(plan, tr) && Begin(t) !in tr
    ensures Starts(tr, t) == 0
  {
    if tr != [] {
      NotEntered(plan, Front(tr), t);
      assert forall e :: e in Front(tr) ==> e in tr;
    }
  }

  // ------------------------------------------------- what the discipline means

  /** Each target is entered at most once in a build. */
  lemma EnteredOnce(plan: Plan, tr: Trace, i: nat, j: nat)
    requires Good(plan, tr) && i < j < |tr| && tr[i].Begin? && tr[j].Begin?
    ensures tr[i].t != tr[j].t
  {
    GoodAt(plan, tr, j);
    assert tr[..j][i] == tr[i];
  }

  lemma {:induction false} StartsMonotone(tr: Trace, m: nat, n: nat, t: TargetName)
    requires m <= n <= |tr|
    ensures Starts(tr[..m], t) <= Starts(tr[..n], t)
    ensures (exists k :: m <= k < n && tr[k].Start? && tr[k].t == t) ==> Starts(tr[..m], t) < Starts(tr[..n], t)
  {
    if m < n {
      StartsMonotone(tr, m, n - 1, t);
      assert Front(tr[..n]) == tr[..n - 1] && Last(tr[..n]) == tr[n - 1];
    }
  }

  /** The tasks of a target are started one after the other, each once. */
  lemma StartedInOrder(plan: Plan, tr: Trace, i: nat, j: nat)
    requires Good(plan, tr) && i < j < |tr| && tr[i].Start? && tr[j].Start? && tr[i].t == tr[j].t
    ensures tr[i].i < tr[j].i
  {
    GoodAt(plan, tr, i);
    GoodAt(plan, tr, j);
    StartsMonotone(tr, i, j, tr[i].t);
  }

  lemma {:induction false} FailuresAt(tr: Trace, k: nat)
    requires k < |tr| && tr[k].Done? && !tr[k].ok
    ensures Failures(tr) > 0
  {
    if k < |tr| - 1 {
      FailuresAt(Front(tr), k);
    }
  }

  /** Without keep-going nothing is entered or started after a failure. */
  lemma NothingAfterFailure(plan: Plan, tr: Trace, i: nat, j: nat)
    requires Good(plan, tr) && !plan.keepGoing && i < j < |tr| && tr[i].Done? && !tr[i].ok
    ensures tr[j].Done? || tr[j].Leave?
  {
    GoodAt(plan, tr, j);
    FailuresAt(tr[..j], i);
  }

  /** Without `<call>`, a task starts only after every task of every
      dependency, direct or not, has been run, and in fail-fast mode has
      succeeded. */
  lemma DependenciesFirst(plan: Plan, tr: Trace, k: nat, d: TargetName, i: nat)
    requires Good(plan, tr) && Plain(plan) && k < |tr| && tr[k].Start?
    requires DependsOn(plan.g, tr[k].t, d) && d in plan.tasks && i < |plan.tasks[d]|
    ensures exists m :: 0 <= m < k && tr[m].Done? && tr[m].t == d && tr[m].i == i && (tr[m].ok || plan.keepGoing)
  {
    GoodAt(plan, tr, k);
    assert AllFinished(plan, tr[..k], d);
    WhenFinished(plan, tr, k, d, i);
  }

  /** In every build, with `<call>` tasks and cyclic ones too, a task starts only
      when each dependency has been run, in fail-fast mode successfully, unless
      a target between the two, or that dependency, is itself still being built. */
  lemma DependenciesRunOrOpen(plan: Plan, tr: Trace, k: nat, d: TargetName, i: nat)
    requires Good(plan, tr) && k < |tr| && tr[k].Start?
    requires DependsOn(plan.g, tr[k].t, d) && d in plan.tasks && i < |plan.tasks[d]|
    requires forall x :: Open(tr[..k], x) && DependsOn(plan.g, tr[k].t, x) ==> !Graphs.Reaches(plan.g, x, d)
    ensures exists m :: 0 <= m < k && tr[m].Done? && tr[m].t == d && tr[m].i == i && (tr[m].ok || plan.keepGoing)
  {
    GoodAt(plan, tr, k);
    assert FinishedOrOpen(plan, tr[..k], tr[k].t, d);
    assert AllFinished(plan, tr[..k], d);
    WhenFinished(plan, tr, k, d, i);
  }

  lemma WhenFinished(plan: Plan, tr: Trace, k: nat, d: TargetName, i: nat)
    requires k < |tr| && Live(plan, tr[..k]) && AllFinished(plan, tr[..k], d) && d in plan.tasks && i < |plan.tasks[d]|
    ensures exists m :: 0 <= m < k && tr[m].Done? && tr[m].t == d && tr[m].i == i && (tr[m].ok || plan.keepGoing)
  {
    assert Finished(tr[..k], d, i);
    var ok := Done(d, i, true) in tr[..k];
    var m :| 0 <= m < k && tr[..k][m] == Done(d, i, ok);
    if !ok {
      FailuresAt(tr[..k], m);
    }
    assert tr[m] == Done(d, i, ok);
  }
}
