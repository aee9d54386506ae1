/** What the tasks of a build answer, which task functions it calls, and in
    which order it enters targets. */
module Answers {
  import opened Graphs
  import opened Targets
  import opened Traces

  /** The place of the first entry of that name, or the end of the table. */
  function EntryAt(table: seq<TaskInfo>, name: string): (k: nat)
    ensures k <= |table|
    ensures forall j :: 0 <= j < k ==> table[j].name != name
    ensures k < |table| ==> table[k].name == name
  {
    if table == [] || table[0].name == name then 0 else 1 + EntryAt(table[1..], name)
  }

  predicate Known(plan: Plan, task: Task) {
    EntryAt(plan.table, task.name) < |plan.table|
  }

  /** A task function is called; `<call>` has none, and when installing only
      some are. */
  predicate Runs(plan: Plan, task: Task) {
    task.name != "call" && Known(plan, task) && (plan.installMode ==> plan.table[EntryAt(plan.table, task.name)].installMode)
  }

  /** The task can be carried out at all. */
  predicate Resolves(plan: Plan, task: Task) {
    if task.name == "call" then task.target.Some? && Named(task.target.value) in plan.g else Known(plan, task)
  }

  predicate InPlan(plan: Plan, t: TargetName, i: nat) {
    t in plan.tasks && i < |plan.tasks[t]|
  }

  predicate Called(plan: Plan, e: Event) {
    e.Done? && InPlan(plan, e.t, e.i) && Runs(plan, plan.tasks[e.t][e.i])
  }

  /** The tasks whose functions were called and have returned. */
  function Calls(plan: Plan, tr: Trace): (r: seq<Task>) {
    if tr == [] then []
    else Calls(plan, Front(tr)) + if Called(plan, Last(tr)) then [plan.tasks[Last(tr).t][Last(tr).i]] else []
  }

  /** Nothing has failed since the event. */
  ghost predicate NoFailureSince(tr: Trace, e: Event) {
    forall k :: 0 <= k < |tr| && tr[k] == e ==> Failures(tr[..k]) == Failures(tr)
  }

  /** What a task that is over answers. */
  ghost predicate Succeeds(plan: Plan, tr: Trace, t: TargetName, i: nat)
    requires InPlan(plan, t, i)
  {
    var task := plan.tasks[t][i];
    && Resolves(plan, task)
    && (task.name == "call" ==> NoFailureSince(tr, Start(t, i)))
    && (Runs(plan, task) ==> plan.outcome(|Calls(plan, tr)|, task))
  }

  /** What the end of a task demands of the events before it: its answer, and
      that the target of a `<call>` has been entered. */
  ghost predicate Correct(plan: Plan, tr: Trace, e: Event) {
    e.Done? ==>
      && InPlan(plan, e.t, e.i)
      && (e.ok <==> Succeeds(plan, tr, e.t, e.i))
      && var task := plan.tasks[e.t][e.i];
         (task.name == "call" && Resolves(plan, task) && Live(plan, tr) ==> Begin(Named(task.target.value)) in tr)
  }

  ghost predicate Answered(plan: Plan, tr: Trace) {
    tr != [] ==> Answered(plan, Front(tr)) && Correct(plan, Front(tr), Last(tr))
  }

  lemma AnsweredExtend(plan: Plan, tr: Trace, e: Event)
    requires Answered(plan, tr) && Correct(plan, tr, e)
    ensures Answered(plan, tr + [e])
    ensures Calls(plan, tr + [e]) == Calls(plan, tr) + if Called(plan, e) then [plan.tasks[e.t][e.i]] else []
  {
    assert Front(tr + [e]) == tr && Last(tr + [e]) == e;
  }

  lemma {:induction false} AnsweredAt(plan: Plan, tr: Trace, k: nat)
    requires Answered(plan, tr) && k < |tr|
    ensures Correct(plan, tr[..k], tr[k])
  {
    if k < |tr| - 1 {
      AnsweredAt(plan, Front(tr), k);
      assert Front(tr)[..k] == tr[..k];
    }
  }

  ghost predicate AllSuccessful(plan: Plan, calls: seq<Task>) {
    forall n :: 0 <= n < |calls| ==> plan.outcome(n, calls[n])
  }

  ghost predicate Possible(plan: Plan, e: Event) {
    e.Done? ==> InPlan(plan, e.t, e.i) && Resolves(plan, plan.tasks[e.t][e.i])
  }

  /** Every task function called was successful, and there was nothing that
      could not be carried out. */
  ghost predicate AllWell(plan: Plan, tr: Trace) {
    AllSuccessful(plan, Calls(plan, tr)) && forall e :: e in tr ==> Possible(plan, e)
  }

  lemma OneMoreCall(plan: Plan, calls: seq<Task>, task: Task)
    ensures AllSuccessful(plan, calls + [task]) <==> AllSuccessful(plan, calls) && plan.outcome(|calls|, task)
  {
    var after := calls + [task];
    assert after[|calls|] == task;
    if AllSuccessful(plan, after) {
      assert forall n :: 0 <= n < |calls| ==> after[n] == calls[n];
    }
  }

  lemma AllWellStep(plan: Plan, tr: Trace, e: Event)
    ensures AllWell(plan, tr + [e]) <==>
      && AllWell(plan, tr) && Possible(plan, e)
      && (Called(plan, e) ==> plan.outcome(|Calls(plan, tr)|, plan.tasks[e.t][e.i]))
  {
    hide Resolves, Runs, Possible, AllSuccessful;
    assert Front(tr + [e]) == tr && Last(tr + [e]) == e;
    assert forall f :: f in tr + [e] <==> f in tr || f == e;
    if Called(plan, e) {
      OneMoreCall(plan, Calls(plan, tr), plan.tasks[e.t][e.i]);
    } else {
      assert Calls(plan, tr + [e]) == Calls(plan, tr);
    }
  }

  lemma {:induction false} NoFailureExactly(plan: Plan, tr: Trace)
    requires Answered(plan, tr)
    ensures Failures(tr) == 0 <==> AllWell(plan, tr)
  {
    hide AllWell, Resolves, Runs, NoFailureSince, Calls;
    if tr == [] {
      NothingWell(plan);
    } else {
      var before, e := Front(tr), Last(tr);
      NoFailureExactly(plan, before);
      assert tr == before + [e];
      AllWellStep(plan, before, e);
      if Failures(before) == 0 && e.Done? {
        NeverFailed(before, Start(e.t, e.i));
      }
    }
  }

  lemma NothingWell(plan: Plan)
    ensures AllWell(plan, [])
  {
  }

  lemma {:induction false} FailuresGrow(tr: Trace, k: nat)
    requires k <= |tr|
    ensures Failures(tr[..k]) <= Failures(tr)
  {
    if k == |tr| {
      assert tr[..k] == tr;
    } else {
      FailuresGrow(Front(tr), k);
      assert Front(tr)[..k] == tr[..k];
    }
  }

  lemma NeverFailed(tr: Trace, e: Event)
    requires Failures(tr) == 0
    ensures NoFailureSince(tr, e)
  {
    forall k | 0 <= k < |tr| && tr[k] == e ensures Failures(tr[..k]) == Failures(tr) {
      FailuresGrow(tr, k);
    }
  }

  /** A task is started once, so what has failed since is what has failed after
      that event. */
  lemma SinceStart(plan: Plan, tr0: Trace, tr: Trace, t: TargetName, i: nat)
    requires Good(plan, tr) && tr0 + [Start(t, i)] <= tr
    ensures NoFailureSince(tr, Start(t, i)) <==> Failures(tr) == Failures(tr0)
  {
    var n := |tr0|;
    assert tr[..n] == tr0 && tr[n] == Start(t, i);
    forall k | 0 <= k < |tr| && tr[k] == Start(t, i) ensures k == n {
      if k < n {
        StartedInOrder(plan, tr, k, n);
      } else if n < k {
        StartedInOrder(plan, tr, n, k);
      }
    }
  }

  // -------------------------------------------------- the order of targets

  /** The named targets were entered one after the other: `cuts[k]` events had
      happened when the turn came to the `k`th. */
  ghost predicate InOrder(plan: Plan, tr: Trace, names: seq<TargetName>, cuts: seq<nat>) {
    && |cuts| == |names| + 1 && cuts[|names|] == |tr|
    && forall k :: 0 <= k < |names| ==> Turn(plan, tr, names[k], cuts[k], cuts[k + 1])
  }

  /** The target was then entered and left, unless it had been entered before or
      does not exist. */
  ghost predicate Turn(plan: Plan, tr: Trace, name: TargetName, from: nat, to: nat) {
    && from <= to <= |tr|
    && if Begin(name) in tr[..from] || name !in plan.g then to == from
       else from < to && tr[from] == Begin(name) && tr[to - 1] == Leave(name)
  }

  lemma TurnKept(plan: Plan, tr: Trace, tr': Trace, name: TargetName, from: nat, to: nat)
    requires Turn(plan, tr, name, from, to) && tr <= tr'
    ensures Turn(plan, tr', name, from, to)
  {
    assert tr'[..from] == tr[..from];
  }

  lemma FirstTurn(plan: Plan, tr: Trace)
    ensures InOrder(plan, tr, [], [|tr|])
  {
  }

  /** From entering to leaving. */
  lemma TurnOver(plan: Plan, tr0: Trace, tr: Trace, name: TargetName)
    requires tr0 + [Begin(name)] <= tr && Begin(name) !in tr0 && name in plan.g
    ensures Turn(plan, tr + [Leave(name)], name, |tr0|, |tr| + 1)
  {
    assert (tr + [Leave(name)])[..|tr0|] == tr0;
    assert tr[|tr0|] == Begin(name);
  }

  lemma NextTurn(plan: Plan, tr: Trace, tr': Trace, names: seq<TargetName>, cuts: seq<nat>, name: TargetName)
    requires InOrder(plan, tr, names, cuts) && tr <= tr' && Turn(plan, tr', name, |tr|, |tr'|)
    ensures InOrder(plan, tr', names + [name], cuts + [|tr'|])
  {
    hide Turn;
    forall k | 0 <= k < |names| ensures Turn(plan, tr', names[k], cuts[k], cuts[k + 1]) {
      TurnKept(plan, tr, tr', names[k], cuts[k], cuts[k + 1]);
    }
  }

  // ------------------------------------------------ which targets are entered

  /** The targets of the `<call>` tasks. */
  function CallTargets(tasks: seq<Task>): (r: seq<TargetName>)
    ensures forall i :: 0 <= i < |tasks| && tasks[i].name == "call" && tasks[i].target.Some? ==> Named(tasks[i].target.value) in r
  {
    if tasks == [] then []
    else
      (if tasks[0].name == "call" && tasks[0].target.Some? then [Named(tasks[0].target.value)] else []) + CallTargets(tasks[1..])
  }

  lemma {:induction false} CallTargetsFrom(tasks: seq<Task>, t: TargetName) returns (i: nat)
    requires t in CallTargets(tasks)
    ensures i < |tasks| && tasks[i].name == "call" && tasks[i].target.Some? && t == Named(tasks[i].target.value)
  {
    if t in CallTargets(tasks[1..]) {
      var k := CallTargetsFrom(tasks[1..], t);
      i := k + 1;
    } else {
      i := 0;
    }
  }

  /** Dependencies and calls. */
  function Links(plan: Plan): (r: Depends) {
    map t | t in plan.g :: plan.g[t] + if t in plan.tasks then CallTargets(plan.tasks[t]) else []
  }

  /** Whatever was newly entered is reached from `name`. */
  ghost predicate EnteredFrom(plan: Plan, name: TargetName, before: set<TargetName>, after: set<TargetName>) {
    forall t :: t in after && t !in before ==> Reaches(Links(plan), name, t)
  }

  lemma EnteredNone(plan: Plan, name: TargetName, b: set<TargetName>)
    ensures EnteredFrom(plan, name, b, b)
  {
  }

  lemma EnteredSelf(plan: Plan, name: TargetName, b: set<TargetName>)
    ensures EnteredFrom(plan, name, b, b + {name})
  {
    ReachesSelf(Links(plan), name);
  }

  lemma EnteredJoin(plan: Plan, name: TargetName, b0: set<TargetName>, b1: set<TargetName>, b2: set<TargetName>)
    requires EnteredFrom(plan, name, b0, b1) && EnteredFrom(plan, name, b1, b2)
    ensures EnteredFrom(plan, name, b0, b2)
  {
  }

  lemma LinksTo(plan: Plan, t: TargetName, i: nat)
    requires t in plan.g
    ensures t in Links(plan) && (i < |plan.g[t]| ==> plan.g[t][i] in Links(plan)[t])
    ensures InPlan(plan, t, i) && plan.tasks[t][i].name == "call" && plan.tasks[t][i].target.Some? ==>
      Named(plan.tasks[t][i].target.value) in Links(plan)[t]
  {
  }

  lemma EnteredThrough(plan: Plan, name: TargetName, next: TargetName, b0: set<TargetName>, b1: set<TargetName>, b2: set<TargetName>)
    requires EnteredFrom(plan, name, b0, b1) && EnteredFrom(plan, next, b1, b2)
    requires name in Links(plan) && next in Links(plan)[name]
    ensures EnteredFrom(plan, name, b0, b2)
  {
    forall t | t in b2 && t !in b0 ensures Reaches(Links(plan), name, t) {
      if t !in b1 {
        ReachesUnfold(Links(plan), name, t);
      }
    }
  }

  /** The roots were entered in order, and whatever was entered is reached from
      one of them. */
  ghost predicate FollowsRoots(plan: Plan, tr: Trace, built: set<TargetName>, roots: seq<TargetName>, cuts: seq<nat>) {
    && InOrder(plan, tr, roots, cuts) && cuts[0] == 0
    && forall t :: t in built ==> exists n :: n in roots && Reaches(Links(plan), n, t)
  }

  /** Whatever is reached from a root has been entered, and all its tasks have
      been run. */
  ghost predicate ReachedAreDone(plan: Plan, tr: Trace, built: set<TargetName>, roots: seq<TargetName>) {
    forall n, t :: n in roots && n in plan.g && Reaches(Links(plan), n, t) ==> t in built && AllFinished(plan, tr, t)
  }

  /** Without failures, a set of finished targets that has their dependencies
      has all that is reached through calls, too. */
  lemma {:induction false} AllEntered(plan: Plan, tr: Trace, built: set<TargetName>, t: TargetName, d: TargetName, n: nat)
    requires Answered(plan, tr) && Failures(tr) == 0
    requires forall e :: Begin(e) in tr <==> e in built
    requires forall e :: e in built ==> AllFinished(plan, tr, e) && e in plan.g && forall x :: x in plan.g[e] ==> x in built
    requires t in built && ReachesIn(Links(plan), t, d, n)
    ensures d in built
    decreases n
  {
    if n > 0 {
      var x :| x in Links(plan)[t] && ReachesIn(Links(plan), x, d, n - 1);
      if x !in plan.g[t] {
        var i := CallTargetsFrom(plan.tasks[t], x);
        assert Finished(tr, t, i);
        CallEntered(plan, tr, t, i);
      }
      AllEntered(plan, tr, built, x, d, n - 1);
    }
  }

  /** In particular all direct and indirect dependencies. */
  lemma DependenciesAreDone(plan: Plan, tr: Trace, built: set<TargetName>, roots: seq<TargetName>, t: TargetName, d: TargetName)
    requires ReachedAreDone(plan, tr, built, roots) && t in roots && t in plan.g && Reaches(plan.g, t, d)
    ensures d in built && AllFinished(plan, tr, d)
  {
    var n: nat :| ReachesIn(plan.g, t, d, n);
    assert Extends(Links(plan), plan.g);
    ExtendsReaches(Links(plan), plan.g, t, d, n);
  }

  lemma CallEntered(plan: Plan, tr: Trace, t: TargetName, i: nat)
    requires Answered(plan, tr) && Failures(tr) == 0 && Finished(tr, t, i) && InPlan(plan, t, i)
    requires plan.tasks[t][i].name == "call" && plan.tasks[t][i].target.Some?
    ensures Begin(Named(plan.tasks[t][i].target.value)) in tr
  {
    var e := if Done(t, i, true) in tr then Done(t, i, true) else Done(t, i, false);
    assert e in tr;
    var k :| 0 <= k < |tr| && tr[k] == e;
    AnsweredAt(plan, tr, k);
    NoFailureExactly(plan, tr);
    FailuresGrow(tr, k);
  }
}
