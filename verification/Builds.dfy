/** The build engine: targets are built depth first, each at most once. */
module Builds {
  import opened Graphs
  import opened Options
  import opened Targets
  import opened Traces
  import opened Answers

  /** Outside the targets being built, whatever has been entered is done, and
      so is everything it depends on. */
  ghost predicate Settled(plan: Plan, tr: Trace, built: set<TargetName>, stack: set<TargetName>) {
    forall d :: d in built && d !in stack ==>
      && AllFinished(plan, tr, d)
      && d in plan.g && (forall e :: e in plan.g[d] ==> e in built && e !in stack)
  }

  lemma {:induction false} SettledBelow(plan: Plan, tr: Trace, built: set<TargetName>, stack: set<TargetName>, d: TargetName, e: TargetName, n: nat)
    requires Settled(plan, tr, built, stack) && d in built && d !in stack && ReachesIn(plan.g, d, e, n)
    ensures e in built && e !in stack && AllFinished(plan, tr, e)
    decreases n
  {
    if n > 0 {
      var x :| x in plan.g[d] && ReachesIn(plan.g, x, e, n - 1);
      SettledBelow(plan, tr, built, stack, x, e, n - 1);
    }
  }

  /** When all direct dependencies are settled, so are the indirect ones. */
  lemma ReadyToStart(plan: Plan, tr: Trace, built: set<TargetName>, stack: set<TargetName>, t: TargetName)
    requires Settled(plan, tr, built, stack) && t in plan.g
    requires forall x :: x in plan.g[t] ==> x in built && x !in stack
    ensures forall d :: DependsOn(plan.g, t, d) ==> AllFinished(plan, tr, d)
  {
    forall d | DependsOn(plan.g, t, d) ensures AllFinished(plan, tr, d) {
      var x :| x in plan.g[t] && Reaches(plan.g, x, d);
      var n: nat :| ReachesIn(plan.g, x, d, n);
      SettledBelow(plan, tr, built, stack, x, d, n);
    }
  }

  /** More events do not unsettle anything. */
  lemma SettledGrows(plan: Plan, tr: Trace, tr': Trace, built: set<TargetName>, stack: set<TargetName>)
    requires Settled(plan, tr, built, stack) && tr <= tr'
    ensures Settled(plan, tr', built, stack)
  {
    assert forall e :: e in tr ==> e in tr';
    forall d | d in built && d !in stack ensures AllFinished(plan, tr', d) {
      assert AllFinished(plan, tr, d);
      assert forall i :: Finished(tr, d, i) ==> Finished(tr', d, i);
    }
  }

  /** The same for every build: what has been entered and left is done, and what
      it depends on has been entered. */
  ghost predicate Accounted(plan: Plan, tr: Trace, built: set<TargetName>, stack: set<TargetName>) {
    forall d :: d in built && d !in stack ==>
      AllFinished(plan, tr, d) && d in plan.g && forall e :: e in plan.g[d] ==> e in built
  }

  /** The stack is the set of open targets. */
  ghost predicate OnStack(tr: Trace, stack: set<TargetName>) {
    forall t :: Open(tr, t) <==> t in stack
  }

  lemma {:induction false} AccountedBelow(plan: Plan, tr: Trace, built: set<TargetName>, stack: set<TargetName>, t: TargetName, d: TargetName, e: TargetName, n: nat)
    requires Accounted(plan, tr, built, stack) && OnStack(tr, stack)
    requires d in built && DependsOn(plan.g, t, d) && ReachesIn(plan.g, d, e, n)
    ensures FinishedOrOpen(plan, tr, t, e)
    decreases n
  {
    if d in stack {
      assert Reaches(plan.g, d, e);
      assert Open(tr, d);
    } else if n > 0 {
      var y :| y in plan.g[d] && ReachesIn(plan.g, y, e, n - 1);
      Further(plan.g, t, d, y);
      AccountedBelow(plan, tr, built, stack, t, y, e, n - 1);
    }
  }

  lemma Further(g: Depends, t: TargetName, d: TargetName, y: TargetName)
    requires DependsOn(g, t, d) && d in g && y in g[d]
    ensures DependsOn(g, t, y)
  {
    var x :| x in g[t] && Reaches(g, x, d);
    ReachesSelf(g, y);
    ReachesUnfold(g, d, y);
    ReachesTransitive(g, x, d, y);
  }

  /** When the direct dependencies have been entered, each dependency is finished
      or behind an open target. */
  lemma OpenOrFinished(plan: Plan, tr: Trace, built: set<TargetName>, stack: set<TargetName>, t: TargetName)
    requires Accounted(plan, tr, built, stack) && OnStack(tr, stack) && t in plan.g
    requires forall x :: x in plan.g[t] ==> x in built
    ensures forall d :: DependsOn(plan.g, t, d) ==> FinishedOrOpen(plan, tr, t, d)
  {
    forall d | DependsOn(plan.g, t, d) ensures FinishedOrOpen(plan, tr, t, d) {
      var x :| x in plan.g[t] && Reaches(plan.g, x, d);
      ReachesSelf(plan.g, x);
      var n: nat :| ReachesIn(plan.g, x, d, n);
      assert DependsOn(plan.g, t, x);
      AccountedBelow(plan, tr, built, stack, t, x, d, n);
    }
  }

  lemma AccountedGrows(plan: Plan, tr: Trace, e: Event, built: set<TargetName>, stack: set<TargetName>)
    requires Accounted(plan, tr, built, stack) && !e.Begin? && !e.Leave? && OnStack(tr, stack)
    ensures Accounted(plan, tr + [e], built, stack) && OnStack(tr + [e], stack)
  {
    StillFinished(plan, tr, e);
    assert forall t :: Open(tr + [e], t) <==> Open(tr, t);
  }

  lemma StillFinished(plan: Plan, tr: Trace, e: Event)
    ensures forall d :: AllFinished(plan, tr, d) ==> AllFinished(plan, tr + [e], d)
    ensures forall d, i :: Finished(tr, d, i) ==> Finished(tr + [e], d, i)
  {
    assert forall f :: f in tr ==> f in tr + [e];
    forall d | AllFinished(plan, tr, d) ensures AllFinished(plan, tr + [e], d) {
      assert forall i :: Finished(tr, d, i) ==> Finished(tr + [e], d, i);
    }
  }

  /** Entering a target puts it on the stack. */
  lemma AccountedEnter(plan: Plan, tr: Trace, built: set<TargetName>, stack: set<TargetName>, t: TargetName)
    requires Accounted(plan, tr, built, stack) && OnStack(tr, stack) && Begin(t) !in tr && Good(plan, tr)
    ensures Accounted(plan, tr + [Begin(t)], built + {t}, stack + {t}) && OnStack(tr + [Begin(t)], stack + {t})
    ensures t !in stack
  {
    StillFinished(plan, tr, Begin(t));
    NotLeft(plan, tr, t);
    assert forall u :: Open(tr + [Begin(t)], u) <==> Open(tr, u) || u == t;
  }

  lemma {:induction false} NotLeft(plan: Plan, tr: Trace, t: TargetName)
    requires Good(plan, tr) && Begin(t) !in tr
    ensures Leave(t) !in tr
  {
    if tr != [] {
      assert forall e :: e in Front(tr) ==> e in tr;
      NotLeft(plan, Front(tr), t);
      assert tr == Front(tr) + [Last(tr)];
    }
  }

  /** Leaving a target takes it off. */
  lemma AccountedLeave(plan: Plan, tr: Trace, built: set<TargetName>, stack: set<TargetName>, t: TargetName)
    requires OnStack(tr, stack + {t}) && t !in stack
    ensures OnStack(tr + [Leave(t)], stack)
    ensures
      (Accounted(plan, tr, built, stack + {t}) && AllFinished(plan, tr, t) && t in plan.g && forall e :: e in plan.g[t] ==> e in built)
      ==> Accounted(plan, tr + [Leave(t)], built, stack)
    ensures AllFinished(plan, tr, t) ==> AllFinished(plan, tr + [Leave(t)], t)
    ensures Settled(plan, tr, built, stack) ==> Settled(plan, tr + [Leave(t)], built, stack)
  {
    StillFinished(plan, tr, Leave(t));
    assert forall u :: Open(tr + [Leave(t)], u) <==> Open(tr, u) && u != t;
    if Settled(plan, tr, built, stack) {
      SettledGrows(plan, tr, tr + [Leave(t)], built, stack);
    }
  }

  /** The callers' targets all lead to the one being built, so it is not among
      them. */
  ghost predicate StackLeadsTo(plan: Plan, stack: set<TargetName>, t: TargetName) {
    forall a :: a in stack ==> DependsOn(plan.g, a, t)
  }

  lemma NotOnStack(plan: Plan, stack: set<TargetName>, t: TargetName)
    requires Acyclic(plan.g) && StackLeadsTo(plan, stack, t)
    ensures t !in stack
  {
  }

  lemma StackGrows(plan: Plan, stack: set<TargetName>, t: TargetName, d: TargetName)
    requires StackLeadsTo(plan, stack, t) && t in plan.g && d in plan.g[t]
    ensures StackLeadsTo(plan, stack + {t}, d)
  {
    ReachesSelf(plan.g, d);
    forall a | a in stack + {t} ensures DependsOn(plan.g, a, d) {
      if a != t {
        var x :| x in plan.g[a] && Reaches(plan.g, x, t);
        ReachesUnfold(plan.g, t, d);
        ReachesTransitive(plan.g, x, t, d);
      }
    }
  }

  /** Events and entered targets are only added; no further task of a target
      entered before is started, except of `self`. */
  ghost predicate Grows(tr: Trace, tr': Trace, built: set<TargetName>, built': set<TargetName>, self: set<TargetName>) {
    && tr <= tr' && built <= built' && Failures(tr) <= Failures(tr')
    && forall t :: t in built && t !in self ==> Starts(tr', t) == Starts(tr, t)
  }

  lemma GrowsTransitive(tr: Trace, tr1: Trace, tr2: Trace, b: set<TargetName>, b1: set<TargetName>, b2: set<TargetName>, self: set<TargetName>)
    requires Grows(tr, tr1, b, b1, self) && Grows(tr1, tr2, b1, b2, self)
    ensures Grows(tr, tr2, b, b2, self)
    ensures b <= b1 <= b2 && Failures(tr) <= Failures(tr1) <= Failures(tr2)
  {
  }

  lemma GrowsPrefix(tr: Trace, tr': Trace, b: set<TargetName>, b': set<TargetName>, self: set<TargetName>)
    requires Grows(tr, tr', b, b', self)
    ensures tr <= tr' && b <= b'
  {
  }

  lemma GrowsWider(tr: Trace, tr1: Trace, b: set<TargetName>, b1: set<TargetName>, self: set<TargetName>)
    requires Grows(tr, tr1, b, b1, {})
    ensures Grows(tr, tr1, b, b1, self)
  {
  }

  class Builder {
    const project: Project
    const keepGoing: bool
    const installMode: bool
    const table: seq<TaskInfo>
    /** The result of the `n`th task function that is called. */
    const outcome: (nat, Task) -> bool
    var calls: nat
    ghost const plan: Plan
    ghost var trace: Trace
    ghost var built: set<TargetName>

    constructor (project: Project, keepGoing: bool, installMode: bool, table: seq<TaskInfo>, outcome: (nat, Task) -> bool, ghost plan: Plan)
      ensures this.project == project && this.keepGoing == keepGoing && this.plan == plan
      ensures trace == [] && built == {}
    {
      this.project, this.keepGoing, this.installMode, this.table, this.outcome := project, keepGoing, installMode, table, outcome;
      this.plan := plan;
      calls, trace, built := 0, [], {};
    }

    /** The plan is what the project says, and `built` what the flags say. */
    ghost predicate Ready()
      reads `built, project, project.targets
    {
      && project.Mirrors() && project.graph == plan.g && plan.keepGoing == keepGoing
      && plan.table == table && plan.installMode == installMode && plan.outcome == outcome
      && plan.tasks.Keys == plan.g.Keys && built <= plan.g.Keys
      && Closed(plan.g)
      && forall t :: t in project.targets ==> t.name in plan.tasks && plan.tasks[t.name] == t.tasks && (t.built <==> t.name in built)
    }

    /** Ready, and what has happened so far is in order. */
    ghost predicate Valid()
      reads `built, `trace, project, project.targets
    {
      && Ready() && Good(plan, trace) && Answered(plan, trace)
      && forall t :: Begin(t) in trace <==> t in built
    }

    /** `calls` is the number of task functions called. */
    ghost predicate Counted()
      reads `calls, `trace
    {
      calls == |Calls(plan, trace)|
    }

    /** Records an event other than entering a target. */
    ghost method Log(e: Event)
      requires Valid() && Allowed(plan, trace, e) && Correct(plan, trace, e) && !e.Begin?
      modifies `trace
      ensures Valid() && trace == old(trace) + [e]
      ensures Failures(trace) == Failures(old(trace)) + if e.Done? && !e.ok then 1 else 0
      ensures forall t :: Starts(trace, t) == Starts(old(trace), t) + if e.Start? && e.t == t then 1 else 0
      ensures |Calls(plan, trace)| == |Calls(plan, old(trace))| + if Called(plan, e) then 1 else 0
    {
      hide Ready, Allowed, Correct, Called;
      Extend(plan, trace, e);
      AnsweredExtend(plan, trace, e);
      trace := trace + [e];
    }

    /** `target->built = 1`. */
    method Enter(target: Target)
      requires Valid() && Live(plan, trace) && target in project.targets && !target.built
      requires Counted()
      modifies `trace, `built, target`built
      ensures Counted()
      ensures Valid() && target.name !in old(built) && built == old(built) + {target.name} && target.name in plan.g
      ensures trace == old(trace) + [Begin(target.name)]
      ensures Failures(trace) == Failures(old(trace))
      ensures forall t :: Starts(trace, t) == Starts(old(trace), t)
    {
      hide Good, Answered, Succeeds, Calls, Closed, Failures, Starts, Runs;
      EnterFacts(target);
      Extend(plan, trace, Begin(target.name));
      AnsweredExtend(plan, trace, Begin(target.name));
      trace := trace + [Begin(target.name)];
      built := built + {target.name};
      target.built := true;
    }

    lemma EnterFacts(target: Target)
      requires Ready() && target in project.targets
      ensures target.name in plan.g
      ensures forall t :: t in project.targets && t != target ==> t.name != target.name
    {
      assert Describes(target, project.targets, project.graph);
      forall t | t in project.targets && t != target ensures t.name != target.name {
        if t.name == target.name {
          project.SameTarget(t, target);
        }
      }
    }

    /** `ProcessTask`: `<call>` enters its target and answers for what happens
        there; for any other task the first table entry of its name decides. */
    method ProcessTask(task: Task, ghost stack: set<TargetName>) returns (ok: bool)
      requires Valid() && Live(plan, trace) && Counted()
      requires OnStack(trace, stack) && Accounted(plan, trace, built, stack)
      requires task.name == "call" ==> !Plain(plan)
      modifies `calls, `trace, `built, project.Members()`built
      ensures Valid() && Grows(old(trace), trace, old(built), built, {})
      ensures ok ==> Failures(trace) == Failures(old(trace))
      ensures task.name == "call" ==>
        && Counted() && (ok <==> Resolves(plan, task) && Failures(trace) == Failures(old(trace)))
        && (Resolves(plan, task) && Live(plan, trace) ==> Named(task.target.value) in built)
      ensures task.name != "call" ==>
        && trace == old(trace) && built == old(built)
        && if Runs(plan, task) then calls == old(calls) + 1 && ok == outcome(old(calls), task)
           else calls == old(calls) && ok == Known(plan, task)
      ensures built != old(built) ==>
        task.name == "call" && task.target.Some? && EnteredFrom(plan, Named(task.target.value), old(built), built)
      ensures OnStack(trace, stack) && (Live(plan, trace) ==> Accounted(plan, trace, built, stack))
      decreases plan.g.Keys - built, 1
    {
      hide Valid, Failures, Starts, Plain, OnStack, Accounted, Calls, EnteredFrom, Turn;
      PlanFacts();
      if task.name == "call" {
        if task.target.None? {
          return false;
        }
        ok := BuildTarget(Named(task.target.value), null, stack);
        return;
      }
      var posn := 0;
      while posn < |table|
        invariant Valid() && trace == old(trace) && built == old(built) && calls == old(calls)
        invariant posn <= EntryAt(table, task.name)
      {
        if table[posn].name == task.name {
          if !installMode || table[posn].installMode {
            ok := outcome(calls, task);
            calls := calls + 1;
            return;
          } else {
            return true;
          }
        }
        posn := posn + 1;
      }
      return false;
    }

    lemma PlanFacts()
      requires Valid()
      ensures plan.table == table && plan.installMode == installMode && plan.outcome == outcome && plan.keepGoing == keepGoing
    {
    }

    /** `BuildTarget`: zero (false) exactly when something failed during the
        call, or the target does not exist. */
    method BuildTarget(name: TargetName, target0: Target?, ghost stack: set<TargetName>) returns (r: bool)
      requires Valid() && Live(plan, trace) && Counted()
      requires target0 != null ==> target0 in project.targets && target0.name == name
      requires OnStack(trace, stack) && Accounted(plan, trace, built, stack)
      requires Plain(plan) ==> Settled(plan, trace, built, stack) && StackLeadsTo(plan, stack, name)
      modifies `calls, `trace, `built, project.Members()`built
      ensures Valid() && Grows(old(trace), trace, old(built), built, {})
      ensures OnStack(trace, stack) && (Live(plan, trace) ==> Accounted(plan, trace, built, stack))
      ensures r <==> (name in plan.g || name.Global?) && Failures(trace) == Failures(old(trace))
      ensures Counted() && Turn(plan, trace, name, |old(trace)|, |trace|) && EnteredFrom(plan, name, old(built), built)
      ensures name in plan.g && Live(plan, trace) ==> name in built
      ensures name in plan.g && Live(plan, trace) && name !in old(built) ==> AllFinished(plan, trace, name)
      ensures Plain(plan) && Live(plan, trace) ==> Settled(plan, trace, built, stack)
      decreases plan.g.Keys - built, 0
    {
      hide Valid, Failures, Starts, Plain, Settled, StackLeadsTo, AllFinished, Grows, OnStack, Accounted, Calls, Turn, EnteredFrom;
      var target := target0;
      NotEnteredYet(name);
      if target == null {
        target := FindTarget(name);
        if target == null {
          GrowsSelf();
          return name.Global?;
        }
      }
      TargetFacts(target);
      if target.built {
        GrowsSelf();
        return true;
      }
      Entering(stack, name);
      Enter(target);
      ghost var tr, b := trace, built;
      EnteredSelf(plan, name, old(built));
      var success, error, cuts := BuildDependencies(target, stack);
      GrowsWider(tr, trace, b, built, {name});
      if !error {
        StillNone(target, tr, b);
        ghost var tr1, b1 := trace, built;
        success, error := RunTasks(target, success, stack);
        EnteredJoin(plan, name, b, b1, built);
        GrowsTransitive(tr, tr1, trace, b, b1, built, {name});
      }
      Finishing(old(trace), tr, old(built), b, name);
      EnteredJoin(plan, name, old(built), b, built);
      ghost var tr2 := trace;
      Left(name, stack, old(trace), old(built));
      TurnOver(plan, old(trace), tr2, name);
      if error {
        return false;
      } else {
        return success;
      }
    }

    /** Records that a target is left. */
    ghost method Left(name: TargetName, stack: set<TargetName>, tr0: Trace, built0: set<TargetName>)
      requires Valid() && OnStack(trace, stack + {name}) && name !in stack
      requires Grows(tr0, trace, built0, built, {})
      modifies `trace
      ensures Valid() && OnStack(trace, stack) && Grows(tr0, trace, built0, built, {})
      ensures Failures(trace) == Failures(old(trace)) && |Calls(plan, trace)| == |Calls(plan, old(trace))|
      ensures trace == old(trace) + [Leave(name)]
      ensures
        (Accounted(plan, old(trace), built, stack + {name}) && AllFinished(plan, old(trace), name) && name in plan.g
         && forall e :: e in plan.g[name] ==> e in built)
        ==> Accounted(plan, trace, built, stack)
      ensures AllFinished(plan, old(trace), name) ==> AllFinished(plan, trace, name)
      ensures Settled(plan, old(trace), built, stack) ==> Settled(plan, trace, built, stack)
    {
      hide Valid, Accounted, AllFinished, Settled, Failures, Starts;
      ghost var tr := trace;
      AccountedLeave(plan, trace, built, stack, name);
      assert Open(trace, name);
      Log(Leave(name));
      GrowsTransitive(tr0, tr, trace, built0, built, built, {});
    }

    lemma GrowsSelf()
      ensures Grows(trace, trace, built, built, {})
    {
    }

    lemma NotEnteredYet(name: TargetName)
      requires Valid()
      ensures Begin(name) in trace <==> name in built
      ensures name in built || name !in plan.g ==> Turn(plan, trace, name, |trace|, |trace|)
      ensures EnteredFrom(plan, name, built, built)
    {
    }

    method FindTarget(name: TargetName) returns (target: Target?)
      requires Valid()
      ensures target == null <==> name !in plan.g
      ensures target != null ==> target in project.targets && target.name == name
    {
      target := project.Find(name);
    }

    lemma TargetFacts(target: Target)
      requires Valid() && target in project.targets
      ensures target.name in plan.g && (target.built <==> target.name in built)
      ensures target.name !in built ==> Starts(trace, target.name) == 0
    {
      EnterFacts(target);
      if target.name !in built {
        NotEntered(plan, trace, target.name);
      }
    }

    lemma StillNone(target: Target, tr: Trace, b: set<TargetName>)
      requires Grows(tr, trace, b, built, {}) && target.name in b && Starts(tr, target.name) == 0 && Begin(target.name) in tr
      ensures Starts(trace, target.name) == 0 && Begin(target.name) in trace && target.name in built
      ensures b <= built
    {
    }

    lemma Finishing(tr0: Trace, tr: Trace, b0: set<TargetName>, b: set<TargetName>, name: TargetName)
      requires name !in b0 && b == b0 + {name} && tr == tr0 + [Begin(name)]
      requires Failures(tr) == Failures(tr0) && forall t :: Starts(tr, t) == Starts(tr0, t)
      requires Grows(tr, trace, b, built, {name})
      ensures Grows(tr0, trace, b0, built, {}) && name in built
      ensures Failures(trace) >= Failures(tr0) && tr <= trace
    {
    }

    /** The target being entered joins the stack. */
    lemma Entering(stack: set<TargetName>, name: TargetName)
      requires name !in built
      requires Valid() && OnStack(trace, stack) && Accounted(plan, trace, built, stack)
      requires Plain(plan) ==> Settled(plan, trace, built, stack) && StackLeadsTo(plan, stack, name)
      ensures name !in stack && OnStack(trace + [Begin(name)], stack + {name})
      ensures Accounted(plan, trace + [Begin(name)], built + {name}, stack + {name})
      ensures Plain(plan) ==> Settled(plan, trace + [Begin(name)], built + {name}, stack + {name})
    {
      hide Ready;
      AccountedEnter(plan, trace, built, stack, name);
      if Plain(plan) {
        NotOnStack(plan, stack, name);
        SettledGrows(plan, trace, trace + [Begin(name)], built, stack);
      }
    }

    /** The first loop of `BuildTarget`. */
    method BuildDependencies(target: Target, ghost stack: set<TargetName>) returns (success: bool, error: bool, ghost cuts: seq<nat>)
      requires Valid() && Live(plan, trace) && Counted() && target in project.targets && target.name in built && target.name in plan.g
      requires OnStack(trace, stack + {target.name}) && Accounted(plan, trace, built, stack + {target.name})
      requires Plain(plan) ==>
        Settled(plan, trace, built, stack + {target.name}) && StackLeadsTo(plan, stack, target.name)
      modifies `calls, `trace, `built, project.Members()`built
      ensures Valid() && Grows(old(trace), trace, old(built), built, {})
      ensures success && !error <==> Failures(trace) == Failures(old(trace))
      ensures !error <==> Live(plan, trace)
      ensures Counted() && EnteredFrom(plan, target.name, old(built), built)
      ensures 0 < |cuts| <= |plan.g[target.name]| + 1 && (!error ==> |cuts| == |plan.g[target.name]| + 1)
      ensures cuts[0] == |old(trace)| && InOrder(plan, trace, plan.g[target.name][..|cuts|-1], cuts)
      ensures OnStack(trace, stack + {target.name})
      ensures !error ==>
        && Accounted(plan, trace, built, stack + {target.name})
        && forall x :: x in plan.g[target.name] ==> x in built
      ensures Plain(plan) && !error ==>
        && Settled(plan, trace, built, stack + {target.name})
        && forall x :: x in plan.g[target.name] ==> x in built && x !in stack + {target.name}
      decreases plan.g.Keys - built, 2
    {
      hide Valid, Failures, Starts, Plain, Settled, StackLeadsTo, AllFinished, Grows, OnStack, Accounted, Calls, Turn, EnteredFrom, InOrder, Links;
      success, error, cuts := true, false, [|trace|];
      FirstTurn(plan, trace);
      EnteredNone(plan, target.name, built);
      ghost var name := target.name;
      GrowsSelf();
      DependencyFacts(target);
      var posn := 0;
      while !error && posn < |target.dependsOn|
        invariant posn <= |target.dependsOn| && Valid() && Grows(old(trace), trace, old(built), built, {})
        invariant Counted() && EnteredFrom(plan, name, old(built), built)
        invariant |cuts| == posn + 1 && cuts[0] == |old(trace)| && InOrder(plan, trace, plan.g[name][..posn], cuts)
        invariant old(built) <= built && Failures(old(trace)) <= Failures(trace)
        invariant success && !error <==> Failures(trace) == Failures(old(trace))
        invariant !error <==> Live(plan, trace)
        invariant OnStack(trace, stack + {name})
        invariant !error ==>
          && Accounted(plan, trace, built, stack + {name})
          && forall j :: 0 <= j < posn ==> plan.g[name][j] in built
        invariant Plain(plan) && !error ==>
          && Settled(plan, trace, built, stack + {name})
          && forall j :: 0 <= j < posn ==> plan.g[name][j] in built && plan.g[name][j] !in stack + {name}
      {
        ghost var tr, b := trace, built;
        var next := target.dependsOn[posn];
        NextOnStack(stack, name, next.name);
        var ok := BuildTarget(next.name, next, stack + {name});
        GrowsTransitive(old(trace), tr, trace, old(built), b, built, {});
        LinksTo(plan, name, posn);
        EnteredThrough(plan, name, next.name, old(built), b, built);
        GrowsPrefix(tr, trace, b, built, {});
        NextTurn(plan, tr, trace, plan.g[name][..posn], cuts, next.name);
        assert plan.g[name][..posn + 1] == plan.g[name][..posn] + [next.name];
        cuts := cuts + [|trace|];
        if !ok {
          if keepGoing {
            success := false;
          } else {
            error := true;
          }
        }
        posn := posn + 1;
      }
    }

    lemma DependencyFacts(target: Target)
      requires Valid() && target in project.targets
      ensures plan.keepGoing == keepGoing
      ensures target.name in plan.g && |plan.g[target.name]| == |target.dependsOn|
      ensures forall j :: 0 <= j < |target.dependsOn| ==>
        target.dependsOn[j] in project.targets && target.dependsOn[j].name == plan.g[target.name][j] && plan.g[target.name][j] in plan.g
    {
      project.DependsAt(target, 0);
    }

    lemma NextOnStack(stack: set<TargetName>, name: TargetName, next: TargetName)
      requires name in plan.g && next in plan.g[name]
      requires Plain(plan) ==> StackLeadsTo(plan, stack, name)
      ensures Plain(plan) ==> StackLeadsTo(plan, stack + {name}, next) && next !in stack + {name}
    {
      if Plain(plan) {
        StackGrows(plan, stack, name, next);
        NotOnStack(plan, stack + {name}, next);
      }
    }

    lemma TaskFacts(target: Target)
      requires Valid() && target in project.targets
      ensures plan.keepGoing == keepGoing
      ensures target.name in plan.tasks && plan.tasks[target.name] == target.tasks
    {
      EnterFacts(target);
    }

    lemma MayStart(target: Target, i: nat, stack: set<TargetName>)
      requires Valid() && target in project.targets && Live(plan, trace)
      requires Begin(target.name) in trace && i < |target.tasks| && Starts(trace, target.name) == i
      requires target.name in plan.g && forall x :: x in plan.g[target.name] ==> x in built
      requires OnStack(trace, stack + {target.name}) && Accounted(plan, trace, built, stack + {target.name})
      requires Plain(plan) ==>
        && Settled(plan, trace, built, stack + {target.name})
        && forall x :: x in plan.g[target.name] ==> x in built && x !in stack + {target.name}
      ensures Allowed(plan, trace, Start(target.name, i))
      ensures Correct(plan, trace, Start(target.name, i)) && !Called(plan, Start(target.name, i))
      ensures target.tasks[i].name == "call" ==> !Plain(plan)
    {
      TaskFacts(target);
      OpenOrFinished(plan, trace, built, stack + {target.name}, target.name);
      hide FinishedOrOpen, AllFinished;
      if Plain(plan) {
        ReadyToStart(plan, trace, built, stack + {target.name}, target.name);
      }
    }

    lemma Logged(tr: Trace, b: set<TargetName>, e: Event)
      requires trace == tr + [e] && built == b && !e.Begin?
      requires Failures(trace) >= Failures(tr)
      requires forall t :: Starts(trace, t) == Starts(tr, t) + if e.Start? && e.t == t then 1 else 0
      ensures Grows(tr, trace, b, built, {e.t}) && e in trace && tr <= trace
      ensures e.Done? ==> Finished(trace, e.t, e.i)
    {
    }

    /** The answer of a task is the one its end must record. */
    lemma Ended(tr: Trace, n: nat, t: TargetName, i: nat, ok: bool)
      requires Valid() && InPlan(plan, t, i) && tr + [Start(t, i)] <= trace && n == |Calls(plan, tr)|
      requires var task := plan.tasks[t][i];
               if task.name == "call" then
                 && calls == |Calls(plan, trace)|
                 && (ok <==> Resolves(plan, task) && Failures(trace) == Failures(tr))
                 && (Resolves(plan, task) && Live(plan, trace) ==> Named(task.target.value) in built)
               else
                 && trace == tr + [Start(t, i)]
                 && if Runs(plan, task) then calls == n + 1 && ok == plan.outcome(n, task) else calls == n && ok == Known(plan, task)
      ensures Correct(plan, trace, Done(t, i, ok))
      ensures calls == |Calls(plan, trace)| + if Called(plan, Done(t, i, ok)) then 1 else 0
    {
      hide Ready, Known, Failures, NoFailureSince;
      var task := plan.tasks[t][i];
      if task.name == "call" {
        SinceStart(plan, tr, trace, t, i);
      } else {
        assert Front(trace) == tr && Last(trace) == Start(t, i);
        assert Calls(plan, trace) == Calls(plan, tr);
      }
    }

    lemma TaskEntered(t: TargetName, i: nat, b0: set<TargetName>, b: set<TargetName>)
      requires InPlan(plan, t, i) && t in plan.g && EnteredFrom(plan, t, b0, b)
      requires var task := plan.tasks[t][i];
               built != b ==> task.name == "call" && task.target.Some? && EnteredFrom(plan, Named(task.target.value), b, built)
      ensures EnteredFrom(plan, t, b0, built)
    {
      var task := plan.tasks[t][i];
      if built != b {
        LinksTo(plan, t, i);
        EnteredThrough(plan, t, Named(task.target.value), b0, b, built);
      }
    }

    /** What a task in progress finds again after others have been at work. */
    lemma Later(tr: Trace, b: set<TargetName>, name: TargetName, i: nat, stack: set<TargetName>)
      requires (tr <= trace && b <= built) || Grows(tr, trace, b, built, {})
      ensures tr <= trace && b <= built
      ensures Grows(tr, trace, b, built, {}) ==> Grows(tr, trace, b, built, {name}) && b <= built && Failures(tr) <= Failures(trace)
      ensures Grows(tr, trace, b, built, {}) && name in b ==> Starts(trace, name) == Starts(tr, name)
      ensures forall e :: e in tr ==> e in trace
      ensures forall j :: Finished(tr, name, j) ==> Finished(trace, name, j)
      ensures built == b && Settled(plan, tr, b, stack + {name}) ==> Settled(plan, trace, built, stack + {name})
      ensures Start(name, i) in tr ==> forall ok :: Allowed(plan, trace, Done(name, i, ok))
    {
      assert forall e :: e in tr ==> e in trace;
      if built == b && Settled(plan, tr, b, stack + {name}) {
        SettledGrows(plan, tr, trace, b, stack + {name});
      }
    }

    /** When the last task is over, the target is settled. */
    lemma TargetDone(name: TargetName, n: nat, stack: set<TargetName>)
      requires name in plan.tasks && n == |plan.tasks[name]| && name in plan.g
      requires forall j :: 0 <= j < n ==> Finished(trace, name, j)
      ensures AllFinished(plan, trace, name)
      ensures
        (Settled(plan, trace, built, stack + {name}) && forall x :: x in plan.g[name] ==> x in built && x !in stack + {name})
        ==> Settled(plan, trace, built, stack)
    {
    }

    lemma StillOnStack(e: Event, stack: set<TargetName>)
      requires OnStack(trace, stack) && !e.Begin? && !e.Leave?
      ensures OnStack(trace + [e], stack)
      ensures Accounted(plan, trace, built, stack) ==> Accounted(plan, trace + [e], built, stack)
    {
      assert forall t :: Open(trace + [e], t) <==> Open(trace, t);
      StillFinished(plan, trace, e);
    }

    /** One task, from its start to its end. */
    method RunTask(target: Target, i: nat, ghost stack: set<TargetName>) returns (ok: bool)
      requires Valid() && Live(plan, trace) && Counted() && target in project.targets && target.name in built && target.name in plan.g
      requires i < |target.tasks| && Starts(trace, target.name) == i && Begin(target.name) in trace
      requires OnStack(trace, stack + {target.name}) && Accounted(plan, trace, built, stack + {target.name})
      requires forall x :: x in plan.g[target.name] ==> x in built
      requires Plain(plan) ==>
        && Settled(plan, trace, built, stack + {target.name})
        && forall x :: x in plan.g[target.name] ==> x in built && x !in stack + {target.name}
      modifies `calls, `trace, `built, project.Members()`built
      ensures Valid() && Counted() && Grows(old(trace), trace, old(built), built, {target.name})
      ensures EnteredFrom(plan, target.name, old(built), built)
      ensures Starts(trace, target.name) == i + 1 && Finished(trace, target.name, i)
      ensures ok <==> Failures(trace) == Failures(old(trace))
      ensures OnStack(trace, stack + {target.name}) && (Live(plan, trace) ==> Accounted(plan, trace, built, stack + {target.name}))
      ensures Plain(plan) ==> built == old(built) && Settled(plan, trace, built, stack + {target.name})
      decreases plan.g.Keys - built, 2, 0
    {
      hide Valid, Failures, Starts, Plain, Settled, AllFinished, Grows, Finished, OnStack, Accounted, Calls, EnteredFrom, Correct, Links, Runs, Known, Resolves, Called;
      ghost var name := target.name;
      TaskFacts(target);
      PlanFacts();
      EnteredNone(plan, name, built);
      ghost var tr, b, n := trace, built, calls;
      MayStart(target, i, stack);
      AccountedGrows(plan, trace, Start(name, i), built, stack + {name});
      Log(Start(name, i));
      Logged(tr, b, Start(name, i));
      ghost var tr1 := trace;
      ok := ProcessTask(target.tasks[i], stack + {name});
      TaskEntered(name, i, b, b);
      GrowsPrefix(tr1, trace, b, built, {});
      Later(tr1, b, name, i, stack);
      GrowsTransitive(tr, tr1, trace, b, b, built, {name});
      ghost var tr2, b2 := trace, built;
      StillOnStack(Done(name, i, ok), stack + {name});
      Ended(tr, n, name, i, ok);
      Log(Done(name, i, ok));
      Logged(tr2, b2, Done(name, i, ok));
      Later(tr, b, name, i, stack);
      GrowsTransitive(tr, tr2, trace, b, b2, built, {name});
    }

    /** The second loop of `BuildTarget`. */
    method RunTasks(target: Target, success0: bool, ghost stack: set<TargetName>) returns (success: bool, error: bool)
      requires Valid() && Live(plan, trace) && Counted() && target in project.targets && target.name in built && target.name in plan.g
      requires Starts(trace, target.name) == 0 && Begin(target.name) in trace
      requires OnStack(trace, stack + {target.name}) && Accounted(plan, trace, built, stack + {target.name})
      requires forall x :: x in plan.g[target.name] ==> x in built
      requires Plain(plan) ==>
        && Settled(plan, trace, built, stack + {target.name})
        && forall x :: x in plan.g[target.name] ==> x in built && x !in stack + {target.name}
      modifies `calls, `trace, `built, project.Members()`built
      ensures Valid() && Grows(old(trace), trace, old(built), built, {target.name})
      ensures Counted() && EnteredFrom(plan, target.name, old(built), built)
      ensures success && !error <==> success0 && Failures(trace) == Failures(old(trace))
      ensures !error <==> Live(plan, trace)
      ensures OnStack(trace, stack + {target.name})
      ensures !error ==>
        && AllFinished(plan, trace, target.name) && Accounted(plan, trace, built, stack + {target.name})
        && forall x :: x in plan.g[target.name] ==> x in built
      ensures Plain(plan) && !error ==> Settled(plan, trace, built, stack)
      decreases plan.g.Keys - built, 2, 1
    {
      hide Valid, Failures, Starts, Plain, Settled, AllFinished, Grows, Finished, OnStack, Accounted, Calls, EnteredFrom, Correct;
      success, error := success0, false;
      ghost var name := target.name;
      GrowsSelf();
      GrowsWider(trace, trace, built, built, {name});
      TaskFacts(target);
      PlanFacts();
      EnteredNone(plan, name, built);
      var i := 0;
      while !error && i < |target.tasks|
        invariant i <= |target.tasks| && Valid() && Grows(old(trace), trace, old(built), built, {name})
        invariant old(built) <= built && Failures(old(trace)) <= Failures(trace)
        invariant Begin(name) in trace && Counted() && EnteredFrom(plan, name, old(built), built)
        invariant success && !error <==> success0 && Failures(trace) == Failures(old(trace))
        invariant !error <==> Live(plan, trace)
        invariant Starts(trace, name) == i
        invariant OnStack(trace, stack + {name}) && (!error ==> Accounted(plan, trace, built, stack + {name}))
        invariant !error ==> forall j :: 0 <= j < i ==> Finished(trace, name, j)
        invariant Plain(plan) ==> built == old(built) && Settled(plan, trace, built, stack + {name})
      {
        ghost var tr, b := trace, built;
        var ok := RunTask(target, i, stack);
        GrowsPrefix(tr, trace, b, built, {name});
        Later(tr, b, name, i, stack);
        EnteredJoin(plan, name, old(built), b, built);
        GrowsTransitive(old(trace), tr, trace, old(built), b, built, {name});
        if !ok {
          if keepGoing {
            success := false;
          } else {
            error := true;
          }
        }
        i := i + 1;
      }
      if !error {
        TargetDone(name, i, stack);
      }
    }

    /** `CSAntBuild`: the global target, then the requested ones, or the
        default one if none is requested. */
    method Build(requested: seq<TargetName>, default: Option<string>) returns (r: bool, ghost cuts: seq<nat>)
      requires Ready() && trace == [] && built == {} && calls == 0
      requires forall n :: n in requested ==> n.Named?
      modifies `calls, `trace, `built, project.Members()`built
      ensures Valid() && OnStack(trace, {}) && Counted()
      ensures r <==>
        && AllWell(plan, trace)
        && forall n :: n in Requested(requested, default) ==> n in plan.g
      ensures 0 < |cuts| <= |Roots(requested, default)| + 1 && (r || keepGoing ==> |cuts| == |Roots(requested, default)| + 1)
      ensures FollowsRoots(plan, trace, built, Roots(requested, default)[..|cuts|-1], cuts)
      ensures r ==> ReachedAreDone(plan, trace, built, Roots(requested, default))
    {
      hide Valid, Ready, Failures, Settled, Plain, AllFinished, OnStack, Accounted, AllWell, Calls, FollowsRoots, ReachedAreDone,
           AllExist, AllIn, Roots;
      Fresh();
      var names := Requested(requested, default);
      ghost var roots := Roots(requested, default);
      RootsAre(plan, requested, default);
      cuts := [0];
      ghost var entered := [];
      var success, error := true, false;
      var ok := BuildRoot(Global, entered, cuts);
      cuts, entered := cuts + [|trace|], [Global];
      if !ok {
        if keepGoing {
          success := false;
        } else {
          error := true;
        }
      }
      var posn := 0;
      while !error && posn < |names|
        invariant posn <= |names| && Valid() && Counted() && OnStack(trace, {})
        invariant entered == roots[..posn + 1] && |cuts| == posn + 2 && FollowsRoots(plan, trace, built, entered, cuts)
        invariant error ==> !keepGoing
        invariant !error ==> Live(plan, trace) && Accounted(plan, trace, built, {}) && AllIn(plan, built, entered)
        invariant if error then Failures(trace) > 0 || !AllExist(plan, entered)
                  else success <==> Failures(trace) == 0 && AllExist(plan, entered)
        invariant Plain(plan) && !error ==> Settled(plan, trace, built, {})
      {
        ok := BuildRoot(names[posn], entered, cuts);
        cuts, entered := cuts + [|trace|], entered + [names[posn]];
        assert entered == roots[..posn + 2];
        if !ok {
          if keepGoing {
            success := false;
          } else {
            error := true;
          }
        }
        posn := posn + 1;
      }
      FailuresMean();
      if AllExist(plan, roots) {
        FirstExist(plan, roots, posn + 1);
      }
      if error {
        return false, cuts;
      } else {
        assert roots[..posn + 1] == roots;
        if success {
          AllReached(roots);
        }
        return success, cuts;
      }
    }

    lemma FailuresMean()
      requires Valid()
      ensures Failures(trace) == 0 <==> AllWell(plan, trace)
    {
      NoFailureExactly(plan, trace);
    }

    /** One target that is entered directly, after `names`. */
    method BuildRoot(name: TargetName, ghost names: seq<TargetName>, ghost cuts: seq<nat>) returns (r: bool)
      requires Valid() && Live(plan, trace) && Counted() && OnStack(trace, {}) && Accounted(plan, trace, built, {})
      requires Plain(plan) ==> Settled(plan, trace, built, {})
      requires if names == [] then trace == [] && built == {} && cuts == [0] else FollowsRoots(plan, trace, built, names, cuts)
      modifies `calls, `trace, `built, project.Members()`built
      ensures Valid() && Counted() && OnStack(trace, {}) && (Live(plan, trace) ==> Accounted(plan, trace, built, {}))
      ensures Plain(plan) && Live(plan, trace) ==> Settled(plan, trace, built, {})
      ensures r <==> (name in plan.g || name.Global?) && Failures(trace) == Failures(old(trace))
      ensures Failures(trace) >= Failures(old(trace))
      ensures Live(plan, trace) && AllIn(plan, old(built), names) ==> AllIn(plan, built, names + [name])
      ensures AllExist(plan, names + [name]) <==> AllExist(plan, names) && (name in plan.g || name.Global?)
      ensures names == [] ==> AllExist(plan, names) && AllIn(plan, old(built), names) && names + [name] == [name]
      ensures FollowsRoots(plan, trace, built, names + [name], cuts + [|trace|])
    {
      hide Valid, Failures, Settled, Plain, StackLeadsTo, AllFinished, Grows, OnStack, Accounted, Turn, EnteredFrom, Calls, FollowsRoots;
      ghost var tr, b := trace, built;
      NoStack(name);
      r := BuildTarget(name, null, {});
      Monotone(tr, b);
      RootDone(tr, cuts, names, b, name);
    }

    lemma RootDone(tr: Trace, cuts: seq<nat>, names: seq<TargetName>, b: set<TargetName>, name: TargetName)
      requires Grows(tr, trace, b, built, {}) && Turn(plan, trace, name, |tr|, |trace|) && EnteredFrom(plan, name, b, built)
      requires if names == [] then tr == [] && b == {} && cuts == [0] else FollowsRoots(plan, tr, b, names, cuts)
      ensures FollowsRoots(plan, trace, built, names + [name], cuts + [|trace|])
    {
      hide Links, Turn;
      if names == [] {
        FirstTurn(plan, tr);
      }
      NextTurn(plan, tr, trace, names, cuts, name);
      forall t | t in built ensures exists n :: n in names + [name] && Reaches(Links(plan), n, t) {
        if t in b {
          var n :| n in names && Reaches(Links(plan), n, t);
          assert n in names + [name];
        } else {
          assert name in names + [name];
        }
      }
    }

    /** After a successful build everything reached has been entered. */
    lemma AllReached(roots: seq<TargetName>)
      requires Valid() && Failures(trace) == 0 && OnStack(trace, {}) && Accounted(plan, trace, built, {})
      requires AllIn(plan, built, roots)
      ensures ReachedAreDone(plan, trace, built, roots)
    {
      hide Links, AllFinished, Failures, Answered;
      forall n, t | n in plan.g && n in roots && Reaches(Links(plan), n, t) ensures t in built && AllFinished(plan, trace, t) {
        var k: nat :| ReachesIn(Links(plan), n, t, k);
        AllEntered(plan, trace, built, n, t, k);
      }
    }

    lemma NoStack(name: TargetName)
      ensures StackLeadsTo(plan, {}, name)
    {
    }

    lemma Monotone(tr: Trace, b: set<TargetName>)
      requires Grows(tr, trace, b, built, {})
      ensures Failures(tr) <= Failures(trace) && b <= built
    {
    }

    lemma Fresh()
      requires Ready() && trace == [] && built == {} && calls == 0
      ensures Valid() && Counted() && Live(plan, trace) && Failures(trace) == 0 && plan.keepGoing == keepGoing
      ensures StackLeadsTo(plan, {}, Global) && Settled(plan, trace, built, {})
      ensures OnStack(trace, {}) && Accounted(plan, trace, built, {})
    {
    }
  }

  /** The default target stands in when none is requested. */
  function Requested(requested: seq<TargetName>, default: Option<string>): (r: seq<TargetName>)
    ensures requested != [] || default.None? ==> r == requested
    ensures requested == [] && default.Some? ==> r == [Named(default.value)]
  {
    if requested == [] && default.Some? then [Named(default.value)] else requested
  }

  /** All of the targets exist; the global one need not. */
  ghost predicate AllExist(plan: Plan, names: seq<TargetName>) {
    forall n :: n in names ==> n in plan.g || n.Global?
  }

  /** Those that exist have been entered. */
  ghost predicate AllIn(plan: Plan, built: set<TargetName>, names: seq<TargetName>) {
    forall n :: n in names && n in plan.g ==> n in built
  }

  lemma FirstExist(plan: Plan, names: seq<TargetName>, k: nat)
    requires k <= |names| && AllExist(plan, names)
    ensures AllExist(plan, names[..k])
  {
  }

  lemma RootsAre(plan: Plan, requested: seq<TargetName>, default: Option<string>)
    requires forall n :: n in requested ==> n.Named?
    ensures var roots, names := Roots(requested, default), Requested(requested, default);
            && |roots| == |names| + 1 && roots[..1] == [Global] && (forall k :: 0 <= k < |names| ==> roots[k + 1] == names[k])
            && (forall n :: n in names ==> n.Named?)
            && (AllExist(plan, roots) <==> forall n :: n in names ==> n in plan.g)
  {
    var roots, names := Roots(requested, default), Requested(requested, default);
    if AllExist(plan, roots) {
      assert forall n :: n in names ==> n in roots;
    }
  }

  /** The targets that a build enters directly. */
  function Roots(requested: seq<TargetName>, default: Option<string>): (r: seq<TargetName>) {
    [Global] + Requested(requested, default)
  }
}
