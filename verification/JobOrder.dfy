/** When jobs get the permit in the order of their submission. */
module JobOrder {
  import opened Options
  import opened JobRegistry
  import opened JobServer
  import opened JobRuns

  /** A mutating job whose task has not asked for the permit yet. */
  predicate Unasked(s: Server, id: JobId) {
    id in s.tasks && s.tasks[id].mutating && s.tasks[id].pc == Spawned
  }

  function Number(s: Server, id: JobId): nat {
    if id in s.tasks then s.tasks[id].number else 0
  }

  /** `ids` are in the order of submission. */
  ghost predicate InOrder(s: Server, ids: seq<JobId>) {
    forall i, j :: 0 <= i < j < |ids| ==> Number(s, ids[i]) < Number(s, ids[j])
  }

  ghost predicate NumbersOk(s: Server) {
    && (forall id :: id in s.tasks ==> s.tasks[id].number < s.next)
    && (forall a, b :: a in s.tasks && b in s.tasks && s.tasks[a].number == s.tasks[b].number ==> a == b)
  }

  /** The scheduler polls `id` while no older mutating task is still to be polled. */
  ghost predicate IsOldest(s: Server, id: JobId) {
    forall other :: Unasked(s, other) ==> Number(s, id) <= Number(s, other)
  }

  /** So far arrivals are in the order of submission, and nobody older is still to come. */
  ghost predicate OrderOk(s: Server) {
    && InOrder(s, s.arrivals)
    && (forall a, other :: a in s.arrivals && Unasked(s, other) ==> Number(s, a) < Number(s, other))
  }

  // ----- What one step does to tasks and arrivals.

  /** As far as asking goes, nothing has changed. */
  ghost predicate SameTasks(s: Server, t: Server) {
    && t.next == s.next && t.arrivals == s.arrivals && t.tasks.Keys == s.tasks.Keys
    && (forall id :: id in s.tasks ==> t.tasks[id].number == s.tasks[id].number)
    && (forall id :: Unasked(t, id) <==> Unasked(s, id))
  }

  lemma AtTasks(s: Server, id: JobId, pc: Pc)
    requires id in s.tasks && pc != Spawned && !Unasked(s, id)
    ensures SameTasks(s, At(s, id, pc))
  {
  }

  lemma ReleaseTasks(s: Server)
    requires QueueKnown(s) && forall w :: w in s.permit.queue ==> s.tasks[w].pc == Waiting
    ensures SameTasks(s, Release(s))
  {
    hide SameTasks;
    if s.permit.queue != [] {
      var first := s.permit.queue[0];
      var t := s.(permit := Permit(Some(JobTask(first)), s.permit.queue[1..]), granted := s.granted + [first]);
      assert first in s.permit.queue;
      AtTasks(t, first, Holding);
      SameRest(s, t, At(t, first, Holding));
    } else {
      SameRest(s, s, Release(s));
    }
  }

  lemma SameRest(s: Server, u: Server, t: Server)
    requires u.tasks == s.tasks && u.next == s.next && u.arrivals == s.arrivals
    ensures SameTasks(u, t) ==> SameTasks(s, t)
    ensures t.tasks == s.tasks && t.next == s.next && t.arrivals == s.arrivals ==> SameTasks(s, t)
  {
  }

  lemma LeaveTasks(s: Server, id: JobId)
    requires PermitOk(s) && id in s.tasks && QueueKnown(s)
    requires s.tasks[id].pc == Recorded || s.tasks[id].pc == (if s.tasks[id].mutating then Holding else Spawned)
    ensures SameTasks(s, Leave(s, id))
  {
    hide Release;
    AtTasks(s, id, Exited);
    if s.tasks[id].mutating {
      ReleaseTasks(At(s, id, Exited));
    }
  }

  lemma MoveTasks(s: Server, e: Event)
    requires Inv(s) && QueueKnown(s) && !e.Acquire? && !e.Submit?
    ensures SameTasks(s, Step(s, e))
  {
    hide RecordOk, QueueOk, RanOk, OneActive, Ordered, TryStart, Cancel, SetStatus, PushLog, Release, Leave, SameTasks;
    var t := Step(s, e);
    if !Enabled(s, e) {
      SameRest(s, s, t);
    } else {
      match e
      case EndRequest => ReleaseTasks(s);
      case Exit(id) => LeaveTasks(s, id);
      case Start(id) =>
        LeaveTasks(s, id);
        AtTasks(s, id, Body);
        SameAfter(s, At(s, id, Body), t);
      case Finish(id, _, _) =>
        AtTasks(s, id, Recorded);
        SameAfter(s, At(s, id, Recorded), t);
      case _ => SameRest(s, s, t);
    }
  }

  lemma SameAfter(s: Server, u: Server, t: Server)
    requires SameTasks(s, u)
    ensures t.tasks == u.tasks && t.next == u.next && t.arrivals == u.arrivals ==> SameTasks(s, t)
  {
  }

  /** The tasks a step adds, and what it does to those there. */
  lemma StepTasks(s: Server, e: Event)
    requires Inv(s)
    ensures QueueKnown(s)
    ensures var t := Step(s, e);
            && s.next <= t.next
            && (forall id :: id in s.tasks ==> id in t.tasks && t.tasks[id].number == s.tasks[id].number)
            && (forall id :: id in t.tasks && id !in s.tasks ==>
                  e.Submit? && id == e.id && t.tasks[id].number == s.next < t.next)
            && (forall id :: Unasked(s, id) && !(e == Acquire(id)) ==> Unasked(t, id))
            && (forall id :: Unasked(t, id) && id in s.tasks ==> Unasked(s, id) && e != Acquire(id))
            && t.arrivals == (if e.Acquire? && Enabled(s, e) then s.arrivals + [e.id] else s.arrivals)
  {
    hide PermitOk, RecordOk, QueueOk, RanOk, OneActive, Ordered, Active, Swept;
    InvQueue(s);
    if !e.Acquire? && !e.Submit? {
      hide Step, Inv, Enabled;
      MoveTasks(s, e);
    }
  }

  lemma StepNumbers(s: Server, e: Event)
    requires Inv(s) && NumbersOk(s)
    ensures QueueKnown(s) && NumbersOk(Step(s, e))
  {
    hide Step, Inv, Enabled, Unasked;
    StepTasks(s, e);
  }

  // ----- Schedulers.

  ghost function Next(s: Server, e: Event): (t: Server)
    requires Inv(s)
    ensures QueueKnown(s) && t == Step(s, e) && Inv(t)
  {
    InvQueue(s);
    StepKeepsInv(s, e);
    Step(s, e)
  }

  /** In this run mutating tasks come to ask for the permit oldest first. */
  ghost predicate OldestFirst(s: Server, es: seq<Event>)
    requires Inv(s)
    decreases |es|
  {
    es != [] ==>
      && (es[0].Acquire? && Enabled(s, es[0]) ==> IsOldest(s, es[0].id))
      && OldestFirst(Next(s, es[0]), es[1..])
  }

  /** In this run every mutating task asks for the permit before the next mutating job is submitted. */
  ghost predicate Prompt(s: Server, es: seq<Event>)
    requires Inv(s)
    decreases |es|
  {
    es != [] ==>
      && (es[0].Submit? && es[0].mutating ==> forall id :: !Unasked(s, id))
      && Prompt(Next(s, es[0]), es[1..])
  }

  lemma RunNext(s: Server, es: seq<Event>)
    requires Inv(s)
    ensures es != [] ==> Run(s, es) == Run(Next(s, es[0]), es[1..])
    ensures es == [] ==> Run(s, es) == s
  {
    hide Inv, Step;
  }

  lemma OldestStep(s: Server, e: Event)
    requires Inv(s) && NumbersOk(s) && OrderOk(s)
    requires e.Acquire? && Enabled(s, e) ==> IsOldest(s, e.id)
    ensures NumbersOk(Next(s, e)) && OrderOk(Next(s, e))
  {
    hide Step, Inv, Enabled, Unasked, Run, InOrder, NumbersOk;
    var t := Next(s, e);
    StepNumbers(s, e);
    StepTasks(s, e);
    KnownArrivals(s);
    KnownArrivals(t);
    AcquireUnasked(s, e);
    assert forall id :: id in s.tasks ==> Number(t, id) == Number(s, id);
    NewestLast(s, e, t);
    forall a, other | a in t.arrivals && Unasked(t, other) ensures Number(t, a) < Number(t, other) {
      if other !in s.tasks || a !in s.arrivals {
        NumbersDiffer(s, t, e, a, other);
      }
    }
  }

  lemma NumbersDiffer(s: Server, t: Server, e: Event, a: JobId, other: JobId)
    requires NumbersOk(s) && a in s.tasks && Number(t, a) == Number(s, a) && other in t.tasks && a != other
    requires other in s.tasks ==> Number(s, a) <= Number(s, other) && Number(t, other) == Number(s, other)
    requires other !in s.tasks ==> Number(t, other) == s.next
    ensures Number(t, a) < Number(t, other)
  {
  }

  /** What asks last is newer than all that asked before. */
  lemma NewestLast(s: Server, e: Event, t: Server)
    requires OrderOk(s)
    requires if e.Acquire? && Unasked(s, e.id) then t.arrivals == s.arrivals + [e.id] else t.arrivals == s.arrivals
    requires forall id :: id in t.arrivals ==> Number(t, id) == Number(s, id)
    ensures InOrder(t, t.arrivals)
  {
    hide Unasked, Number;
    forall i, j | 0 <= i < j < |t.arrivals| ensures Number(t, t.arrivals[i]) < Number(t, t.arrivals[j]) {
      assert t.arrivals[i] in t.arrivals && t.arrivals[j] in t.arrivals;
      assert t.arrivals[i] == s.arrivals[i] && s.arrivals[i] in s.arrivals;
    }
  }

  lemma KnownArrivals(s: Server)
    requires Inv(s)
    ensures forall id :: id in s.arrivals ==> id in s.tasks && !Unasked(s, id)
    ensures forall id :: Unasked(s, id) ==> id in s.tasks
  {
    hide PermitOk, RecordOk, RanOk, OneActive, Ordered;
  }

  lemma AcquireUnasked(s: Server, e: Event)
    ensures e.Acquire? && Enabled(s, e) <==> e.Acquire? && Unasked(s, e.id)
  {
  }

  lemma {:induction false} OldestRun(s: Server, es: seq<Event>)
    requires Inv(s) && NumbersOk(s) && OrderOk(s) && OldestFirst(s, es)
    ensures NumbersOk(Run(s, es)) && OrderOk(Run(s, es))
    decreases |es|
  {
    hide Inv, Step, Enabled, NumbersOk, OrderOk, IsOldest;
    RunNext(s, es);
    if es != [] {
      OldestStep(s, es[0]);
      OldestRun(Next(s, es[0]), es[1..]);
    }
  }

  /** A scheduler that lets every mutating task ask before the next one is submitted lets them ask
      oldest first. */
  lemma {:induction false} PromptIsOldestFirst(s: Server, es: seq<Event>)
    requires Inv(s) && Prompt(s, es)
    requires forall a, b :: Unasked(s, a) && Unasked(s, b) ==> a == b
    ensures OldestFirst(s, es)
    decreases |es|
  {
    hide Inv, Step, Enabled, Unasked;
    if es != [] {
      StepTasks(s, es[0]);
      AcquireUnasked(s, es[0]);
      KnownArrivals(Next(s, es[0]));
      SubmitUnasked(s, es[0]);
      PromptIsOldestFirst(Next(s, es[0]), es[1..]);
    }
  }

  lemma SubmitUnasked(s: Server, e: Event)
    requires Inv(s)
    ensures forall id :: Unasked(Next(s, e), id) && id !in s.tasks ==> e.Submit? && e.mutating && id == e.id
  {
    hide Inv;
    StepTasks(s, e);
  }

  // ----- Main results.

  lemma StartOk(readOnly: bool)
    ensures var s := Init(readOnly); Inv(s) && NumbersOk(s) && OrderOk(s) && forall id :: !Unasked(s, id)
  {
    InitInv(readOnly);
  }

  /** In every reachable state the jobs served are the first arrivals, so they were served in the
      order of submission if and only if that many of the first arrivals were in it. */
  lemma ServedInOrderIff(readOnly: bool, es: seq<Event>)
    ensures var s := FromStart(readOnly, es);
            && |s.granted| <= |s.arrivals| && s.granted == s.arrivals[..|s.granted|]
            && (InOrder(s, s.granted) <==> InOrder(s, s.arrivals[..|s.granted|]))
  {
    hide PermitOk, RecordOk, RanOk, OneActive, Ordered, InOrder, Run, Step;
    var s := FromStart(readOnly, es);
    assert s.arrivals == s.granted + s.permit.queue;
  }

  /** When tasks ask oldest first, jobs arrive and are served in the order of submission, in every
      run; and asking promptly is enough for that. */
  lemma SubmissionOrderKept(readOnly: bool, es: seq<Event>)
    requires Inv(Init(readOnly)) && (OldestFirst(Init(readOnly), es) || Prompt(Init(readOnly), es))
    ensures var s := FromStart(readOnly, es); InOrder(s, s.arrivals) && InOrder(s, s.granted)
  {
    hide Inv, Step, InOrder, NumbersOk, OldestFirst, Prompt;
    StartOk(readOnly);
    if Prompt(Init(readOnly), es) {
      PromptIsOldestFirst(Init(readOnly), es);
    }
    OldestRun(Init(readOnly), es);
    GrantedInOrder(FromStart(readOnly, es));
  }

  lemma GrantedInOrder(s: Server)
    requires Inv(s) && InOrder(s, s.arrivals)
    ensures InOrder(s, s.granted)
  {
    hide PermitOk, RecordOk, RanOk, OneActive, Ordered;
    assert forall i :: 0 <= i < |s.granted| ==> s.arrivals[i] == s.granted[i];
  }

  lemma Oldest(s: Server, id: JobId) returns (oldest: JobId)
    requires Unasked(s, id)
    ensures Unasked(s, oldest) && IsOldest(s, oldest) && Number(s, oldest) <= Number(s, id)
    decreases Number(s, id)
  {
    oldest := id;
    if other :| Unasked(s, other) && Number(s, other) < Number(s, id) {
      oldest := Oldest(s, other);
    }
  }

  /** Polling oldest first is also needed: letting `id` ask now leaves every continuation in the order
      of submission, provided the scheduler polls oldest first from then on, if and only if `id` is
      the oldest task still to ask. */
  lemma OldestNeeded(s: Server, id: JobId)
    requires Inv(s) && NumbersOk(s) && OrderOk(s) && Unasked(s, id)
    ensures (forall es :: OldestFirst(Next(s, Acquire(id)), es) ==>
               var t := Run(Next(s, Acquire(id)), es); InOrder(t, t.arrivals))
       <==> IsOldest(s, id)
  {
    hide Inv, Step, NumbersOk, Run, OldestFirst, Unasked, InOrder;
    var t := Next(s, Acquire(id));
    if IsOldest(s, id) {
      OldestStep(s, Acquire(id));
      forall es | OldestFirst(t, es) ensures var u := Run(t, es); InOrder(u, u.arrivals) {
        OldestRun(t, es);
      }
    } else {
      var other :| Unasked(s, other) && Number(s, other) < Number(s, id);
      var next := Misordered(s, id, other);
      assert !InOrder(Run(t, [Acquire(next)]), Run(t, [Acquire(next)]).arrivals);
    }
  }

  /** Passing over an older task leads to arrivals out of order as soon as the oldest one asks. */
  lemma Misordered(s: Server, id: JobId, other: JobId) returns (next: JobId)
    requires Inv(s) && Unasked(s, id) && Unasked(s, other) && Number(s, other) < Number(s, id)
    ensures var t := Next(s, Acquire(id)); var u := Run(t, [Acquire(next)]);
            OldestFirst(t, [Acquire(next)]) && !InOrder(u, u.arrivals)
  {
    hide Inv, Step, Unasked, Enabled;
    var t := Next(s, Acquire(id));
    StepTasks(s, Acquire(id));
    AcquireUnasked(s, Acquire(id));
    KnownArrivals(s);
    next := Oldest(t, other);
    var u := Next(t, Acquire(next));
    StepTasks(t, Acquire(next));
    AcquireUnasked(t, Acquire(next));
    RunNext(t, [Acquire(next)]);
    RunNext(u, []);
    assert [Acquire(next)][1..] == [];
    var n := |s.arrivals|;
    assert u.arrivals[n] == id && u.arrivals[n + 1] == next;
    KnownArrivals(t);
  }
}
