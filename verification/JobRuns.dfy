/** What holds over every run of the server. */
module JobRuns {
  import opened Options
  import opened JobRegistry
  import opened JobServer

  lemma InitInv(readOnly: bool)
    ensures Inv(Init(readOnly))
  {
  }

  ghost function Run(s: Server, es: seq<Event>): (t: Server)
    requires Inv(s)
    ensures Inv(t)
    decreases |es|
  {
    if es == [] then s
    else
      StepKeepsInv(s, es[0]);
      Run(Step(s, es[0]), es[1..])
  }

  ghost function FromStart(readOnly: bool, es: seq<Event>): (t: Server)
    ensures Inv(t)
  {
    InitInv(readOnly);
    Run(Init(readOnly), es)
  }

  // ----- The permit.

  /** A mutating request is being served, or a mutating body is running. */
  predicate Writes(s: Server, who: Holder) {
    match who
    case Request(_) => s.permit.holder == Some(who)
    case JobTask(id) => id in s.tasks && s.tasks[id].mutating && s.tasks[id].pc == Body
  }

  /** In every reachable state at most one request or job is writing, it has the permit, and on a
      read-only server nothing ever does. */
  lemma MutualExclusion(readOnly: bool, es: seq<Event>)
    ensures var s := FromStart(readOnly, es);
            && (forall a, b :: Writes(s, a) && Writes(s, b) ==> a == b)
            && (forall a :: Writes(s, a) ==> s.permit.holder == Some(a))
            && (readOnly ==> s.permit.holder == None && forall a :: !Writes(s, a))
  {
    hide RecordOk, QueueOk, RanOk, OneActive, Ordered, Step;
    var s := FromStart(readOnly, es);
    InitInv(readOnly);
    SameMode(Init(readOnly), es);
    forall a | Writes(s, a) ensures s.permit.holder == Some(a) {
      if a.JobTask? {
        assert Holds(s.tasks[a.id]);
      }
    }
  }

  lemma StepMode(s: Server, e: Event)
    requires Inv(s)
    ensures Step(s, e).readOnly == s.readOnly
    ensures s.arrivals <= Step(s, e).arrivals && s.granted <= Step(s, e).granted
  {
    hide RecordOk, PermitOk, RanOk, OneActive, Ordered, Active, Swept, TryStart, Cancel, SetStatus, PushLog;
    assert QueueKnown(s) by { InvQueue(s); }
  }

  lemma InvQueue(s: Server)
    requires Inv(s)
    ensures QueueKnown(s)
  {
    hide RecordOk, RanOk, OneActive, Ordered;
  }

  lemma {:induction false} SameMode(s: Server, es: seq<Event>)
    requires Inv(s)
    ensures Run(s, es).readOnly == s.readOnly
    ensures s.arrivals <= Run(s, es).arrivals && s.granted <= Run(s, es).granted
    decreases |es|
  {
    hide Inv, Step;
    if es != [] {
      StepKeepsInv(s, es[0]);
      InvQueue(s);
      StepMode(s, es[0]);
      SameMode(Step(s, es[0]), es[1..]);
    }
  }

  /** Being read-only outranks everything else, also the permit. */
  lemma ReadOnlyOutranks(s: Server)
    ensures GuardMutating(s) == ReadOnly <==> s.readOnly
    ensures GuardMutating(s) == Busy <==> !s.readOnly && s.permit.holder.Some?
    ensures GuardMutating(s) == Admitted <==> !s.readOnly && s.permit.holder == None
  {
  }

  /** A synchronous request is answered in one step: refused as read-only, refused as busy, or
      admitted, and then no job was waiting. */
  lemma RequestsNeverWaitOrOvertake(s: Server, request: nat)
    requires Inv(s)
    ensures var t := Step(s, BeginRequest(request));
            match GuardMutating(s)
            case ReadOnly => s.readOnly && t == s
            case Busy => !s.readOnly && s.permit.holder.Some? && t == s
            case Admitted => !s.readOnly && s.permit.queue == [] && t.permit.holder == Some(Request(request))
  {
    hide RecordOk, RanOk, OneActive, Ordered, QueueOk;
  }

  /** Jobs get the permit in the order in which they first asked for it, whatever else happens in
      between: who arrived before a job that has been served was served before it. */
  lemma NoOvertaking(s: Server, es: seq<Event>, i: nat, j: nat)
    requires Inv(s) && i < j < |s.arrivals|
    ensures var t := Run(s, es);
            && t.arrivals == t.granted + t.permit.queue && s.arrivals <= t.arrivals
            && (s.arrivals[j] in t.granted ==>
                  i < j < |t.granted| && t.granted[i] == s.arrivals[i] && t.granted[j] == s.arrivals[j])
            && (t.permit.holder == None ==> t.permit.queue == [] && t.granted == t.arrivals)
  {
    hide RecordOk, RanOk, OneActive, Ordered, Step;
    SameMode(s, es);
    var t := Run(s, es);
    if s.arrivals[j] in t.granted {
      var k :| 0 <= k < |t.granted| && t.granted[k] == s.arrivals[j];
      assert t.arrivals[k] == t.granted[k] && t.arrivals[j] == s.arrivals[j];
    }
  }

  // ----- The life of a job.

  /** What one step may do to a record. */
  predicate Edge(before: Job, after: Job) {
    && (before.status == after.status ==> before.finishedAt == after.finishedAt)
    && (before.status != after.status ==>
          || (before.status == Queued && after.status == Running && after.finishedAt == None)
          || (before.status == Queued && after.status == Cancelled && after.finishedAt.Some?)
          || (before.status == Running && after.status.IsTerminal() && after.finishedAt.Some?))
  }

  /** Records follow Queued, Running, terminal; live ones are never dropped, and dropped ones never
      come back. */
  lemma StepEdges(s: Server, e: Event, id: JobId)
    requires Inv(s) && id in s.tasks
    ensures var t := Step(s, e);
            && id in t.tasks
            && (id in s.jobs && id in t.jobs ==> Edge(s.jobs[id], t.jobs[id]))
            && (id in s.jobs && id !in t.jobs ==> s.jobs[id].status.IsTerminal())
            && (id !in s.jobs ==> id !in t.jobs)
  {
    hide PermitOk, QueueOk, RanOk, OneActive, Ordered, Active;
    InvQueue(s);
    assert RecordOk(s, id);
    match e
    case Finish(j, _, _) => assert RecordOk(s, j);
    case Log(j, line) => if Enabled(s, e) { PushLogKeeps(s.jobs[j], line); }
    case Submit(_, _, _, _, _) => if Enabled(s, e) { SweptKeeps(s.jobs, e, s.next, id); }
    case _ =>
  }

  lemma SweptKeeps(jobs: Jobs, e: Event, next: nat, id: JobId)
    requires e.Submit? && Swept(jobs[e.id := NewJob(e.command, e.repo, next)], e.after) && id != e.id
    ensures id in e.after ==> id in jobs && e.after[id] == jobs[id]
    ensures id in jobs && id !in e.after ==> jobs[id].status.IsTerminal()
  {
  }

  /** Terminal statuses are never left: the record keeps its status and its finish time until it is
      evicted, and an evicted one does not come back. */
  lemma {:induction false} TerminalIsFinal(s: Server, es: seq<Event>, id: JobId, job: Job)
    requires Inv(s) && id in s.tasks && job.status.IsTerminal()
    requires id in s.jobs ==> s.jobs[id].status == job.status && s.jobs[id].finishedAt == job.finishedAt
    ensures var t := Run(s, es);
            id in t.jobs ==> t.jobs[id].status == job.status && t.jobs[id].finishedAt == job.finishedAt
    decreases |es|
  {
    hide Inv, Step;
    if es != [] {
      InvQueue(s);
      StepKeepsInv(s, es[0]);
      StepEdges(s, es[0], id);
      TerminalIsFinal(Step(s, es[0]), es[1..], id, job);
    }
  }

  /** The task of a flagged job that has not started leaves without running the body. */
  ghost predicate WillNotRun(s: Server, id: JobId) {
    id in s.tasks && id in s.flags && id !in s.ran && s.tasks[id].pc != Body
  }

  lemma ReleaseWillNotRun(s: Server, id: JobId)
    requires QueueKnown(s) && WillNotRun(s, id)
    ensures WillNotRun(Release(s), id)
  {
  }

  lemma StepWillNotRun(s: Server, e: Event, id: JobId)
    requires Inv(s) && WillNotRun(s, id)
    ensures WillNotRun(Step(s, e), id)
  {
    hide OneActive, Ordered, QueueOk, RanOk, PermitOk, Active, Swept, SetStatus, PushLog, Release;
    InvQueue(s);
    assert RecordOk(s, id);
    match e
    case EndRequest => ReleaseWillNotRun(s, id);
    case Start(j) => if Enabled(s, e) { ReleaseWillNotRun(At(s, j, Exited), id); }
    case Exit(j) => if Enabled(s, e) { ReleaseWillNotRun(At(s, j, Exited), id); }
    case _ =>
  }

  lemma {:induction false} NeverRuns(s: Server, es: seq<Event>, id: JobId)
    requires Inv(s) && WillNotRun(s, id)
    ensures WillNotRun(Run(s, es), id)
    decreases |es|
  {
    hide Inv, Step, WillNotRun;
    if es != [] {
      InvQueue(s);
      StepKeepsInv(s, es[0]);
      StepWillNotRun(s, es[0], id);
      NeverRuns(Step(s, es[0]), es[1..], id);
    }
  }

  /** A job cancelled while queued never runs its body, in any continuation: not even when its
      record is evicted before its task wakes up. */
  lemma CancelledWhileQueuedNeverRuns(s: Server, id: JobId, now: nat, es: seq<Event>)
    requires Inv(s) && Cancel(s.jobs, s.flags, id, now).0 == NowCancelled
    ensures QueueKnown(s) && Inv(Step(s, CancelJob(id, now)))
    ensures var t := Step(s, CancelJob(id, now));
            && t.jobs[id].status == Cancelled && t.jobs[id].finishedAt == Some(now)
            && id !in Run(t, es).ran
  {
    hide PermitOk, QueueOk, OneActive, Ordered;
    InvQueue(s);
    StepKeepsInv(s, CancelJob(id, now));
    assert RecordOk(s, id);
    NeverRuns(Step(s, CancelJob(id, now)), es, id);
  }

  /** In every reachable state: a body is started at most once and only while its task had what it
      needs, `finished_at` is set exactly in terminal states, the log tail holds the last twenty
      lines pushed, running jobs keep their records, and a repository has one live job per command. */
  lemma ReachableRecords(readOnly: bool, es: seq<Event>, id: JobId)
    ensures var s := FromStart(readOnly, es);
            && Distinct(s.ran)
            && (id in s.ran ==> id in s.tasks && !BeforeBody(s.tasks[id]))
            && (id in s.jobs ==> (s.jobs[id].finishedAt.Some? <==> s.jobs[id].status.IsTerminal()))
            && (id in s.jobs ==> s.jobs[id].logTail == LastOf(s.jobs[id].pushed, LOG_TAIL_CAP))
            && (id in s.tasks && s.tasks[id].pc == Body ==> id in s.jobs && s.jobs[id].status == Running)
            && (forall other :: id in s.jobs && other in s.jobs && Rivals(s.jobs[id], s.jobs[other]) ==> id == other)
  {
    hide PermitOk, QueueOk, Ordered, Run, Step;
    var s := FromStart(readOnly, es);
    assert RecordOk(s, id);
  }

  // ----- What a submission starts, and how it ends.

  /** A queued or running job for this command and repository. */
  ghost predicate HasLive(jobs: Jobs, command: string, repo: string) {
    exists id :: id in jobs && jobs[id].command == command && jobs[id].repo == Some(repo) && IsLive(jobs[id])
  }

  predicate IsLive(job: Job) {
    job.status == Queued || job.status == Running
  }

  /** A submission is accepted unless it would write on a read-only server, or a live job for the same
      command and repository is there. The new record carries what was submitted. */
  lemma SubmitAccepted(s: Server, e: Event)
    requires Inv(s) && e.Submit? && e.id !in s.tasks && e.id !in s.jobs
    requires Swept(s.jobs[e.id := NewJob(e.command, e.repo, s.next)], e.after)
    ensures QueueKnown(s)
    ensures var t := Step(s, e);
            if (s.readOnly && e.mutating) || (e.repo.Some? && HasLive(s.jobs, e.command, e.repo.value)) then
              t.jobs == s.jobs && t.tasks == s.tasks && t.permit == s.permit
            else
              && e.id in t.tasks && t.tasks[e.id] == Task(e.mutating, Spawned, s.next)
              && e.id in t.jobs && t.jobs[e.id] == Job(e.command, e.repo, Queued, None, s.next, [], [])
              && t.permit == s.permit
  {
    hide PermitOk, QueueOk, RanOk, OneActive, Ordered, RecordOk;
    InvQueue(s);
    var job := NewJob(e.command, e.repo, s.next);
    assert !s.jobs[e.id := job][e.id].status.IsTerminal();
    assert forall id :: id in s.jobs ==> (s.jobs[id].status.IsTerminal() <==> !IsLive(s.jobs[id]));
  }

  /** A record keeps the command and the repository it was submitted with. */
  lemma StepLabels(s: Server, e: Event, id: JobId)
    requires Inv(s) && id in s.tasks
    ensures QueueKnown(s)
    ensures var t := Step(s, e);
            && id in t.tasks
            && (id in t.jobs ==>
                  id in s.jobs && t.jobs[id].command == s.jobs[id].command && t.jobs[id].repo == s.jobs[id].repo)
  {
    hide PermitOk, QueueOk, RanOk, OneActive, Ordered, Active, RecordOk;
    InvQueue(s);
    match e
    case Log(j, line) => if Enabled(s, e) { PushLogKeeps(s.jobs[j], line); }
    case Submit(_, _, _, _, _) => if Enabled(s, e) { SweptKeeps(s.jobs, e, s.next, id); }
    case _ =>
  }

  lemma {:induction false} RunLabels(s: Server, es: seq<Event>, id: JobId)
    requires Inv(s) && id in s.tasks
    ensures var t := Run(s, es);
            && id in t.tasks
            && (id in t.jobs ==>
                  id in s.jobs && t.jobs[id].command == s.jobs[id].command && t.jobs[id].repo == s.jobs[id].repo)
    decreases |es|
  {
    hide Inv, Step;
    if es != [] {
      InvQueue(s);
      StepKeepsInv(s, es[0]);
      StepLabels(s, es[0], id);
      RunLabels(Step(s, es[0]), es[1..], id);
    }
  }

  /** After an accepted submission for a repository, and whatever happens then, another one for the
      same command and repository is refused as long as the first job is queued or running. */
  lemma RivalRefused(s: Server, first: Event, es: seq<Event>, second: Event)
    requires Inv(s) && first.Submit? && Enabled(s, first) && first.repo.Some?
    requires second.Submit? && second.command == first.command && second.repo == first.repo
    ensures QueueKnown(s) && Inv(Step(s, first))
    ensures var t := Run(Step(s, first), es);
            && QueueKnown(t)
            && (first.id in Step(s, first).tasks && first.id in t.jobs && IsLive(t.jobs[first.id]) ==>
                  Step(t, second).jobs == t.jobs && Step(t, second).tasks == t.tasks)
  {
    hide Inv, Step, Enabled;
    InvQueue(s);
    SubmitEnabled(s, first);
    StepKeepsInv(s, first);
    SubmitAccepted(s, first);
    var u := Step(s, first);
    var t := Run(u, es);
    InvQueue(t);
    if first.id in u.tasks {
      NewTask(s, first);
      RunLabels(u, es, first.id);
      SubmitEnabled(t, second);
      if Enabled(t, second) {
        SubmitAccepted(t, second);
      } else {
        NotEnabled(t, second);
      }
    }
  }

  lemma NewTask(s: Server, e: Event)
    requires Enabled(s, e) && e.Submit?
    ensures e.id !in s.tasks && e.id !in s.jobs
  {
  }

  lemma SubmitEnabled(s: Server, e: Event)
    requires e.Submit?
    ensures Enabled(s, e)
       <==> && e.id !in s.tasks && e.id !in s.jobs
            && Swept(s.jobs[e.id := NewJob(e.command, e.repo, s.next)], e.after)
  {
  }

  lemma NotEnabled(s: Server, e: Event)
    requires QueueKnown(s) && !Enabled(s, e)
    ensures Step(s, e) == s
  {
  }

  /** A job that has what it needs and was not cancelled runs: its body is started, its outcome is
      recorded as it is, and a mutating one gives the permit to the next. */
  lemma RunsToItsOutcome(s: Server, id: JobId, outcome: Status, now: nat)
    requires Inv(s) && id in s.tasks && s.tasks[id].pc == (if s.tasks[id].mutating then Holding else Spawned)
    requires id !in s.flags && outcome != Queued && outcome != Running
    ensures id in s.jobs
    ensures var t := Run(s, [Start(id), Finish(id, outcome, now), Exit(id)]);
            && t.ran == s.ran + [id] && id in t.tasks && t.tasks[id].pc == Exited
            && t.jobs == s.jobs[id := s.jobs[id].(status := outcome, finishedAt := Some(now))]
            && t.permit.holder != Some(JobTask(id)) && t.arrivals == s.arrivals
            && (s.permit.holder != Some(JobTask(id)) ==> t.permit == s.permit)
  {
    hide Inv, Step;
    var s1 := StartIs(s, id);
    var s2 := FinishIs(s1, id, outcome, now);
    var s3 := ExitIs(s2, id);
    RunStep(s, Start(id), [Finish(id, outcome, now), Exit(id)]);
    RunStep(s1, Finish(id, outcome, now), [Exit(id)]);
    RunStep(s2, Exit(id), []);
    RunStep(s3, Exit(id), []);
    assert [Start(id)] + [Finish(id, outcome, now), Exit(id)] == [Start(id), Finish(id, outcome, now), Exit(id)];
    assert [Finish(id, outcome, now)] + [Exit(id)] == [Finish(id, outcome, now), Exit(id)];
    assert [Exit(id)] + [] == [Exit(id)];
  }

  lemma StartIs(s: Server, id: JobId) returns (t: Server)
    requires Inv(s) && id in s.tasks && s.tasks[id].pc == (if s.tasks[id].mutating then Holding else Spawned)
    requires id !in s.flags
    ensures QueueKnown(s) && t == Step(s, Start(id)) && Inv(t)
    ensures id in s.jobs
    ensures t == At(s.(jobs := s.jobs[id := s.jobs[id].(status := Running)], ran := s.ran + [id]), id, Body)
  {
    hide PermitOk, QueueOk, RanOk, OneActive, Ordered;
    InvQueue(s);
    assert RecordOk(s, id);
    StepKeepsInv(s, Start(id));
    t := Step(s, Start(id));
  }

  lemma FinishIs(s: Server, id: JobId, outcome: Status, now: nat) returns (t: Server)
    requires Inv(s) && id in s.tasks && s.tasks[id].pc == Body && outcome != Queued && outcome != Running
    ensures QueueKnown(s) && t == Step(s, Finish(id, outcome, now)) && Inv(t)
    ensures id in s.jobs
    ensures t == At(s.(jobs := s.jobs[id := s.jobs[id].(status := outcome, finishedAt := Some(now))]), id, Recorded)
  {
    hide PermitOk, QueueOk, RanOk, OneActive, Ordered;
    InvQueue(s);
    assert RecordOk(s, id);
    StepKeepsInv(s, Finish(id, outcome, now));
    t := Step(s, Finish(id, outcome, now));
  }

  lemma ExitIs(s: Server, id: JobId) returns (t: Server)
    requires Inv(s) && id in s.tasks && s.tasks[id].pc == Recorded
    ensures QueueKnown(s) && t == Step(s, Exit(id)) && Inv(t)
    ensures t.jobs == s.jobs && t.ran == s.ran && t.arrivals == s.arrivals && id in t.tasks && t.tasks[id].pc == Exited
    ensures t.permit.holder != Some(JobTask(id))
    ensures s.permit.holder != Some(JobTask(id)) ==> t.permit == s.permit
  {
    hide RecordOk, QueueOk, RanOk, OneActive, Ordered;
    InvQueue(s);
    StepKeepsInv(s, Exit(id));
    t := Step(s, Exit(id));
    assert s.permit.queue != [] ==> s.permit.queue[0] in s.permit.queue;
  }

  /** When a request or a mutating job is done, the task that has waited longest has the permit; when
      nobody waits it is free. */
  lemma PermitPassedOn(s: Server, e: Event)
    requires Inv(s)
    requires || (e == EndRequest && s.permit.holder.Some? && s.permit.holder.value.Request?)
             || (e.Exit? && e.id in s.tasks && s.tasks[e.id] == Task(true, Recorded, s.tasks[e.id].number))
    ensures QueueKnown(s)
    ensures var t, q := Step(s, e), s.permit.queue;
            && t.jobs == s.jobs && t.arrivals == s.arrivals
            && (if q == [] then t.permit == Permit(None, []) && t.granted == s.granted
                else && t.permit == Permit(Some(JobTask(q[0])), q[1..]) && t.granted == s.granted + [q[0]]
                     && q[0] in t.tasks && t.tasks[q[0]].pc == Holding)
  {
    hide RecordOk, QueueOk, RanOk, OneActive, Ordered;
    InvQueue(s);
    assert s.permit.queue != [] ==> s.permit.queue[0] in s.permit.queue;
  }

  /** A cancellation ends a queued job, asks a running one to stop, and leaves every other one alone. */
  lemma CancelMeans(s: Server, id: JobId, now: nat)
    requires Inv(s)
    ensures QueueKnown(s)
    ensures var t := Step(s, CancelJob(id, now));
            && t.tasks == s.tasks && t.permit == s.permit
            && t.flags == (if id in s.jobs && IsLive(s.jobs[id]) then s.flags + {id} else s.flags)
            && t.jobs == (if id in s.jobs && s.jobs[id].status == Queued
                          then s.jobs[id := s.jobs[id].(status := Cancelled, finishedAt := Some(now))] else s.jobs)
  {
    hide PermitOk, RecordOk, QueueOk, RanOk, OneActive, Ordered;
    InvQueue(s);
  }

  /** A line logged for a job is the last of its tail, and the oldest went if there were twenty. */
  lemma LogMeans(s: Server, id: JobId, line: string)
    requires Inv(s) && id in s.jobs
    ensures QueueKnown(s)
    ensures var t := Step(s, Log(id, line)); var before := s.jobs[id].logTail;
            && t.tasks == s.tasks && t.permit == s.permit && t.jobs.Keys == s.jobs.Keys
            && t.jobs[id].logTail == (if |before| < 20 then before else before[1..]) + [line]
            && t.jobs[id].status == s.jobs[id].status
            && (forall other :: other in s.jobs && other != id ==> t.jobs[other] == s.jobs[other])
  {
    hide PermitOk, QueueOk, RanOk, OneActive, Ordered;
    InvQueue(s);
    assert RecordOk(s, id);
  }

  // ----- What is not promised.

  lemma RunStep(s: Server, e: Event, es: seq<Event>)
    requires Inv(s)
    ensures QueueKnown(s) && Inv(Step(s, e)) && Run(s, [e] + es) == Run(Step(s, e), es)
    ensures Run(s, []) == s
  {
    hide Inv, Step;
    InvQueue(s);
    StepKeepsInv(s, e);
    assert ([e] + es)[1..] == es;
  }

  lemma SubmitStep(s: Server, id: JobId, after: Jobs)
    requires QueueKnown(s) && !s.readOnly && id !in s.tasks && id !in s.jobs && Finished(s.jobs) == {}
    requires after == s.jobs[id := NewJob("gc", None, s.next)]
    ensures var t := Step(s, Submit(id, "gc", None, true, after));
            && t == s.(jobs := after, next := s.next + 1, tasks := s.tasks[id := Task(true, Spawned, s.next)])
            && Finished(after) == {}
  {
    assert Finished(after) == {};
  }

  lemma AcquireStep(s: Server, id: JobId)
    requires QueueKnown(s) && id in s.tasks && s.tasks[id].mutating && s.tasks[id].pc == Spawned
    ensures var t := Step(s, Acquire(id));
            && t.tasks == s.tasks[id := s.tasks[id].(pc := if s.permit.holder == None then Holding else Waiting)]
            && t.granted == (if s.permit.holder == None then s.granted + [id] else s.granted)
            && t.permit == (if s.permit.holder == None then s.permit.(holder := Some(JobTask(id)))
                            else s.permit.(queue := s.permit.queue + [id]))
  {
  }

  /** Two mutating jobs submitted one after the other, whose tasks the runtime polls the other way
      round: the order of arrival is that of the first poll, not that of submission. */
  lemma SubmissionOrderIsNotKept(a: JobId, b: JobId)
    requires a != b
    ensures var first := map[a := NewJob("gc", None, 0)];
            var es := [Submit(a, "gc", None, true, first),
                       Submit(b, "gc", None, true, first[b := NewJob("gc", None, 1)]),
                       Acquire(b), Acquire(a)];
            FromStart(false, es).granted == [b] && FromStart(false, es).permit.queue == [a]
  {
    hide Inv, Step, Run, Swept;
    var first := map[a := NewJob("gc", None, 0)];
    var e0, e1 := Submit(a, "gc", None, true, first), Submit(b, "gc", None, true, first[b := NewJob("gc", None, 1)]);
    var s0 := Init(false);
    InitInv(false);
    assert s0.jobs[a := NewJob("gc", None, 0)] == first;
    RunStep(s0, e0, [e1, Acquire(b), Acquire(a)]);
    SubmitStep(s0, a, first);
    var s1 := Step(s0, e0);
    RunStep(s1, e1, [Acquire(b), Acquire(a)]);
    SubmitStep(s1, b, first[b := NewJob("gc", None, 1)]);
    var s2 := Step(s1, e1);
    RunStep(s2, Acquire(b), [Acquire(a)]);
    AcquireStep(s2, b);
    var s3 := Step(s2, Acquire(b));
    RunStep(s3, Acquire(a), []);
    AcquireStep(s3, a);
    RunStep(Step(s3, Acquire(a)), Acquire(a), []);
    assert [e0] + [e1, Acquire(b), Acquire(a)] == [e0, e1, Acquire(b), Acquire(a)];
    assert [e1] + [Acquire(b), Acquire(a)] == [e1, Acquire(b), Acquire(a)];
    assert [Acquire(b)] + [Acquire(a)] == [Acquire(b), Acquire(a)] && [Acquire(a)] + [] == [Acquire(a)];
  }
}
