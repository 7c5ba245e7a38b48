/** The server's one write permit and its background jobs, as a step system: synchronous requests,
    job tasks, cancellations, in any interleaving. */
module JobServer {
  import opened Options
  import opened JobRegistry

  /** Where a job's task is: not polled yet, waiting for the permit, holding it (or needing none),
      running its body, having recorded the outcome, gone. */
  datatype Pc = Spawned | Waiting | Holding | Body | Recorded | Exited

  /** A job's task, with the number the job drew when it was submitted. */
  datatype Task = Task(mutating: bool, pc: Pc, number: nat)

  datatype Holder = Request(request: nat) | JobTask(id: JobId)

  /** The tokio semaphore with one permit: who has it, and the tasks in its wait queue. */
  datatype Permit = Permit(holder: Option<Holder>, queue: seq<JobId>)

  /** The server. `arrivals` are the tasks in the order in which they first asked for the permit,
      `granted` those that got it, in that order, and `ran` the jobs whose bodies were started. */
  datatype Server = Server(readOnly: bool, permit: Permit, jobs: Jobs, flags: set<JobId>, next: nat,
                           tasks: map<JobId, Task>, arrivals: seq<JobId>, granted: seq<JobId>, ran: seq<JobId>)

  datatype Event =
    | BeginRequest(request: nat)
    | EndRequest
    | Submit(id: JobId, command: string, repo: Option<string>, mutating: bool, after: Jobs)
    | Acquire(id: JobId)
    | Start(id: JobId)
    | Finish(id: JobId, outcome: Status, now: nat)
    | Exit(id: JobId)
    | CancelJob(id: JobId, now: nat)
    | Log(id: JobId, line: string)

  function Init(readOnly: bool): Server {
    Server(readOnly, Permit(None, []), map[], {}, 0, map[], [], [], [])
  }

  /** Every task in the wait queue is known. */
  predicate QueueKnown(s: Server) {
    forall id :: id in s.permit.queue ==> id in s.tasks
  }

  function At(s: Server, id: JobId, pc: Pc): Server
    requires id in s.tasks
  {
    s.(tasks := s.tasks[id := s.tasks[id].(pc := pc)])
  }

  /** Dropping the permit hands it to the task that has waited longest. */
  function Release(s: Server): Server
    requires QueueKnown(s)
  {
    if s.permit.queue == [] then s.(permit := Permit(None, []))
    else
      var first := s.permit.queue[0];
      var t := s.(permit := Permit(Some(JobTask(first)), s.permit.queue[1..]), granted := s.granted + [first]);
      At(t, first, Holding)
  }

  datatype Answer = Admitted | ReadOnly | Busy

  /** `guard_mutating`: read-only outranks everything, then the permit is taken or refused at once. */
  function GuardMutating(s: Server): Answer {
    if s.readOnly then ReadOnly else if s.permit.holder == None then Admitted else Busy
  }

  ghost predicate Enabled(s: Server, e: Event) {
    match e
    case BeginRequest(_) => true
    case EndRequest => s.permit.holder.Some? && s.permit.holder.value.Request?
    case Submit(id, command, repo, mutating, after) =>
      // job ids are 64 random bits and taken never to collide; `after` is the swept table
      id !in s.tasks && id !in s.jobs && Swept(s.jobs[id := NewJob(command, repo, s.next)], after)
    case Acquire(id) => id in s.tasks && s.tasks[id].mutating && s.tasks[id].pc == Spawned
    case Start(id) => id in s.tasks && s.tasks[id].pc == (if s.tasks[id].mutating then Holding else Spawned)
    case Finish(id, outcome, _) => id in s.tasks && s.tasks[id].pc == Body && outcome.IsTerminal()
    case Exit(id) => id in s.tasks && s.tasks[id].pc == Recorded
    case CancelJob(_, _) => true
    case Log(id, _) => id in s.jobs
  }

  /** Leaving the task: a mutating one drops the permit. */
  function Leave(s: Server, id: JobId): Server
    requires id in s.tasks && QueueKnown(s)
  {
    var t := At(s, id, Exited);
    if s.tasks[id].mutating then Release(t) else t
  }

  ghost function Step(s: Server, e: Event): Server
    requires QueueKnown(s)
  {
    if !Enabled(s, e) then s else
    match e
    case BeginRequest(request) =>
      if GuardMutating(s) == Admitted then s.(permit := s.permit.(holder := Some(Request(request)))) else s
    case EndRequest => Release(s)
    case Submit(id, command, repo, mutating, after) =>
      if mutating && s.readOnly then s
      // the number is drawn before the check for a live rival, and a refused job wastes it
      else if repo.Some? && Active(s.jobs, command, repo.value) then s.(next := s.next + 1)
      else s.(jobs := after, next := s.next + 1, tasks := s.tasks[id := Task(mutating, Spawned, s.next)])
    case Acquire(id) =>
      var t := s.(arrivals := s.arrivals + [id]);
      if s.permit.holder == None then
        At(t.(permit := t.permit.(holder := Some(JobTask(id))), granted := t.granted + [id]), id, Holding)
      else At(t.(permit := t.permit.(queue := t.permit.queue + [id])), id, Waiting)
    case Start(id) =>
      var (ok, jobs) := TryStart(s.jobs, s.flags, id);
      // the task's own clone of the flag is asked first, whatever became of the record
      if id in s.flags || !ok then Leave(s, id)
      else At(s.(jobs := jobs, ran := s.ran + [id]), id, Body)
    case Finish(id, outcome, now) => At(s.(jobs := SetStatus(s.jobs, id, outcome, now)), id, Recorded)
    case Exit(id) => Leave(s, id)
    case CancelJob(id, now) =>
      var (_, jobs, flags) := Cancel(s.jobs, s.flags, id, now);
      s.(jobs := jobs, flags := flags)
    case Log(id, line) => s.(jobs := s.jobs[id := PushLog(s.jobs[id], line)])
  }

  // ----- The invariant.

  predicate Holds(t: Task) {
    t.mutating && (t.pc == Holding || t.pc == Body || t.pc == Recorded)
  }

  ghost predicate Distinct<T>(xs: seq<T>) {
    forall i, j :: 0 <= i < j < |xs| ==> xs[i] != xs[j]
  }

  /** The permit and the tasks agree on who holds it and who waits. */
  ghost predicate PermitOk(s: Server) {
    && (s.permit.holder == None ==> s.permit.queue == [])
    && Distinct(s.permit.queue)
    && (forall id :: id in s.permit.queue <==> id in s.tasks && s.tasks[id].pc == Waiting)
    && (forall id :: id in s.tasks && Holds(s.tasks[id]) <==> s.permit.holder == Some(JobTask(id)))
    && (forall id :: id in s.tasks && (s.tasks[id].pc == Waiting || s.tasks[id].pc == Holding) ==> s.tasks[id].mutating)
    && (s.readOnly ==> s.permit.holder == None && forall id :: id in s.tasks ==> !s.tasks[id].mutating)
  }

  /** First come, first served. */
  ghost predicate QueueOk(s: Server) {
    && s.arrivals == s.granted + s.permit.queue
    && (forall id :: id in s.arrivals ==> id in s.tasks && s.tasks[id].mutating && s.tasks[id].pc != Spawned)
    && Distinct(s.arrivals)
  }

  predicate BeforeBody(t: Task) {
    t.pc == Spawned || t.pc == Waiting || t.pc == Holding
  }

  /** A record and its task agree. */
  ghost predicate RecordOk(s: Server, id: JobId) {
    && (id in s.jobs ==> id in s.tasks)
    && (id in s.flags ==> id in s.tasks)
    && (id in s.jobs ==> (s.jobs[id].finishedAt.Some? <==> s.jobs[id].status.IsTerminal()))
    && (id in s.jobs ==> s.jobs[id].logTail == LastOf(s.jobs[id].pushed, LOG_TAIL_CAP))
    && (id in s.jobs && s.jobs[id].status == Queued ==> BeforeBody(s.tasks[id]) && id !in s.flags)
    && (id in s.tasks && BeforeBody(s.tasks[id]) && id !in s.flags ==> id in s.jobs && s.jobs[id].status == Queued)
    && (id in s.tasks && BeforeBody(s.tasks[id]) && id in s.flags ==> id in s.jobs ==> s.jobs[id].status == Cancelled)
    && (id in s.tasks ==> (s.tasks[id].pc == Body <==> id in s.jobs && s.jobs[id].status == Running))
  }

  /** A body is started at most once, and never for a task still before its body. */
  ghost predicate RanOk(s: Server) {
    && Distinct(s.ran)
    && (forall id :: id in s.ran ==> id in s.tasks && !BeforeBody(s.tasks[id]))
  }

  predicate Rivals(a: Job, b: Job) {
    && !a.status.IsTerminal() && !b.status.IsTerminal()
    && a.command == b.command && a.repo.Some? && a.repo == b.repo
  }

  /** At most one live job for a command and repository. */
  ghost predicate OneActive(s: Server) {
    forall a, b :: a in s.jobs && b in s.jobs && Rivals(s.jobs[a], s.jobs[b]) ==> a == b
  }

  ghost predicate Inv(s: Server) {
    && PermitOk(s) && QueueOk(s) && RanOk(s) && OneActive(s) && Ordered(s.jobs, s.next)
    && forall id :: RecordOk(s, id)
  }

  // ----- Releasing the permit.

  /** Nobody has the permit any more, and everything else is in order. */
  ghost predicate Unheld(s: Server) {
    && Distinct(s.permit.queue)
    && (forall id :: id in s.permit.queue <==> id in s.tasks && s.tasks[id].pc == Waiting)
    && (forall id :: id in s.tasks ==> !Holds(s.tasks[id]))
    && (forall id :: id in s.tasks && (s.tasks[id].pc == Waiting || s.tasks[id].pc == Holding) ==> s.tasks[id].mutating)
    && (s.readOnly ==> forall id :: id in s.tasks ==> !s.tasks[id].mutating)
    && QueueOk(s)
  }

  lemma ReleasePermit(s: Server)
    requires Unheld(s)
    ensures PermitOk(Release(s)) && QueueOk(Release(s))
  {
    var t := Release(s);
    var q := s.permit.queue;
    if q != [] {
      assert q[0] in q && q == [q[0]] + q[1..];
      assert q[0] !in q[1..];
      ReleaseQueue(s);
      hide QueueOk;
      assert forall id :: id in q[1..] <==> id in q && id != q[0];
    }
  }

  lemma ReleaseQueue(s: Server)
    requires QueueOk(s) && s.permit.queue != [] && QueueKnown(s)
    ensures QueueOk(Release(s))
  {
    var q := s.permit.queue;
    assert s.granted + q == s.granted + [q[0]] + q[1..];
  }

  /** Releasing moves the head of the queue from waiting to holding and leaves the records alone. */
  lemma ReleaseRest(s: Server, id: JobId)
    requires forall w :: w in s.permit.queue ==> w in s.tasks && s.tasks[w].pc == Waiting
    ensures var t := Release(s);
            && t.tasks.Keys == s.tasks.Keys
            && t.jobs == s.jobs && t.flags == s.flags && t.ran == s.ran && t.next == s.next
            && (RecordOk(s, id) ==> RecordOk(t, id))
            && (RanOk(s) ==> RanOk(t))
  {
    if s.permit.queue != [] {
      assert s.permit.queue[0] in s.permit.queue;
    }
  }

  lemma LeavePermit(s: Server, id: JobId)
    requires PermitOk(s) && QueueOk(s) && id in s.tasks
    requires s.tasks[id].pc == (if s.tasks[id].mutating then Holding else Spawned) || s.tasks[id].pc == Recorded
    ensures PermitOk(Leave(s, id)) && QueueOk(Leave(s, id))
  {
    var t := At(s, id, Exited);
    if s.tasks[id].mutating {
      assert Holds(s.tasks[id]);
      ReleasePermit(t);
    }
  }

  lemma LeaveRest(s: Server, id: JobId, other: JobId)
    requires Inv(s) && id in s.tasks
    requires s.tasks[id].pc == Recorded
          || (s.tasks[id].pc == (if s.tasks[id].mutating then Holding else Spawned) && id in s.flags)
    ensures var t := Leave(s, id);
            t.jobs == s.jobs && t.flags == s.flags && t.next == s.next && RecordOk(t, other) && RanOk(t)
  {
    var t := At(s, id, Exited);
    assert RecordOk(s, other) && RecordOk(s, id);
    ReleaseRest(t, other);
  }

  // ----- Each step keeps the invariant: the permit and the queue.

  /** Steps that do not touch the permit, the queue or the stages they depend on. */
  lemma SamePermit(s: Server, t: Server)
    requires PermitOk(s) && QueueOk(s)
    requires t.permit == s.permit && t.readOnly == s.readOnly && t.arrivals == s.arrivals && t.granted == s.granted
    requires t.tasks == s.tasks
    ensures PermitOk(t) && QueueOk(t)
  {
  }

  /** The step of one task that keeps what it has of the permit. */
  lemma MovePermit(s: Server, id: JobId, pc: Pc, t: Server)
    requires PermitOk(s) && QueueOk(s) && id in s.tasks && t == At(s, id, pc)
    requires Holds(s.tasks[id]) == Holds(s.tasks[id].(pc := pc)) && s.tasks[id].pc != Waiting
    requires pc != Waiting && pc != Spawned && (pc == Holding ==> s.tasks[id].mutating)
    ensures PermitOk(t) && QueueOk(t)
  {
  }

  lemma NewTaskPermit(s: Server, id: JobId, mutating: bool, t: Server)
    requires PermitOk(s) && QueueOk(s) && id !in s.tasks && !(mutating && s.readOnly)
    requires t == s.(tasks := s.tasks[id := Task(mutating, Spawned, s.next)])
    ensures PermitOk(t) && QueueOk(t)
  {
  }

  lemma BeginPermit(s: Server, request: nat)
    requires PermitOk(s) && QueueOk(s) && GuardMutating(s) == Admitted
    ensures var t := s.(permit := s.permit.(holder := Some(Request(request)))); PermitOk(t) && QueueOk(t)
  {
  }

  lemma EndPermit(s: Server)
    requires PermitOk(s) && QueueOk(s) && Enabled(s, EndRequest)
    ensures PermitOk(Release(s)) && QueueOk(Release(s))
  {
    hide Release;
    ReleasePermit(s);
  }

  lemma AcquirePermit(s: Server, id: JobId)
    requires PermitOk(s) && QueueOk(s) && Enabled(s, Acquire(id))
    ensures PermitOk(Step(s, Acquire(id))) && QueueOk(Step(s, Acquire(id)))
  {
    var t := Step(s, Acquire(id));
    assert id !in s.arrivals && id !in s.permit.queue;
    assert t.arrivals == t.granted + t.permit.queue;
  }

  lemma StepPermit(s: Server, e: Event)
    requires Inv(s)
    ensures PermitOk(Step(s, e)) && QueueOk(Step(s, e))
  {
    hide RecordOk, OneActive, Ordered, RanOk, QueueOk;
    hide Swept, Active, TryStart, Cancel, SetStatus, PushLog, Leave, Release;
    if Enabled(s, e) {
      var t := Step(s, e);
      match e
      case BeginRequest(request) => if GuardMutating(s) == Admitted { BeginPermit(s, request); }
      case EndRequest => EndPermit(s);
      case Submit(id, _, _, mutating, _) =>
        if t.tasks == s.tasks {
          SamePermit(s, t);
        } else {
          var u := s.(tasks := s.tasks[id := Task(mutating, Spawned, s.next)]);
          NewTaskPermit(s, id, mutating, u);
          SamePermit(u, t);
        }
      case Acquire(id) => AcquirePermit(s, id);
      case Start(id) =>
        if id in s.flags || !TryStart(s.jobs, s.flags, id).0 {
          LeavePermit(s, id);
        } else {
          MovePermit(s, id, Body, At(s, id, Body));
          SamePermit(At(s, id, Body), t);
        }
      case Finish(id, _, _) =>
        MovePermit(s, id, Recorded, At(s, id, Recorded));
        SamePermit(At(s, id, Recorded), t);
      case Exit(id) => LeavePermit(s, id);
      case CancelJob(_, _) => SamePermit(s, t);
      case Log(_, _) => SamePermit(s, t);
    }
  }

  // ----- Each step keeps the invariant: the records.

  lemma SubmitRecords(s: Server, e: Event, id: JobId)
    requires e.Submit? && RecordOk(s, id) && RecordOk(s, e.id) && RanOk(s) && Enabled(s, e)
    requires QueueKnown(s)
    ensures RecordOk(Step(s, e), id) && RanOk(Step(s, e))
  {
    hide Active;
    var jobs := s.jobs[e.id := NewJob(e.command, e.repo, s.next)];
    assert !jobs[e.id].status.IsTerminal() && e.id in e.after;
  }

  /** A record that is still queued has its task still before its body, and a flagged task never
      finds its record queued. */
  lemma StartRecords(s: Server, j: JobId, id: JobId)
    requires Inv(s) && Enabled(s, Start(j))
    ensures RecordOk(Step(s, Start(j)), id) && RanOk(Step(s, Start(j)))
  {
    hide OneActive, Ordered, QueueOk, PermitOk, Leave;
    assert RecordOk(s, id) && RecordOk(s, j);
    if j in s.flags || !TryStart(s.jobs, s.flags, j).0 {
      LeaveRest(s, j, id);
    }
  }

  lemma FinishRecords(s: Server, e: Event, id: JobId)
    requires e.Finish? && RecordOk(s, id) && RecordOk(s, e.id) && RanOk(s) && Enabled(s, e)
    requires QueueKnown(s)
    ensures RecordOk(Step(s, e), id) && RanOk(Step(s, e))
  {
  }

  lemma CancelRecords(s: Server, e: Event, id: JobId)
    requires e.CancelJob? && RecordOk(s, id) && RecordOk(s, e.id) && RanOk(s)
    requires QueueKnown(s)
    ensures RecordOk(Step(s, e), id) && RanOk(Step(s, e))
  {
  }

  /** The tail stays the last lines pushed. */
  lemma PushLogTail(job: Job, line: string)
    requires job.logTail == LastOf(job.pushed, LOG_TAIL_CAP)
    ensures PushLog(job, line).logTail == LastOf(job.pushed + [line], LOG_TAIL_CAP)
  {
  }

  lemma LogRecords(s: Server, e: Event, id: JobId)
    requires e.Log? && RecordOk(s, id) && RecordOk(s, e.id) && RanOk(s) && Enabled(s, e)
    requires QueueKnown(s)
    ensures RecordOk(Step(s, e), id) && RanOk(Step(s, e))
  {
    PushLogTail(s.jobs[e.id], e.line);
  }

  lemma AcquireRecords(s: Server, e: Event, id: JobId)
    requires RecordOk(s, id) && RanOk(s) && e.Acquire? && Enabled(s, e)
    requires QueueKnown(s)
    ensures RecordOk(Step(s, e), id) && RanOk(Step(s, e))
  {
  }

  lemma StepRecords(s: Server, e: Event, id: JobId)
    requires Inv(s)
    ensures RecordOk(Step(s, e), id) && RanOk(Step(s, e))
  {
    hide OneActive, Ordered, QueueOk, RecordOk, RanOk;
    assert RecordOk(s, id);
    if Enabled(s, e) {
      match e
      case BeginRequest(_) => SameRecords(s, Step(s, e), id);
      case EndRequest => ReleaseRest(s, id);
      case Submit(j, _, _, _, _) => assert RecordOk(s, j); SubmitRecords(s, e, id);
      case Acquire(_) => AcquireRecords(s, e, id);
      case Start(j) => StartRecords(s, j, id);
      case Finish(j, _, _) => assert RecordOk(s, j); FinishRecords(s, e, id);
      case Exit(j) => LeaveRest(s, j, id);
      case CancelJob(j, _) => assert RecordOk(s, j); CancelRecords(s, e, id);
      case Log(j, _) => assert RecordOk(s, j); LogRecords(s, e, id);
    }
  }

  lemma SameRecords(s: Server, t: Server, id: JobId)
    requires RecordOk(s, id) && RanOk(s)
    requires t.tasks == s.tasks && t.jobs == s.jobs && t.flags == s.flags && t.ran == s.ran
    ensures RecordOk(t, id) && RanOk(t)
  {
  }

  // ----- Each step keeps the invariant: one live job per repository, and the numbering.

  /** Records were dropped, or live jobs ended, and nothing else that rivalry depends on changed. */
  ghost predicate Shrinks(before: Jobs, after: Jobs) {
    forall id :: id in after ==>
      && id in before
      && after[id].command == before[id].command && after[id].repo == before[id].repo
      && after[id].order == before[id].order
      && (before[id].status.IsTerminal() ==> after[id].status.IsTerminal())
  }

  lemma TableShrinks(before: Server, after: Server)
    requires OneActive(before) && Ordered(before.jobs, before.next) && before.next <= after.next
    requires Shrinks(before.jobs, after.jobs)
    ensures OneActive(after) && Ordered(after.jobs, after.next)
  {
    forall a, b | a in after.jobs && b in after.jobs && Rivals(after.jobs[a], after.jobs[b]) ensures a == b {
      assert Rivals(before.jobs[a], before.jobs[b]);
    }
  }

  lemma ShrinkOne(jobs: Jobs, id: JobId, job: Job)
    requires id in jobs && job.command == jobs[id].command && job.repo == jobs[id].repo && job.order == jobs[id].order
    requires jobs[id].status.IsTerminal() ==> job.status.IsTerminal()
    ensures Shrinks(jobs, jobs[id := job])
  {
  }

  lemma TransitionsShrink(jobs: Jobs, flags: set<JobId>, id: JobId, status: Status, now: nat)
    ensures Shrinks(jobs, TryStart(jobs, flags, id).1)
    ensures Shrinks(jobs, SetStatus(jobs, id, status, now))
    ensures Shrinks(jobs, Cancel(jobs, flags, id, now).1)
    ensures Shrinks(jobs, jobs)
  {
    assert Shrinks(jobs, jobs);
    hide Shrinks;
    if id in jobs {
      if jobs[id].status.Queued? { ShrinkOne(jobs, id, jobs[id].(status := Running)); }
      ShrinkOne(jobs, id, jobs[id].(status := Cancelled, finishedAt := Some(now)));
      if !jobs[id].status.IsTerminal() {
        ShrinkOne(jobs, id, jobs[id].(status := status, finishedAt := if status.IsTerminal() then Some(now) else None));
      }
    }
  }

  /** A new job that has no live rival takes the next number. */
  lemma TableGrows(s: Server, id: JobId, command: string, repo: Option<string>, t: Server)
    requires OneActive(s) && Ordered(s.jobs, s.next) && id !in s.jobs
    requires repo.Some? ==> !Active(s.jobs, command, repo.value)
    requires t == s.(jobs := s.jobs[id := NewJob(command, repo, s.next)], next := s.next + 1)
    ensures OneActive(t) && Ordered(t.jobs, t.next)
  {
  }

  lemma LeaveTable(s: Server, id: JobId)
    requires id in s.tasks && QueueKnown(s)
    ensures Leave(s, id).jobs == s.jobs && Leave(s, id).next == s.next
  {
  }

  lemma StepTable(s: Server, e: Event)
    requires Inv(s)
    ensures OneActive(Step(s, e)) && Ordered(Step(s, e).jobs, Step(s, e).next)
  {
    hide RecordOk, QueueOk, RanOk, OneActive, Ordered, Shrinks;
    hide PushLog, Active, Leave, TryStart, SetStatus, Cancel, Release;
    var t := Step(s, e);
    TransitionsShrink(s.jobs, s.flags, "", Queued, 0);
    if Enabled(s, e) {
      match e
      case Submit(id, command, repo, _, after) =>
        if t.jobs == s.jobs {
          TableShrinks(s, t);
        } else {
          var u := s.(jobs := s.jobs[id := NewJob(command, repo, s.next)], next := s.next + 1);
          TableGrows(s, id, command, repo, u);
          SweepShrinks(u.jobs, after);
          TableShrinks(u, t);
        }
      case EndRequest => ReleaseRest(s, ""); TableShrinks(s, t);
      case Start(id) =>
        LeaveTable(s, id);
        TransitionsShrink(s.jobs, s.flags, id, Queued, 0);
        TableShrinks(s, t);
      case Finish(id, outcome, now) =>
        TransitionsShrink(s.jobs, s.flags, id, outcome, now);
        TableShrinks(s, t);
      case CancelJob(id, now) =>
        TransitionsShrink(s.jobs, s.flags, id, Queued, now);
        TableShrinks(s, t);
      case Log(id, line) =>
        PushLogKeeps(s.jobs[id], line);
        ShrinkOne(s.jobs, id, PushLog(s.jobs[id], line));
        TableShrinks(s, t);
      case Exit(id) => LeaveTable(s, id); TableShrinks(s, t);
      case _ => TableShrinks(s, t);
    }
  }

  lemma PushLogKeeps(job: Job, line: string)
    ensures var j := PushLog(job, line);
            j.command == job.command && j.repo == job.repo && j.order == job.order && j.status == job.status
  {
  }

  lemma SweepShrinks(before: Jobs, after: Jobs)
    requires Swept(before, after)
    ensures Shrinks(before, after)
  {
  }

  lemma StepKeepsInv(s: Server, e: Event)
    requires Inv(s)
    ensures Inv(Step(s, e))
  {
    assert QueueKnown(s);
    hide RecordOk, PermitOk, QueueOk, RanOk, OneActive, Ordered, Step, QueueKnown;
    StepPermit(s, e);
    StepTable(s, e);
    forall id ensures RecordOk(Step(s, e), id) && RanOk(Step(s, e)) {
      StepRecords(s, e, id);
    }
    StepRecords(s, e, "");
  }
}
