/** The job table as the object the server shares: each method is one hold of its lock. */
module JobRegistryCode {
  import opened Options
  import opened JobRegistry

  /** A job that is neither waiting nor running any more. */
  predicate Ended(job: Job) {
    job.status != Queued && job.status != Running
  }

  /** A queued or running job for this command and repository. */
  predicate Live(job: Job, command: string, repo: string) {
    job.command == command && job.repo == Some(repo) && (job.status == Queued || job.status == Running)
  }

  lemma RivalIff(jobs: Jobs, command: string, repo: string)
    ensures Active(jobs, command, repo) <==> exists id :: id in jobs && Live(jobs[id], command, repo)
  {
    if id :| id in jobs && Live(jobs[id], command, repo) {
      assert !jobs[id].status.IsTerminal();
    }
  }

  lemma NewJobIs(command: string, repo: Option<string>, order: nat)
    ensures NewJob(command, repo, order) == Job(command, repo, Queued, None, order, [], [])
    ensures repo.Some? ==> Live(NewJob(command, repo, order), command, repo.value)
  {
  }

  /** The table is in order: jobs are numbered as they came, and tails are the last lines. */
  ghost predicate InOrder(jobs: Jobs, next: nat) {
    Ordered(jobs, next) && forall id :: id in jobs ==> jobs[id].logTail == LastOf(jobs[id].pushed, LOG_TAIL_CAP)
  }

  /** An insertion, and what the sweep after it leaves. */
  lemma SweptPlain(jobs: Jobs, id: JobId, job: Job, after: Jobs)
    requires Swept(jobs[id := job], after) && id !in jobs && job.status == Queued
    ensures id in after && after[id] == job && |Finished(after)| <= 100
    ensures forall other :: other in jobs && other !in after ==> Ended(jobs[other])
    ensures forall other :: other in after && other != id ==> other in jobs && after[other] == jobs[other]
    ensures forall gone :: gone in jobs && gone !in after ==> |Finished(after)| == 100
    ensures forall gone, kept :: gone in jobs && gone !in after && kept in after && Ended(after[kept]) ==>
              jobs[gone].order < after[kept].order
  {
    forall gone, kept | gone in jobs && gone !in after && kept in after && Ended(after[kept])
      ensures jobs[gone].order < after[kept].order
    {
      assert kept in Finished(after) && gone in jobs[id := job];
    }
    assert !jobs[id := job][id].status.IsTerminal();
  }

  lemma InOrderLater(jobs: Jobs, next: nat)
    requires InOrder(jobs, next)
    ensures InOrder(jobs, next + 1)
  {
  }

  lemma InsertedInOrder(jobs: Jobs, next: nat, id: JobId, job: Job)
    requires InOrder(jobs, next) && id !in jobs && job.order == next && job.logTail == [] && job.pushed == []
    ensures InOrder(jobs[id := job], next + 1)
  {
  }

  lemma SweptInOrder(jobs: Jobs, next: nat, after: Jobs)
    requires InOrder(jobs, next) && Swept(jobs, after)
    ensures InOrder(after, next)
  {
    assert forall id :: id in after ==> id in jobs && after[id] == jobs[id];
    hide Swept;
  }

  lemma EndedAreFinished(jobs: Jobs)
    ensures (set id | id in jobs && Ended(jobs[id])) == Finished(jobs)
  {
  }

  class Registry {
    var jobs: Jobs
    var flags: set<JobId>
    var nextSeq: nat

    ghost predicate Valid()
      reads this
    {
      InOrder(jobs, nextSeq)
    }

    constructor ()
      ensures Valid() && jobs == map[] && flags == {} && nextSeq == 0
    {
      jobs, flags, nextSeq := map[], {}, 0;
    }

    /** `insert` and, with a repository, `insert_for_unless_active`: the check for a live rival, the
        insertion and the sweep under one lock. */
    method Insert(id: JobId, command: string, repo: Option<string>) returns (accepted: bool)
      requires Valid() && id !in jobs
      modifies this
      ensures Valid() && flags == old(flags) && nextSeq == old(nextSeq) + 1
      ensures accepted <==> !(repo.Some? && Active(old(jobs), command, repo.value))
      ensures if accepted then Swept(old(jobs)[id := NewJob(command, repo, old(nextSeq))], jobs) && id in jobs
              else jobs == old(jobs)
      // refused exactly when a live job for the same command and repository is there
      ensures !accepted
         <==> repo.Some? && exists other :: other in old(jobs) && Live(old(jobs[other]), command, repo.value)
      // what the record says, and that it is a rival to every later insertion
      ensures accepted ==> id in jobs && jobs[id] == Job(command, repo, Queued, None, old(nextSeq), [], [])
      ensures accepted && repo.Some? ==> Live(jobs[id], command, repo.value) && Active(jobs, command, repo.value)
      // live jobs stay, records are not changed, and at most a hundred finished ones are left
      ensures forall other :: other in old(jobs) && other !in jobs ==> Ended(old(jobs[other]))
      ensures forall other :: other in jobs && other != id ==> other in old(jobs) && jobs[other] == old(jobs[other])
      ensures accepted ==> |set other | other in jobs && Ended(jobs[other])| <= 100
      // finished ones go only to make room for a hundred, oldest first
      ensures forall gone :: gone in old(jobs) && gone !in jobs ==>
                |set other | other in jobs && Ended(jobs[other])| == 100
      ensures forall gone, kept :: gone in old(jobs) && gone !in jobs && kept in jobs && Ended(jobs[kept]) ==>
                old(jobs[gone]).order < jobs[kept].order
    {
      hide Ordered, Swept, Active, LastOf, NewJob, Live, Ended, Finished;
      if repo.Some? { RivalIff(jobs, command, repo.value); }
      var job := NewJob(command, repo, nextSeq);
      nextSeq := nextSeq + 1;
      NewJobIs(command, repo, old(nextSeq));
      InOrderLater(jobs, old(nextSeq));
      if repo.Some? && Active(jobs, command, repo.value) { return false; }
      var inserted := jobs[id := job];
      InsertedInOrder(jobs, old(nextSeq), id, job);
      jobs := EvictFinished(inserted, nextSeq);
      SweptPlain(old(jobs), id, job, jobs);
      SweptInOrder(inserted, nextSeq, jobs);
      if repo.Some? { RivalIff(jobs, command, repo.value); }
      EndedAreFinished(jobs);
      return true;
    }

    method CancelJob(id: JobId, now: nat) returns (outcome: CancelOutcome)
      requires Valid()
      modifies this
      ensures Valid() && nextSeq == old(nextSeq)
      ensures (outcome, jobs, flags) == old(Cancel(jobs, flags, id, now))
      ensures outcome == NotFound <==> id !in old(jobs)
      ensures outcome == AlreadyFinished <==> id in old(jobs) && Ended(old(jobs[id]))
      ensures outcome == NowCancelled <==> id in old(jobs) && old(jobs[id]).status == Queued
      ensures outcome == Requested <==> id in old(jobs) && old(jobs[id]).status == Running
      // a live job is flagged in either case, and only a queued one is ended here
      ensures flags == (if id in old(jobs) && !Ended(old(jobs[id])) then old(flags) + {id} else old(flags))
      ensures jobs == if outcome == NowCancelled
                      then old(jobs)[id := old(jobs[id]).(status := Cancelled, finishedAt := Some(now))]
                      else old(jobs)
    {
      if id !in jobs { return NotFound; }
      var job := jobs[id];
      if job.status.IsTerminal() { return AlreadyFinished; }
      flags := flags + {id};
      if job.status.Queued? {
        job := job.(finishedAt := Some(now));
        job := job.(status := Cancelled);
        jobs := jobs[id := job];
        return NowCancelled;
      }
      return Requested;
    }

    method Start(id: JobId) returns (started: bool)
      requires Valid()
      modifies this
      ensures Valid() && nextSeq == old(nextSeq) && flags == old(flags)
      ensures (started, jobs) == old(TryStart(jobs, flags, id))
      ensures started <==> id in old(jobs) && old(jobs[id]).status == Queued && id !in flags
      ensures jobs == if started then old(jobs)[id := old(jobs[id]).(status := Running)] else old(jobs)
    {
      if id !in jobs { return false; }
      if !jobs[id].status.Queued? || id in flags { return false; }
      jobs := jobs[id := jobs[id].(status := Running)];
      return true;
    }

    method SetJobStatus(id: JobId, status: Status, now: nat) returns (found: bool)
      requires Valid()
      modifies this
      ensures Valid() && nextSeq == old(nextSeq) && flags == old(flags)
      ensures found == (id in old(jobs)) && jobs == old(SetStatus(jobs, id, status, now))
      ensures !found || Ended(old(jobs[id])) ==> jobs == old(jobs)
      ensures found && !Ended(old(jobs[id])) ==>
                var finished := if status == Queued || status == Running then None else Some(now);
                jobs == old(jobs)[id := old(jobs[id]).(status := status, finishedAt := finished)]
    {
      var finishedAt := if status.IsTerminal() then Some(now) else None;
      if id !in jobs { return false; }
      if !jobs[id].status.IsTerminal() {
        jobs := jobs[id := jobs[id].(finishedAt := finishedAt, status := status)];
      }
      return true;
    }

    /** The tail is bounded and always the last lines pushed, in order. */
    method AppendLog(id: JobId, line: string) returns (found: bool)
      requires Valid()
      modifies this
      ensures Valid() && nextSeq == old(nextSeq) && flags == old(flags) && found == (id in old(jobs))
      ensures jobs == if found then old(jobs[id := PushLog(jobs[id], line)]) else old(jobs)
      ensures found ==> jobs[id].pushed == old(jobs[id]).pushed + [line]
      ensures found ==>
                var n := |jobs[id].pushed|;
                jobs[id].logTail == jobs[id].pushed[if n <= 20 then 0 else n - 20..]
      ensures found ==> |jobs[id].logTail| <= LOG_TAIL_CAP
      ensures found ==> jobs[id].logTail == LastOf(old(jobs[id]).pushed + [line], LOG_TAIL_CAP)
    {
      hide PushLog;
      if id !in jobs { return false; }
      var job := jobs[id];
      if |job.logTail| >= LOG_TAIL_CAP {
        job := job.(logTail := job.logTail[1..]);
      }
      job := job.(logTail := job.logTail + [line], pushed := job.pushed + [line]);
      PushLogIs(jobs[id], line, job);
      jobs := jobs[id := job];
      return true;
    }
  }

  lemma PushLogIs(job: Job, line: string, after: Job)
    requires job.logTail == LastOf(job.pushed, LOG_TAIL_CAP)
    requires var tail := if |job.logTail| >= LOG_TAIL_CAP then job.logTail[1..] else job.logTail;
             after == job.(logTail := tail + [line], pushed := job.pushed + [line])
    ensures after == PushLog(job, line) && after.command == job.command && after.order == job.order
    ensures after.logTail == LastOf(after.pushed, LOG_TAIL_CAP) && |after.logTail| <= LOG_TAIL_CAP
  {
  }
}
