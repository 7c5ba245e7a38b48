/** The job table of the server: records, their statuses, the cancel flags, the bounded log tail and
    the eviction of finished jobs. */
module JobRegistry {
  import opened Options

  type JobId = string

  const LOG_TAIL_CAP := 20
  const MAX_FINISHED := 100

  datatype Status =
    | Queued
    | Running
    | Done(result: string)
    | Error(code: string, message: string)
    | Cancelled
  {
    predicate IsTerminal() {
      Done? || Error? || Cancelled?
    }
  }

  /** A job's record; `pushed` are all log lines ever pushed, for the record. */
  datatype Job = Job(command: string, repo: Option<string>, status: Status, finishedAt: Option<nat>,
                     order: nat, logTail: seq<string>, pushed: seq<string>)

  type Jobs = map<JobId, Job>

  function NewJob(command: string, repo: Option<string>, order: nat): Job {
    Job(command, repo, Queued, None, order, [], [])
  }

  // ----- The log.

  /** The last `n` of `lines`. */
  function LastOf(lines: seq<string>, n: nat): seq<string> {
    if |lines| <= n then lines else lines[|lines| - n..]
  }

  /** `Job::push_log`. */
  function PushLog(job: Job, line: string): Job {
    var tail := if |job.logTail| >= LOG_TAIL_CAP then job.logTail[1..] else job.logTail;
    job.(logTail := tail + [line], pushed := job.pushed + [line])
  }

  // ----- Transitions.

  /** `Registry::try_start`: whether the job may run its body, and the table afterwards. */
  function TryStart(jobs: Jobs, flags: set<JobId>, id: JobId): (bool, Jobs) {
    if id !in jobs || !jobs[id].status.Queued? || id in flags then (false, jobs)
    else (true, jobs[id := jobs[id].(status := Running)])
  }

  /** `Registry::set_status`: terminal statuses are sticky, and a job that is gone stays gone. */
  function SetStatus(jobs: Jobs, id: JobId, status: Status, now: nat): Jobs {
    if id !in jobs || jobs[id].status.IsTerminal() then jobs
    else jobs[id := jobs[id].(status := status, finishedAt := if status.IsTerminal() then Some(now) else None)]
  }

  datatype CancelOutcome = NotFound | AlreadyFinished | NowCancelled | Requested

  /** `Registry::cancel`: the outcome, the table and the flags afterwards. */
  function Cancel(jobs: Jobs, flags: set<JobId>, id: JobId, now: nat): (CancelOutcome, Jobs, set<JobId>) {
    if id !in jobs then (NotFound, jobs, flags)
    else if jobs[id].status.IsTerminal() then (AlreadyFinished, jobs, flags)
    else if jobs[id].status.Queued? then
      (NowCancelled, jobs[id := jobs[id].(status := Cancelled, finishedAt := Some(now))], flags + {id})
    else (Requested, jobs, flags + {id})
  }

  /** A queued or running job for this command and repository. */
  predicate Active(jobs: Jobs, command: string, repo: string) {
    exists id :: id in jobs && jobs[id].command == command && jobs[id].repo == Some(repo)
                 && !jobs[id].status.IsTerminal()
  }

  // ----- Eviction.

  function Finished(jobs: Jobs): set<JobId> {
    set id | id in jobs && jobs[id].status.IsTerminal()
  }

  /** The jobs were numbered in the order of their insertion. */
  ghost predicate Ordered(jobs: Jobs, next: nat) {
    && (forall id :: id in jobs ==> jobs[id].order < next)
    && (forall a, b :: a in jobs && b in jobs && jobs[a].order == jobs[b].order ==> a == b)
  }

  /** What the sweep leaves: live jobs all stay, and of the finished ones the newest. */
  ghost predicate Swept(before: Jobs, after: Jobs) {
    && (forall id :: id in after ==> id in before && after[id] == before[id])
    && (forall id :: id in before && !before[id].status.IsTerminal() ==> id in after)
    && |Finished(after)| == (if |Finished(before)| <= MAX_FINISHED then |Finished(before)| else MAX_FINISHED)
    && (|Finished(before)| <= MAX_FINISHED ==> after == before)
    && (forall gone, kept :: gone in before && gone !in after && kept in Finished(after) ==>
          before[gone].order < before[kept].order)
  }

  function Without(jobs: Jobs, id: JobId): Jobs {
    map i | i in jobs && i != id :: jobs[i]
  }

  lemma WithoutFinished(jobs: Jobs, id: JobId)
    requires id in Finished(jobs)
    ensures Finished(Without(jobs, id)) == Finished(jobs) - {id}
    ensures |Finished(Without(jobs, id))| == |Finished(jobs)| - 1
  {
    assert Finished(Without(jobs, id)) == Finished(jobs) - {id};
  }

  lemma SweptStep(jobs: Jobs, id: JobId, after: Jobs, next: nat)
    requires Ordered(jobs, next) && |Finished(jobs)| > MAX_FINISHED
    requires id in Finished(jobs) && (forall other :: other in Finished(jobs) ==> jobs[id].order <= jobs[other].order)
    requires Swept(Without(jobs, id), after)
    ensures Swept(jobs, after)
  {
    WithoutFinished(jobs, id);
    forall gone, kept | gone in jobs && gone !in after && kept in Finished(after)
      ensures jobs[gone].order < jobs[kept].order
    {
      assert kept in Without(jobs, id) && kept in Finished(jobs);
      if gone == id {
        assert jobs[id].order != jobs[kept].order;
      } else {
        assert gone in Without(jobs, id);
      }
    }
  }

  /** `evict_finished`: the oldest finished jobs go until at most `MAX_FINISHED` are left. */
  method EvictFinished(jobs: Jobs, ghost next: nat) returns (after: Jobs)
    requires Ordered(jobs, next)
    ensures Swept(jobs, after)
    decreases |Finished(jobs)|
  {
    var finished := Finished(jobs);
    if |finished| <= MAX_FINISHED { return jobs; }
    var oldest :| oldest in finished;
    var left := finished - {oldest};
    while left != {}
      invariant oldest in finished && left <= finished
      invariant forall id :: id in finished - left ==> jobs[oldest].order <= jobs[id].order
      decreases left
    {
      var id :| id in left;
      if jobs[id].order < jobs[oldest].order { oldest := id; }
      left := left - {id};
    }
    WithoutFinished(jobs, oldest);
    after := EvictFinished(Without(jobs, oldest), next);
    SweptStep(jobs, oldest, after, next);
  }

  /** The sweep is determined by what it must leave. */
  lemma SweptUnique(before: Jobs, a: Jobs, b: Jobs, next: nat)
    requires Ordered(before, next) && Swept(before, a) && Swept(before, b)
    ensures a == b
  {
    if |Finished(before)| > MAX_FINISHED {
      SweptWithin(before, a, b);
      SweptWithin(before, b, a);
    }
  }

  lemma SweptKeepsNewer(before: Jobs, after: Jobs, kept: JobId, newer: JobId)
    requires Swept(before, after) && kept in Finished(after) && newer in Finished(before)
    requires before[kept].order < before[newer].order
    ensures newer in Finished(after)
  {
  }

  lemma SweptWithin(before: Jobs, a: Jobs, b: Jobs)
    requires Swept(before, a) && Swept(before, b) && |Finished(before)| > MAX_FINISHED
    ensures forall id :: id in a ==> id in b
  {
    if id :| id in a && id !in b {
      assert id in Finished(a);
      // what b keeps is newer than id, so a keeps it as well, and id on top
      forall k | k in Finished(b) ensures k in Finished(a) {
        SweptKeepsNewer(before, a, id, k);
      }
      SubsetSize(Finished(b) + {id}, Finished(a));
    }
  }

  lemma SubsetSize<T>(a: set<T>, b: set<T>)
    requires a <= b
    ensures |a| <= |b|
  {
    assert b == a + (b - a);
  }
}
