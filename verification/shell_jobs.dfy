/**
 * The shell's jobs list (JobsList, smash/Commands.cpp:1338-1416): entries in
 * the order they were started, each with a job id, and the largest id in use.
 *
 * waitpid(pid, WNOHANG) is the only outside call; its answers are given as the
 * set of pids it reports as finished (a nonzero result).
 */
module ShellJobs {
  import opened Wrappers

  /** NO_JOBS_ID (Commands.h:9): the largest id of an empty list. */
  const NO_JOBS_ID: int := 0

  datatype JobEntry = JobEntry(cmdLine: string, id: int, pid: int, background: bool)

  datatype JobsList = JobsList(jobs: seq<JobEntry>, maxId: int)

  /** Every id is above b. */
  predicate AllAbove(jobs: seq<JobEntry>, b: int)
  {
    forall i | 0 <= i < |jobs| :: jobs[i].id > b
  }

  /** Ids strictly ascending in list order. */
  predicate Ascending(jobs: seq<JobEntry>)
  {
    forall i, j | 0 <= i < j < |jobs| :: jobs[i].id < jobs[j].id
  }

  /**
   * The list as addJob keeps it: ids count up from 1 in list order and the
   * recorded largest id is the last one (NO_JOBS_ID when empty).
   */
  predicate JobsOk(l: JobsList)
  {
    && AllAbove(l.jobs, NO_JOBS_ID)
    && Ascending(l.jobs)
    && l.maxId == (if l.jobs == [] then NO_JOBS_ID else l.jobs[|l.jobs| - 1].id)
  }

  /** JobsList() (Commands.cpp:1338): no jobs, largest id NO_JOBS_ID. */
  function NewJobsList(): (r: JobsList)
    ensures JobsOk(r) && r.jobs == []
  {
    JobsList([], NO_JOBS_ID)
  }

  /** An entry below an ascending list whose ids all exceed its own keeps it ascending. */
  lemma ConsAscending(e: JobEntry, rest: seq<JobEntry>)
    requires Ascending(rest) && AllAbove(rest, e.id)
    ensures Ascending([e] + rest)
  {
    var s := [e] + rest;
    assert forall i | 1 <= i < |s| :: s[i] == rest[i - 1];
  }

  /** The tail of an ascending list is ascending and lies above its head. */
  lemma TailAscending(jobs: seq<JobEntry>)
    requires jobs != [] && Ascending(jobs)
    ensures Ascending(jobs[1..]) && AllAbove(jobs[1..], jobs[0].id)
  {
    assert forall i | 0 <= i < |jobs[1..]| :: jobs[1..][i] == jobs[i + 1];
  }

  /**
   * The loop of updateMaxId (Commands.cpp:1359-1370): the largest id, or
   * NO_JOBS_ID when there is none above it.
   */
  function MaxIdOf(jobs: seq<JobEntry>): (r: int)
    ensures r >= NO_JOBS_ID
    ensures forall i | 0 <= i < |jobs| :: jobs[i].id <= r
    ensures r == NO_JOBS_ID || exists i | 0 <= i < |jobs| :: jobs[i].id == r
  {
    if jobs == [] then NO_JOBS_ID
    else
      var m := MaxIdOf(jobs[..|jobs| - 1]);
      assert forall i | 0 <= i < |jobs| - 1 :: jobs[i] == jobs[..|jobs| - 1][i];
      if jobs[|jobs| - 1].id > m then jobs[|jobs| - 1].id else m
  }

  /** updateMaxId (Commands.cpp:1359-1370). */
  function UpdateMaxId(l: JobsList): (r: JobsList)
    ensures r.jobs == l.jobs && r.maxId == MaxIdOf(l.jobs)
  {
    l.(maxId := MaxIdOf(l.jobs))
  }

  /** On ascending positive ids the largest id is the last one. */
  lemma MaxIdOfAscending(jobs: seq<JobEntry>)
    requires AllAbove(jobs, NO_JOBS_ID) && Ascending(jobs)
    ensures MaxIdOf(jobs) == if jobs == [] then NO_JOBS_ID else jobs[|jobs| - 1].id
  {
  }

  /** The jobs whose pid has not finished, in their order. */
  function Unfinished(jobs: seq<JobEntry>, finished: set<int>): (r: seq<JobEntry>)
    ensures |r| <= |jobs|
    ensures forall k | 0 <= k < |r| :: r[k].pid !in finished
    ensures (forall k | 0 <= k < |jobs| :: jobs[k].pid !in finished) ==> r == jobs
    ensures (forall k | 0 <= k < |jobs| :: jobs[k].pid in finished) ==> r == []
  {
    if jobs == [] then []
    else
      var rest := Unfinished(jobs[1..], finished);
      assert forall k | 1 <= k < |jobs| :: jobs[k] == jobs[1..][k - 1];
      if jobs[0].pid in finished then rest else [jobs[0]] + rest
  }

  /** What the filter keeps: exactly the jobs that have not finished. */
  lemma {:induction false} UnfinishedContents(jobs: seq<JobEntry>, finished: set<int>)
    ensures forall e | e in Unfinished(jobs, finished) :: e in jobs && e.pid !in finished
    ensures forall e | e in jobs && e.pid !in finished :: e in Unfinished(jobs, finished)
  {
    if jobs != [] {
      UnfinishedContents(jobs[1..], finished);
      assert jobs == [jobs[0]] + jobs[1..];
    }
  }

  /** A lower bound on every id survives the filter. */
  lemma {:induction false} UnfinishedAbove(jobs: seq<JobEntry>, finished: set<int>, b: int)
    requires AllAbove(jobs, b)
    ensures AllAbove(Unfinished(jobs, finished), b)
  {
    if jobs != [] {
      assert forall i | 0 <= i < |jobs[1..]| :: jobs[1..][i] == jobs[i + 1];
      UnfinishedAbove(jobs[1..], finished, b);
      var rest := Unfinished(jobs[1..], finished);
      assert forall i | 1 <= i < |rest| + 1 :: ([jobs[0]] + rest)[i] == rest[i - 1];
    }
  }

  /** Filtering keeps the order: ascending ids stay ascending. */
  lemma {:induction false} UnfinishedAscending(jobs: seq<JobEntry>, finished: set<int>)
    requires Ascending(jobs)
    ensures Ascending(Unfinished(jobs, finished))
  {
    if jobs != [] {
      TailAscending(jobs);
      UnfinishedAscending(jobs[1..], finished);
      UnfinishedAbove(jobs[1..], finished, jobs[0].id);
      if jobs[0].pid !in finished {
        ConsAscending(jobs[0], Unfinished(jobs[1..], finished));
      }
    }
  }

  /**
   * removeFinishedJobs (Commands.cpp:1347-1357): every job whose pid waitpid
   * reports finished is removed through removeJobById, which recomputes the
   * largest id; when none has finished the list is left as it is.
   */
  function RemoveFinishedJobs(l: JobsList, finished: set<int>): (r: JobsList)
    ensures forall k | 0 <= k < |r.jobs| :: r.jobs[k].pid !in finished
    ensures (forall k | 0 <= k < |l.jobs| :: l.jobs[k].pid !in finished) ==> r == l
  {
    if forall k | 0 <= k < |l.jobs| :: l.jobs[k].pid !in finished then l
    else UpdateMaxId(JobsList(Unfinished(l.jobs, finished), l.maxId))
  }

  /** The list left after removing finished jobs is exactly the unfinished ones. */
  lemma RemoveFinishedContents(l: JobsList, finished: set<int>)
    ensures var r := RemoveFinishedJobs(l, finished);
      && (forall e | e in r.jobs :: e in l.jobs && e.pid !in finished)
      && (forall e | e in l.jobs && e.pid !in finished :: e in r.jobs)
  {
    UnfinishedContents(l.jobs, finished);
  }

  /** Removing finished jobs keeps the list well formed. */
  lemma RemoveFinishedKeepsOk(l: JobsList, finished: set<int>)
    requires JobsOk(l)
    ensures JobsOk(RemoveFinishedJobs(l, finished))
  {
    var r := RemoveFinishedJobs(l, finished);
    if r != l {
      UnfinishedAscending(l.jobs, finished);
      UnfinishedAbove(l.jobs, finished, NO_JOBS_ID);
      MaxIdOfAscending(r.jobs);
    }
  }

  /** Removing finished jobs twice is removing them once. */
  lemma RemoveFinishedIdempotent(l: JobsList, finished: set<int>)
    ensures RemoveFinishedJobs(RemoveFinishedJobs(l, finished), finished) == RemoveFinishedJobs(l, finished)
  {
  }

  /**
   * addJob (Commands.cpp:1340-1345): finished jobs go first, then the new job
   * is appended with the id after the largest one, which becomes the largest.
   */
  function AddJob(l: JobsList, cmdLine: string, pid: int, background: bool, finished: set<int>): (r: JobsList)
    ensures |r.jobs| > 0 && r.jobs[..|r.jobs| - 1] == RemoveFinishedJobs(l, finished).jobs
    ensures r.jobs[|r.jobs| - 1] == JobEntry(cmdLine, r.maxId, pid, background)
    ensures r.maxId == RemoveFinishedJobs(l, finished).maxId + 1
  {
    var c := RemoveFinishedJobs(l, finished);
    JobsList(c.jobs + [JobEntry(cmdLine, c.maxId + 1, pid, background)], c.maxId + 1)
  }

  /**
   * Appending to a well-formed list an entry whose id is one past the largest
   * keeps it well formed, with the new id above every earlier one.
   */
  lemma AppendKeepsOk(c: JobsList, e: JobEntry)
    requires JobsOk(c) && e.id == c.maxId + 1
    ensures JobsOk(JobsList(c.jobs + [e], e.id))
    ensures forall k | 0 <= k < |c.jobs| :: c.jobs[k].id < e.id
  {
    MaxIdOfAscending(c.jobs);
    var s := c.jobs + [e];
    assert forall i | 0 <= i < |c.jobs| :: s[i] == c.jobs[i];
  }

  /**
   * On a well-formed list the new job's id is larger than every id left
   * after the finished jobs are gone, and the list stays well formed.
   */
  lemma AddJobKeepsOk(l: JobsList, cmdLine: string, pid: int, background: bool, finished: set<int>)
    requires JobsOk(l)
    ensures var r := AddJob(l, cmdLine, pid, background, finished);
      && JobsOk(r)
      && forall k | 0 <= k < |r.jobs| - 1 :: r.jobs[k].id < r.maxId
  {
    var c := RemoveFinishedJobs(l, finished);
    RemoveFinishedKeepsOk(l, finished);
    var e := JobEntry(cmdLine, c.maxId + 1, pid, background);
    AppendKeepsOk(c, e);
    assert AddJob(l, cmdLine, pid, background, finished) == JobsList(c.jobs + [e], e.id);
    assert forall k | 0 <= k < |c.jobs| :: (c.jobs + [e])[k] == c.jobs[k];
  }

  /** When every earlier job has finished, numbering starts again at 1. */
  lemma AddJobRestartsIds(l: JobsList, cmdLine: string, pid: int, background: bool, finished: set<int>)
    requires JobsOk(l) && l.jobs != []
    requires forall k | 0 <= k < |l.jobs| :: l.jobs[k].pid in finished
    ensures AddJob(l, cmdLine, pid, background, finished).jobs == [JobEntry(cmdLine, 1, pid, background)]
  {
    assert l.jobs[0].pid in finished;
  }

  /** The position of the first job with this id; on ascending ids, the only one. */
  function FindJob(jobs: seq<JobEntry>, id: int): (r: Option<nat>)
    ensures r.None? <==> forall i | 0 <= i < |jobs| :: jobs[i].id != id
    ensures r.Some? ==>
      && r.value < |jobs| && jobs[r.value].id == id
      && forall i | 0 <= i < r.value :: jobs[i].id != id
    ensures r.Some? && Ascending(jobs) ==> forall i | 0 <= i < |jobs| && i != r.value :: jobs[i].id != id
  {
    if jobs == [] then None
    else if jobs[0].id == id then Some(0)
    else match FindJob(jobs[1..], id)
      case None =>
        assert forall i | 1 <= i < |jobs| :: jobs[i] == jobs[1..][i - 1];
        None
      case Some(k) =>
        assert forall i | 1 <= i < k + 1 :: jobs[i] == jobs[1..][i - 1];
        Some(k + 1)
  }

  /** erase of the first job with this id, if there is one. */
  function EraseJob(jobs: seq<JobEntry>, id: int): (r: seq<JobEntry>)
    ensures FindJob(jobs, id).None? ==> r == jobs
    ensures FindJob(jobs, id).Some? ==> |r| + 1 == |jobs|
  {
    match FindJob(jobs, id)
    case None => jobs
    case Some(i) => jobs[..i] + jobs[i + 1..]
  }

  /** Erasing one entry keeps ids ascending and drops the only job with that id. */
  lemma EraseAscending(jobs: seq<JobEntry>, id: int)
    requires AllAbove(jobs, NO_JOBS_ID) && Ascending(jobs)
    ensures var e := EraseJob(jobs, id);
      && AllAbove(e, NO_JOBS_ID) && Ascending(e)
      && forall a | 0 <= a < |e| :: e[a].id != id
  {
    match FindJob(jobs, id) {
      case None =>
      case Some(i) => EraseAtAscending(jobs, i);
    }
  }

  /** Erasing the entry at i keeps ids ascending and leaves no other entry with its id. */
  lemma EraseAtAscending(jobs: seq<JobEntry>, i: nat)
    requires i < |jobs| && AllAbove(jobs, NO_JOBS_ID) && Ascending(jobs)
    ensures var e := jobs[..i] + jobs[i + 1..];
      && AllAbove(e, NO_JOBS_ID) && Ascending(e)
      && forall a | 0 <= a < |e| :: e[a].id != jobs[i].id
  {
    var e := jobs[..i] + jobs[i + 1..];
    forall a | 0 <= a < |e|
      ensures e[a] == jobs[if a < i then a else a + 1]
    {
    }
  }

  /** Erasing the first job with an id keeps every job with another id. */
  lemma EraseKeepsOthers(jobs: seq<JobEntry>, id: int)
    ensures forall e | e in jobs && e.id != id :: e in EraseJob(jobs, id)
  {
    match FindJob(jobs, id) {
      case None =>
      case Some(i) =>
        assert jobs == jobs[..i] + [jobs[i]] + jobs[i + 1..];
    }
  }

  /**
   * removeJobById (Commands.cpp:1372-1384): erase the first job with this id,
   * recompute the largest id, then remove the finished jobs.
   */
  function RemoveJobById(l: JobsList, id: int, finished: set<int>): (r: JobsList)
    ensures forall k | 0 <= k < |r.jobs| :: r.jobs[k].pid !in finished
    ensures FindJob(l.jobs, id).None? ==> r == RemoveFinishedJobs(UpdateMaxId(l), finished)
  {
    RemoveFinishedJobs(UpdateMaxId(JobsList(EraseJob(l.jobs, id), l.maxId)), finished)
  }

  /** On a well-formed list the job is gone afterwards and the list stays well formed. */
  lemma RemoveJobByIdKeepsOk(l: JobsList, id: int, finished: set<int>)
    requires JobsOk(l)
    ensures var r := RemoveJobById(l, id, finished);
      && JobsOk(r)
      && forall k | 0 <= k < |r.jobs| :: r.jobs[k].id != id
  {
    var erased := EraseJob(l.jobs, id);
    EraseAscending(l.jobs, id);
    var u := UpdateMaxId(JobsList(erased, l.maxId));
    MaxIdOfAscending(erased);
    RemoveFinishedKeepsOk(u, finished);
    RemoveFinishedContents(u, finished);
  }

  /** Every unfinished job with another id is still there after removeJobById. */
  lemma RemoveJobByIdKeepsOthers(l: JobsList, id: int, finished: set<int>)
    ensures forall e | e in l.jobs && e.id != id && e.pid !in finished :: e in RemoveJobById(l, id, finished).jobs
  {
    RemoveFinishedContents(UpdateMaxId(JobsList(EraseJob(l.jobs, id), l.maxId)), finished);
    EraseKeepsOthers(l.jobs, id);
  }

  /**
   * getJobById (Commands.cpp:1405-1416): finished jobs go first, then the
   * first job with this id, if any. The list after the call is returned too.
   */
  function GetJobById(l: JobsList, id: int, finished: set<int>): (r: (JobsList, Option<JobEntry>))
    ensures r.0 == RemoveFinishedJobs(l, finished)
    ensures r.1.Some? ==> r.1.value in r.0.jobs && r.1.value.id == id && r.1.value.pid !in finished
    ensures r.1.None? ==> forall k | 0 <= k < |r.0.jobs| :: r.0.jobs[k].id != id
  {
    var c := RemoveFinishedJobs(l, finished);
    match FindJob(c.jobs, id)
    case None => (c, None)
    case Some(i) => (c, Some(c.jobs[i]))
  }

  /**
   * getLastJob (Commands.cpp:1395-1403): finished jobs go first; no job when
   * the largest id is NO_JOBS_ID, else the last entry.
   */
  function GetLastJob(l: JobsList, finished: set<int>): (r: (JobsList, Option<JobEntry>))
    requires JobsOk(l)
    ensures r.0 == RemoveFinishedJobs(l, finished)
    ensures r.1.None? <==> r.0.jobs == []
    ensures r.1.Some? ==>
      && r.1.value in r.0.jobs
      && r.1.value.id == r.0.maxId
      && forall k | 0 <= k < |r.0.jobs| :: r.0.jobs[k].id <= r.1.value.id
  {
    RemoveFinishedKeepsOk(l, finished);
    var c := RemoveFinishedJobs(l, finished);
    if c.maxId == NO_JOBS_ID then (c, None) else (c, Some(c.jobs[|c.jobs| - 1]))
  }
}
