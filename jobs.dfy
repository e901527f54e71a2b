/** The process and job records of job_control.c and the pure operations on a
    job list: locating a process by pid, applying one child-status report,
    draining a stream of reports, sweeping finished jobs out of the list and
    resuming a stopped job. The imperative methods in job_control.dfy are
    proved against these functions. */
module Jobs {
  import opened Common

  /** What `waitpid` reports about one child: it exited, a signal killed it,
      or a signal stopped it. */
  datatype Status = Exited(code: int) | Signaled(sig: int) | Stopped(sig: int)

  /** One answer of `waitpid`: no child is ready to report (`pid == 0`, or
      the error is ECHILD), some other error, or a report about a pid. */
  datatype WaitResult = NoChild | WaitFailed | Reported(pid: int, status: Status)

  /** A process of a pipeline. `status` is `None` until a report arrives. */
  datatype Process = Process(argv: seq<string>, pid: int, completed: bool, stopped: bool, status: Option<Status>)

  /** A job: a pipeline of processes in one process group. The saved
      terminal modes are not part of this model. */
  datatype Job = Job(command: string, procs: seq<Process>, pgid: int, notified: bool,
                     stdin: int, stdout: int, stderr: int)

  /** job_is_completed: every process has completed. */
  predicate Completed(j: Job) {
    forall k :: 0 <= k < |j.procs| ==> j.procs[k].completed
  }

  /** job_is_stopped: every process has completed or stopped. */
  predicate StoppedOrCompleted(j: Job) {
    forall k :: 0 <= k < |j.procs| ==> j.procs[k].completed || j.procs[k].stopped
  }

  lemma CompletedIsStopped(j: Job)
    ensures Completed(j) ==> StoppedOrCompleted(j)
    ensures j.procs == [] ==> Completed(j) && StoppedOrCompleted(j)
  {
  }

  predicate HasPid(j: Job, pid: int) {
    exists k :: 0 <= k < |j.procs| && j.procs[k].pid == pid
  }

  /** A position in the job list: a job and a process within it. */
  datatype Pos = Pos(job: nat, proc: nat)

  predicate ValidPos(js: seq<Job>, at: Pos) {
    at.job < |js| && at.proc < |js[at.job].procs|
  }

  /** `at` is the first process in list order, jobs first, whose pid is `pid`. */
  predicate IsFirstMatch(js: seq<Job>, pid: int, at: Pos) {
    && ValidPos(js, at)
    && js[at.job].procs[at.proc].pid == pid
    && (forall i :: 0 <= i < at.job ==> !HasPid(js[i], pid))
    && (forall k :: 0 <= k < at.proc ==> js[at.job].procs[k].pid != pid)
  }

  /** The index of the first process with the given pid. */
  function FindProc(ps: seq<Process>, pid: int): (r: Option<nat>)
    ensures r.Some? ==> r.value < |ps| && ps[r.value].pid == pid
    ensures forall k :: 0 <= k < (if r.Some? then r.value else |ps|) ==> ps[k].pid != pid
  {
    if ps == [] then None
    else if ps[0].pid == pid then Some(0)
    else match FindProc(ps[1..], pid)
      case None => None
      case Some(i) => Some(i + 1)
  }

  /** The nested search of mark_process_status: the first job holding a
      process with the pid, and the first such process in it. */
  function Locate(js: seq<Job>, pid: int): (r: Option<Pos>)
    ensures r.Some? ==> IsFirstMatch(js, pid, r.value)
    ensures r.None? ==> forall i :: 0 <= i < |js| ==> !HasPid(js[i], pid)
  {
    if js == [] then None
    else match FindProc(js[0].procs, pid)
      case Some(k) => Some(Pos(0, k))
      case None =>
        match Locate(js[1..], pid)
          case None => None
          case Some(at) => Some(Pos(at.job + 1, at.proc))
  }

  /** Only one process can be the first match. */
  lemma FirstMatchUnique(js: seq<Job>, pid: int, a: Pos, b: Pos)
    requires IsFirstMatch(js, pid, a) && IsFirstMatch(js, pid, b)
    ensures a == b
  {
    assert HasPid(js[a.job], pid);
    assert HasPid(js[b.job], pid);
  }

  /** What a report does to the process record: a stop sets `stopped`; an
      exit or a kill sets `completed`; either way the status is stored. */
  function Apply(p: Process, s: Status): (r: Process)
    ensures r.status == Some(s)
    ensures r.stopped == (p.stopped || s.Stopped?)
    ensures r.completed == (p.completed || !s.Stopped?)
    ensures r.argv == p.argv && r.pid == p.pid
  {
    if s.Stopped? then p.(status := Some(s), stopped := true)
    else p.(status := Some(s), completed := true)
  }

  /** Replace the process at `at`, leaving every other record as it was. */
  function Update(js: seq<Job>, at: Pos, p: Process): (r: seq<Job>)
    requires ValidPos(js, at)
    ensures |r| == |js|
    ensures forall i :: 0 <= i < |js| && i != at.job ==> r[i] == js[i]
    ensures r[at.job] == js[at.job].(procs := r[at.job].procs)
    ensures |r[at.job].procs| == |js[at.job].procs| && r[at.job].procs[at.proc] == p
    ensures forall k :: 0 <= k < |js[at.job].procs| && k != at.proc ==> r[at.job].procs[k] == js[at.job].procs[k]
  {
    js[at.job := js[at.job].(procs := js[at.job].procs[at.proc := p])]
  }

  /** Two job lists with the same jobs and processes, where every flag that
      was set in `a` is still set in `b`: what the status reports can do. */
  ghost predicate Advanced(a: seq<Job>, b: seq<Job>) {
    && |a| == |b|
    && (forall i :: 0 <= i < |a| ==> b[i] == a[i].(procs := b[i].procs))
    && (forall i :: 0 <= i < |a| ==> |b[i].procs| == |a[i].procs|)
    && (forall i, k :: 0 <= i < |a| && 0 <= k < |a[i].procs| ==>
          && b[i].procs[k].argv == a[i].procs[k].argv
          && b[i].procs[k].pid == a[i].procs[k].pid
          && (a[i].procs[k].completed ==> b[i].procs[k].completed)
          && (a[i].procs[k].stopped ==> b[i].procs[k].stopped))
  }

  lemma AdvancedTrans(a: seq<Job>, b: seq<Job>, c: seq<Job>)
    requires Advanced(a, b) && Advanced(b, c)
    ensures Advanced(a, c)
  {
  }

  /** A report settles what it settled in every job: completed and stopped
      jobs stay so. */
  lemma AdvancedKeepsSettled(a: seq<Job>, b: seq<Job>, i: nat)
    requires Advanced(a, b) && i < |a|
    ensures Completed(a[i]) ==> Completed(b[i])
    ensures StoppedOrCompleted(a[i]) ==> StoppedOrCompleted(b[i])
  {
  }

  /** The new job list and the return value of mark_process_status. */
  datatype Marked = Marked(jobs: seq<Job>, code: int)

  /** mark_process_status: with a positive pid that some process has, update
      the first such process and return 0; with no such process, a pid of 0
      or a failed wait, change nothing and return -1. */
  function Mark(js: seq<Job>, w: WaitResult): (r: Marked)
    ensures r.code == 0 || r.code == -1
    ensures r.code != 0 ==> r.jobs == js
  {
    if w.Reported? && w.pid > 0 then
      match Locate(js, w.pid)
        case None => Marked(js, -1)
        case Some(at) => Marked(Update(js, at, Apply(js[at.job].procs[at.proc], w.status)), 0)
    else
      Marked(js, -1)
  }

  /** mark_process_status returns 0 exactly for a report with a positive pid
      that some process of some job has, and it never adds, removes or
      reorders jobs or processes, nor clears a flag. */
  lemma MarkSpec(js: seq<Job>, w: WaitResult)
    ensures Mark(js, w).code == 0 <==> w.Reported? && w.pid > 0 && exists i :: 0 <= i < |js| && HasPid(js[i], w.pid)
    ensures Advanced(js, Mark(js, w).jobs)
  {
  }

  /** A report about a pid changes exactly the first process with that pid
      and nothing else. */
  lemma MarkFirstMatch(js: seq<Job>, w: WaitResult, at: Pos)
    requires w.Reported? && w.pid > 0 && IsFirstMatch(js, w.pid, at)
    ensures Mark(js, w).code == 0
    ensures Mark(js, w).jobs == Update(js, at, Apply(js[at.job].procs[at.proc], w.status))
    ensures forall i, k :: 0 <= i < |js| && 0 <= k < |js[i].procs| && (i != at.job || k != at.proc) ==>
              Mark(js, w).jobs[i].procs[k] == js[i].procs[k]
  {
    match Locate(js, w.pid)
    case None =>
      assert HasPid(js[at.job], w.pid);
      assert false;
    case Some(b) =>
      FirstMatchUnique(js, w.pid, at, b);
  }

  /** Apply a stream of reports in order. */
  function MarkAll(js: seq<Job>, events: seq<WaitResult>): (r: seq<Job>)
    ensures |r| == |js|
  {
    if events == [] then js
    else Mark(MarkAll(js, events[..|events| - 1]), events[|events| - 1]).jobs
  }

  /** Reports never add, remove or reorder jobs or processes, and never
      clear a flag. */
  lemma {:induction false} MarkAllAdvances(js: seq<Job>, events: seq<WaitResult>)
    ensures Advanced(js, MarkAll(js, events))
  {
    if events != [] {
      var before := MarkAll(js, events[..|events| - 1]);
      MarkAllAdvances(js, events[..|events| - 1]);
      MarkSpec(before, events[|events| - 1]);
      AdvancedTrans(js, before, Mark(before, events[|events| - 1]).jobs);
    }
  }

  lemma MarkAllSnoc(js: seq<Job>, events: seq<WaitResult>, n: nat)
    requires n < |events|
    ensures MarkAll(js, events[..n + 1]) == Mark(MarkAll(js, events[..n]), events[n]).jobs
  {
    assert events[..n + 1][..n] == events[..n];
  }

  /** The return value of mark_process_status for the `k`-th report, after
      the `k - 1` before it were applied. */
  function CodeAt(js: seq<Job>, events: seq<WaitResult>, k: nat): int
    requires 0 < k <= |events|
  {
    Mark(MarkAll(js, events[..k - 1]), events[k - 1]).code
  }

  /** Each of the first `n` reports was applied: mark_process_status
      returned 0 for it. */
  ghost predicate AllApplied(js: seq<Job>, events: seq<WaitResult>, n: nat)
    requires n <= |events|
  {
    n == 0 || (AllApplied(js, events, n - 1) && CodeAt(js, events, n) == 0)
  }

  lemma {:induction false} AllAppliedAt(js: seq<Job>, events: seq<WaitResult>, n: nat, k: nat)
    requires 0 < k <= n <= |events| && AllApplied(js, events, n)
    ensures CodeAt(js, events, k) == 0
    decreases n
  {
    if k < n {
      assert AllApplied(js, events, n - 1);
      AllAppliedAt(js, events, n - 1, k);
    }
  }

  lemma AllAppliedMeans(js: seq<Job>, events: seq<WaitResult>, n: nat)
    requires n <= |events| && AllApplied(js, events, n)
    ensures forall k :: 0 < k <= n ==> CodeAt(js, events, k) == 0
  {
    forall k | 0 < k <= n
      ensures CodeAt(js, events, k) == 0
    {
      AllAppliedAt(js, events, n, k);
    }
  }

  /** While the first `n` reports were applied, the job at index `ji` was
      neither stopped nor completed after any of them. */
  ghost predicate StillRunning(js: seq<Job>, events: seq<WaitResult>, ji: nat, n: nat)
    requires ji < |js| && n <= |events|
  {
    n == 0 || (StillRunning(js, events, ji, n - 1) && CodeAt(js, events, n) == 0 &&
               !StoppedOrCompleted(MarkAll(js, events[..n])[ji]))
  }

  lemma {:induction false} StillRunningAt(js: seq<Job>, events: seq<WaitResult>, ji: nat, n: nat, k: nat)
    requires ji < |js| && 0 < k <= n <= |events| && StillRunning(js, events, ji, n)
    ensures CodeAt(js, events, k) == 0 && !StoppedOrCompleted(MarkAll(js, events[..k])[ji])
    decreases n
  {
    if k < n {
      assert StillRunning(js, events, ji, n - 1);
      StillRunningAt(js, events, ji, n - 1, k);
    }
  }

  lemma StillRunningMeans(js: seq<Job>, events: seq<WaitResult>, ji: nat, n: nat)
    requires ji < |js| && n <= |events| && StillRunning(js, events, ji, n)
    ensures forall k :: 0 < k <= n ==>
              CodeAt(js, events, k) == 0 && !StoppedOrCompleted(MarkAll(js, events[..k])[ji])
  {
    forall k | 0 < k <= n
      ensures CodeAt(js, events, k) == 0 && !StoppedOrCompleted(MarkAll(js, events[..k])[ji])
    {
      StillRunningAt(js, events, ji, n, k);
    }
  }

  /** The stopped-job acknowledgement of do_job_notification: a job that is
      stopped or completed and not yet notified becomes notified. Nothing
      else changes, and a running or already notified job is returned as is. */
  function Acknowledge(j: Job): (r: Job)
    ensures r.notified == (j.notified || StoppedOrCompleted(j))
    ensures r == j.(notified := r.notified)
    ensures !StoppedOrCompleted(j) || j.notified ==> r == j
  {
    if StoppedOrCompleted(j) && !j.notified then j.(notified := true) else j
  }

  /** What do_job_notification leaves in the list in place of one job. */
  function Survivor(j: Job): seq<Job> {
    if Completed(j) then [] else [Acknowledge(j)]
  }

  /** The job list after do_job_notification's pass: completed jobs are
      unlinked, stopped ones acknowledged. */
  function Sweep(js: seq<Job>): (r: seq<Job>)
    ensures |r| <= |js|
  {
    if js == [] then [] else Sweep(js[..|js| - 1]) + Survivor(js[|js| - 1])
  }

  /** A line printed by format_job_info. */
  datatype Notice = Notice(pgid: int, status: string, command: string)

  /** The message do_job_notification prints about one job, if any. */
  function NoticeOf(j: Job): (r: seq<Notice>)
    ensures |r| <= 1
    ensures r != [] <==> Completed(j) || (StoppedOrCompleted(j) && !j.notified)
  {
    if Completed(j) then [Notice(j.pgid, "completed", j.command)]
    else if StoppedOrCompleted(j) && !j.notified then [Notice(j.pgid, "stopped", j.command)]
    else []
  }

  function Notices(js: seq<Job>): seq<Notice> {
    if js == [] then [] else Notices(js[..|js| - 1]) + NoticeOf(js[|js| - 1])
  }

  /** The indices of the jobs that are not completed, in list order. */
  function KeptIndices(js: seq<Job>): seq<nat> {
    if js == [] then []
    else KeptIndices(js[..|js| - 1]) + (if Completed(js[|js| - 1]) then [] else [|js| - 1])
  }

  /** KeptIndices lists, in increasing order, every index of a job that is
      not completed and no other. */
  lemma {:induction false} KeptIndicesAreLiveJobs(js: seq<Job>)
    ensures forall k :: 0 <= k < |KeptIndices(js)| ==>
              KeptIndices(js)[k] < |js| && !Completed(js[KeptIndices(js)[k]])
    ensures forall k, l :: 0 <= k < l < |KeptIndices(js)| ==> KeptIndices(js)[k] < KeptIndices(js)[l]
    ensures forall i :: 0 <= i < |js| && !Completed(js[i]) ==> i in KeptIndices(js)
  {
    KeptIndicesInRange(js);
    KeptIndicesIncrease(js);
    KeptIndicesComplete(js);
  }

  lemma {:induction false} KeptIndicesInRange(js: seq<Job>)
    ensures forall k :: 0 <= k < |KeptIndices(js)| ==>
              KeptIndices(js)[k] < |js| && !Completed(js[KeptIndices(js)[k]])
  {
    if js != [] {
      var init := js[..|js| - 1];
      KeptIndicesInRange(init);
      assert forall i :: 0 <= i < |init| ==> init[i] == js[i];
    }
  }

  lemma {:induction false} KeptIndicesIncrease(js: seq<Job>)
    ensures forall k :: 0 <= k < |KeptIndices(js)| ==> KeptIndices(js)[k] < |js|
    ensures forall k, l :: 0 <= k < l < |KeptIndices(js)| ==> KeptIndices(js)[k] < KeptIndices(js)[l]
  {
    if js != [] {
      KeptIndicesIncrease(js[..|js| - 1]);
    }
  }

  lemma {:induction false} KeptIndicesComplete(js: seq<Job>)
    ensures forall i :: 0 <= i < |js| && !Completed(js[i]) ==> i in KeptIndices(js)
  {
    if js != [] {
      var init := js[..|js| - 1];
      KeptIndicesComplete(init);
      assert forall i :: 0 <= i < |init| ==> init[i] == js[i];
      assert KeptIndices(js) == KeptIndices(init) + (if Completed(js[|js| - 1]) then [] else [|js| - 1]);
    }
  }

  /** The list after the sweep holds exactly the jobs that were not
      completed, in their original relative order, each acknowledged. */
  lemma {:induction false} SweepKeepsLiveJobs(js: seq<Job>)
    ensures |KeptIndices(js)| == |Sweep(js)|
    ensures forall k :: 0 <= k < |KeptIndices(js)| ==>
              KeptIndices(js)[k] < |js| && !Completed(js[KeptIndices(js)[k]]) &&
              Sweep(js)[k] == Acknowledge(js[KeptIndices(js)[k]])
    ensures forall k, l :: 0 <= k < l < |KeptIndices(js)| ==> KeptIndices(js)[k] < KeptIndices(js)[l]
    ensures forall i :: 0 <= i < |js| && !Completed(js[i]) ==> i in KeptIndices(js)
  {
    KeptIndicesAreLiveJobs(js);
    SweepFollowsIndices(js);
  }

  lemma {:induction false} SweepFollowsIndices(js: seq<Job>)
    ensures |KeptIndices(js)| == |Sweep(js)|
    ensures forall k :: 0 <= k < |KeptIndices(js)| ==>
              KeptIndices(js)[k] < |js| && Sweep(js)[k] == Acknowledge(js[KeptIndices(js)[k]])
  {
    if js != [] {
      var init := js[..|js| - 1];
      SweepFollowsIndices(init);
      assert forall i :: 0 <= i < |init| ==> init[i] == js[i];
    }
  }

  /** A list in which no job is completed and every stopped job is notified. */
  ghost predicate Settled(js: seq<Job>) {
    forall k :: 0 <= k < |js| ==> !Completed(js[k]) && (StoppedOrCompleted(js[k]) ==> js[k].notified)
  }

  lemma SettledJobIsFixed(j: Job)
    requires !Completed(j) && (StoppedOrCompleted(j) ==> j.notified)
    ensures Survivor(j) == [j] && NoticeOf(j) == []
  {
  }

  lemma SettledPrefix(js: seq<Job>)
    requires js != [] && Settled(js)
    ensures Settled(js[..|js| - 1])
  {
    var init := js[..|js| - 1];
    assert forall k :: 0 <= k < |init| ==> init[k] == js[k];
  }

  lemma {:induction false} SettledIsFixed(js: seq<Job>)
    requires Settled(js)
    ensures Sweep(js) == js
    ensures Notices(js) == []
  {
    if js != [] {
      var init, last := js[..|js| - 1], js[|js| - 1];
      SettledPrefix(js);
      SettledIsFixed(init);
      SettledJobIsFixed(last);
      assert Sweep(js) == Sweep(init) + Survivor(last);
      assert Notices(js) == Notices(init) + NoticeOf(last);
      assert js == init + [last];
    }
  }

  /** do_job_notification reports each stopped job once: a second pass over
      the list it leaves changes nothing and reports nothing. */
  lemma SweepIsIdempotent(js: seq<Job>)
    ensures Sweep(Sweep(js)) == Sweep(js)
    ensures Notices(Sweep(js)) == []
  {
    SweepIsSettled(js);
    SettledIsFixed(Sweep(js));
  }

  /** After the sweep no completed job is left and every stopped job left is notified. */
  lemma {:induction false} SweepIsSettled(js: seq<Job>)
    ensures Settled(Sweep(js))
  {
    if js != [] {
      var init, last := js[..|js| - 1], js[|js| - 1];
      SweepIsSettled(init);
      SettledSnoc(Sweep(init), Survivor(last));
    }
  }

  lemma SettledSnoc(a: seq<Job>, b: seq<Job>)
    requires Settled(a) && Settled(b)
    ensures Settled(a + b)
  {
    assert forall k :: 0 <= k < |a + b| ==> (a + b)[k] == if k < |a| then a[k] else b[k - |a|];
  }

  /** One more job swept, one more notice considered. */
  lemma SweepSnoc(js: seq<Job>, i: nat)
    requires i < |js|
    ensures Sweep(js[..i + 1]) == Sweep(js[..i]) + Survivor(js[i])
    ensures Notices(js[..i + 1]) == Notices(js[..i]) + NoticeOf(js[i])
  {
    assert js[..i + 1][..i] == js[..i];
  }

  /** mark_job_as_running: every process of the job is no longer stopped and
      the job is not notified; pids, statuses and `completed` are kept. */
  function Resume(j: Job): (r: Job)
    ensures |r.procs| == |j.procs|
    ensures forall k :: 0 <= k < |j.procs| ==> r.procs[k] == j.procs[k].(stopped := false)
    ensures r == j.(procs := r.procs, notified := false)
  {
    j.(procs := seq(|j.procs|, k requires 0 <= k < |j.procs| => j.procs[k].(stopped := false)),
       notified := false)
  }

  /** A resumed job counts as stopped only if all its processes completed. */
  lemma ResumedIsRunning(j: Job)
    ensures StoppedOrCompleted(Resume(j)) <==> Completed(j)
    ensures Completed(Resume(j)) <==> Completed(j)
  {
    var r := Resume(j);
    if StoppedOrCompleted(r) {
      forall k | 0 <= k < |j.procs|
        ensures j.procs[k].completed
      {
        assert r.procs[k] == j.procs[k].(stopped := false);
      }
    }
  }
}
