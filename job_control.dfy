/** The imperative part of job_control.c: the list of active jobs, held by a
    `JobList` object, and the operations that scan and update it. Each
    method is proved against the functions of the Jobs and Pipeline
    modules. `waitpid` answers come from a finite stream of reports: when
    the stream runs out, a drain ends as it does when no child is left to
    report. */
module JobControl {
  import opened Common
  import opened Jobs
  import opened Pipeline

  /** job_is_stopped: scan the processes for one that is neither completed
      nor stopped. */
  method JobIsStopped(j: Job) returns (b: bool)
    ensures b <==> StoppedOrCompleted(j)
  {
    var k := 0;
    while k < |j.procs|
      invariant 0 <= k <= |j.procs|
      invariant forall i :: 0 <= i < k ==> j.procs[i].completed || j.procs[i].stopped
    {
      if !j.procs[k].completed && !j.procs[k].stopped {
        return false;
      }
      k := k + 1;
    }
    return true;
  }

  /** job_is_completed: scan the processes for one that is not completed. */
  method JobIsCompleted(j: Job) returns (b: bool)
    ensures b <==> Completed(j)
  {
    var k := 0;
    while k < |j.procs|
      invariant 0 <= k <= |j.procs|
      invariant forall i :: 0 <= i < k ==> j.procs[i].completed
    {
      if !j.procs[k].completed {
        return false;
      }
      k := k + 1;
    }
    return true;
  }

  /** The body of do_job_notification's loop for one job `j`: a completed
      job is reported and unlinked, a stopped job not yet notified is
      reported and marked notified, any other job stays as it is. */
  method NotifyJob(j: Job) returns (piece: seq<Job>, notice: seq<Notice>)
    ensures piece == Survivor(j) && notice == NoticeOf(j)
  {
    var completed := JobIsCompleted(j);
    if completed {
      notice, piece := [Notice(j.pgid, "completed", j.command)], [];
    } else {
      var stopped := JobIsStopped(j);
      if stopped && !j.notified {
        notice, piece := [Notice(j.pgid, "stopped", j.command)], [j.(notified := true)];
      } else {
        notice, piece := [], [j];
      }
    }
  }

  /** The active jobs, in the order of the list that starts at `first_job`.
      A job is named by its index: no operation but the notification sweep
      reshapes the list. */
  class JobList {
    var jobs: seq<Job>

    constructor ()
      ensures jobs == []
    {
      jobs := [];
    }

    /** find_job: the first job in list order with the given pgid, or
        `None` when no job has it. */
    method FindJob(pgid: int) returns (r: Option<nat>)
      ensures r.Some? ==> r.value < |jobs| && jobs[r.value].pgid == pgid
      ensures r.Some? ==> forall i :: 0 <= i < r.value ==> jobs[i].pgid != pgid
      ensures r.None? <==> forall i :: 0 <= i < |jobs| ==> jobs[i].pgid != pgid
    {
      var i := 0;
      while i < |jobs|
        invariant 0 <= i <= |jobs|
        invariant forall a :: 0 <= a < i ==> jobs[a].pgid != pgid
      {
        if jobs[i].pgid == pgid {
          return Some(i);
        }
        i := i + 1;
      }
      return None;
    }

    /** mark_process_status: apply one `waitpid` answer to the first process
        with its pid. Returns 0 when a record was updated and -1 otherwise;
        the diagnostics of the failing branches are not modelled. */
    method MarkProcessStatus(w: WaitResult) returns (r: int)
      modifies this
      ensures Marked(jobs, r) == Mark(old(jobs), w)
    {
      if w.Reported? && w.pid > 0 {
        var i := 0;
        while i < |jobs|
          invariant 0 <= i <= |jobs| && jobs == old(jobs)
          invariant forall a :: 0 <= a < i ==> !HasPid(jobs[a], w.pid)
        {
          var k := 0;
          while k < |jobs[i].procs|
            invariant 0 <= k <= |jobs[i].procs|
            invariant forall b :: 0 <= b < k ==> jobs[i].procs[b].pid != w.pid
          {
            if jobs[i].procs[k].pid == w.pid {
              MarkFirstMatch(jobs, w, Pos(i, k));
              jobs := Update(jobs, Pos(i, k), Apply(jobs[i].procs[k], w.status));
              return 0;
            }
            k := k + 1;
          }
          i := i + 1;
        }
        return -1;
      }
      return -1;
    }

    /** update_status: ask for reports without blocking and apply them until
        one is not applied. Returns how many reports were consumed. The
        options argument `WUNTRACED(WNOHANG)` does not compile as written;
        it is taken to mean `WUNTRACED | WNOHANG`. */
    method UpdateStatus(events: seq<WaitResult>) returns (n: nat)
      modifies this
      ensures n <= |events| && jobs == MarkAll(old(jobs), events[..n])
      ensures forall k :: 0 < k < n ==> CodeAt(old(jobs), events, k) == 0
      ensures n < |events| ==> 0 < n && CodeAt(old(jobs), events, n) != 0
    {
      n := 0;
      var code := 0;
      while n < |events| && code == 0
        invariant n <= |events| && jobs == MarkAll(old(jobs), events[..n])
        invariant n > 0 ==> AllApplied(old(jobs), events, n - 1)
        invariant code == if n == 0 then 0 else CodeAt(old(jobs), events, n)
      {
        MarkAllSnoc(old(jobs), events, n);
        code := MarkProcessStatus(events[n]);
        n := n + 1;
      }
      if n > 0 {
        AllAppliedMeans(old(jobs), events, n - 1);
      }
    }

    /** wait_for_job: apply reports until one is not applied or the job at
        index `ji` is stopped or completed. */
    method WaitForJob(ji: nat, events: seq<WaitResult>) returns (n: nat)
      requires ji < |jobs|
      modifies this
      ensures n <= |events| && jobs == MarkAll(old(jobs), events[..n])
      ensures forall k :: 0 < k < n ==>
                CodeAt(old(jobs), events, k) == 0 && !StoppedOrCompleted(MarkAll(old(jobs), events[..k])[ji])
      ensures n < |events| ==> 0 < n && (CodeAt(old(jobs), events, n) != 0 || StoppedOrCompleted(jobs[ji]))
    {
      n := 0;
      while n < |events|
        invariant n <= |events| && jobs == MarkAll(old(jobs), events[..n])
        invariant StillRunning(old(jobs), events, ji, n)
      {
        MarkAllSnoc(old(jobs), events, n);
        var code := MarkProcessStatus(events[n]);
        assert code == CodeAt(old(jobs), events, n + 1);
        var stopped := JobIsStopped(jobs[ji]);
        var completed := JobIsCompleted(jobs[ji]);
        if code != 0 || stopped || completed {
          CompletedIsStopped(jobs[ji]);
          StillRunningMeans(old(jobs), events, ji, n);
          n := n + 1;
          return;
        }
        n := n + 1;
      }
      StillRunningMeans(old(jobs), events, ji, n);
    }

    /** do_job_notification: drain the pending reports, then report and
        unlink every completed job and report and mark every stopped job
        that was not yet notified. Unlinking a job drops it from the list;
        the source's `free_job()`, called without its argument, is taken
        to free the unlinked job. */
    method DoJobNotification(events: seq<WaitResult>) returns (n: nat, notices: seq<Notice>)
      modifies this
      ensures n <= |events|
      ensures jobs == Sweep(MarkAll(old(jobs), events[..n]))
      ensures notices == Notices(MarkAll(old(jobs), events[..n]))
      ensures forall k :: 0 < k < n ==> CodeAt(old(jobs), events, k) == 0
      ensures n < |events| ==> 0 < n && CodeAt(old(jobs), events, n) != 0
    {
      n := UpdateStatus(events);
      var all := jobs;
      var kept: seq<Job> := [];
      notices := [];
      var i := 0;
      while i < |all|
        invariant 0 <= i <= |all|
        invariant kept == Sweep(all[..i]) && notices == Notices(all[..i])
      {
        var piece, notice := NotifyJob(all[i]);
        SweepSnoc(all, i);
        kept, notices := kept + piece, notices + notice;
        i := i + 1;
      }
      assert all[..i] == all;
      jobs := kept;
    }

    /** mark_job_as_running: clear `stopped` on each process of the job at
        index `ji`, then clear `notified`. */
    method MarkJobAsRunning(ji: nat)
      requires ji < |jobs|
      modifies this
      ensures jobs == old(jobs)[ji := Resume(old(jobs)[ji])]
    {
      var procs := jobs[ji].procs;
      var k := 0;
      while k < |procs|
        invariant 0 <= k <= |procs| && |procs| == |old(jobs)[ji].procs|
        invariant forall a :: 0 <= a < |procs| ==>
                    procs[a] == if a < k then old(jobs)[ji].procs[a].(stopped := false) else old(jobs)[ji].procs[a]
      {
        procs := procs[k := procs[k].(stopped := false)];
        k := k + 1;
      }
      assert procs == Resume(old(jobs)[ji]).procs;
      jobs := jobs[ji := jobs[ji].(procs := procs, notified := false)];
    }

    /** launch_job: fork the stages of the job at index `ji`, creating a pipe
        between each stage and the next, recording each child's pid and,
        in an interactive shell, the job's process group. A failing `pipe`
        or `fork` makes the shell exit with status 1. Returns the stages
        launched, the descriptors the shell closed and the number of
        `pipe` calls made. */
    method LaunchJob(ji: nat, foreground: bool, interactive: bool, pipes: seq<PipeCall>, forks: seq<ForkCall>)
      returns (outcome: LaunchOutcome, stages: seq<Stage>, closed: seq<int>, made: nat)
      requires ji < |jobs|
      requires |jobs[ji].procs| <= |forks| && |jobs[ji].procs| <= |pipes| + 1
      modifies this
      ensures var j := old(jobs)[ji];
        var n := |j.procs|;
        var m := LaunchedCount(n, pipes, forks, 0);
        && stages == Stages(j, pipes, forks, interactive, n, m)
        && jobs == old(jobs)[ji := LaunchedJob(j, forks, interactive, m)]
        && closed == ParentCloses(j, pipes, n, m)
        && made == (if n == 0 then 0 else if m + 1 < n - 1 then m + 1 else n - 1)
        && outcome == if m < n then Exit(1)
                      else Launched(if !interactive then WaitHere else if foreground then Foreground else Background)
    {
      ghost var j0 := jobs[ji];
      var n := |jobs[ji].procs|;
      var stdin, stdout, stderr := jobs[ji].stdin, jobs[ji].stdout, jobs[ji].stderr;
      var infile := stdin;
      var readEnd := 0;
      stages, closed, made := [], [], 0;
      var i := 0;
      LaunchedNothing(j0, forks, interactive);
      assert old(jobs)[ji := j0] == old(jobs);
      while i < n
        invariant i <= n && |jobs| == |old(jobs)|
        invariant Succeeded(n, pipes, forks, i)
        invariant jobs == old(jobs)[ji := LaunchedJob(j0, forks, interactive, i)]
        invariant stages == Stages(j0, pipes, forks, interactive, n, i)
        invariant closed == ParentCloses(j0, pipes, n, i)
        invariant made == (if n == 0 then 0 else if i < n - 1 then i else n - 1)
        invariant i < n ==> infile == StageInput(j0, pipes, i)
      {
        if i < n - 1 {
          made := made + 1;
        }
        var ok, stage, closes;
        ok, stage, closes, readEnd := ForkStage(ji, i, n, interactive, infile, readEnd, pipes, forks, j0);
        if !ok {
          LaunchedCountIsFirstFailure(n, pipes, forks, 0, i);
          outcome := Exit(1);
          return;
        }
        stages := stages + [stage];
        closed := closed + closes;
        infile := readEnd;
        i := i + 1;
      }
      LaunchedCountIsFirstFailure(n, pipes, forks, 0, n);
      outcome := Launched(if !interactive then WaitHere else if foreground then Foreground else Background);
    }

    /** One pass of launch_job's loop, for stage `i` of `n`: make the pipe to
        the next stage unless this is the last one, fork, and do the parent's
        bookkeeping. `ok` is false when `pipe` or `fork` failed; then nothing
        has changed. */
    method ForkStage(ji: nat, i: nat, n: nat, interactive: bool, infile: int, lastRead: int,
                     pipes: seq<PipeCall>, forks: seq<ForkCall>, ghost j0: Job)
      returns (ok: bool, stage: Stage, closes: seq<int>, readEnd: int)
      requires ji < |jobs| && i < n == |j0.procs| && n <= |forks| && n <= |pipes| + 1
      requires Succeeded(n, pipes, forks, i)
      requires jobs[ji] == LaunchedJob(j0, forks, interactive, i)
      requires infile == StageInput(j0, pipes, i)
      modifies this
      ensures ok == StageSucceeds(n, pipes, forks, i)
      ensures !ok ==> jobs == old(jobs)
      ensures ok ==> && Succeeded(n, pipes, forks, i + 1)
                     && stage == StageAt(j0, pipes, forks, interactive, n, i)
                     && closes == ClosesAfter(j0, infile, StageOutput(j0, pipes, n, i))
                     && (i + 1 < n ==> readEnd == StageInput(j0, pipes, i + 1))
                     && jobs == old(jobs)[ji := LaunchedJob(j0, forks, interactive, i + 1)]
                     && Stages(j0, pipes, forks, interactive, n, i + 1) == Stages(j0, pipes, forks, interactive, n, i) + [stage]
                     && ParentCloses(j0, pipes, n, i + 1) == ParentCloses(j0, pipes, n, i) + closes
    {
      var outfile;
      readEnd := lastRead;
      stage, closes := Stage(0, 0, 0, 0, None), [];
      if i < n - 1 {
        if pipes[i].PipeErr? {
          return false, stage, closes, readEnd;
        }
        outfile, readEnd := pipes[i].write, pipes[i].read;
      } else {
        outfile := jobs[ji].stdout;
      }
      if forks[i].ForkErr? {
        return false, stage, closes, readEnd;
      }
      var pid := forks[i].pid;
      var pgidArg := jobs[ji].pgid;
      stage := Stage(infile, outfile, jobs[ji].stderr, pgidArg, ChildGroup(interactive, pgidArg, pid));
      if infile != jobs[ji].stdin {
        closes := closes + [infile];
      }
      if outfile != jobs[ji].stdout {
        closes := closes + [outfile];
      }
      StartStage(ji, i, pid, interactive, j0, forks);
      ok := true;
    }

    /** The parent's bookkeeping after forking stage `i`: record the child's
        pid, and in an interactive shell make the first child's pid the
        job's pgid. */
    method StartStage(ji: nat, i: nat, pid: Pid, interactive: bool, ghost j0: Job, ghost forks: seq<ForkCall>)
      requires ji < |jobs| && i < |j0.procs| && i < |forks| && forks[i] == Forked(pid)
      requires forall a :: 0 <= a < i ==> forks[a].Forked?
      requires jobs[ji] == LaunchedJob(j0, forks, interactive, i)
      modifies this
      ensures jobs == old(jobs)[ji := LaunchedJob(j0, forks, interactive, i + 1)]
    {
      LaunchedJobSpec(j0, forks, interactive, i);
      LaunchedJobSpec(j0, forks, interactive, i + 1);
      var j := jobs[ji];
      j := j.(procs := j.procs[i := j.procs[i].(pid := pid)]);
      if interactive && j.pgid == 0 {
        j := j.(pgid := pid);
      }
      assert j.procs == LaunchedJob(j0, forks, interactive, i + 1).procs;
      jobs := jobs[ji := j];
    }
  }
}
