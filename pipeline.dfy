/** The plan that launch_job and launch_process carry out for a job: which
    descriptors each stage reads and writes, which process group each child
    joins, which pipe ends the shell closes, and how the child installs its
    descriptors. `pipe` and `fork` are oracles: the caller supplies their
    answers in order. */
module Pipeline {
  import opened Common
  import opened Jobs

  /** One answer of `pipe`: the two descriptors, or a failure. */
  datatype PipeCall = PipeOk(read: int, write: int) | PipeErr

  /** A pid as `fork` hands it to the parent. */
  type Pid = x: int | x > 0 witness 1

  /** One answer of `fork`, as seen by the parent. */
  datatype ForkCall = Forked(pid: Pid) | ForkErr

  /** One launched stage: the descriptors passed to launch_process, the
      pgid argument it was given, and the group the child then puts itself
      in (`None` when the shell is not interactive and the child leaves its
      group alone). */
  datatype Stage = Stage(infile: int, outfile: int, errfile: int, pgidArg: int, group: Option<int>)

  /** How launch_job hands the job over once every stage is forked:
      wait for it (non-interactive shell), put it in the foreground, or
      leave it in the background. */
  datatype Handoff = WaitHere | Foreground | Background

  datatype LaunchOutcome = Launched(handoff: Handoff) | Exit(code: int)

  /** Stage `i` of `n` makes a pipe (when it is not the last) and a fork,
      and both succeed. */
  predicate StageSucceeds(n: nat, pipes: seq<PipeCall>, forks: seq<ForkCall>, i: nat)
    requires i < n <= |forks| && n <= |pipes| + 1
  {
    (i < n - 1 ==> pipes[i].PipeOk?) && forks[i].Forked?
  }

  /** The first `m` of `n` stages made their pipes and forks. */
  predicate Succeeded(n: nat, pipes: seq<PipeCall>, forks: seq<ForkCall>, m: nat)
    requires m <= n <= |forks| && n <= |pipes| + 1
  {
    forall i :: 0 <= i < m ==> (i < n - 1 ==> pipes[i].PipeOk?) && forks[i].Forked?
  }

  /** The number of stages forked before the first failure, or `n`. */
  function LaunchedCount(n: nat, pipes: seq<PipeCall>, forks: seq<ForkCall>, from: nat): (m: nat)
    requires from <= n <= |forks| && n <= |pipes| + 1
    ensures from <= m <= n
    ensures forall i :: from <= i < m ==> (i < n - 1 ==> pipes[i].PipeOk?) && forks[i].Forked?
    ensures m < n ==> !StageSucceeds(n, pipes, forks, m)
    decreases n - from
  {
    if from == n || !StageSucceeds(n, pipes, forks, from) then from
    else LaunchedCount(n, pipes, forks, from + 1)
  }

  /** The count stops at the first stage that fails. */
  lemma {:induction false} LaunchedCountIsFirstFailure(n: nat, pipes: seq<PipeCall>, forks: seq<ForkCall>, from: nat, m: nat)
    requires from <= m <= n <= |forks| && n <= |pipes| + 1
    requires Succeeded(n, pipes, forks, m) && (m < n ==> !StageSucceeds(n, pipes, forks, m))
    ensures LaunchedCount(n, pipes, forks, from) == m
    decreases m - from
  {
    if from < m {
      assert StageSucceeds(n, pipes, forks, from);
      LaunchedCountIsFirstFailure(n, pipes, forks, from + 1, m);
    }
  }

  /** The descriptor stage `i` reads: the job's input for the first stage,
      the read end of the previous stage's pipe otherwise. */
  function StageInput(j: Job, pipes: seq<PipeCall>, i: nat): int
    requires i <= |pipes| && (i > 0 ==> pipes[i - 1].PipeOk?)
  {
    if i == 0 then j.stdin else pipes[i - 1].read
  }

  /** The descriptor stage `i` of `n` writes: the write end of its own pipe,
      or the job's output for the last stage. */
  function StageOutput(j: Job, pipes: seq<PipeCall>, n: nat, i: nat): int
    requires i < n && (i < n - 1 ==> i < |pipes| && pipes[i].PipeOk?)
  {
    if i == n - 1 then j.stdout else pipes[i].write
  }

  /** The job's pgid when stage `i` is forked: the first child's pid once an
      interactive shell has recorded it, the job's own pgid otherwise. */
  function GroupArg(j: Job, interactive: bool, forks: seq<ForkCall>, i: nat): int
    requires i < |forks| && (i > 0 ==> forks[0].Forked?)
  {
    if interactive && j.pgid == 0 && i > 0 then forks[0].pid else j.pgid
  }

  /** The pgid of the job once `m` stages are forked. */
  function FinalPgid(j: Job, interactive: bool, forks: seq<ForkCall>, m: nat): int
    requires m <= |forks| && (m > 0 ==> forks[0].Forked?)
  {
    if interactive && j.pgid == 0 && m > 0 then forks[0].pid else j.pgid
  }

  /** The group a child joins in launch_process: a pgid argument of 0
      means its own pid. A non-interactive shell's children do not call
      `setpgid`. */
  function ChildGroup(interactive: bool, pgidArg: int, pid: Pid): (r: Option<int>)
    ensures r.Some? <==> interactive
    ensures r.Some? ==> r.value == (if pgidArg == 0 then pid else pgidArg) && r.value != 0
  {
    if !interactive then None
    else if pgidArg == 0 then Some(pid)
    else Some(pgidArg)
  }

  /** Stage `i` as the shell launches it. */
  function StageAt(j: Job, pipes: seq<PipeCall>, forks: seq<ForkCall>, interactive: bool, n: nat, i: nat): Stage
    requires i < n <= |forks| && n <= |pipes| + 1
    requires Succeeded(n, pipes, forks, i + 1)
  {
    Stage(StageInput(j, pipes, i), StageOutput(j, pipes, n, i), j.stderr,
          GroupArg(j, interactive, forks, i),
          ChildGroup(interactive, GroupArg(j, interactive, forks, i), forks[i].pid))
  }

  /** The first `m` stages of the launch. */
  function Stages(j: Job, pipes: seq<PipeCall>, forks: seq<ForkCall>, interactive: bool, n: nat, m: nat): (r: seq<Stage>)
    requires m <= n <= |forks| && n <= |pipes| + 1
    requires Succeeded(n, pipes, forks, m)
    ensures |r| == m
  {
    if m == 0 then [] else Stages(j, pipes, forks, interactive, n, m - 1) + [StageAt(j, pipes, forks, interactive, n, m - 1)]
  }

  /** The job record once `m` stages are forked: those processes carry their
      pids and the job carries its group. */
  function LaunchedJob(j: Job, forks: seq<ForkCall>, interactive: bool, m: nat): (r: Job)
    requires m <= |j.procs| && m <= |forks|
    requires forall i :: 0 <= i < m ==> forks[i].Forked?
    ensures |r.procs| == |j.procs|
  {
    j.(procs := seq(|j.procs|, k requires 0 <= k < |j.procs| =>
                  if k < m then j.procs[k].(pid := forks[k].pid) else j.procs[k]),
       pgid := FinalPgid(j, interactive, forks, m))
  }

  /** The first `m` processes carry the pids fork returned, the others are
      as they were, and the job's group is the one the launch settled on;
      nothing else in the job changes. */
  lemma LaunchedJobSpec(j: Job, forks: seq<ForkCall>, interactive: bool, m: nat)
    requires m <= |j.procs| && m <= |forks|
    requires forall i :: 0 <= i < m ==> forks[i].Forked?
    ensures forall k :: 0 <= k < |j.procs| ==>
              LaunchedJob(j, forks, interactive, m).procs[k] ==
              (if k < m then j.procs[k].(pid := forks[k].pid) else j.procs[k])
    ensures LaunchedJob(j, forks, interactive, m) ==
            j.(procs := LaunchedJob(j, forks, interactive, m).procs, pgid := FinalPgid(j, interactive, forks, m))
  {
  }

  lemma LaunchedNothing(j: Job, forks: seq<ForkCall>, interactive: bool)
    ensures LaunchedJob(j, forks, interactive, 0) == j
  {
    assert LaunchedJob(j, forks, interactive, 0).procs == j.procs;
  }

  /** The descriptors the shell closes after forking a stage: its input
      unless it is the job's input, its output unless it is the job's output. */
  function ClosesAfter(j: Job, infile: int, outfile: int): seq<int> {
    (if infile != j.stdin then [infile] else []) + (if outfile != j.stdout then [outfile] else [])
  }

  /** The descriptors the shell closes over the first `m` stages, in order. */
  function ParentCloses(j: Job, pipes: seq<PipeCall>, n: nat, m: nat): seq<int>
    requires m <= n <= |pipes| + 1
    requires forall i :: 0 <= i < m && i < n - 1 ==> pipes[i].PipeOk?
  {
    if m == 0 then []
    else ParentCloses(j, pipes, n, m - 1) + ClosesAfter(j, StageInput(j, pipes, m - 1), StageOutput(j, pipes, n, m - 1))
  }

  /** Both ends of each pipe, write end first, pipe by pipe. */
  function PipeEnds(ps: seq<PipeCall>): seq<int>
    requires forall i :: 0 <= i < |ps| ==> ps[i].PipeOk?
  {
    if ps == [] then [] else PipeEnds(ps[..|ps| - 1]) + [ps[|ps| - 1].write, ps[|ps| - 1].read]
  }

  /** Pipe descriptors are never the job's own input or output. */
  predicate FreshPipes(j: Job, pipes: seq<PipeCall>, count: nat)
    requires count <= |pipes|
  {
    forall i :: 0 <= i < count ==> pipes[i].PipeOk? && pipes[i].read != j.stdin && pipes[i].write != j.stdout
  }

  /** The wiring of a fully launched job: the first stage reads the job's
      input, each later stage reads the pipe written by the stage before
      it, and only the last stage writes the job's output. */
  lemma PipelineTopology(j: Job, pipes: seq<PipeCall>, n: nat)
    requires 0 < n <= |pipes| + 1 && FreshPipes(j, pipes, n - 1)
    ensures StageInput(j, pipes, 0) == j.stdin
    ensures StageOutput(j, pipes, n, n - 1) == j.stdout
    ensures forall i :: 0 <= i < n - 1 ==>
              StageInput(j, pipes, i + 1) == pipes[i].read && StageOutput(j, pipes, n, i) == pipes[i].write
    ensures forall i :: 0 <= i < n ==> (StageOutput(j, pipes, n, i) == j.stdout <==> i == n - 1)
  {
  }

  /** In an interactive shell, every child of a job that had no group yet
      joins the group named by the first child's pid, which is also the
      job's pgid afterwards. */
  lemma {:induction false} ChildrenShareGroup(j: Job, pipes: seq<PipeCall>, forks: seq<ForkCall>, n: nat, m: nat)
    requires m <= n <= |forks| && n <= |pipes| + 1
    requires Succeeded(n, pipes, forks, m)
    requires j.pgid == 0 && 0 < m
    ensures FinalPgid(j, true, forks, m) == forks[0].pid
    ensures forall i :: 0 <= i < m ==> Stages(j, pipes, forks, true, n, m)[i].group == Some(forks[0].pid)
  {
    if m > 1 {
      ChildrenShareGroup(j, pipes, forks, n, m - 1);
    }
  }

  /** The shell closes every end of every pipe, each exactly once, in the
      order write end, read end: no pipe descriptor leaks in the shell. */
  lemma {:induction false} ParentClosesEveryPipeEnd(j: Job, pipes: seq<PipeCall>, n: nat, m: nat)
    requires 0 < m <= n <= |pipes| + 1 && FreshPipes(j, pipes, n - 1)
    ensures ParentCloses(j, pipes, n, m) ==
              PipeEnds(pipes[..m - 1]) + (if m < n then [pipes[m - 1].write] else [])
  {
    if m == 1 {
      assert pipes[..0] == [];
    } else {
      ParentClosesEveryPipeEnd(j, pipes, n, m - 1);
      assert pipes[..m - 1][..m - 2] == pipes[..m - 2];
    }
  }

  lemma ParentLeaksNoPipe(j: Job, pipes: seq<PipeCall>, n: nat)
    requires 0 < n <= |pipes| + 1 && FreshPipes(j, pipes, n - 1)
    ensures ParentCloses(j, pipes, n, n) == PipeEnds(pipes[..n - 1])
  {
    ParentClosesEveryPipeEnd(j, pipes, n, n);
  }

  /** A child's descriptor table: descriptor to open file. */
  type FdTable = map<int, int>

  /** dup2(from, to): `to` refers to what `from` refers to; nothing happens
      when `from` is not open. */
  function Dup2(t: FdTable, from: int, to: int): (r: FdTable)
    ensures from in t ==> r == t[to := t[from]]
    ensures from !in t ==> r == t
  {
    if from in t then t[to := t[from]] else t
  }

  function Close(t: FdTable, fd: int): FdTable {
    t - {fd}
  }

  /** One step of launch_process's descriptor set-up: unless `fd` equals
      `guard`, move it onto `std` and close the original. */
  function Install(t: FdTable, fd: int, std: int, guard: int): (r: FdTable)
    ensures fd == guard ==> r == t
    ensures fd != guard ==> fd !in r
    ensures fd != guard && fd in t && fd != std ==> std in r && r[std] == t[fd]
    ensures fd != guard ==> forall k :: k != fd && k != std ==> (k in r <==> k in t) && (k in r ==> r[k] == t[k])
  {
    if fd != guard then Close(Dup2(t, fd, std), fd) else t
  }

  /** launch_process's set-up as written: the output descriptor is compared
      with standard input (descriptor 0) instead of standard output. */
  function ChildChannelsAsWritten(t: FdTable, infile: int, outfile: int, errfile: int): (r: FdTable)
    ensures outfile == 1 ==> 1 !in r
  {
    Install(Install(Install(t, infile, 0, 0), outfile, 1, 0), errfile, 2, 2)
  }

  /** launch_process's set-up as intended: each descriptor is compared with
      the standard descriptor it replaces. */
  function ChildChannels(t: FdTable, infile: int, outfile: int, errfile: int): (r: FdTable)
    ensures outfile != 0 && outfile != 1 ==> r == ChildChannelsAsWritten(t, infile, outfile, errfile)
    ensures outfile == 1 && infile != 1 && errfile != 1 && 1 in t ==> 1 in r && r[1] == t[1]
  {
    Install(Install(Install(t, infile, 0, 0), outfile, 1, 1), errfile, 2, 2)
  }

  /** Each channel is either already its standard descriptor or a descriptor
      above 2 that no other channel shares. */
  predicate Separate(infile: int, outfile: int, errfile: int) {
    && (infile == 0 || infile > 2)
    && (outfile == 1 || outfile > 2)
    && (errfile == 2 || errfile > 2)
    && (infile > 2 ==> infile != outfile && infile != errfile)
    && (outfile > 2 ==> outfile != errfile)
  }

  /** With the intended comparison, the child's descriptors 0, 1 and 2 refer
      to the files its three channels referred to, and the originals are
      closed. */
  lemma ChildChannelsInstalled(t: FdTable, infile: int, outfile: int, errfile: int)
    requires infile in t && outfile in t && errfile in t
    requires Separate(infile, outfile, errfile)
    ensures var r := ChildChannels(t, infile, outfile, errfile);
      && 0 in r && 1 in r && 2 in r
      && r[0] == t[infile] && r[1] == t[outfile] && r[2] == t[errfile]
      && r.Keys == (t.Keys - {infile, outfile, errfile}) + {0, 1, 2}
  {
  }

  /** The descriptors the child of stage `i` of `n` sees at fork time are
      usable: its three channels are separate, every pipe end it inherits
      lies above 2, and the read end of its own output pipe is none of its
      channels. */
  predicate StageChannelsOk(j: Job, pipes: seq<PipeCall>, n: nat, i: nat)
    requires i < n <= |pipes| + 1
    requires forall k :: 0 <= k < n - 1 ==> pipes[k].PipeOk?
  {
    var infile, outfile := StageInput(j, pipes, i), StageOutput(j, pipes, n, i);
    && Separate(infile, outfile, j.stderr)
    && (i > 0 ==> infile > 2)
    && (i < n - 1 ==> && outfile > 2 && pipes[i].read > 2
                      && pipes[i].read != infile && pipes[i].read != outfile && pipes[i].read != j.stderr)
  }

  /** As written, the child of every stage but the last still holds the read
      end of its own output pipe when it calls execvp: the pipe is made before
      the fork (job_control.c:326-337) and launch_process closes only the
      three channels (job_control.c:296-310). The writer is then one of the
      pipe's readers, so it blocks on a full pipe instead of getting EPIPE
      once the next stage has exited. */
  lemma ChildKeepsOwnReadEnd(t: FdTable, j: Job, pipes: seq<PipeCall>, n: nat, i: nat)
    requires i < n - 1 && n <= |pipes| + 1
    requires forall k :: 0 <= k < n - 1 ==> pipes[k].PipeOk?
    requires StageChannelsOk(j, pipes, n, i) && pipes[i].read in t
    ensures var r := ChildChannels(t, StageInput(j, pipes, i), StageOutput(j, pipes, n, i), j.stderr);
      pipes[i].read in r && r[pipes[i].read] == t[pipes[i].read]
    ensures pipes[i].read in ChildChannelsAsWritten(t, StageInput(j, pipes, i), StageOutput(j, pipes, n, i), j.stderr)
  {
  }

  /** The read end of stage `i`'s own output pipe, when it has one. */
  function OwnReadEnd(pipes: seq<PipeCall>, n: nat, i: nat): Option<int>
    requires i < n <= |pipes| + 1
    requires forall k :: 0 <= k < n - 1 ==> pipes[k].PipeOk?
  {
    if i < n - 1 then Some(pipes[i].read) else None
  }

  /** The corrected set-up of the child of stage `i`: close the read end of
      its own output pipe, then install its three channels, each compared
      with the standard descriptor it replaces. */
  function StageChild(t: FdTable, j: Job, pipes: seq<PipeCall>, n: nat, i: nat): (r: FdTable)
    requires i < n <= |pipes| + 1
    requires forall k :: 0 <= k < n - 1 ==> pipes[k].PipeOk?
    ensures i < n - 1 && pipes[i].read > 2 ==> pipes[i].read !in r
  {
    var own := OwnReadEnd(pipes, n, i);
    ChildChannels(if own.Some? then Close(t, own.value) else t,
                  StageInput(j, pipes, i), StageOutput(j, pipes, n, i), j.stderr)
  }

  /** With the corrected set-up, descriptors 0, 1 and 2 of the child are its
      three channels, and no end of the pipes the shell holds when it forks
      stage `i` (the read end of the previous pipe and both ends of its own;
      the previous write end is already closed, see ParentClosesEveryPipeEnd)
      is left open in the child. */
  lemma StageChildHoldsNoPipeEnd(t: FdTable, j: Job, pipes: seq<PipeCall>, n: nat, i: nat)
    requires i < n <= |pipes| + 1
    requires forall k :: 0 <= k < n - 1 ==> pipes[k].PipeOk?
    requires StageChannelsOk(j, pipes, n, i)
    requires StageInput(j, pipes, i) in t && StageOutput(j, pipes, n, i) in t && j.stderr in t
    ensures var r := StageChild(t, j, pipes, n, i);
      && 0 in r && 1 in r && 2 in r
      && r[0] == t[StageInput(j, pipes, i)] && r[1] == t[StageOutput(j, pipes, n, i)] && r[2] == t[j.stderr]
      && (i > 0 ==> pipes[i - 1].read !in r)
      && (i < n - 1 ==> pipes[i].read !in r && pipes[i].write !in r)
  {
    var infile, outfile := StageInput(j, pipes, i), StageOutput(j, pipes, n, i);
    var own := OwnReadEnd(pipes, n, i);
    var t' := if own.Some? then Close(t, own.value) else t;
    assert infile in t' && outfile in t' && j.stderr in t';
    ChildChannelsInstalled(t', infile, outfile, j.stderr);
  }

  /** As written, a child whose output is the shell's own standard output
      (the last stage of a job writing to descriptor 1) closes descriptor 1:
      its output is lost. The intended set-up leaves the table as it is. */
  lemma ChildClosesStdoutAsWritten()
    ensures var t := map[0 := 100, 1 := 101, 2 := 102];
      && 1 !in ChildChannelsAsWritten(t, 0, 1, 2)
      && ChildChannels(t, 0, 1, 2) == t
  {
    var t := map[0 := 100, 1 := 101, 2 := 102];
    assert ChildChannelsAsWritten(t, 0, 1, 2) == Close(t, 1);
  }
}
