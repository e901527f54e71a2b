# A verified model of a small job-control shell

The system is a teaching shell written in C, made of three parts:

- `job_control.c` keeps a linked list of active jobs. Each job owns a chain of processes, and each process carries its pid, its last wait status and `stopped`/`completed` flags. The file also has three jobs of its own:
  - it drains child-status reports from `waitpid` into that list;
  - it tells the user about stopped and completed jobs, unlinking the completed ones;
  - it launches a job as a pipeline of forked children sharing one process group.
- `shell.c` is the command loop:
  - `read_line` reads a line into a buffer that grows by 1024;
  - `split_line` splits it on `" \t\r\n\a"` into a NULL-terminated token array that grows by 64;
  - it dispatches the builtins `cd`, `help` and `quit`;
  - it scans the tokens for a lone `&` or a `>` redirection;
  - it chooses batch mode for a `.bat` argument.
- `side_shell.c` is an unfinished variant of `shell.c`. It differs in its four-entry builtin table, which adds `barrier`.

The model is written in Dafny and split into these modules:

- `Common` (`common.dfy`): `Option`, plus `Grow`, which models `realloc` on an array.
- `Jobs` (`jobs.dfy`): the job and process records, and what every list operation does, as functions on `seq<Job>` with lemmas about them:
  - lookup by pid;
  - applying one report;
  - applying a stream of reports;
  - the notification sweep;
  - resuming a job.
- `Pipeline` (`pipeline.dfy`): what `launch_job` and `launch_process` do:
  - each stage's descriptors;
  - each child's process group;
  - the pipe ends the shell closes;
  - the child's descriptor set-up.
- `JobControl` (`job_control.dfy`): the class `JobList`, whose field `jobs` is the list starting at `first_job`. Its methods are the C functions, each with its loop, proved equal to the functions of `Jobs` and `Pipeline`.
- `Tokens` (`tokens.dfy`): `strtok` over the delimiter set, and the tokens of a line as its maximal runs of non-delimiters. `SplitLine` is the growing-array loop of `split_line`.
- `Shell` (`shell.dfy`): `shell.c`, namely the builtins, `get_filename_ext` and mode choice, `read_line`, `check_background`, `redirection` and `shell_execute`. The last two mutate the argument array and the `background` flag.
- `SideShell` (`side_shell.dfy`): the four-entry table, the builtin statuses and `split_line`.

The system calls are inputs to the model:

- `waitpid` answers are a finite sequence of `WaitResult`s, consumed in order.
- `pipe` and `fork` answers are sequences of `PipeCall`/`ForkCall`.
- The outcome of `chdir` is a boolean.
- The standard input of `read_line` is a string.

The model follows the code as it stands:

- There is no fixed-capacity job table and there are no small integer job ids. The code keeps a linked list of jobs identified by pgid.
- `barrier` does not block until the active jobs finish. In the code `shell_barrier` only returns 1.

Several lines of the code do not compile or are evidently mistyped. The model takes their evident intent:

- `free_job()` takes no argument (job_control.c:162). It is read as freeing the job just unlinked, which the model simply drops from the list.
- `WUNTRACED(WNOHANG)` (job_control.c:121) is read as `WUNTRACED | WNOHANG`. Either way, `update_status` stops at the first report `mark_process_status` rejects.
- The comparison `outfile != STDIN_FILENO` (job_control.c:302) is modelled both as written and as intended; see Findings.

## Model

| member | source | states |
|---|---|---|
| Common.Grow | shell.c:159-166 | realloc: the new array is longer by the increment and keeps the old contents as its prefix |
| Jobs.CompletedIsStopped | job_control.c:56-79 | a completed job is stopped-or-completed, and a job with no processes is both |
| Jobs.FindProc | job_control.c:88-100 | returns the first process of the chain with the pid; every process before it has another pid, and None means no process has it |
| Jobs.Locate | job_control.c:87-102 | returns the first (job, process) position in list order whose process has the pid; None exactly when no job has a process with it |
| Jobs.FirstMatchUnique | job_control.c:87-102 | the first matching position is unique, so "the" matched process is well defined |
| Jobs.Apply | job_control.c:90-98 | storing a report sets the status, sets `stopped` for a stop report and `completed` for any other, and keeps pid and argv |
| Jobs.Update | job_control.c:89-99 | replacing one process record changes that record only: every other job, and every other process of the job, is the same |
| Jobs.Mark | job_control.c:81-113 | mark_process_status returns 0 or -1, and on -1 the list is unchanged |
| Jobs.MarkSpec | job_control.c:85-112 | the status is 0 exactly when the report names a pid > 0 that some process has (no match, pid 0 and waitpid errors give -1); marking only ever sets flags |
| Jobs.MarkFirstMatch | job_control.c:85-100 | for a report matching the first position `at`, the list is the old one with that process updated by the report, and every other process is unchanged |
| Jobs.MarkAll | job_control.c:120-122 | applying a stream of reports in order keeps the number of jobs |
| Jobs.MarkAllAdvances | job_control.c:120-122 | applying any stream of reports never clears a `stopped` or `completed` flag nor changes pids, so completed jobs stay completed |
| Jobs.AdvancedTrans | job_control.c:120-122 | flag-monotonicity composes over successive reports |
| Jobs.AdvancedKeepsSettled | job_control.c:131-133 | a job that was stopped or completed stays so after later reports |
| Jobs.MarkAllSnoc | job_control.c:120-122 | applying n+1 reports is applying the (n+1)th report to the result of the first n |
| Jobs.AllAppliedAt | job_control.c:120-122 | in a drain that went on to report n, every earlier report was accepted (status 0) |
| Jobs.AllAppliedMeans | job_control.c:120-122 | the same for all earlier reports at once |
| Jobs.StillRunningAt | job_control.c:131-133 | in a wait that went on to report n, every earlier report was accepted and left the waited job neither stopped nor completed |
| Jobs.StillRunningMeans | job_control.c:131-133 | the same for all earlier reports at once |
| Jobs.Acknowledge | job_control.c:163-168 | only `notified` can change; it becomes set for a stopped-or-completed job, and a running or already-notified job is unchanged |
| Jobs.NoticeOf | job_control.c:155-171 | at most one notice per job, given exactly for a completed job or a stopped job not yet notified |
| Jobs.Sweep | job_control.c:150-173 | the sweep never lengthens the list |
| Jobs.KeptIndicesAreLiveJobs | job_control.c:150-173 | the positions the sweep keeps are in range, strictly increasing, are exactly the jobs that are not completed, and include every such job |
| Jobs.KeptIndicesInRange | job_control.c:155-162 | every kept position names a job that is not completed |
| Jobs.KeptIndicesIncrease | job_control.c:150-151 | kept positions are in range and in list order |
| Jobs.KeptIndicesComplete | job_control.c:163-172 | every job that is not completed is kept |
| Jobs.SweepKeepsLiveJobs | job_control.c:150-173 | the list after the sweep is the not-completed jobs in their original order |
| Jobs.SweepFollowsIndices | job_control.c:157-171 | the k-th job after the sweep is the acknowledged k-th kept job: same job with `notified` set if stopped |
| Jobs.SettledJobIsFixed | job_control.c:163-171 | a running or already-notified, not completed job is kept unchanged and not reported |
| Jobs.SettledPrefix | job_control.c:150-173 | a prefix of a settled list is settled |
| Jobs.SettledIsFixed | job_control.c:150-173 | sweeping a settled list changes nothing and reports nothing |
| Jobs.SweepIsSettled | job_control.c:150-173 | after a sweep no job is completed and every stopped job is notified |
| Jobs.SettledSnoc | job_control.c:150-173 | joining two settled lists gives a settled list |
| Jobs.SweepIsIdempotent | job_control.c:142-173 | a second notification pass without new reports changes nothing and reports nothing again |
| Jobs.SweepSnoc | job_control.c:150-173 | the sweep and its notices are built one job at a time, in list order |
| Jobs.Resume | job_control.c:212-220 | resuming clears `stopped` on every process, clears `notified`, and leaves `completed`, pid and status unchanged |
| Jobs.ResumedIsRunning | job_control.c:212-220 | after resuming, a job is stopped-or-completed exactly when it was completed |
| Pipeline.LaunchedCount | job_control.c:324-345 | the number of stages launched: every stage before it made its pipe and fork, and the stage at that count (if any) failed |
| Pipeline.LaunchedCountIsFirstFailure | job_control.c:324-345 | the count is the first stage whose pipe or fork fails, or the number of stages |
| Pipeline.ChildGroup | job_control.c:270-281 | an interactive child joins the group it is given, or its own pid when given 0; a non-interactive child joins none |
| Pipeline.Stages | job_control.c:323-367 | the launch plan has one entry per launched stage |
| Pipeline.LaunchedJob | job_control.c:347-351 | launching keeps the process chain's length |
| Pipeline.LaunchedJobSpec | job_control.c:347-351 | each launched process has its fork's pid, the others are unchanged, and the job's pgid is the first child's pid when interactive and unset, otherwise unchanged |
| Pipeline.LaunchedNothing | job_control.c:318-324 | before any fork the job is unchanged |
| Pipeline.PipelineTopology | job_control.c:323-365 | stage 0 reads the job's stdin, stage i+1 reads the read end of pipe i, stage i writes pipe i, and only the last stage writes the job's stdout |
| Pipeline.ChildrenShareGroup | job_control.c:277-279 | in an interactive shell with the job's pgid unset, the job's pgid becomes the first child's pid and every launched child joins that group |
| Pipeline.ParentClosesEveryPipeEnd | job_control.c:356-365 | after m stages the shell has closed exactly the ends of the pipes made so far that it no longer needs, in order |
| Pipeline.ParentLeaksNoPipe | job_control.c:356-365 | after the whole pipeline the shell has closed both ends of every pipe and nothing else |
| Pipeline.Install | job_control.c:297-310 | one channel of launch_process: equal to its guard, nothing changes; otherwise the descriptor is closed, the standard descriptor refers to its file (unless the two are the same descriptor), and every other descriptor is untouched |
| Pipeline.ChildChannelsAsWritten | job_control.c:296-310 | as written, each channel is moved onto 0, 1, 2 and closed unless it equals the guard 0, 0, 2; so an output already on descriptor 1 leaves the child without a descriptor 1 |
| Pipeline.ChildChannels | job_control.c:296-310 | as intended, the guards are 0, 1, 2; it agrees with the code as written whenever the output is neither 0 nor 1, and an output already on 1 leaves descriptor 1 as it was |
| Pipeline.StageChild | job_control.c:296-340 | corrected child set-up for a stage: the read end of its own output pipe (above 2) is closed, then the channels are installed as intended |
| Pipeline.Dup2 | job_control.c:297-310 | dup2 makes the target refer to what the source refers to, and does nothing for a closed source |
| Pipeline.ChildChannelsInstalled | job_control.c:296-310 | with the intended comparison, the child's 0, 1 and 2 refer to its three channels and the original descriptors are closed |
| Pipeline.ChildKeepsOwnReadEnd | job_control.c:326-340 | as written, the child of every stage but the last still holds the read end of its own output pipe after its descriptor set-up |
| Pipeline.StageChildHoldsNoPipeEnd | job_control.c:296-310 | corrected: the child also closes its own pipe's read end; its 0, 1 and 2 are its three channels and no end of a pipe the shell held at the fork is left open |
| Pipeline.ChildClosesStdoutAsWritten | job_control.c:302-305 | as written, a last stage writing to descriptor 1 closes its own standard output |
| JobControl.JobIsStopped | job_control.c:56-66 | true exactly when every process is completed or stopped |
| JobControl.JobIsCompleted | job_control.c:69-79 | true exactly when every process is completed |
| JobControl.NotifyJob | job_control.c:155-171 | one pass of the notification loop: the job's part of the swept list and of the notices |
| JobControl.JobList.constructor | job_control.c:40 | the list starts empty |
| JobControl.JobList.FindJob | job_control.c:43-53 | returns the first job in list order with the pgid, or None exactly when no job has it |
| JobControl.JobList.MarkProcessStatus | job_control.c:81-113 | status and new list are those of Jobs.Mark on the old list |
| JobControl.JobList.UpdateStatus | job_control.c:116-123 | applies reports in order, each accepted, up to and including the first one rejected or the end of the stream |
| JobControl.JobList.WaitForJob | job_control.c:127-134 | as update_status, also stopping after the report that leaves the waited job stopped or completed |
| JobControl.JobList.DoJobNotification | job_control.c:142-174 | drains the reports, then the list is the sweep of the marked list and the notices are those of the sweep |
| JobControl.JobList.MarkJobAsRunning | job_control.c:212-220 | the job is replaced by its resumed form and no other job changes |
| JobControl.JobList.LaunchJob | job_control.c:318-378 | the stages, the pids and pgid recorded, the descriptors closed and the pipes made are those of the plan up to the first failure; a failure exits with 1, success hands the job over by mode |
| JobControl.JobList.ForkStage | job_control.c:325-365 | one stage: with its pipe and fork succeeding it adds the plan's stage and closes to the record; otherwise nothing changes |
| JobControl.JobList.StartStage | job_control.c:346-353 | records the child's pid and, interactively, the job's pgid as the plan says |
| Tokens.SkipDelims | shell.c:187 | strtok's scan past delimiters ends in range at a non-delimiter or the end |
| Tokens.SkipDelimsSpec | shell.c:187 | every character skipped is a delimiter |
| Tokens.RunEnd | shell.c:187 | the token's end is in range, at a delimiter or the end |
| Tokens.RunEndSpec | shell.c:187 | every character of the token is a non-delimiter |
| Tokens.Strtok | shell.c:187 | a returned token is a non-empty span inside the remaining input |
| Tokens.StrtokSpec | shell.c:187 | strtok returns NULL exactly when only delimiters remain, otherwise the first maximal run of non-delimiters |
| Tokens.ResumeSkipsDelimiter | shell.c:202 | resuming past a delimiter gives the same tokens |
| Tokens.TokensAreMaximalRuns | shell.c:176-208 | the line is its delimiter gaps and tokens interleaved; tokens are non-empty, have no delimiter, and are separated by non-empty gaps |
| Tokens.TokensUnique | shell.c:176-208 | any split of the line into such gaps and tokens has exactly the tokens split_line produces |
| Tokens.SplitFrom | shell.c:187-203 | the tokens and gaps from any position rebuild the rest of the line and are well split |
| Tokens.UniqueFrom | shell.c:187-203 | a well-split rest of the line determines the tokens from that position |
| Tokens.JoinedHead | shell.c:187 | on a well-split rest, strtok returns exactly the first token |
| Tokens.HeadBoundaries | shell.c:187 | after delimiters and a non-delimiter run followed by a delimiter, strtok returns that run |
| Tokens.ArgCount | shell.c:289-328 | the number of arguments before the first NULL |
| Tokens.Argv | shell.c:289-328 | the arguments before the NULL, in order |
| Tokens.SplitLine | shell.c:176-208 | the array holds the tokens of the line in order, NULL-terminated, its capacity a multiple of 64 that exceeds the token count by at most 64 |
| Tokens.StoreTokens | shell.c:187-203 | the strtok loop stores every token in order with capacity above the position |
| Tokens.Store | shell.c:189-200 | one store: capacity grows by 64 exactly when position reaches it, so the slot written is in range |
| Tokens.TerminatedSlots | shell.c:205 | the NULL written after the tokens makes them the argument vector |
| Tokens.Slots | shell.c:189 | the filled slots hold the tokens in order |
| Shell.NumBuiltins | shell.c:54-68 | shell.c's table has three builtins |
| Shell.ShellCd | shell.c:74-84 | cd returns 1 in every branch; a missing argument is reported, otherwise the change or its failure |
| Shell.ShellHelp | shell.c:88-102 | help lists the table and returns 1 |
| Shell.ShellQuit | shell.c:105-107 | quit returns 0 |
| Shell.LastDot | shell.c:111 | strrchr: the last '.' of the name, or None when there is none |
| Shell.FilenameExt | shell.c:110-114 | the extension contains no '.' |
| Shell.FilenameExtSpec | shell.c:110-114 | "" exactly when there is no dot, the last dot is the first character, or the name ends in '.'; otherwise the name is a non-empty stem, '.', and the extension |
| Shell.BatExtension | shell.c:110-114 | the extension is "bat" exactly when the name has at least one character before a final ".bat" |
| Shell.ModeFor | shell.c:396-409 | interactive with no argument, an argument-count error with more than one |
| Shell.BatchModeFor | shell.c:396-409 | batch mode exactly for one argument ending in ".bat" after a non-empty stem, with that file |
| Shell.LineEnd | shell.c:150-172 | the position of the first newline, or the end of input |
| Shell.LineSplit | shell.c:150-172 | the line has no newline and, when a newline follows, the input is the line, the newline and the rest |
| Shell.ReadLine | shell.c:138-173 | the buffer holds the line then '\0', its capacity a multiple of 1024 above the line length by at most 1024; the newline is consumed |
| Shell.StripAmp | shell.c:118-135 | stripping keeps the array length |
| Shell.StripAmpSpec | shell.c:118-135 | stripping removes exactly the last character '&' of the last argument and changes nothing else |
| Shell.CheckBackground | shell.c:118-135 | returns 1 and strips the '&' exactly when the last argument ends in '&'; otherwise returns 0 and leaves the arguments |
| Shell.MarkerIndex | shell.c:308-321 | the first lone "&" or ">" argument, or the argument count |
| Shell.ExecPrefix | shell.c:214-222 | the arguments before the first marker |
| Shell.ExecArgv | shell.c:240 | execvp finds an argument vector exactly when the array has a NULL |
| Shell.ArgsCopyAsWritten | shell.c:214-222 | args_copy as written: the prefix, followed by whatever the rest of the array held |
| Shell.RedirectionAsWrittenIsUnterminated | shell.c:214-240 | for `ls > out` with a stale args_copy, execvp finds no NULL-terminated vector |
| Shell.Redirection | shell.c:210-252 | corrected: the vector passed to exec is exactly the prefix before the first marker, NULL-terminated |
| Shell.Execute | shell.c:289-328 | shell_execute keeps the array length |
| Shell.ExecuteStatus | shell.c:289-328 | status is -1, 0 or 1; 0 exactly for quit; -1 exactly when `background` is clear and the first marker is a ">" with no path after it, and then `background` stays clear and the arguments are unchanged |
| Shell.MissingPathToken | shell.c:314-318 | with `background` clear, a ">" with nothing after it returns -1 and leaves `background` clear |
| Shell.BuiltinsAreDispatched | shell.c:301-305 | a builtin name is dispatched before the scan and leaves the arguments and `background` unchanged |
| Shell.AmpersandToken | shell.c:310-313 | a lone "&" sets `background`, becomes the NULL ending the arguments, and the prefix runs without waiting |
| Shell.RedirectToken | shell.c:314-320 | ">" with a path hands the prefix and that path to redirection, status 1 |
| Shell.NoMarker | shell.c:323-327 | with no marker the command waits exactly when its last argument does not end in '&'; otherwise the '&' is dropped and it runs in the background |
| Shell.ShellState.constructor | shell.c:26 | `background` starts cleared |
| Shell.ShellState.ShellExecute | shell.c:289-328 | the status, action, arguments and `background` after the call are those Shell.Execute gives |
| Shell.ShellState.LaunchShell | shell.c:255-285 | launches the arguments; unless `background` is set, check_background decides and may strip the '&' |
| SideShell.NumBuiltins | side_shell.c:41-50 | side_shell.c's table has four builtins |
| SideShell.ShellBarrier | side_shell.c:92-94 | barrier returns 1 |
| SideShell.TableExtendsShell | side_shell.c:41-50 | the table is `barrier` followed by shell.c's three, one longer, with no name twice |
| SideShell.BuiltinStatuses | side_shell.c:56-94 | quit returns 0, barrier and cd return 1 whatever the arguments and chdir's outcome |
| SideShell.SplitLine | side_shell.c:135-167 | the same tokens in the same NULL-terminated array as shell.c's split_line, with capacity growing by 64 |

## Left out

- System calls (`waitpid`, `fork`, `pipe`, `dup2`, `close`, `execvp`, `open`, `chdir`) are inputs or descriptor maps, not process or file behaviour.
- Terminal and signal handling is not modelled, as OS terminal ownership and asynchronous signals: `tcsetpgrp`, `tcgetattr`/`tcsetattr`, `kill(SIGCONT)`, `signal`, the SIGCHLD/SIGINT handlers, `init_shell`, `continue_job`, `put_job_in_foreground` and `put_job_in_background`.
- Diagnostics (`perror`, `fprintf`, `format_job_info`) are not modelled; a notice only records the job, its state word and its command.
- The `main`, `interactive_mode` and `batch_mode` loops, their file and terminal I/O, and the help text are left out as plain I/O.
- `batch_gen.c` and `pidloop.c` are not part of this model: they are file output and a timing harness.
- There is no fixed-capacity job table, no job id and no blocking `barrier` in the code, so there are none here either.
- JobControl.JobList.UpdateStatus: the end of the finite report stream stands for the non-blocking `waitpid` having nothing more to report.
- JobControl.JobList.WaitForJob: the end of the finite report stream also ends the wait, where the blocking `waitpid` of `wait_for_job` would wait for the next report.
- JobControl.JobList.LaunchJob: the final `wait_for_job`/foreground/background hand-off is returned as a `Handoff` value rather than performed.
- `launch_process` runs in the child. It first joins the process group and, in the foreground, takes the terminal (`setpgid`, `tcsetpgrp`, job_control.c:276-285). Then it installs its descriptors and calls `execvp`, exiting if that fails. The group choice is `Pipeline.ChildGroup` and the descriptor set-up is `Pipeline.ChildChannels`; `tcsetpgrp`, `signal`, `execvp` and `exit` are not modelled.
- Allocation failure is not modelled. `read_line` and `split_line` exit with `EXIT_FAILURE` when `malloc` or `realloc` returns NULL (shell.c:141-146, 165-169, 178-184, 194-198); `Common.Grow` always succeeds.
- JobControl.JobList.WaitForJob, JobControl.JobList.MarkJobAsRunning and JobControl.JobList.LaunchJob take the job as an index into the list, so they only apply to listed jobs. The C functions accept any job pointer. For a job outside `first_job`, `wait_for_job` stops at the first report `mark_process_status` rejects, such as one about that job's processes, whose pids are in no listed job.
- Shell.Redirection and Shell.Execute: the `Redirect` and `Launch` actions record only the argument vector, not the file `execvp` is asked to run, `args[0]` (shell.c:240, 268). For a line starting with ">", such as `> out`, that file is ">" itself while the recorded vector is empty: `Redirect([], "out")`.
- A failing `pipe` or `fork` is modelled as the outcome `Exit(1)`. In the shell's own `launch_shell` and `redirection`, fork failure is not modelled.
- Shell.Redirection: `args_copy` is 256 slots and the copy loop has no bound check, so the model requires the marker to come before slot 256; the output file's `open` and `dup2` are left out.
- Tokens.SplitLine: the line is not modified in place as `strtok` does; a NUL byte inside the line is treated as an ordinary character.
- Shell.ReadLine: `getchar`'s EOF is the end of the input string; reading stops at the first newline without storing it.
- The model names a job by its index in the list, which is stable between sweeps; memory ownership (`free_job`) is left out.
- `side_shell.c`'s `read_line` lacks its closing brace, its `shell_execute`, `background` and `shell_terminal` are undeclared, and `interactive_mode;` in its `main` (side_shell.c:226) is a no-op statement. Only its table, builtin statuses and `split_line` are modelled.
- `batch_mode` never clears `background` between lines, so after a line with a lone `&` every later line skips the scan and runs in the background. The model keeps this behaviour in Shell.ShellState but does not report it as a finding.

## Findings

| source | as written | input that shows it | evidently intended | confidence | as-written member | corrected member |
|---|---|---|---|---|---|---|
| job_control.c:302 | `if (outfile != STDIN_FILENO)` before moving `outfile` onto descriptor 1 | the last stage of a job writing to the shell's stdout, `outfile == 1`: dup2(1, 1) then close(1) | compare with `STDOUT_FILENO`, leaving descriptor 1 open | not executed | Pipeline.ChildClosesStdoutAsWritten | Pipeline.ChildChannelsInstalled |
| job_control.c:326-340 | the pipe to the next stage is made before the fork, and `launch_process` closes only its three channels (job_control.c:296-310) | `a \| b`, pipe descriptors (3, 4): the child running `a` keeps descriptor 3, a read end of its own output pipe, across `execvp` | the child also closes its own pipe's read end, so a writer whose reader has exited gets EPIPE instead of blocking on a full pipe | not executed | Pipeline.ChildKeepsOwnReadEnd | Pipeline.StageChildHoldsNoPipeEnd |
| shell.c:240 | `args_copy` gets the arguments before the first `>` or `&` but no NULL, and is passed to `execvp` | `ls > out` with `args_copy` slots holding earlier values: no NULL follows `ls` | store NULL after the copied prefix | not executed | Shell.RedirectionAsWrittenIsUnterminated | Shell.Redirection |
