/** The command layer of shell.c: reading a line, checking the batch-file
    extension, the trailing-`&` check, the dispatch and marker scan of
    shell_execute, and the argument vector that redirection hands to exec.
    The tokeniser is the one of the Tokens module. */
module Shell {
  import opened Common
  import opened Tokens

  /** SH_RL_BUFSIZE: read_line's buffer starts this large and grows by this much. */
  const ReadBufSize: nat := 1024

  /** The builtin names of shell.c, in table order. */
  const BuiltinStr: seq<string> := ["cd", "help", "quit"]

  /** shell_num_builtins: the number of entries of the builtin table. */
  function NumBuiltins(): (n: nat)
    ensures n == |BuiltinStr| && n == 3
  {
    |BuiltinStr|
  }

  // ---------------------------------------------------------------------
  // Builtins
  // ---------------------------------------------------------------------

  /** What shell_cd reports on stderr, if anything. */
  datatype CdReport = MissingArgument | Changed(dir: string) | CouldNotChange(dir: string)

  /** shell_cd: `chdirOk` is what chdir(args[1]) would do. The shell goes on
      (status 1) in every case. */
  function ShellCd(args: seq<Option<string>>, chdirOk: bool): (r: (int, CdReport))
    requires 1 < |args|
    ensures r.0 == 1
    ensures r.1 == MissingArgument <==> args[1].None?
    ensures args[1].Some? ==> r.1 == (if chdirOk then Changed(args[1].value) else CouldNotChange(args[1].value))
  {
    if args[1].None? then (1, MissingArgument)
    else if chdirOk then (1, Changed(args[1].value))
    else (1, CouldNotChange(args[1].value))
  }

  /** shell_help: list every name of the builtin `table`, in order, and go on. */
  method ShellHelp(table: seq<string>) returns (status: int, listed: seq<string>)
    ensures status == 1 && listed == table
  {
    listed := [];
    var i := 0;
    while i < |table|
      invariant i <= |table| && listed == table[..i]
    {
      listed := listed + [table[i]];
      i := i + 1;
    }
    assert table[..i] == table;
    status := 1;
  }

  /** shell_quit: the status that ends the interactive loop. */
  function ShellQuit(): (r: int)
    ensures r == 0
  {
    0
  }

  // ---------------------------------------------------------------------
  // get_filename_ext and the choice of mode in main
  // ---------------------------------------------------------------------

  /** strrchr(s, '.'): the index of the last '.' of `s`, if any. */
  function LastDot(s: string): (r: Option<nat>)
    ensures r.Some? ==> r.value < |s| && s[r.value] == '.' && '.' !in s[r.value + 1..]
    ensures r.None? ==> '.' !in s
  {
    if s == [] then None
    else if s[|s| - 1] == '.' then Some(|s| - 1)
    else
      var r := LastDot(s[..|s| - 1]);
      assert s == s[..|s| - 1] + [s[|s| - 1]];
      if r.Some? then
        assert s[r.value + 1..] == s[..|s| - 1][r.value + 1..] + [s[|s| - 1]];
        r
      else r
  }

  /** get_filename_ext: the text after the last '.', or "" when there is no
      '.' or the last one is the first character. */
  function FilenameExt(name: string): (r: string)
    ensures '.' !in r
  {
    match LastDot(name)
    case None => ""
    case Some(d) => if d == 0 then "" else name[d + 1..]
  }

  /** The extension is empty exactly when there is no '.', the last '.' is
      the first character, or the name ends with '.'; otherwise the name is a
      non-empty stem, a '.', and the extension. */
  lemma FilenameExtSpec(name: string)
    ensures FilenameExt(name) == "" <==>
            ('.' !in name || LastDot(name) == Some(0) || name[|name| - 1] == '.')
    ensures var e := FilenameExt(name);
            e != "" ==> |e| + 1 < |name| && name == name[..|name| - |e| - 1] + "." + e
  {
    var e := FilenameExt(name);
    match LastDot(name)
    case None =>
    case Some(d) =>
      if d != 0 {
        assert e == name[d + 1..];
        if e != "" {
          assert name == name[..d] + "." + e;
        }
      }
  }

  /** The extension is "bat" exactly when the name ends in ".bat" after at
      least one character. */
  lemma BatExtension(name: string)
    ensures FilenameExt(name) == "bat" <==> |name| >= 5 && name[|name| - 4..] == ".bat"
  {
    if |name| >= 5 && name[|name| - 4..] == ".bat" {
      EndsInBat(name);
    }
    if FilenameExt(name) == "bat" {
      BatEnds(name);
    }
  }

  lemma EndsInBat(name: string)
    requires |name| >= 5 && name[|name| - 4..] == ".bat"
    ensures FilenameExt(name) == "bat"
  {
    var d := |name| - 4;
    var tail := name[d..];
    assert name[d] == tail[0] == '.';
    assert name[d + 1..] == tail[1..] == "bat";
    LastDotIs(name, d);
  }

  lemma BatEnds(name: string)
    requires FilenameExt(name) == "bat"
    ensures |name| >= 5 && name[|name| - 4..] == ".bat"
  {
    FilenameExtSpec(name);
    var stem := name[..|name| - 4];
    assert name == stem + ".bat";
    assert name[|name| - 4..] == (stem + ".bat")[|stem|..];
  }

  /** A '.' with no '.' after it is the last one. */
  lemma {:induction false} LastDotIs(s: string, d: nat)
    requires d < |s| && s[d] == '.' && '.' !in s[d + 1..]
    ensures LastDot(s) == Some(d)
    decreases |s|
  {
    if d < |s| - 1 {
      var t := s[..|s| - 1];
      assert s[d + 1..] == t[d + 1..] + [s[|s| - 1]];
      LastDotIs(t, d);
    }
  }

  /** How main runs the shell for its argument vector (program name first). */
  datatype Mode = Interactive | Batch(file: string) | NotBatchFile(file: string) | WrongArgCount

  function ModeFor(argv: seq<string>): (m: Mode)
    ensures m.Interactive? <==> |argv| == 1
    ensures m.WrongArgCount? <==> |argv| != 1 && |argv| != 2
  {
    if |argv| == 1 then Interactive
    else if |argv| == 2 then
      if FilenameExt(argv[1]) == "bat" then Batch(argv[1]) else NotBatchFile(argv[1])
    else WrongArgCount
  }

  /** Batch mode is chosen exactly for one argument ending in ".bat" after
      at least one character. */
  lemma BatchModeFor(argv: seq<string>)
    ensures ModeFor(argv).Batch? <==> |argv| == 2 && |argv[1]| >= 5 && argv[1][|argv[1]| - 4..] == ".bat"
    ensures ModeFor(argv).Batch? ==> ModeFor(argv).file == argv[1]
  {
    if |argv| == 2 {
      BatExtension(argv[1]);
    }
  }

  // ---------------------------------------------------------------------
  // read_line
  // ---------------------------------------------------------------------

  /** Where the first line of `input` ends: its first '\n', or the end of the
      input (EOF). */
  function LineEnd(input: string): (r: nat)
    ensures r <= |input|
    ensures r < |input| ==> input[r] == '\n'
    ensures forall k :: 0 <= k < r ==> input[k] != '\n'
  {
    NewlineFrom(input, 0)
  }

  /** The index of the first '\n' at or after `i`, or the length. */
  function NewlineFrom(input: string, i: nat): (r: nat)
    requires i <= |input|
    ensures i <= r <= |input|
    ensures r < |input| ==> input[r] == '\n'
    ensures forall k :: i <= k < r ==> input[k] != '\n'
    decreases |input| - i
  {
    if i == |input| || input[i] == '\n' then i else NewlineFrom(input, i + 1)
  }

  /** The characters read_line returns. */
  function Line(input: string): string {
    input[..LineEnd(input)]
  }

  /** The input is the line, then a '\n' if there is more, then the rest:
      the line holds no '\n' and nothing before the first one is lost. */
  lemma LineSplit(input: string)
    ensures '\n' !in Line(input)
    ensures LineEnd(input) < |input| ==> input == Line(input) + "\n" + input[LineEnd(input) + 1..]
    ensures LineEnd(input) == |input| ==> Line(input) == input
  {
    var e := LineEnd(input);
    assert forall k :: 0 <= k < e ==> Line(input)[k] == input[k];
    if e < |input| {
      assert input == input[..e] + [input[e]] + input[e + 1..];
    }
  }

  /** read_line over the characters `input` that getchar would deliver, the
      end of `input` standing for EOF. The buffer starts at SH_RL_BUFSIZE
      characters and grows by that much whenever the next write position
      reaches its size, so the terminating '\0' always fits. `consumed` is
      how many characters getchar took. */
  method ReadLine(input: string) returns (buffer: array<char>, consumed: nat)
    ensures fresh(buffer)
    ensures LineEnd(input) < buffer.Length <= LineEnd(input) + ReadBufSize
    ensures buffer.Length % ReadBufSize == 0
    ensures buffer[..LineEnd(input)] == Line(input) && buffer[LineEnd(input)] == '\0'
    ensures consumed == if LineEnd(input) < |input| then LineEnd(input) + 1 else |input|
  {
    var buffSize := ReadBufSize;
    var position := 0;
    buffer := new char[buffSize](_ => '\0');
    while true
      invariant fresh(buffer) && buffer.Length == buffSize
      invariant position <= LineEnd(input)
      invariant position < buffSize <= position + ReadBufSize && buffSize % ReadBufSize == 0
      invariant buffer[..position] == input[..position]
      decreases |input| - position
    {
      if position == |input| || input[position] == '\n' {
        buffer[position] := '\0';
        assert buffer[..position] == input[..position];
        consumed := if position < |input| then position + 1 else position;
        return;
      }
      buffer[position] := input[position];
      assert buffer[..position + 1] == input[..position + 1];
      position := position + 1;
      if position >= buffSize {
        buffSize := buffSize + ReadBufSize;
        buffer := Grow(buffer, ReadBufSize, '\0');
        assert buffer[..position] == buffer[..position - 1 + 1];
      }
    }
  }

  // ---------------------------------------------------------------------
  // check_background
  // ---------------------------------------------------------------------

  /** The last argument ends in '&'. */
  predicate EndsWithAmp(v: seq<Option<string>>) {
    var n := ArgCount(v);
    0 < n && v[n - 1].value != "" && v[n - 1].value[|v[n - 1].value| - 1] == '&'
  }

  /** The vector with the trailing '&' of its last argument overwritten by the end of the string. */
  function StripAmp(v: seq<Option<string>>): (r: seq<Option<string>>)
    requires EndsWithAmp(v)
    ensures |r| == |v|
  {
    var last := v[ArgCount(v) - 1].value;
    v[ArgCount(v) - 1 := Some(last[..|last| - 1])]
  }

  /** Stripping keeps every argument, shortens the last one by exactly its
      '&', and putting the '&' back gives the old argument. */
  lemma StripAmpSpec(v: seq<Option<string>>)
    requires EndsWithAmp(v) && ArgCount(v) < |v|
    ensures ArgCount(StripAmp(v)) == ArgCount(v)
    ensures Argv(StripAmp(v))[..ArgCount(v) - 1] == Argv(v)[..ArgCount(v) - 1]
    ensures Argv(StripAmp(v))[ArgCount(v) - 1] + "&" == Argv(v)[ArgCount(v) - 1]
  {
    var n := ArgCount(v);
    var r := StripAmp(v);
    ArgCountAt(r, n);
    var last := v[n - 1].value;
    assert last == last[..|last| - 1] + "&";
  }

  /** check_background: count the arguments, and if the last one ends in
      '&' drop that character and return 1; otherwise return 0 and leave the
      arguments alone. */
  method CheckBackground(args: array<Option<string>>) returns (r: int)
    requires 0 < ArgCount(args[..]) < args.Length
    requires args[ArgCount(args[..]) - 1].value != ""
    modifies args
    ensures r == if EndsWithAmp(old(args[..])) then 1 else 0
    ensures args[..] == if r == 1 then StripAmp(old(args[..])) else old(args[..])
  {
    ghost var n := ArgCount(args[..]);
    var argNum := 0;
    while args[argNum].Some?
      invariant argNum <= n
      decreases n - argNum
    {
      argNum := argNum + 1;
    }
    var last := args[argNum - 1].value;
    if last[|last| - 1] == '&' {
      args[argNum - 1] := Some(last[..|last| - 1]);
      return 1;
    }
    return 0;
  }

  // ---------------------------------------------------------------------
  // The marker scan of shell_execute and redirection's argument vector
  // ---------------------------------------------------------------------

  /** A lone "&" or ">" argument. */
  predicate IsMarker(o: Option<string>) {
    o.Some? && (o.value == "&" || o.value == ">")
  }

  function MarkerFrom(v: seq<Option<string>>, i: nat): (m: nat)
    requires i <= ArgCount(v)
    ensures i <= m <= ArgCount(v)
    ensures m < ArgCount(v) ==> IsMarker(v[m])
    ensures forall k :: i <= k < m ==> !IsMarker(v[k])
    decreases ArgCount(v) - i
  {
    if i == ArgCount(v) || IsMarker(v[i]) then i else MarkerFrom(v, i + 1)
  }

  /** The index of the first "&" or ">" argument, or the argument count when there is none. */
  function MarkerIndex(v: seq<Option<string>>): (m: nat)
    ensures m <= ArgCount(v)
    ensures m < ArgCount(v) ==> IsMarker(v[m])
    ensures forall k :: 0 <= k < m ==> !IsMarker(v[k])
  {
    MarkerFrom(v, 0)
  }

  /** The arguments in front of the first marker: what the command runs with. */
  function ExecPrefix(v: seq<Option<string>>): (r: seq<string>)
    ensures |r| == MarkerIndex(v)
  {
    Argv(v)[..MarkerIndex(v)]
  }

  /** What execvp reads from a vector: the arguments up to its NULL, or
      nothing sensible when the vector holds no NULL. */
  function ExecArgv(v: seq<Option<string>>): (r: Option<seq<string>>)
    ensures r.Some? <==> ArgCount(v) < |v|
  {
    if ArgCount(v) < |v| then Some(Argv(v)) else None
  }

  /** The size of redirection's `args_copy`. */
  const ArgsCopySize: nat := 256

  /** redirection's `args_copy` as written: the arguments before the first
      marker, followed by whatever the uninitialised stack slots `stale`
      held. No NULL is ever stored. */
  function ArgsCopyAsWritten(v: seq<Option<string>>, stale: seq<Option<string>>): (r: seq<Option<string>>)
    requires |stale| == ArgsCopySize && MarkerIndex(v) < ArgsCopySize
    ensures |r| == ArgsCopySize
    ensures forall k :: 0 <= k < MarkerIndex(v) ==> r[k] == v[k]
    ensures forall k :: MarkerIndex(v) <= k < ArgsCopySize ==> r[k] == stale[k]
  {
    v[..MarkerIndex(v)] + stale[MarkerIndex(v)..]
  }

  /** With `ls > out` and stack slots that happen to hold pointers, the
      vector handed to execvp at shell.c:240 has no NULL in its 256 slots,
      although the intended vector is just `ls`. */
  lemma RedirectionAsWrittenIsUnterminated()
    ensures var v := [Some("ls"), Some(">"), Some("out"), None];
            var stale := seq(ArgsCopySize, _ => Some("junk"));
            && ExecPrefix(v) == ["ls"]
            && ExecArgv(ArgsCopyAsWritten(v, stale)) == None
  {
    var v := [Some("ls"), Some(">"), Some("out"), None];
    ArgCountAt(v, 3);
    assert !IsMarker(v[0]) && IsMarker(v[1]);
    assert MarkerIndex(v) == 1;
    assert Argv(v)[0] == "ls";
  }

  /** redirection's copy of the arguments, with the NULL after the copied
      prefix that execvp needs: the vector it runs is exactly the arguments
      in front of the first marker. */
  method Redirection(args: array<Option<string>>) returns (argsCopy: array<Option<string>>)
    requires ArgCount(args[..]) < args.Length
    requires MarkerIndex(args[..]) < ArgsCopySize
    ensures fresh(argsCopy) && argsCopy.Length == ArgsCopySize
    ensures ExecArgv(argsCopy[..]) == Some(ExecPrefix(args[..]))
  {
    ghost var m := MarkerIndex(args[..]);
    argsCopy := new Option<string>[ArgsCopySize](_ => None);
    var j := 0;
    while args[j].Some?
      invariant j <= m
      invariant forall k :: 0 <= k < j ==> argsCopy[k] == args[k]
      decreases m - j
    {
      if args[j].value == ">" || args[j].value == "&" {
        break;
      }
      argsCopy[j] := args[j];
      j := j + 1;
    }
    assert j == m;
    argsCopy[j] := None;
    ArgCountAt(argsCopy[..], m);
    assert Argv(argsCopy[..]) == ExecPrefix(args[..]);
  }

  // ---------------------------------------------------------------------
  // shell_execute and launch_shell
  // ---------------------------------------------------------------------

  /** What a command line leads to, besides its status. */
  datatype Action =
    | NoCommand
    | Quit
    | Help(listed: seq<string>)
    | ChangeDir(report: CdReport)
    | MissingPath
    | Redirect(argv: seq<string>, outFile: string)
    | Launch(argv: seq<string>, wait: bool)

  /** The status, the action, the argument vector and the `background` flag
      after shell_execute. */
  datatype Executed = Executed(status: int, action: Action, args: seq<Option<string>>, background: bool)

  /** The last argument, if any, is not empty (so check_background can read its last character). */
  predicate LastArgNonEmpty(v: seq<Option<string>>) {
    0 < ArgCount(v) ==> v[ArgCount(v) - 1].value != ""
  }

  /** A ">" with a path after it comes within the first 256 arguments. */
  predicate RedirectFits(v: seq<Option<string>>) {
    MarkerIndex(v) + 1 < ArgCount(v) && v[MarkerIndex(v)].value == ">" ==> MarkerIndex(v) < ArgsCopySize
  }

  /** launch_shell's effect once the scan is over: the child runs the
      arguments up to the NULL; the shell waits unless `background` is set. */
  function Launched(v: seq<Option<string>>, background: bool): Executed {
    Executed(1, Launch(Argv(v), !background), v, background)
  }

  /** shell_execute, stated on the whole line: an empty line, the three
      builtins, then, unless `background` is already set, the scan for the
      first "&" or ">". A lone "&" ends the arguments and sends the command
      to the background; ">" needs a path after it; with no marker,
      check_background looks for a trailing '&'. */
  function Execute(v: seq<Option<string>>, background: bool, chdirOk: bool): (r: Executed)
    requires ArgCount(v) < |v|
    ensures |r.args| == |v|
  {
    if ArgCount(v) == 0 then Executed(1, NoCommand, v, background)
    else if v[0].value == "quit" then Executed(0, Quit, v, background)
    else if v[0].value == "help" then Executed(1, Help(BuiltinStr), v, background)
    else if v[0].value == "cd" then Executed(1, ChangeDir(ShellCd(v, chdirOk).1), v, background)
    else if background then Launched(v, true)
    else
      var m := MarkerIndex(v);
      if m == ArgCount(v) then
        if EndsWithAmp(v) then Launched(StripAmp(v), true) else Launched(v, false)
      else if v[m].value == "&" then Launched(v[m := None], true)
      else if m + 1 == ArgCount(v) then Executed(-1, MissingPath, v, false)
      else Executed(1, Redirect(ExecPrefix(v), v[m + 1].value), v, false)
  }

  /** A non-builtin line whose first "&" or ">" is a ">" in last position:
      the redirection has no path. */
  predicate TrailingRedirect(v: seq<Option<string>>)
    requires ArgCount(v) < |v|
  {
    && 0 < ArgCount(v) && v[0].value !in BuiltinStr
    && MarkerIndex(v) + 1 == ArgCount(v) && v[MarkerIndex(v)].value == ">"
  }

  /** shell_execute returns -1, 0 or 1; 0, the only status that ends the
      interactive loop, exactly for "quit"; -1 exactly when `background` is
      clear and the first marker is a ">" with no path after it. */
  lemma ExecuteStatus(v: seq<Option<string>>, background: bool, chdirOk: bool)
    requires ArgCount(v) < |v|
    ensures var r := Execute(v, background, chdirOk);
            && (r.status == -1 || r.status == 0 || r.status == 1)
            && (r.status == 0 <==> 0 < ArgCount(v) && v[0].value == "quit")
            && (r.status == -1 <==> !background && TrailingRedirect(v))
            && (r.status == -1 ==> r.action.MissingPath? && !r.background && r.args == v)
  {
  }

  /** With `background` clear, a ">" with nothing after it gives -1 and
      leaves `background` clear; the scan never reaches launch_shell. */
  lemma MissingPathToken(v: seq<Option<string>>, chdirOk: bool)
    requires ArgCount(v) < |v| && TrailingRedirect(v)
    ensures Execute(v, false, chdirOk).status == -1
    ensures !Execute(v, false, chdirOk).background
    ensures Execute(v, false, chdirOk).action == MissingPath
  {
  }

  /** The builtins named in the table are dispatched before any scan and
      touch neither the arguments nor `background`. */
  lemma BuiltinsAreDispatched(v: seq<Option<string>>, background: bool, chdirOk: bool)
    requires ArgCount(v) < |v| && 0 < ArgCount(v) && v[0].value in BuiltinStr
    ensures var r := Execute(v, background, chdirOk);
            && (r.action.Quit? || r.action.Help? || r.action.ChangeDir?)
            && r.args == v && r.background == background
  {
  }

  /** The first marker is a lone "&": `background` is set, the "&" becomes
      the NULL that ends the arguments, and the command before it is launched
      without waiting. */
  lemma AmpersandToken(v: seq<Option<string>>, chdirOk: bool)
    requires ArgCount(v) < |v| && 0 < ArgCount(v) && v[0].value !in BuiltinStr
    requires MarkerIndex(v) < ArgCount(v) && v[MarkerIndex(v)].value == "&"
    ensures var r := Execute(v, false, chdirOk);
            && r.status == 1 && r.background
            && r.args == v[MarkerIndex(v) := None]
            && ArgCount(r.args) == MarkerIndex(v)
            && r.action == Launch(ExecPrefix(v), false)
  {
    var m := MarkerIndex(v);
    var w := v[m := None];
    ArgCountAt(w, m);
    assert Argv(w) == ExecPrefix(v);
  }

  /** The first marker is ">" followed by a path: the command before it and
      the path are handed to redirection, and the status is 1. The arguments
      are the command, the ">", and the path with whatever follows it. */
  lemma RedirectToken(v: seq<Option<string>>, chdirOk: bool)
    requires ArgCount(v) < |v| && 0 < ArgCount(v) && v[0].value !in BuiltinStr
    requires MarkerIndex(v) + 1 < ArgCount(v) && v[MarkerIndex(v)].value == ">"
    ensures var r := Execute(v, false, chdirOk);
            && r.status == 1 && r.args == v && !r.background
            && r.action == Redirect(ExecPrefix(v), Argv(v)[MarkerIndex(v) + 1])
            && Argv(v) == ExecPrefix(v) + [">"] + Argv(v)[MarkerIndex(v) + 1..]
  {
    var m := MarkerIndex(v);
    assert Argv(v) == Argv(v)[..m] + [Argv(v)[m]] + Argv(v)[m + 1..];
  }

  /** Without a marker the command is launched with the arguments as they
      are, and the shell waits for it, exactly when the last argument does
      not end in '&'; otherwise that '&' is dropped and the command runs in
      the background. */
  lemma NoMarker(v: seq<Option<string>>, chdirOk: bool)
    requires ArgCount(v) < |v| && 0 < ArgCount(v) && v[0].value !in BuiltinStr
    requires MarkerIndex(v) == ArgCount(v)
    ensures var r := Execute(v, false, chdirOk);
            && r.status == 1
            && (r.action == Launch(Argv(v), true) <==> !EndsWithAmp(v))
            && (EndsWithAmp(v) ==> r.args == StripAmp(v) && r.background && r.action.Launch? && !r.action.wait)
  {
    if EndsWithAmp(v) {
      StripAmpSpec(v);
    }
  }

  /** The shell's global flags. */
  class ShellState {
    /** The `background` global: set by a lone "&" or a trailing '&', cleared
        by the interactive loop after each line. */
    var background: bool

    constructor ()
      ensures !background
    {
      background := false;
    }

    /** shell_execute on the array split_line returned. `chdirOk` is what
        chdir would do for `cd`. */
    method ShellExecute(args: array<Option<string>>, chdirOk: bool) returns (status: int, action: Action)
      requires ArgCount(args[..]) < args.Length
      requires LastArgNonEmpty(args[..]) && RedirectFits(args[..])
      modifies this, args
      ensures Executed(status, action, args[..], background) == Execute(old(args[..]), old(background), chdirOk)
    {
      if args[0].None? {
        return 1, NoCommand;
      }
      if args[0].value == "quit" {
        return ShellQuit(), Quit;
      } else if args[0].value == "help" {
        var listed;
        status, listed := ShellHelp(BuiltinStr);
        return status, Help(listed);
      } else if args[0].value == "cd" {
        var r := ShellCd(args[..], chdirOk);
        return r.0, ChangeDir(r.1);
      }
      ghost var v := args[..];
      ghost var m := MarkerIndex(v);
      var i := 0;
      while args[i].Some? && !background
        invariant i <= ArgCount(v)
        invariant old(background) ==> i == 0 && background && args[..] == v
        invariant !old(background) && !background ==> i <= m && args[..] == v
        invariant !old(background) && background ==>
                    m < ArgCount(v) && v[m].value == "&" && i == m + 1 && args[..] == v[m := None]
        decreases ArgCount(v) - i
      {
        if args[i].value == "&" {
          background := true;
          args[i] := None;
        } else if args[i].value == ">" {
          if args[i + 1].None? {
            return -1, MissingPath;
          }
          var argsCopy := Redirection(args);
          return 1, Redirect(Argv(argsCopy[..]), args[i + 1].value);
        }
        i := i + 1;
      }
      if !old(background) && background {
        ArgCountAt(args[..], m);
      }
      status, action := LaunchShell(args);
    }

    /** launch_shell: unless `background` is already set, check_background
        decides it; the child runs the arguments, and the shell waits for it
        unless `background` is set. fork's failure ends the shell and is not
        modelled. */
    method LaunchShell(args: array<Option<string>>) returns (status: int, action: Action)
      requires ArgCount(args[..]) < args.Length
      requires !background ==> 0 < ArgCount(args[..]) && LastArgNonEmpty(args[..])
      modifies this, args
      ensures Executed(status, action, args[..], background) ==
              if old(background) then Launched(old(args[..]), true)
              else if EndsWithAmp(old(args[..])) then Launched(StripAmp(old(args[..])), true)
              else Launched(old(args[..]), false)
    {
      if !background {
        var b := CheckBackground(args);
        background := b == 1;
      }
      return 1, Launch(Argv(args[..]), !background);
    }
  }
}
