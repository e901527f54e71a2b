/** The complete parts of side_shell.c: its four-entry builtin table, the
    statuses its builtins return, and its copy of split_line. Its shell_cd
    differs from shell.c's only in the diagnostic it prints, so it is
    Shell.ShellCd. */
module SideShell {
  import opened Common
  import opened Tokens
  import Shell

  /** The builtin names of side_shell.c, in table order. */
  const BuiltinStr: seq<string> := ["barrier", "cd", "help", "quit"]

  /** shell_num_builtins: the number of entries of the table. */
  function NumBuiltins(): (n: nat)
    ensures n == |BuiltinStr| && n == 4
  {
    |BuiltinStr|
  }

  /** shell_barrier: a placeholder that lets the shell go on. */
  function ShellBarrier(args: seq<Option<string>>): (r: int)
    ensures r == 1
  {
    1
  }

  /** The table is shell.c's with "barrier" in front, one entry longer,
      and names no builtin twice. */
  lemma TableExtendsShell()
    ensures BuiltinStr == ["barrier"] + Shell.BuiltinStr
    ensures NumBuiltins() == Shell.NumBuiltins() + 1
    ensures forall i, j :: 0 <= i < j < |BuiltinStr| ==> BuiltinStr[i] != BuiltinStr[j]
  {
    assert BuiltinStr[0][0] == 'b' && BuiltinStr[1][0] == 'c' && BuiltinStr[2][0] == 'h' && BuiltinStr[3][0] == 'q';
  }

  /** Of the builtins only quit ends the loop: shell_quit returns 0, and
      shell_barrier and shell_cd return 1 whatever the arguments and
      whatever chdir does. */
  lemma BuiltinStatuses(args: seq<Option<string>>, chdirOk: bool)
    requires 1 < |args|
    ensures Shell.ShellQuit() == 0
    ensures ShellBarrier(args) == 1
    ensures Shell.ShellCd(args, chdirOk).0 == 1
  {
  }

  /** side_shell's split_line: the same loop as shell.c's over the same
      delimiters, so the same tokens in the same growing, NULL-terminated
      array. */
  method SplitLine(line: string) returns (tokens: array<Option<string>>)
    ensures fresh(tokens)
    ensures |Tokens.Tokens(line)| < tokens.Length <= |Tokens.Tokens(line)| + TokBufSize
    ensures tokens.Length % TokBufSize == 0
    ensures forall k :: 0 <= k < |Tokens.Tokens(line)| ==> tokens[k] == Some(Tokens.Tokens(line)[k])
    ensures tokens[|Tokens.Tokens(line)|] == None
    ensures WellFormedArgs(tokens[..]) && Argv(tokens[..]) == Tokens.Tokens(line)
  {
    tokens := Tokens.SplitLine(line);
  }
}
