/** The tokeniser shared by shell.c and side_shell.c (their `split_line` bodies
    are the same text): `strtok` over the delimiter set SH_TOK_DELIM, collected
    into a NULL-terminated token array that grows by SH_TOK_BUFSIZE slots. */
module Tokens {
  import opened Common

  /** SH_TOK_DELIM, " \t\r\n\a" ('\a' is the bell character, code 7). */
  const Delimiters: set<char> := {' ', '\t', '\r', '\n', '\U{7}'}

  /** SH_TOK_BUFSIZE: the initial size of the token array and its growth step. */
  const TokBufSize: nat := 64

  predicate IsDelim(c: char) {
    c in Delimiters
  }

  predicate AllDelims(g: string) {
    forall k :: 0 <= k < |g| ==> IsDelim(g[k])
  }

  predicate NoDelims(t: string) {
    forall k :: 0 <= k < |t| ==> !IsDelim(t[k])
  }

  /** First position at or after `i` that is not a delimiter. */
  function SkipDelims(s: string, i: nat): (r: nat)
    requires i <= |s|
    ensures i <= r <= |s|
    ensures r < |s| ==> !IsDelim(s[r])
    decreases |s| - i
  {
    if i < |s| && IsDelim(s[i]) then SkipDelims(s, i + 1) else i
  }

  /** Everything SkipDelims passes over is a delimiter. */
  lemma {:induction false} SkipDelimsSpec(s: string, i: nat)
    requires i <= |s|
    ensures forall k :: i <= k < SkipDelims(s, i) ==> IsDelim(s[k])
    decreases |s| - i
  {
    if i < |s| && IsDelim(s[i]) {
      SkipDelimsSpec(s, i + 1);
    }
  }

  /** First position at or after `i` that is a delimiter (or the end). */
  function RunEnd(s: string, i: nat): (r: nat)
    requires i <= |s|
    ensures i <= r <= |s|
    ensures r < |s| ==> IsDelim(s[r])
    decreases |s| - i
  {
    if i < |s| && !IsDelim(s[i]) then RunEnd(s, i + 1) else i
  }

  /** Everything RunEnd passes over is a non-delimiter. */
  lemma {:induction false} RunEndSpec(s: string, i: nat)
    requires i <= |s|
    ensures forall k :: i <= k < RunEnd(s, i) ==> !IsDelim(s[k])
    decreases |s| - i
  {
    if i < |s| && !IsDelim(s[i]) {
      RunEndSpec(s, i + 1);
    }
  }

  /** A token as the half-open range `start..end` of the line. */
  datatype Span = Span(start: nat, end: nat)

  /** One call of `strtok(…, SH_TOK_DELIM)` whose saved position is `from`:
      skip delimiters, then take the longest run of non-delimiters.
      `None` is strtok's NULL (only delimiters were left). */
  function Strtok(s: string, from: nat): (r: Option<Span>)
    requires from <= |s|
    ensures r.Some? ==> from <= r.value.start < r.value.end <= |s|
  {
    var b := SkipDelims(s, from);
    if b == |s| then None else Some(Span(b, RunEnd(s, b)))
  }

  /** strtok returns NULL exactly when only delimiters are left; otherwise
      it returns the first maximal run of non-delimiters. */
  lemma StrtokSpec(s: string, from: nat)
    requires from <= |s|
    ensures Strtok(s, from).None? <==> forall k :: from <= k < |s| ==> IsDelim(s[k])
    ensures Strtok(s, from).Some? ==>
      var sp := Strtok(s, from).value;
      && (forall k :: from <= k < sp.start ==> IsDelim(s[k]))
      && (forall k :: sp.start <= k < sp.end ==> !IsDelim(s[k]))
      && (sp.end < |s| ==> IsDelim(s[sp.end]))
  {
    var b := SkipDelims(s, from);
    SkipDelimsSpec(s, from);
    if b < |s| {
      RunEndSpec(s, b);
    }
  }

  /** Where strtok resumes after returning `sp`: it overwrote the delimiter
      that ended the token with '\0' and saved the position after it. */
  function Resume(s: string, sp: Span): nat
    requires sp.end <= |s|
  {
    if sp.end < |s| then sp.end + 1 else sp.end
  }

  /** The tokens strtok hands out, in order, starting at saved position `from`. */
  function TokensFrom(s: string, from: nat): seq<string>
    requires from <= |s|
    decreases |s| - from
  {
    match Strtok(s, from)
    case None => []
    case Some(sp) => [s[sp.start..sp.end]] + TokensFrom(s, Resume(s, sp))
  }

  /** The tokens of a whole line. */
  function Tokens(s: string): seq<string> {
    TokensFrom(s, 0)
  }

  /** The delimiter runs around and between the tokens from `from` on. */
  function GapsFrom(s: string, from: nat): seq<string>
    requires from <= |s|
    decreases |s| - from
  {
    match Strtok(s, from)
    case None => [s[from..]]
    case Some(sp) => [s[from..sp.start]] + GapsFrom(s, sp.end)
  }

  function Gaps(s: string): seq<string> {
    GapsFrom(s, 0)
  }

  /** gaps[0] + toks[0] + gaps[1] + … + toks[n-1] + gaps[n]. */
  function Joined(gaps: seq<string>, toks: seq<string>): string
    requires |gaps| == |toks| + 1
  {
    if toks == [] then gaps[0] else gaps[0] + toks[0] + Joined(gaps[1..], toks[1..])
  }

  /** A decomposition of a line into tokens separated by delimiter runs:
      every token is a non-empty run of non-delimiters, every gap consists of
      delimiters only, and the gaps between two tokens are not empty. */
  ghost predicate WellSplit(gaps: seq<string>, toks: seq<string>) {
    && |gaps| == |toks| + 1
    && (forall k :: 0 <= k < |gaps| ==> AllDelims(gaps[k]))
    && (forall k :: 0 < k < |toks| ==> gaps[k] != "")
    && (forall k :: 0 <= k < |toks| ==> toks[k] != "" && NoDelims(toks[k]))
  }

  /** Resuming on a delimiter or just after it gives the same tokens. */
  lemma {:induction false} ResumeSkipsDelimiter(s: string, i: nat)
    requires i < |s| && IsDelim(s[i])
    ensures TokensFrom(s, i) == TokensFrom(s, i + 1)
  {
    assert SkipDelims(s, i) == SkipDelims(s, i + 1);
    assert Strtok(s, i) == Strtok(s, i + 1);
  }

  lemma JoinedCons(g: string, t: string, gs: seq<string>, ts: seq<string>)
    requires |gs| == |ts| + 1
    ensures Joined([g] + gs, [t] + ts) == g + t + Joined(gs, ts)
  {
    assert ([g] + gs)[1..] == gs;
    assert ([t] + ts)[1..] == ts;
  }

  lemma WellSplitCons(g: string, t: string, gs: seq<string>, ts: seq<string>)
    requires WellSplit(gs, ts)
    requires AllDelims(g) && t != "" && NoDelims(t)
    requires ts != [] ==> gs[0] != ""
    ensures WellSplit([g] + gs, [t] + ts)
  {
    var G, T := [g] + gs, [t] + ts;
    forall k | 0 <= k < |G| ensures AllDelims(G[k]) {
      if k > 0 { assert G[k] == gs[k - 1]; }
    }
    forall k | 0 < k < |T| ensures G[k] != "" {
      assert G[k] == gs[k - 1];
    }
    forall k | 0 <= k < |T| ensures T[k] != "" && NoDelims(T[k]) {
      if k > 0 { assert T[k] == ts[k - 1]; }
    }
  }

  lemma WellSplitTail(gaps: seq<string>, toks: seq<string>)
    requires WellSplit(gaps, toks) && toks != []
    ensures WellSplit(gaps[1..], toks[1..])
    ensures |toks| > 1 ==> gaps[1] != ""
  {
    var G, T := gaps[1..], toks[1..];
    forall k | 0 <= k < |G| ensures AllDelims(G[k]) {
      assert G[k] == gaps[k + 1];
    }
    forall k | 0 < k < |T| ensures G[k] != "" {
      assert G[k] == gaps[k + 1];
    }
    forall k | 0 <= k < |T| ensures T[k] != "" && NoDelims(T[k]) {
      assert T[k] == toks[k + 1];
    }
  }

  lemma SliceSplit(s: string, a: nat, b: nat, c: nat)
    requires a <= b <= c <= |s|
    ensures s[a..] == s[a..b] + s[b..c] + s[c..]
  {
  }

  /** The delimiter that ends a token opens the gap before the next token. */
  lemma GapAfterToken(s: string, i: nat)
    requires i < |s| && IsDelim(s[i])
    requires TokensFrom(s, i) != []
    ensures GapsFrom(s, i)[0] != ""
  {
    var next := Strtok(s, i);
    StrtokSpec(s, i);
    assert next.Some?;
    assert GapsFrom(s, i)[0] == s[i..next.value.start];
  }

  /** What one successful strtok call cuts out of the line. */
  lemma StrtokParts(s: string, from: nat, sp: Span)
    requires from <= |s|
    requires Strtok(s, from) == Some(sp)
    ensures AllDelims(s[from..sp.start])
    ensures s[sp.start..sp.end] != "" && NoDelims(s[sp.start..sp.end])
    ensures s[from..] == s[from..sp.start] + s[sp.start..sp.end] + s[sp.end..]
  {
    StrtokSpec(s, from);
    assert forall k :: 0 <= k < sp.start - from ==> s[from..sp.start][k] == s[from + k];
    assert forall k :: 0 <= k < sp.end - sp.start ==> s[sp.start..sp.end][k] == s[sp.start + k];
  }

  /** One strtok step of the token sequence. */
  lemma TokensStep(s: string, from: nat, sp: Span)
    requires from <= |s|
    requires Strtok(s, from) == Some(sp)
    ensures TokensFrom(s, from) == [s[sp.start..sp.end]] + TokensFrom(s, Resume(s, sp))
  {
  }

  lemma UnfoldFrom(s: string, from: nat, sp: Span)
    requires from <= |s|
    requires Strtok(s, from) == Some(sp)
    ensures TokensFrom(s, from) == [s[sp.start..sp.end]] + TokensFrom(s, sp.end)
    ensures GapsFrom(s, from) == [s[from..sp.start]] + GapsFrom(s, sp.end)
  {
    assert sp == Span(SkipDelims(s, from), RunEnd(s, SkipDelims(s, from)));
    TokensStep(s, from, sp);
    if sp.end < |s| {
      ResumeSkipsDelimiter(s, sp.end);
    }
  }

  lemma {:induction false} SplitFrom(s: string, from: nat)
    requires from <= |s|
    ensures WellSplit(GapsFrom(s, from), TokensFrom(s, from))
    ensures s[from..] == Joined(GapsFrom(s, from), TokensFrom(s, from))
    decreases |s| - from
  {
    var r := Strtok(s, from);
    StrtokSpec(s, from);
    if r.None? {
      assert GapsFrom(s, from) == [s[from..]];
      assert TokensFrom(s, from) == [];
      assert AllDelims(s[from..]) by {
        assert forall k :: 0 <= k < |s[from..]| ==> s[from..][k] == s[from + k];
      }
    } else {
      var sp := r.value;
      StrtokParts(s, from, sp);
      UnfoldFrom(s, from, sp);
      SplitFrom(s, sp.end);
      var gs, ts := GapsFrom(s, sp.end), TokensFrom(s, sp.end);
      if ts != [] {
        GapAfterToken(s, sp.end);
      }
      WellSplitCons(s[from..sp.start], s[sp.start..sp.end], gs, ts);
      JoinedCons(s[from..sp.start], s[sp.start..sp.end], gs, ts);
    }
  }

  /** Every line is its tokens separated by delimiter runs: the tokens are
      exactly the maximal runs of non-delimiters, in order. */
  lemma TokensAreMaximalRuns(s: string)
    ensures WellSplit(Gaps(s), Tokens(s))
    ensures s == Joined(Gaps(s), Tokens(s))
  {
    SplitFrom(s, 0);
    assert s[0..] == s;
  }

  lemma {:induction false} SkipDelimsOver(s: string, i: nat, m: nat)
    requires i + m <= |s|
    requires forall k :: i <= k < i + m ==> IsDelim(s[k])
    requires i + m < |s| ==> !IsDelim(s[i + m])
    ensures SkipDelims(s, i) == i + m
    decreases m
  {
    if m > 0 {
      SkipDelimsOver(s, i + 1, m - 1);
    }
  }

  lemma {:induction false} RunEndOver(s: string, i: nat, m: nat)
    requires i + m <= |s|
    requires forall k :: i <= k < i + m ==> !IsDelim(s[k])
    requires i + m < |s| ==> IsDelim(s[i + m])
    ensures RunEnd(s, i) == i + m
    decreases m
  {
    if m > 0 {
      RunEndOver(s, i + 1, m - 1);
    }
  }

  /** Reading the pieces of `g + t + rest` back out of the line. */
  lemma ConcatPieces(s: string, from: nat, g: string, t: string, rest: string)
    requires from <= |s|
    requires s[from..] == g + t + rest
    ensures from + |g| + |t| <= |s|
    ensures forall k :: from <= k < from + |g| ==> s[k] == g[k - from]
    ensures forall k :: from + |g| <= k < from + |g| + |t| ==> s[k] == t[k - from - |g|]
    ensures s[from + |g|..from + |g| + |t|] == t
    ensures s[from + |g| + |t|..] == rest
  {
    assert forall k :: from <= k < |s| ==> s[k] == s[from..][k - from];
    assert s[from + |g| + |t|..] == s[from..][|g| + |t|..];
  }

  /** The first token of a well-split line is what strtok returns first. */
  lemma JoinedHead(s: string, from: nat, gaps: seq<string>, toks: seq<string>)
    requires from <= |s|
    requires WellSplit(gaps, toks) && toks != []
    requires s[from..] == Joined(gaps, toks)
    ensures from + |gaps[0]| + |toks[0]| <= |s|
    ensures Strtok(s, from) == Some(Span(from + |gaps[0]|, from + |gaps[0]| + |toks[0]|))
    ensures s[from + |gaps[0]|..from + |gaps[0]| + |toks[0]|] == toks[0]
    ensures s[from + |gaps[0]| + |toks[0]|..] == Joined(gaps[1..], toks[1..])
  {
    var g, t := gaps[0], toks[0];
    var rest := Joined(gaps[1..], toks[1..]);
    assert Joined(gaps, toks) == g + t + rest;
    assert AllDelims(g) && t != "" && NoDelims(t);
    WellSplitTail(gaps, toks);
    RestStartsWithDelim(gaps[1..], toks[1..]);
    ConcatPieces(s, from, g, t, rest);
    HeadBoundaries(s, from, g, t, rest);
  }

  /** Where strtok's scans stop on `g + t + rest` read from `from`. */
  lemma HeadBoundaries(s: string, from: nat, g: string, t: string, rest: string)
    requires from <= |s| && s[from..] == g + t + rest
    requires AllDelims(g) && t != "" && NoDelims(t)
    requires rest != "" ==> IsDelim(rest[0])
    ensures from + |g| + |t| <= |s|
    ensures Strtok(s, from) == Some(Span(from + |g|, from + |g| + |t|))
  {
    var st := from + |g|;
    var en := st + |t|;
    ConcatPieces(s, from, g, t, rest);
    assert forall k :: from <= k < st ==> IsDelim(s[k]) by {
      forall k | from <= k < st ensures IsDelim(s[k]) {
        assert s[k] == g[k - from];
      }
    }
    assert forall k :: st <= k < en ==> !IsDelim(s[k]) by {
      forall k | st <= k < en ensures !IsDelim(s[k]) {
        assert s[k] == t[k - st];
      }
    }
    assert s[st] == t[0];
    if en < |s| {
      assert s[en] == s[en..][0] == rest[0];
    }
    SkipDelimsOver(s, from, |g|);
    RunEndOver(s, st, |t|);
    assert SkipDelims(s, from) == st < |s|;
  }

  /** After a token, the rest of a well-split line is empty or starts with a delimiter. */
  lemma RestStartsWithDelim(gaps: seq<string>, toks: seq<string>)
    requires WellSplit(gaps, toks)
    requires toks != [] ==> gaps[0] != ""
    ensures Joined(gaps, toks) != "" ==> IsDelim(Joined(gaps, toks)[0])
  {
    if toks != [] {
      assert Joined(gaps, toks) == gaps[0] + toks[0] + Joined(gaps[1..], toks[1..]);
      assert AllDelims(gaps[0]);
    } else {
      assert AllDelims(gaps[0]);
    }
  }

  lemma UniqueNil(s: string, from: nat, g: string)
    requires from <= |s|
    requires AllDelims(g) && s[from..] == g
    ensures TokensFrom(s, from) == []
  {
    assert forall k :: from <= k < |s| ==> s[k] == s[from..][k - from];
    StrtokSpec(s, from);
  }

  lemma {:induction false} UniqueFrom(s: string, from: nat, gaps: seq<string>, toks: seq<string>)
    requires from <= |s|
    requires WellSplit(gaps, toks)
    requires s[from..] == Joined(gaps, toks)
    ensures TokensFrom(s, from) == toks
    decreases toks
  {
    if toks == [] {
      UniqueNil(s, from, gaps[0]);
    } else {
      var st := from + |gaps[0]|;
      var en := st + |toks[0]|;
      JoinedHead(s, from, gaps, toks);
      UnfoldFrom(s, from, Span(st, en));
      WellSplitTail(gaps, toks);
      UniqueFrom(s, en, gaps[1..], toks[1..]);
      assert toks == [toks[0]] + toks[1..];
    }
  }

  /** Conversely, any decomposition of a line into non-empty delimiter-free
      tokens separated by delimiter runs yields exactly the strtok tokens. */
  lemma TokensUnique(s: string, gaps: seq<string>, toks: seq<string>)
    requires WellSplit(gaps, toks)
    requires s == Joined(gaps, toks)
    ensures Tokens(s) == toks
  {
    assert s[0..] == s;
    UniqueFrom(s, 0, gaps, toks);
  }

  /** The number of arguments of a NULL-terminated vector: the index of its
      first NULL (or its length if it has none). */
  function ArgCount(v: seq<Option<string>>): (n: nat)
    ensures n <= |v|
    ensures forall k :: 0 <= k < n ==> v[k].Some?
    ensures n < |v| ==> v[n].None?
  {
    ArgsFrom(v, 0)
  }

  /** The index of the first NULL at or after `i`, or the length. */
  function ArgsFrom(v: seq<Option<string>>, i: nat): (n: nat)
    requires i <= |v|
    ensures i <= n <= |v|
    ensures forall k :: i <= k < n ==> v[k].Some?
    ensures n < |v| ==> v[n].None?
    decreases |v| - i
  {
    if i == |v| || v[i].None? then i else ArgsFrom(v, i + 1)
  }

  /** The argument strings in front of the first NULL. */
  function Argv(v: seq<Option<string>>): (r: seq<string>)
    ensures |r| == ArgCount(v)
    ensures forall k :: 0 <= k < |r| ==> v[k] == Some(r[k])
  {
    seq(ArgCount(v), k requires 0 <= k < ArgCount(v) => v[k].value)
  }

  /** A vector that is NULL-terminated within its bounds and whose arguments
      are non-empty: what split_line hands to the rest of the shell. */
  predicate WellFormedArgs(v: seq<Option<string>>) {
    ArgCount(v) < |v| && forall k :: 0 <= k < ArgCount(v) ==> v[k].value != ""
  }

  /** The first NULL of a vector is where its arguments end. */
  lemma ArgCountAt(v: seq<Option<string>>, n: nat)
    requires n < |v| && v[n].None?
    requires forall k :: 0 <= k < n ==> v[k].Some?
    ensures ArgCount(v) == n
  {
  }

  /** split_line: tokenise `line` into a NULL-terminated array of tokens.
      The array holds SH_TOK_BUFSIZE slots to start with and grows by that
      many whenever the next write position reaches its size, so the write
      at `tokens[position]` is always in bounds. */
  method SplitLine(line: string) returns (tokens: array<Option<string>>)
    ensures fresh(tokens)
    ensures |Tokens(line)| < tokens.Length <= |Tokens(line)| + TokBufSize
    ensures tokens.Length % TokBufSize == 0
    ensures forall k :: 0 <= k < |Tokens(line)| ==> tokens[k] == Some(Tokens(line)[k])
    ensures tokens[|Tokens(line)|] == None
    ensures WellFormedArgs(tokens[..]) && Argv(tokens[..]) == Tokens(line)
  {
    var position;
    tokens, position := StoreTokens(line);
    tokens[position] := None;
    TokensAreMaximalRuns(line);
    TerminatedSlots(tokens[..], Tokens(line));
  }

  /** The `strtok` loop of split_line: every token of `line`, in order, in
      the first slots of a buffer that grows SH_TOK_BUFSIZE slots at a time
      and always keeps at least one free slot after them. */
  method StoreTokens(line: string) returns (tokens: array<Option<string>>, position: nat)
    ensures fresh(tokens)
    ensures position == |Tokens(line)| < tokens.Length <= position + TokBufSize
    ensures tokens.Length % TokBufSize == 0
    ensures tokens[..position] == Slots(Tokens(line))
  {
    position := 0;
    tokens := new Option<string>[TokBufSize](_ => None);
    ghost var done: seq<string> := [];
    var cursor := 0;
    var token := Strtok(line, cursor);
    while token.Some?
      invariant fresh(tokens)
      invariant cursor <= |line|
      invariant token == Strtok(line, cursor)
      invariant Tokens(line) == done + TokensFrom(line, cursor)
      invariant position == |done| < tokens.Length <= position + TokBufSize
      invariant tokens.Length % TokBufSize == 0
      invariant tokens[..position] == Slots(done)
      decreases |line| - cursor
    {
      var sp := token.value;
      TokensStep(line, cursor, sp);
      var tok := line[sp.start..sp.end];
      assert Tokens(line) == (done + [tok]) + TokensFrom(line, Resume(line, sp));
      tokens := Store(tokens, position, tok, done);
      done := done + [tok];
      position := position + 1;
      cursor := Resume(line, sp);
      token := Strtok(line, cursor);
    }
    assert done == Tokens(line);
  }

  /** Slots for `ts` followed by a NULL form a well-formed vector of `ts`. */
  lemma TerminatedSlots(v: seq<Option<string>>, ts: seq<string>)
    requires |ts| < |v| && v[..|ts|] == Slots(ts) && v[|ts|] == None
    requires forall k :: 0 <= k < |ts| ==> ts[k] != ""
    ensures forall k :: 0 <= k < |ts| ==> v[k] == Some(ts[k])
    ensures WellFormedArgs(v) && Argv(v) == ts
  {
    assert forall k :: 0 <= k < |ts| ==> v[k] == v[..|ts|][k];
    ArgCountAt(v, |ts|);
  }

  /** The array slots holding a sequence of tokens (non-NULL pointers). */
  function Slots(ts: seq<string>): (r: seq<Option<string>>)
    ensures |r| == |ts|
    ensures forall k :: 0 <= k < |ts| ==> r[k] == Some(ts[k])
  {
    seq(|ts|, k requires 0 <= k < |ts| => Some(ts[k]))
  }

  lemma SlotsSnoc(ts: seq<string>, t: string)
    ensures Slots(ts + [t]) == Slots(ts) + [Some(t)]
  {
  }

  /** The body of split_line's loop on the array: store the token at
      `position`, then, if the next position has reached the array's size,
      `realloc` it SH_TOK_BUFSIZE slots larger. The array then still has room
      beyond the stored tokens, and its size is still a multiple of
      SH_TOK_BUFSIZE. */
  method Store(tokens: array<Option<string>>, position: nat, tok: string, ghost done: seq<string>)
    returns (grown: array<Option<string>>)
    requires position == |done| < tokens.Length <= position + TokBufSize
    requires tokens.Length % TokBufSize == 0
    requires tokens[..position] == Slots(done)
    modifies tokens
    ensures grown == tokens || fresh(grown)
    ensures grown.Length == if position + 1 >= tokens.Length then tokens.Length + TokBufSize else tokens.Length
    ensures position + 1 < grown.Length <= position + 1 + TokBufSize
    ensures grown.Length % TokBufSize == 0
    ensures grown[..position + 1] == Slots(done + [tok])
  {
    tokens[position] := Some(tok);
    SlotsSnoc(done, tok);
    assert tokens[..position + 1] == Slots(done + [tok]);
    if position + 1 >= tokens.Length {
      NextMultiple(tokens.Length);
      grown := Grow(tokens, TokBufSize, None);
      assert grown[..position + 1] == grown[..tokens.Length][..position + 1];
    } else {
      grown := tokens;
    }
  }

  lemma NextMultiple(n: nat)
    requires n % TokBufSize == 0
    ensures (n + TokBufSize) % TokBufSize == 0
  {
  }
}
