/** What `main` of mysh.c does with one input line once it has been read:
    reject it, run it as one command, or split it into clauses run in
    sequence (`;`) or in parallel (`&`).  Each clause (or the single line)
    is cut at its redirection and both halves are formatted into argument
    vectors. */
module Dispatch {
  import opened CString
  import opened StrQuote
  import opened Mysh
  import opened Redirection
  import Exec

  /** The decision for one line: rejected with an error message and nothing
      run, one command for `exec_cmd`, or clauses for `exec_cmds_seq`
      (`parallel` false) or `exec_cmds_par` (`parallel` true). */
  datatype Plan = Rejected | Single(cmd: Exec.Command) | Multi(parallel: bool, cmds: seq<Exec.Command>)

  /** The argument vector `format_cmd` and `buf_to_strs` make of the string `t`. */
  function ArgvOf(t: seq<Char>): (argv: seq<seq<Char>>)
    requires NUL !in t
  {
    Argv(t + [NUL])
  }

  /** The separator a line is split at, if it has exactly one kind of unquoted one. */
  function Separator(s: seq<Char>): (d: Option<Char>)
    requires NUL in s
    ensures d.Some? ==> d.value == SEMI || d.value == AMP
  {
    var text := s[..Strlen(s)];
    var semi := FindUnquoted(text, SEMI);
    var amp := FindUnquoted(text, AMP);
    if semi.Some? && amp.Some? then None
    else if semi.Some? then Some(SEMI)
    else if amp.Some? then Some(AMP)
    else None
  }

  /** `split` needs a first clause: a line made only of separators (possible
      at the end of a file without a final newline) hands `append_cmd` a NULL
      token, which the source does not guard against. */
  predicate Splittable(s: seq<Char>)
    requires NUL in s
  {
    Separator(s).Some? ==> Tokens(s, Begin(s), [Separator(s).value]) != []
  }

  /** One clause of a multi-command line (mysh.c lines 251-269): cut at its
      redirection; a clause whose redirection is invalid keeps type -1 and
      becomes the empty command. */
  function ClauseCommand(c: seq<Char>): (cmd: Exec.Command)
    requires NUL !in c
  {
    var r := SplitRedirection(c + [NUL]);
    RedirectShape(c + [NUL]);
    Exec.Command(if r.kind == -1 then Argv([NUL]) else Argv(r.src), r.kind, ArgvOf(r.target))
  }

  /** The commands of the clauses `cs`, in order. */
  function ClauseCommands(cs: seq<seq<Char>>): (cmds: seq<Exec.Command>)
    requires forall k :: 0 <= k < |cs| ==> NUL !in cs[k]
  {
    seq(|cs|, k requires 0 <= k < |cs| => ClauseCommand(cs[k]))
  }

  /** The commands of a line split at `d` (mysh.c lines 224-270): one per
      `strtok2` clause, as `append_cmd` wrote it into the split buffer. */
  function MultiCommands(s: seq<Char>, d: Char): (cmds: seq<Exec.Command>)
    requires NUL in s && (d == SEMI || d == AMP)
  {
    var ts := Tokens(s, Begin(s), [d]);
    TokensShape(s, Begin(s), [d]);
    ArgTextsNulFree(ts);
    ClauseCommands(ArgTexts(ts))
  }

  /** The decision `main` takes for the line buffer `s` (mysh.c lines 210-300). */
  function Decide(s: seq<Char>): (p: Plan)
    requires NUL in s && Splittable(s)
  {
    var text := s[..Strlen(s)];
    if ContainsQuotes(text) < 0 || Count(text, CountedQuote(text)) % 2 == 1 then Rejected
    else
      var semi := FindUnquoted(text, SEMI);
      var amp := FindUnquoted(text, AMP);
      if semi.Some? && amp.Some? then Rejected
      else if semi.Some? || amp.Some? then
        Multi(semi.None?, MultiCommands(s, Separator(s).value))
      else SingleCommand(s)
  }

  /** A line without separators (mysh.c lines 281-301): an invalid
      redirection, or a `>` with more than one target word, rejects it. */
  function SingleCommand(s: seq<Char>): (p: Plan)
    requires NUL in s
  {
    var r := SplitRedirection(s);
    RedirectShape(s);
    if r.kind == -1 then Rejected
    else
      var cmd := Exec.Command(Argv(r.src), r.kind, ArgvOf(r.target));
      if r.kind == GT && |cmd.target| > 1 then Rejected
      else Single(cmd)
  }

  // ---------------------------------------------------------------------------
  // Facts the methods need
  // ---------------------------------------------------------------------------

  /** A string followed by NUL has that string as its length. */
  lemma StrlenOfString(t: seq<Char>)
    requires NUL !in t
    ensures Strlen(t + [NUL]) == |t|
  {
    StrFromRun(t + [NUL], 0, |t|);
    assert (t + [NUL])[0..|t|] == t;
  }

  /** The second half of a cut leaves a NUL in the clause and a target text
      without NUL that is shorter than the clause. */
  lemma CutTargetShape(cmdLen: nat, second: Step, op: Char)
    requires Tokenizable(second.buf, second.cursor)
    ensures var r := CutTarget(cmdLen, second, op);
      NUL in r.src && NUL !in r.target && |r.target| < |second.buf|
  {
    var len := second.cursor.len;
    assert second.buf[len] == NUL;
    if second.token.Some? {
      var t := StrFrom(second.buf, second.token.value);
      if !BlankTarget(t) {
        var z := Zeroed(second.buf, cmdLen + 1, |t|);
        assert z[len] == NUL;
        ArgTextShape(t);
      }
    }
  }

  /** After `split_redir` the clause still holds a NUL, and the target text
      holds none and is shorter than the clause buffer. */
  lemma RedirectShape(s: seq<Char>)
    requires NUL in s
    ensures var r := SplitRedirection(s); NUL in r.src && NUL !in r.target && |r.target| < |s|
  {
    var sc := ScanOperators(s);
    if sc.Operator? {
      var op := sc.op;
      var first := Strtok2Step(s, Begin(s), [op]);
      Strtok2Advances(s, Begin(s), [op]);
      if first.token.None? {
        CutAtNoCommand(s, op);
        assert first.buf[first.cursor.len] == NUL;
      } else {
        var second := Strtok2Step(first.buf, first.cursor, [op]);
        Strtok2Advances(first.buf, first.cursor, [op]);
        CutAtSteps(s, op, first, second);
        CutTargetShape(|StrFrom(first.buf, first.token.value)|, second, op);
      }
    }
  }

  /** The string a zeroed target buffer holds is the target text. */
  lemma HeldString(d: seq<Char>, t: seq<Char>)
    requires Holds(d, t) && NUL !in t && |t| < |d|
    ensures StrFrom(d, 0) == t
  {
    assert d[..|t|] == t;
    StrFromIs(d, 0, t);
  }

  // ---------------------------------------------------------------------------
  // The operations
  // ---------------------------------------------------------------------------

  /** A zeroed buffer, as `char buf[MAX_LEN] = {0}` declares one. */
  method ZeroBuffer(n: nat) returns (a: array<Char>)
    ensures fresh(a) && a[..] == Zeros(n)
  {
    a := new Char[n](_ => NUL);
  }

  /** `format_cmd` into a fresh zeroed buffer and `buf_to_strs`: the argument
      vector of the string in `src` (whose buffer `strtok2` changes). */
  method ReadArgv(src: array<Char>) returns (argv: seq<seq<Char>>)
    requires NUL in src[..]
    modifies src
    ensures argv == Argv(old(src[..]))
  {
    var dest := ZeroBuffer(src.Length + 2);
    var offsets := FormatArgv(src, dest);
    var d := dest[..];
    argv := seq(|offsets|, j requires 0 <= j < |offsets| => StrFrom(d, offsets[j]));
  }

  /** The target's argument vector: `format_cmd` of the string in the target
      buffer, read from a copy of that string. */
  method ReadTarget(rbuf: array<Char>, ghost t: seq<Char>) returns (targv: seq<seq<Char>>)
    requires Holds(rbuf[..], t) && NUL !in t && |t| < rbuf.Length
    ensures targv == ArgvOf(t)
  {
    HeldString(rbuf[..], t);
    var copy := NewString(StrFrom(rbuf[..], 0));
    targv := ReadArgv(copy);
  }

  /** One clause of a `;` or `&` line, copied into a buffer of its own. */
  method HandleClause(c: seq<Char>) returns (cmd: Exec.Command)
    requires NUL !in c
    ensures cmd == ClauseCommand(c)
  {
    ghost var r := SplitRedirection(c + [NUL]);
    RedirectShape(c + [NUL]);
    var src := NewString(c);
    StrlenOfString(c);
    var rbuf := ZeroBuffer(|c| + 2);
    var kind := SplitRedir(src, rbuf);
    var argv;
    if kind == -1 {
      // the clause is replaced by the empty string
      var empty := NewString([]);
      argv := ReadArgv(empty);
    } else {
      argv := ReadArgv(src);
    }
    var targv := ReadTarget(rbuf, r.target);
    cmd := Exec.Command(argv, kind, targv);
  }

  /** The clauses of a line split at `d`, each handled in order while walking
      the packed split buffer. */
  method HandleClauses(line: array<Char>, d: Char) returns (cmds: seq<Exec.Command>)
    requires NUL in line[..] && (d == SEMI || d == AMP)
    requires Tokens(line[..], Begin(line[..]), [d]) != []
    modifies line
    ensures cmds == MultiCommands(old(line[..]), d)
  {
    ghost var ts := Tokens(line[..], Begin(line[..]), [d]);
    TokensShape(line[..], Begin(line[..]), [d]);
    ArgTextsNulFree(ts);
    ghost var xs := ArgTexts(ts);
    var buf := ZeroBuffer(Strlen(line[..]) + 2);
    var count := Split(line, d, buf);
    ghost var k0 := buf.Length - |Pack(xs)|;
    assert buf[..] == Pack(xs) + Zeros(k0);
    cmds := HandlePacked(buf[..], count, xs, k0);
  }

  /** The loop over the split buffer `b`, which packs the `count` clauses `xs`:
      each clause is the string at the current offset, and the offset moves
      past it and its NUL. */
  method HandlePacked(b: seq<Char>, count: nat, ghost xs: seq<seq<Char>>, ghost k0: nat)
    returns (cmds: seq<Exec.Command>)
    requires count == |xs| && forall j :: 0 <= j < |xs| ==> NUL !in xs[j]
    requires b == Pack(xs) + Zeros(k0)
    ensures cmds == ClauseCommands(xs)
  {
    cmds := [];
    var off := 0;
    var i := 0;
    while i < count
      invariant 0 <= i <= count
      invariant off == |Pack(xs[..i])|
      invariant cmds == ClauseCommands(xs)[..i]
    {
      PackedAt(xs, k0, i);
      var c := StrFrom(b, off);
      assert c == xs[i];
      var cmd := HandleClause(c);
      ghost var all := ClauseCommands(xs);
      assert all[i] == cmd;
      PrefixStep(all, i, cmd);
      cmds := cmds + [cmd];
      off := off + |c| + 1;
      i := i + 1;
    }
  }

  /** A line without separators, cut at its redirection in place, then
      formatted. */
  method HandleSingle(line: array<Char>) returns (plan: Plan)
    requires NUL in line[..]
    modifies line
    ensures plan == SingleCommand(old(line[..]))
  {
    ghost var r := SplitRedirection(line[..]);
    RedirectShape(line[..]);
    var rbuf := ZeroBuffer(line.Length + 2);
    var kind := SplitRedir(line, rbuf);
    if kind == -1 {
      return Rejected;
    }
    var argv := ReadArgv(line);
    var targv := ReadTarget(rbuf, r.target);
    if kind == GT && |targv| > 1 {
      return Rejected;
    }
    plan := Single(Exec.Command(argv, kind, targv));
  }

  /** `main`'s handling of one line held in `line` (mysh.c lines 210-300). */
  method HandleLine(line: array<Char>) returns (plan: Plan)
    requires NUL in line[..] && Splittable(line[..])
    modifies line
    ensures plan == Decide(old(line[..]))
  {
    ghost var s := line[..];
    var text := line[..Strlen(line[..])];
    var quotes := ContainsQuotes(text);
    if quotes < 0 {
      return Rejected;
    }
    var valid := ContainsValidQuotes(text);
    if valid < 0 {
      return Rejected;
    }
    var semi := Strchr2(text, SEMI);
    var amp := Strchr2(text, AMP);
    if semi.Some? && amp.Some? {
      return Rejected;
    }
    if semi.Some? || amp.Some? {
      var d := if semi.Some? then SEMI else AMP;
      var cmds := HandleClauses(line, d);
      return Multi(semi.None?, cmds);
    }
    plan := HandleSingle(line);
  }

  // ---------------------------------------------------------------------------
  // What the decisions mean
  // ---------------------------------------------------------------------------

  /** The empty string formats to no arguments at all. */
  lemma EmptyArgv()
    ensures Argv([NUL]) == [] && ArgvOf([]) == []
  {
    BlankLineNoArgs([NUL]);
    assert [] + [NUL] == [NUL];
  }

  /** One clause: its redirection type is -1, 0, `>` or `|`; a clause whose
      redirection is invalid runs nothing and redirects nowhere; type 0 comes
      exactly from a clause without unquoted `>` and `|`, and then the whole
      clause is the command and there is no target. */
  lemma ClauseOutcomes(c: seq<Char>)
    requires NUL !in c
    ensures var cmd := ClauseCommand(c);
      && (cmd.redir == -1 || cmd.redir == 0 || cmd.redir == GT || cmd.redir == PIPE)
      && (cmd.redir == -1 ==> cmd.argv == [] && cmd.target == [])
      && (cmd.redir == 0 <==> FindUnquoted(c, GT).None? && FindUnquoted(c, PIPE).None?)
      && (cmd.redir == 0 ==> cmd.argv == ArgvOf(c) && cmd.target == [])
  {
    var s := c + [NUL];
    StrlenOfString(c);
    assert s[..Strlen(s)] == c;
    SplitRedirectionOutcomes(s);
    EmptyArgv();
  }

  /** The decision for a line, stated through the searches `main` makes: a
      line with an unbalanced or mixed quoting, or with both an unquoted `;`
      and an unquoted `&`, is rejected; a line with one of them runs one
      command per `strtok2` clause, in parallel exactly for `&`; any other
      line runs as one command whose redirection is 0, `>` or `|`, with at
      most one target word for `>` and none without redirection. */
  lemma DecideOutcomes(s: seq<Char>)
    requires NUL in s && Splittable(s)
    ensures var text := s[..Strlen(s)]; var p := Decide(s);
      && (ContainsQuotes(text) < 0 || Count(text, CountedQuote(text)) % 2 == 1 ==> p == Rejected)
      && (FindUnquoted(text, SEMI).Some? && FindUnquoted(text, AMP).Some? ==> p == Rejected)
      && (p.Multi? ==>
            && Separator(s).Some? && (p.parallel <==> Separator(s).value == AMP)
            && |p.cmds| == |Tokens(s, Begin(s), [Separator(s).value])|)
      && (p.Single? ==>
            && Separator(s).None?
            && (p.cmd.redir == 0 || p.cmd.redir == GT || p.cmd.redir == PIPE)
            && (p.cmd.redir == GT ==> |p.cmd.target| <= 1)
            && (p.cmd.redir == 0 ==> p.cmd.argv == Argv(s) && p.cmd.target == []))
      && (ContainsQuotes(text) >= 0 && Count(text, CountedQuote(text)) % 2 == 0 && Separator(s).Some? ==> p.Multi?)
  {
    var text := s[..Strlen(s)];
    if Decide(s).Single? {
      SplitRedirectionOutcomes(s);
      EmptyArgv();
    }
  }

  /** Every clause of a multi-command line that could not be cut at its
      redirection becomes the empty command, which `exec_cmd` runs as a no-op. */
  lemma BadClausesRunNothing(s: seq<Char>, k: nat)
    requires NUL in s && Splittable(s) && Decide(s).Multi?
    requires k < |Decide(s).cmds| && Decide(s).cmds[k].redir == -1
    ensures Decide(s).cmds[k].argv == [] && Decide(s).cmds[k].target == []
  {
    var d := Separator(s).value;
    var ts := Tokens(s, Begin(s), [d]);
    TokensShape(s, Begin(s), [d]);
    ArgTextsNulFree(ts);
    ClauseOutcomes(ArgTexts(ts)[k]);
  }

  /** An empty clause (what `ls &` leaves after its `&`) is the empty command. */
  lemma EmptyClause()
    ensures ClauseCommand([]) == Exec.Command([], 0, [])
  {
    ClauseOutcomes([]);
    assert FindUnquoted([], GT).None? && FindUnquoted([], PIPE).None?;
    EmptyArgv();
  }

  // ---------------------------------------------------------------------------
  // `ls &`: a background command leaves an empty clause behind
  // ---------------------------------------------------------------------------

  /** The line `ls &` followed by its newline, as `fgets` stores it. */
  lemma LsLineBasics(s: seq<Char>)
    requires s == [108, 115, SPACE, AMP, NEWLINE, NUL]
    ensures NUL in s && Strlen(s) == 5 && s[..5] == [108, 115, SPACE, AMP, NEWLINE]
    ensures GetQuote(s, 5) == NUL && Clean(s, 5)
    ensures SepMask(s, 5, [AMP]) == [false, false, false, true, false]
  {
    StrFromRun(s, 0, 5);
    var m := SepMask(s, 5, [AMP]);
    assert !m[0] && !m[1] && !m[2] && m[3] && !m[4];
  }

  /** `strtok2` at `&` gives the clause before it and the newline after it. */
  lemma LsLineTokens(s: seq<Char>)
    requires s == [108, 115, SPACE, AMP, NEWLINE, NUL]
    ensures NUL in s && Tokens(s, Begin(s), [AMP]) == [[108, 115, SPACE], [NEWLINE]]
  {
    LsLineBasics(s);
    TokensClean(s, Begin(s), [AMP]);
    var m := SepMask(s, 5, [AMP]);
    assert FirstWith(m, 0, false) == 0 && FirstWith(m, 2, true) == 3 && FirstWith(m, 0, true) == 3;
    assert FirstWith(m, 4, false) == 4 && FirstWith(m, 4, true) == 5;
    FieldsStep(s, m, 0, 0, 3);
    FieldsStep(s, m, 4, 4, 5);
    assert s[0..3] == [108, 115, SPACE] && s[4..5] == [NEWLINE];
  }

  /** The searches `main` makes on the text of `ls &`. */
  lemma LsLineText(text: seq<Char>)
    requires text == [108, 115, SPACE, AMP, NEWLINE]
    ensures ContainsQuotes(text) == 0 && Count(text, CountedQuote(text)) == 0
    ensures FindUnquoted(text, SEMI).None? && FindUnquoted(text, AMP) == Some(3)
  {
    assert GetQuote(text, 5) == NUL;
    FindUnquotedQuoteFree(text, SEMI);
    FindUnquotedQuoteFree(text, AMP);
    CountAbsent(text, DQUOTE);
    assert IndexOf(text, AMP) == Some(3) by {
      assert text[..3] == [108, 115, SPACE];
    }
  }

  /** The clause `ls ` holds no redirection operator. */
  lemma LsClauseSearches(c: seq<Char>)
    requires c == [108, 115, SPACE]
    ensures NUL !in c && FindUnquoted(c, GT).None? && FindUnquoted(c, PIPE).None?
  {
    assert GetQuote(c, 3) == NUL;
    FindUnquotedQuoteFree(c, GT);
    FindUnquotedQuoteFree(c, PIPE);
  }

  /** `ls ` splits at blanks into the one word `ls`. */
  lemma LsClauseTokens(s: seq<Char>)
    requires s == [108, 115, SPACE, NUL]
    ensures NUL in s && Tokens(s, Begin(s), Blanks) == [[108, 115]]
  {
    StrFromRun(s, 0, 3);
    assert GetQuote(s, 3) == NUL;
    var m := SepMask(s, 3, Blanks);
    assert !m[0] && !m[1] && m[2];
    TokensClean(s, Begin(s), Blanks);
    assert FirstWith(m, 0, false) == 0 && FirstWith(m, 0, true) == 2;
    assert FirstWith(m, 3, false) == 3;
    FieldsStep(s, m, 0, 0, 2);
    assert s[0..2] == [108, 115];
  }

  lemma LsClauseArgv(s: seq<Char>)
    requires s == [108, 115, SPACE, NUL]
    ensures NUL in s && Argv(s) == [[108, 115]]
  {
    LsClauseTokens(s);
    var ts: seq<seq<Char>> := [[108, 115]];
    ArgvFromTokens(s, ts);
    LsWord(ts);
  }

  /** The argument vector of a line whose blank-separated tokens are `ts`. */
  lemma ArgvFromTokens(s: seq<Char>, ts: seq<seq<Char>>)
    requires NUL in s && Tokens(s, Begin(s), Blanks) == ts
    ensures Argv(s) == UpToEmpty(ArgTexts(ts))
  {
  }

  /** The single token `ls` is written as itself. */
  lemma LsWord(ts: seq<seq<Char>>)
    requires ts == [[108, 115]]
    ensures UpToEmpty(ArgTexts(ts)) == ts
  {
    assert ArgText(ts[0]) == ts[0];
    assert ArgTexts(ts) == ts;
  }

  /** The clause `ls ` is the command `ls` without redirection. */
  lemma LsClause(c: seq<Char>)
    requires c == [108, 115, SPACE]
    ensures NUL !in c && ClauseCommand(c) == Exec.Command([[108, 115]], 0, [])
  {
    LsClauseSearches(c);
    ClauseOutcomes(c);
    LsClauseArgv(c + [NUL]);
    EmptyArgv();
  }

  lemma LsClauseTexts(ts: seq<seq<Char>>)
    requires ts == [[108, 115, SPACE], [NEWLINE]]
    ensures ArgTexts(ts) == [[108, 115, SPACE], []]
  {
    assert ArgText(ts[1]) == [];
    assert ArgText(ts[0]) == ts[0];
  }

  lemma TwoClauses(cs: seq<seq<Char>>)
    requires |cs| == 2 && NUL !in cs[0] && NUL !in cs[1]
    ensures ClauseCommands(cs) == [ClauseCommand(cs[0]), ClauseCommand(cs[1])]
  {
    var r := ClauseCommands(cs);
    var a, b := ClauseCommand(cs[0]), ClauseCommand(cs[1]);
    assert |r| == 2 && r[0] == a && r[1] == b;
    PairIs(r, a, b);
  }

  lemma PrefixStep(r: seq<Exec.Command>, i: nat, x: Exec.Command)
    requires i < |r| && r[i] == x
    ensures r[..i + 1] == r[..i] + [x]
  {
  }

  lemma PairIs(r: seq<Exec.Command>, a: Exec.Command, b: Exec.Command)
    requires |r| == 2 && r[0] == a && r[1] == b
    ensures r == [a, b]
  {
  }

  /** The clauses of `ls &`: the command and an empty one. */
  lemma LsClauses(s: seq<Char>)
    requires s == [108, 115, SPACE, AMP, NEWLINE, NUL]
    ensures NUL in s && MultiCommands(s, AMP) == [Exec.Command([[108, 115]], 0, []), Exec.Command([], 0, [])]
  {
    LsLineTokens(s);
    var ts := Tokens(s, Begin(s), [AMP]);
    LsClauseTexts(ts);
    var cs := ArgTexts(ts);
    TwoClauses(cs);
    LsClause(cs[0]);
    EmptyClause();
  }

  /** A line with valid quoting and one kind of unquoted separator `d` is
      split at `d` and run in parallel exactly when `d` is `&`. */
  lemma DecideMulti(s: seq<Char>, d: Char)
    requires NUL in s && Splittable(s) && Separator(s) == Some(d)
    requires var text := s[..Strlen(s)];
      ContainsQuotes(text) >= 0 && Count(text, CountedQuote(text)) % 2 == 0
    ensures Decide(s) == Multi(d == AMP, MultiCommands(s, d))
  {
  }

  /** `ls &` runs `ls` and the empty command in parallel; launching that
      empty command as exec_cmds_par is written is undefined. */
  lemma LsInBackground(s: seq<Char>, w: Exec.ParWorld)
    requires s == [108, 115, SPACE, AMP, NEWLINE, NUL]
    ensures NUL in s && Splittable(s)
    ensures Decide(s) == Multi(true, [Exec.Command([[108, 115]], 0, []), Exec.Command([], 0, [])])
    ensures Exec.LaunchAsWritten(Decide(s).cmds[1], w).None?
  {
    LsLineBasics(s);
    LsLineText(s[..5]);
    LsLineTokens(s);
    assert Separator(s) == Some(AMP);
    LsClauses(s);
    DecideMulti(s, AMP);
  }
}
