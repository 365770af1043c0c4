/** `split_redir` of mysh.c: a clause is cut at its one unquoted `>` or `|`;
    the command stays in the clause, the target goes to a buffer of its own. */
module Redirection {
  import opened CString
  import opened StrQuote
  import opened Mysh

  /** What `split_redir` finds with its `strchr2` searches (mysh.c lines
      74-85): both operators, one of them twice, neither, or exactly one. */
  datatype Scan = Mixed | Twice | NoOperator | Operator(op: Char)

  /** The result of `split_redir`: the returned `char` (-1, 0, `>` or `|`),
      the clause buffer afterwards, and the text written to the target buffer. */
  datatype Redirect = Redirect(kind: Char, src: seq<Char>, target: seq<Char>)

  /** The targets `split_redir` rejects as missing: a lone blank, tab or newline. */
  predicate BlankTarget(t: seq<Char>)
  {
    t == [SPACE] || t == [TAB] || t == [NEWLINE]
  }

  /** The target buffer `d` holds the string `t` and is zero after it. */
  predicate Holds(d: seq<Char>, t: seq<Char>)
  {
    |t| <= |d| && d == t + Zeros(|d| - |t|)
  }

  /** `memset(b + from, 0, count)`. */
  function Zeroed(b: seq<Char>, from: nat, count: nat): (r: seq<Char>)
    ensures |r| == |b|
    ensures forall j :: 0 <= j < |b| ==> r[j] == if from <= j < from + count then NUL else b[j]
  {
    seq(|b|, j requires 0 <= j < |b| => if from <= j < from + count then NUL else b[j])
  }

  /** The searches for unquoted operators in the clause `s`. */
  function ScanOperators(s: seq<Char>): (sc: Scan)
    requires NUL in s
    ensures sc.Operator? ==> sc.op == GT || sc.op == PIPE
  {
    var line := s[..Strlen(s)];
    var file := FindUnquoted(line, GT);
    var pipe := FindUnquoted(line, PIPE);
    if file.Some? && pipe.Some? then Mixed
    else if (file.Some? && FindUnquoted(line[file.value + 1..], GT).Some?)
         || (pipe.Some? && FindUnquoted(line[pipe.value + 1..], PIPE).Some?) then Twice
    else if file.None? && pipe.None? then NoOperator
    else Operator(if file.Some? then GT else PIPE)
  }

  /** The cut at operator `op` (mysh.c lines 86-105): the first `strtok2`
      token is the command, the second the target.  A clause whose first
      token is missing is rejected here; the source passes that NULL to
      `strlen` (see `CutAsWritten`). */
  function CutAt(s: seq<Char>, op: Char): (r: Redirect)
    requires NUL in s && op > 0 && !IsQuote(op)
  {
    var first := Strtok2Step(s, Begin(s), [op]);
    Strtok2Advances(s, Begin(s), [op]);
    if first.token.None? then Redirect(-1, first.buf, [])
    else CutTarget(|StrFrom(first.buf, first.token.value)|, Strtok2Step(first.buf, first.cursor, [op]), op)
  }

  /** The second half of the cut, once the command of length `cmdLen` is
      known and the second `strtok2` call has returned `second`: no target or
      a blank one is an error; otherwise the target bytes are cleared from the
      clause and its text is the redirection's target. */
  function CutTarget(cmdLen: nat, second: Step, op: Char): (r: Redirect)
  {
    if second.token.None? then Redirect(-1, second.buf, [])
    else
      var t := StrFrom(second.buf, second.token.value);
      if BlankTarget(t) then Redirect(-1, second.buf, [])
      else Redirect(op, Zeroed(second.buf, cmdLen + 1, |t|), ArgText(t))
  }

  /** The cut as the source writes it: `None` where it calls `strlen` on the
      NULL first token, which is undefined behaviour. */
  function CutAsWritten(s: seq<Char>, op: Char): (r: Option<Redirect>)
    requires NUL in s && op > 0 && !IsQuote(op)
  {
    if Strtok2Step(s, Begin(s), [op]).token.None? then None else Some(CutAt(s, op))
  }

  /** `split_redir` on the clause held in `s`. */
  function SplitRedirection(s: seq<Char>): (r: Redirect)
    requires NUL in s
  {
    match ScanOperators(s)
    case Mixed => Redirect(-1, s, [])
    case Twice => Redirect(-1, s, [])
    case NoOperator => Redirect(0, s, [])
    case Operator(op) => CutAt(s, op)
  }

  /** `memset(a + from, 0, count)`. */
  method Memset(a: array<Char>, from: nat, count: nat)
    requires from + count <= a.Length
    modifies a
    ensures a[..] == Zeroed(old(a[..]), from, count)
  {
    var k := 0;
    while k < count
      invariant k <= count
      invariant forall j :: 0 <= j < a.Length ==> a[j] == if from <= j < from + k then NUL else old(a[j])
    {
      a[from + k] := NUL;
      k := k + 1;
    }
  }

  /** `split_redir(src, dest_redir)` on a zeroed target buffer. */
  method SplitRedir(src: array<Char>, dest: array<Char>) returns (delim: Char)
    requires src != dest && NUL in src[..]
    requires dest[..] == Zeros(dest.Length) && Strlen(src[..]) + 2 <= dest.Length
    modifies src, dest
    ensures var r := SplitRedirection(old(src[..]));
      delim == r.kind && src[..] == r.src && Holds(dest[..], r.target)
  {
    var sc := ScanClause(src[..]);
    match sc
    case Mixed => delim := -1;
    case Twice => delim := -1;
    case NoOperator => delim := 0;
    case Operator(op) => delim := CutClause(src, dest, op);
  }

  /** The `strchr2` searches of `split_redir` over the clause `s`. */
  method ScanClause(s: seq<Char>) returns (sc: Scan)
    requires NUL in s
    ensures sc == ScanOperators(s)
  {
    var line := s[..Strlen(s)];
    var file := Strchr2(line, GT);
    var pipe := Strchr2(line, PIPE);
    if file.Some? && pipe.Some? {
      return Mixed;
    }
    var twice := false;
    if file.Some? {
      var again := Strchr2(line[file.value + 1..], GT);
      twice := again.Some?;
    }
    if !twice && pipe.Some? {
      var again := Strchr2(line[pipe.value + 1..], PIPE);
      twice := again.Some?;
    }
    if twice {
      sc := Twice;
    } else if file.Some? || pipe.Some? {
      sc := Operator(if file.Some? then GT else PIPE);
    } else {
      sc := NoOperator;
    }
  }

  /** The `strtok2` half of `split_redir`, at operator `op`. */
  method CutClause(src: array<Char>, dest: array<Char>, op: Char) returns (delim: Char)
    requires src != dest && NUL in src[..] && op > 0 && !IsQuote(op)
    requires dest[..] == Zeros(dest.Length) && Strlen(src[..]) + 2 <= dest.Length
    modifies src, dest
    ensures var r := CutAt(old(src[..]), op);
      delim == r.kind && src[..] == r.src && Holds(dest[..], r.target)
  {
    ghost var s := src[..];
    var cur := Begin(src[..]);
    var token, next := Strtok2(src, cur, [op]);
    ghost var first := Step(token, next, src[..]);
    if token.None? {
      CutAtNoCommand(s, op);
      delim := -1;
      return;
    }
    var cmdLen := |StrFrom(src[..], token.value)|;
    Strtok2Advances(s, cur, [op]);
    CutAtSteps(s, op, first, Strtok2Step(src[..], next, [op]));
    delim := CutSecond(src, dest, op, cmdLen, next);
  }

  /** The second `strtok2` call of `split_redir` and what follows it, with the
      command `cmdLen` bytes long and the cursor `cur` just past it. */
  method CutSecond(src: array<Char>, dest: array<Char>, op: Char, cmdLen: nat, cur: Cursor) returns (delim: Char)
    requires src != dest && op > 0 && !IsQuote(op) && Tokenizable(src[..], cur)
    requires cmdLen < cur.next || cur.next == cur.len
    requires dest[..] == Zeros(dest.Length) && cur.len + 2 <= dest.Length
    modifies src, dest
    ensures var r := CutTarget(cmdLen, Strtok2Step(old(src[..]), cur, [op]), op);
      delim == r.kind && src[..] == r.src && Holds(dest[..], r.target)
  {
    ghost var s := src[..];
    var target, after := Strtok2(src, cur, [op]);
    ghost var st := Strtok2Step(s, cur, [op]);
    assert target == st.token && src[..] == st.buf;
    Strtok2Advances(s, cur, [op]);
    if target.None? {
      delim := -1;
      return;
    }
    var t := StrFrom(src[..], target.value);
    if BlankTarget(t) {
      delim := -1;
      return;
    }
    ghost var second := src[..];
    WriteTarget(dest, t);
    assert src[..] == second;
    Memset(src, cmdLen + 1, |t|);
    delim := op;
  }

  /** `append_cmd(dest_redir, token, &offset)` then `*(dest_redir + offset) = '\0'`
      on a zeroed buffer: the target's text, then NULs. */
  method WriteTarget(dest: array<Char>, t: seq<Char>)
    requires NUL !in t && dest[..] == Zeros(dest.Length) && |t| + 2 <= dest.Length
    modifies dest
    ensures Holds(dest[..], ArgText(t))
  {
    ArgTextShape(t);
    ghost var d0 := dest[..];
    var off := AppendCmd(dest, t, 0);
    TextThenZeros(d0, ArgText(t), off);
    dest[off] := NUL;
  }

  /** Writing the text `a` and its NUL over a zeroed buffer, then one more
      NUL, leaves the buffer holding `a`. */
  lemma TextThenZeros(d0: seq<Char>, a: seq<Char>, off: nat)
    requires d0 == Zeros(|d0|) && off == |a| + 1 < |d0|
    ensures var d := d0[..0] + a + [NUL] + d0[off..]; |d| == |d0| && Holds(d[off := NUL], a)
  {
    var d := d0[..0] + a + [NUL] + d0[off..];
    assert d[off := NUL] == a + Zeros(|d0| - |a|);
  }

  lemma CutAtNoCommand(s: seq<Char>, op: Char)
    requires NUL in s && op > 0 && !IsQuote(op)
    requires Strtok2Step(s, Begin(s), [op]).token.None?
    ensures CutAt(s, op) == Redirect(-1, Strtok2Step(s, Begin(s), [op]).buf, [])
  {
  }

  /** Once both `strtok2` calls are made, the cut is decided by `CutTarget`. */
  lemma CutAtSteps(s: seq<Char>, op: Char, first: Step, second: Step)
    requires NUL in s && op > 0 && !IsQuote(op)
    requires first == Strtok2Step(s, Begin(s), [op]) && first.token.Some?
    requires Tokenizable(first.buf, first.cursor)
    requires second == Strtok2Step(first.buf, first.cursor, [op])
    ensures CutAt(s, op) == CutTarget(|StrFrom(first.buf, first.token.value)|, second, op)
  {
  }

  /** The cut returns -1 or the operator, and writes a target only when it
      returns the operator. */
  lemma CutAtKinds(s: seq<Char>, op: Char)
    requires NUL in s && op > 0 && !IsQuote(op)
    ensures var r := CutAt(s, op); (r.kind == -1 || r.kind == op) && (r.kind == -1 ==> r.target == [])
  {
    var first := Strtok2Step(s, Begin(s), [op]);
    Strtok2Advances(s, Begin(s), [op]);
    if first.token.Some? {
      CutAtSteps(s, op, first, Strtok2Step(first.buf, first.cursor, [op]));
    }
  }

  /** What `split_redir` returns: 0 exactly when the clause holds no unquoted
      `>` and no unquoted `|`, and then the clause is untouched; -1 when both
      occur, with the clause untouched; otherwise -1 or the operator found,
      and a target is written only in that last case. */
  lemma SplitRedirectionOutcomes(s: seq<Char>)
    requires NUL in s
    ensures var r := SplitRedirection(s); var line := s[..Strlen(s)];
      var file := FindUnquoted(line, GT); var pipe := FindUnquoted(line, PIPE);
      && (r.kind == 0 <==> file.None? && pipe.None?)
      && (r.kind == 0 ==> r.src == s && r.target == [])
      && (file.Some? && pipe.Some? ==> r == Redirect(-1, s, []))
      && (r.kind == -1 || r.kind == 0 || (r.kind == GT && file.Some?) || (r.kind == PIPE && pipe.Some?))
      && (r.kind <= 0 ==> r.target == [])
  {
    var sc := ScanOperators(s);
    if sc.Operator? {
      CutAtKinds(s, sc.op);
    }
  }

  /** For a character that is not a quote, `strchr2`'s "outside quotes" on the
      line is the opposite of "strictly inside quotes" on the buffer. */
  lemma BareIsUnquoted(s: seq<Char>, len: nat, i: nat)
    requires i < len <= |s| && !IsQuote(s[i])
    ensures Bare(s[..len], i) <==> !Quoted(s, len, i)
  {
    QuotingAgrees(s, s[..len], len);
    assert s[..len][..i] == s[..i];
  }

  /** The first unquoted operator `strchr2` finds is the first separator of
      the mask `strtok2` cuts by. */
  lemma FirstOperatorMask(s: seq<Char>, op: Char, f: nat)
    requires NUL in s && op > 0 && !IsQuote(op)
    requires FindUnquoted(s[..Strlen(s)], op) == Some(f)
    ensures var m := SepMask(s, Strlen(s), [op]);
      f < Strlen(s) && m[f] && forall j :: 0 <= j < f ==> !m[j]
  {
    var len := Strlen(s);
    var line := s[..len];
    var m := SepMask(s, len, [op]);
    BareIsUnquoted(s, len, f);
    forall j | 0 <= j < f
      ensures !m[j]
    {
      if m[j] {
        BareIsUnquoted(s, len, j);
      }
    }
  }

  /** On a clean clause whose command is not empty, the first `strtok2`
      call returns the command at index 0 and ends it at the operator. */
  lemma FirstCutAtOperator(s: seq<Char>, op: Char, f: nat)
    requires NUL in s && op > 0 && !IsQuote(op) && Clean(s, Strlen(s))
    requires FindUnquoted(s[..Strlen(s)], op) == Some(f) && 0 < f
    ensures f < Strlen(s)
    ensures Strtok2Step(s, Begin(s), [op]) == Step(Some(0), Cursor(Strlen(s), f + 1), s[f := NUL])
  {
    var m := SepMask(s, Strlen(s), [op]);
    FirstOperatorMask(s, op, f);
    Strtok2Clean(s, Begin(s), [op]);
    assert FirstWith(m, 0, false) == 0;
    assert FirstWith(m, 0, true) == f;
  }

  /** On a clean buffer a `strtok2` call changes nothing before its cursor. */
  lemma Strtok2KeepsPrefix(s: seq<Char>, cur: Cursor, op: Char)
    requires Tokenizable(s, cur) && op > 0 && !IsQuote(op) && Clean(s, cur.len)
    ensures forall j :: 0 <= j < cur.next ==> Strtok2Step(s, cur, [op]).buf[j] == s[j]
  {
    Strtok2Clean(s, cur, [op]);
  }

  /** On a clean clause whose command is not empty, a successful cut leaves
      exactly the command as the clause's string: the bytes before the
      operator stay and the operator becomes NUL. */
  lemma CutKeepsCommand(s: seq<Char>, op: Char, f: nat)
    requires NUL in s && op > 0 && !IsQuote(op) && Clean(s, Strlen(s))
    requires FindUnquoted(s[..Strlen(s)], op) == Some(f) && 0 < f
    ensures var r := CutAt(s, op); r.kind == op ==> StrFrom(r.src, 0) == s[..f]
  {
    FirstCutAtOperator(s, op, f);
    var first := Step(Some(0), Cursor(Strlen(s), f + 1), s[f := NUL]);
    StrFromRun(first.buf, 0, f);
    SecondCutKeepsCommand(s, op, f);
    var second := Strtok2Step(first.buf, first.cursor, [op]);
    CutAtSteps(s, op, first, second);
    TargetKeepsCommand(s, f, second, op);
  }

  /** The second `strtok2` call, resuming past the operator at `f`, keeps the
      command and its terminating NUL. */
  lemma SecondCutKeepsCommand(s: seq<Char>, op: Char, f: nat)
    requires NUL in s && op > 0 && !IsQuote(op) && Clean(s, Strlen(s))
    requires FindUnquoted(s[..Strlen(s)], op) == Some(f) && 0 < f
    ensures f < Strlen(s) && Tokenizable(s[f := NUL], Cursor(Strlen(s), f + 1))
    ensures var second := Strtok2Step(s[f := NUL], Cursor(Strlen(s), f + 1), [op]);
      |second.buf| == |s| && second.buf[f] == NUL && forall j :: 0 <= j < f ==> second.buf[j] == s[j] != NUL
  {
    var len := Strlen(s);
    FirstOperatorMask(s, op, f);
    assert forall j :: 0 <= j < len ==> s[..len][j] == s[j] != NUL;
    TerminateAtDelimiter(s, len, [op], f);
    Strtok2KeepsPrefix(s[f := NUL], Cursor(len, f + 1), op);
  }

  /** The second half of the cut keeps the bytes up to the command's end:
      `memset` starts one past it. */
  lemma TargetKeepsCommand(s: seq<Char>, f: nat, second: Step, op: Char)
    requires f < |s| == |second.buf| && op > 0 && second.buf[f] == NUL
    requires forall j :: 0 <= j < f ==> second.buf[j] == s[j] != NUL
    ensures var r := CutTarget(f, second, op); r.kind == op ==> StrFrom(r.src, 0) == s[..f]
  {
    var r := CutTarget(f, second, op);
    if r.kind == op {
      StrFromRun(r.src, 0, f);
      assert r.src[..f] == s[..f];
    }
  }

  /** `split_redir` truncates a clean clause to its command. */
  lemma SplitRedirectionKeepsCommand(s: seq<Char>)
    requires NUL in s && Clean(s, Strlen(s))
    ensures var r := SplitRedirection(s); var line := s[..Strlen(s)];
      r.kind > 0 ==>
        FindUnquoted(line, r.kind).Some? &&
        var f := FindUnquoted(line, r.kind).value;
        0 < f ==> StrFrom(r.src, 0) == s[..f]
  {
    var r := SplitRedirection(s);
    var sc := ScanOperators(s);
    if sc.Operator? {
      var op := sc.op;
      assert r == CutAt(s, op);
      if r.kind > 0 {
        SplitRedirectionOutcomes(s);
        var f := FindUnquoted(s[..Strlen(s)], op).value;
        if 0 < f {
          CutKeepsCommand(s, op, f);
        }
      }
    }
  }

  /** A line without quote characters is clean and every delimiter in it
      separates. */
  lemma QuoteFreeClean(s: seq<Char>, len: nat, delims: seq<Char>)
    requires len <= |s| && forall i :: 0 <= i < len ==> !IsQuote(s[i])
    ensures Clean(s, len)
    ensures forall j :: 0 <= j < len ==> (SepMask(s, len, delims)[j] <==> s[j] in delims)
  {
  }

  /** On a line without quote characters `strchr2` finds the first
      occurrence of `c`, or nothing when there is none. */
  lemma QuoteFreeFind(line: seq<Char>, c: Char, f: nat)
    requires NUL !in line && c != NUL && forall i :: 0 <= i < |line| ==> !IsQuote(line[i])
    ensures c !in line ==> FindUnquoted(line, c).None?
    ensures f < |line| && line[f] == c && c !in line[..f] ==> FindUnquoted(line, c) == Some(f)
  {
    assert GetQuote(line, |line|) == NUL;
    if f < |line| && line[f] == c && c !in line[..f] {
      var r := FindUnquoted(line, c);
      assert Bare(line, f);
      assert r.Some? && r.value <= f;
    }
  }

  /** A quote-free clause with one operator, at `f`, and a target after it:
      the scan settles on that operator. */
  lemma QuoteFreeScan(s: seq<Char>, op: Char, f: nat)
    requires NUL in s && (op == GT || op == PIPE) && f < Strlen(s)
    requires forall i :: 0 <= i < Strlen(s) ==> !IsQuote(s[i])
    requires s[f] == op && op !in s[..f] && op !in s[f + 1..Strlen(s)]
    requires (if op == GT then PIPE else GT) !in s[..Strlen(s)]
    ensures FindUnquoted(s[..Strlen(s)], op) == Some(f) && ScanOperators(s) == Operator(op)
  {
    var len := Strlen(s);
    var line := s[..len];
    assert line[..f] == s[..f] && line[f + 1..] == s[f + 1..len];
    QuoteFreeFind(line, op, f);
    QuoteFreeFind(line, if op == GT then PIPE else GT, 0);
    QuoteFreeFind(line[f + 1..], op, 0);
  }

  /** Once the string is cut at `f`, `strtok2` can resume just past it. */
  lemma CutTokenizable(s: seq<Char>, f: nat)
    requires NUL in s && f < Strlen(s)
    ensures Tokenizable(s[f := NUL], Cursor(Strlen(s), f + 1))
  {
    assert forall j :: 0 <= j < Strlen(s) ==> s[..Strlen(s)][j] == s[j];
  }

  /** The first `strtok2` call on such a clause: the command is everything
      before the operator. */
  lemma QuoteFreeFirstCut(s: seq<Char>, op: Char, f: nat)
    requires NUL in s && (op == GT || op == PIPE) && 0 < f < Strlen(s)
    requires forall i :: 0 <= i < Strlen(s) ==> !IsQuote(s[i])
    requires s[f] == op && op !in s[..f]
    ensures Strtok2Step(s, Begin(s), [op]) == Step(Some(0), Cursor(Strlen(s), f + 1), s[f := NUL])
  {
    var len := Strlen(s);
    var line := s[..len];
    assert line[..f] == s[..f];
    QuoteFreeFind(line, op, f);
    QuoteFreeClean(s, len, [op]);
    FirstCutAtOperator(s, op, f);
  }

  /** The second `strtok2` call on such a clause: the target is everything
      after the operator. */
  lemma QuoteFreeSecondCut(s: seq<Char>, op: Char, f: nat)
    requires NUL in s && (op == GT || op == PIPE) && f + 1 < Strlen(s)
    requires forall i :: 0 <= i < Strlen(s) ==> !IsQuote(s[i])
    requires s[f] == op && op !in s[f + 1..Strlen(s)]
    ensures Tokenizable(s[f := NUL], Cursor(Strlen(s), f + 1))
    ensures Strtok2Step(s[f := NUL], Cursor(Strlen(s), f + 1), [op]) == Step(Some(f + 1), Cursor(Strlen(s), Strlen(s)), s[f := NUL])
  {
    var len := Strlen(s);
    CutTokenizable(s, f);
    var s1 := s[f := NUL];
    assert forall j :: f + 1 <= j < len ==> s[f + 1..len][j - f - 1] == s1[j];
    CutToEnd(s1, Cursor(len, f + 1), op);
  }

  /** A `strtok2` call on a quote-free line whose rest holds no delimiter
      returns the whole rest as the token and changes nothing. */
  lemma CutToEnd(b: seq<Char>, cur: Cursor, op: Char)
    requires Tokenizable(b, cur) && op > 0 && !IsQuote(op) && cur.next < cur.len
    requires forall i :: 0 <= i < cur.len ==> !IsQuote(b[i])
    requires forall j :: cur.next <= j < cur.len ==> b[j] != op
    ensures Strtok2Step(b, cur, [op]) == Step(Some(cur.next), Cursor(cur.len, cur.len), b)
  {
    QuoteFreeClean(b, cur.len, [op]);
    Strtok2Clean(b, cur, [op]);
    var m := SepMask(b, cur.len, [op]);
    assert FirstWith(m, cur.next, false) == cur.next;
    assert FirstWith(m, cur.next, true) == cur.len;
  }

  /** `split_redir` on a quote-free clause `cmd op target`: it returns the
      operator, keeps the command followed by NULs, and writes the target's
      text (without its newline and outer quotes). */
  lemma QuoteFreeRedirect(s: seq<Char>, op: Char, f: nat)
    requires NUL in s && (op == GT || op == PIPE) && 0 < f && f + 1 < Strlen(s)
    requires forall i :: 0 <= i < Strlen(s) ==> !IsQuote(s[i])
    requires s[f] == op && op !in s[..f] && op !in s[f + 1..Strlen(s)]
    requires (if op == GT then PIPE else GT) !in s[..Strlen(s)]
    requires !BlankTarget(s[f + 1..Strlen(s)])
    ensures var len := Strlen(s);
      SplitRedirection(s) == Redirect(op, Zeroed(s[f := NUL], f + 1, len - f - 1), ArgText(s[f + 1..len]))
  {
    QuoteFreeScan(s, op, f);
    QuoteFreeCutAt(s, op, f);
  }

  /** The cut itself on such a clause. */
  lemma QuoteFreeCutAt(s: seq<Char>, op: Char, f: nat)
    requires NUL in s && (op == GT || op == PIPE) && 0 < f && f + 1 < Strlen(s)
    requires forall i :: 0 <= i < Strlen(s) ==> !IsQuote(s[i])
    requires s[f] == op && op !in s[..f] && op !in s[f + 1..Strlen(s)]
    requires !BlankTarget(s[f + 1..Strlen(s)])
    ensures var len := Strlen(s);
      CutAt(s, op) == Redirect(op, Zeroed(s[f := NUL], f + 1, len - f - 1), ArgText(s[f + 1..len]))
  {
    var len := Strlen(s);
    QuoteFreeFirstCut(s, op, f);
    QuoteFreeSecondCut(s, op, f);
    var s1 := s[f := NUL];
    StrFromRun(s1, 0, f);
    CutAtSteps(s, op, Step(Some(0), Cursor(len, f + 1), s1), Step(Some(f + 1), Cursor(len, len), s1));
    assert s1[f + 1..len] == s[f + 1..len];
    CutTargetToEnd(s1, f, len, op);
  }

  /** The second half of the cut when the target runs from just past the
      command to the end of the line. */
  lemma CutTargetToEnd(b: seq<Char>, f: nat, len: nat, op: Char)
    requires f + 1 < len < |b| && b[len] == NUL && !BlankTarget(b[f + 1..len])
    requires forall j :: f + 1 <= j < len ==> b[j] != NUL
    ensures CutTarget(f, Step(Some(f + 1), Cursor(len, len), b), op)
      == Redirect(op, Zeroed(b, f + 1, len - f - 1), ArgText(b[f + 1..len]))
  {
    StrFromRun(b, f + 1, len);
  }

  /** `ls -l>out.txt` with its newline is a quote-free clause with one `>`. */
  lemma RedirectLine(s: seq<Char>)
    requires s == [108, 115, SPACE, 45, 108, GT, 111, 117, 116, 46, 116, 120, 116, NEWLINE, NUL]
    ensures NUL in s && Strlen(s) == 14
    ensures forall i :: 0 <= i < 14 ==> !IsQuote(s[i])
    ensures GT !in s[..5] && GT !in s[6..14] && PIPE !in s[..14]
    ensures s[..5] == [108, 115, SPACE, 45, 108] && s[6..14] == [111, 117, 116, 46, 116, 120, 116, NEWLINE]
  {
    var a, b := s[..5], s[6..14];
    assert s == a + [GT] + b + [NUL];
    StrFromRun(s, 0, 14);
    PlainWord(a);
    PlainWord(b);
    assert s[..14] == a + [GT] + b;
  }

  /** A word of letters, digits, `-`, `.`, blanks and newline holds no quote
      and no operator. */
  lemma PlainWord(w: seq<Char>)
    requires forall i :: 0 <= i < |w| ==> w[i] == SPACE || w[i] == NEWLINE || 45 <= w[i] <= 46 || 97 <= w[i] <= 122
    ensures GT !in w && PIPE !in w && forall i :: 0 <= i < |w| ==> !IsQuote(w[i])
  {
  }

  /** The target token `out.txt` with the line's newline is written as `out.txt`. */
  lemma OutTxtText(t: seq<Char>)
    requires t == [111, 117, 116, 46, 116, 120, 116, NEWLINE]
    ensures ArgText(t) == [111, 117, 116, 46, 116, 120, 116]
  {
    assert DropNewline(t) == t[..7];
  }

  /** `split_redir` on `ls -l>out.txt`: it returns `>`, the clause becomes
      `ls -l` followed by NULs, and the target is `out.txt` without its newline. */
  lemma RedirectToFile()
    ensures var s: seq<Char> := [108, 115, SPACE, 45, 108, GT, 111, 117, 116, 46, 116, 120, 116, NEWLINE, NUL];
      NUL in s && SplitRedirection(s) == Redirect(GT, [108, 115, SPACE, 45, 108] + Zeros(10), [111, 117, 116, 46, 116, 120, 116])
  {
    var s: seq<Char> := [108, 115, SPACE, 45, 108, GT, 111, 117, 116, 46, 116, 120, 116, NEWLINE, NUL];
    RedirectLine(s);
    OutTxtText(s[6..14]);
    QuoteFreeRedirect(s, GT, 5);
    ZeroedToEnd(s, 5, 8);
  }

  /** Cutting a line at `f` and clearing all that follows up to its final
      NUL leaves the part before `f` and then only NULs. */
  lemma ZeroedToEnd(b: seq<Char>, f: nat, n: nat)
    requires f + 1 + n + 1 == |b| && b[|b| - 1] == NUL
    ensures Zeroed(b[f := NUL], f + 1, n) == b[..f] + Zeros(n + 2)
  {
  }

  /** In `echo ">"` the `>` lies inside the double quotes, so `strchr2`
      finds neither operator. */
  lemma EchoQuotedOperator(line: seq<Char>)
    requires line == [101, 99, 104, 111, SPACE, DQUOTE, GT, DQUOTE, NEWLINE]
    ensures FindUnquoted(line, GT).None? && FindUnquoted(line, PIPE).None?
  {
    assert QuoteFrom(line, 9, 0) == 5;
    assert line[..6] == line[..5] + [DQUOTE];
    CountAppend(line[..5], [DQUOTE], DQUOTE);
    CountAbsent(line[..5], DQUOTE);
    assert [DQUOTE][..0] == [];
    assert Inside(line, DQUOTE, 6);
    assert forall j :: 0 <= j < 9 ==> line[j] != PIPE && (line[j] == GT ==> j == 6);
  }

  /** `echo ">"`: the quoted `>` is no operator, so `split_redir` returns 0 and
      leaves the clause alone. */
  lemma QuotedOperatorIgnored()
    ensures var s: seq<Char> := [101, 99, 104, 111, SPACE, DQUOTE, GT, DQUOTE, NEWLINE, NUL];
      NUL in s && SplitRedirection(s) == Redirect(0, s, [])
  {
    var s: seq<Char> := [101, 99, 104, 111, SPACE, DQUOTE, GT, DQUOTE, NEWLINE, NUL];
    StrFromRun(s, 0, 9);
    var line := s[..9];
    EchoQuotedOperator(line);
    SplitRedirectionOutcomes(s);
  }

  /** The clause `>` (as in the line `>;ls`): `strchr2` finds the operator,
      but the first `strtok2` call finds no command, so the source's
      `strlen(token)` receives NULL; the model rejects the clause instead. */
  lemma BareOperatorCrashes()
    ensures var s: seq<Char> := [GT, NUL];
      && NUL in s && ScanOperators(s) == Operator(GT)
      && CutAsWritten(s, GT).None?
      && SplitRedirection(s) == Redirect(-1, s, [])
  {
    var s: seq<Char> := [GT, NUL];
    StrFromRun(s, 0, 1);
    var line := s[..1];
    assert GetQuote(line, 1) == NUL;
    assert Bare(line, 0);
    QuoteFreeClean(s, 1, [GT]);
    Strtok2Clean(s, Begin(s), [GT]);
    var m := SepMask(s, 1, [GT]);
    assert FirstWith(m, 0, false) == 1;
  }
}
