/** The line formatter of mysh.c: tokens are packed one after another, each
    followed by NUL, into a zeroed buffer, which is then read back as a
    NULL-terminated argument vector.  `split_redir` is in module Redirection,
    `main`'s per-line decisions in module Dispatch. */
module Mysh {
  import opened CString
  import opened StrQuote

  // ---------------------------------------------------------------------------
  // One token: trailing newline and outer quotes
  // ---------------------------------------------------------------------------

  /** `is_last_arg`: the token ends with the line's newline.  On the empty
      token the source reads the byte before it; that byte is taken not to be
      a newline (the empty token reaches here only from `format_cmd`, as the
      string literal `""`, whose preceding byte is not part of the line). */
  predicate IsLastArg(t: seq<Char>)
  {
    |t| > 0 && t[|t| - 1] == NEWLINE
  }

  /** The string `rm_newline` leaves behind. */
  function DropNewline(t: seq<Char>): seq<Char>
  {
    if IsLastArg(t) then t[..|t| - 1] else t
  }

  /** `rm_newline` on the string at the start of `a`: the trailing newline, if
      any, becomes NUL and nothing else changes. */
  method RmNewline(a: array<Char>)
    requires NUL in a[..]
    modifies a
    ensures var n := Strlen(old(a[..]));
      a[..] == if IsLastArg(old(a[..n])) then old(a[..])[n - 1 := NUL] else old(a[..])
    ensures StrFrom(a[..], 0) == DropNewline(StrFrom(old(a[..]), 0))
  {
    var n := Strlen(a[..]);
    assert a[..a.Length] == a[..];
    StrFromRun(a[..], 0, n);
    if IsLastArg(a[..n]) {
      a[n] := NUL;
      a[n - 1] := NUL;
      StrFromRun(a[..], 0, n - 1);
    }
  }

  /** The text `append_cmd` writes for a token: its trailing newline dropped,
      then, if what remains is a quoted literal, its outer quotes dropped. */
  function ArgText(t: seq<Char>): seq<Char>
  {
    var c := DropNewline(t);
    if IsStrLit(c) then Interior(c) else c
  }

  /** The written text is the token itself, or the token without its newline,
      its outer quotes, or both; it never grows and never holds NUL. */
  lemma ArgTextShape(t: seq<Char>)
    ensures var c := DropNewline(t);
      && (IsStrLit(c) && |c| >= 2 ==> ArgText(t) == c[1..|c| - 1] && c == [c[0]] + ArgText(t) + [c[0]])
      && (IsStrLit(c) && |c| == 1 ==> ArgText(t) == [] && IsQuote(c[0]))
      && (!IsStrLit(c) ==> ArgText(t) == c)
      && (IsLastArg(t) ==> t == c + [NEWLINE])
      && (!IsLastArg(t) ==> t == c)
    ensures |ArgText(t)| <= |t|
    ensures NUL !in t ==> NUL !in ArgText(t)
  {
    var c := DropNewline(t);
    if IsStrLit(c) && |c| >= 2 {
      assert c == [c[0]] + c[1..|c| - 1] + [c[|c| - 1]];
    }
  }

  /** `memcpy(dest + offset, t, strlen(t) + 1)`. */
  method CopyString(dest: array<Char>, offset: nat, t: seq<Char>) returns (next: nat)
    requires offset + |t| < dest.Length
    modifies dest
    ensures next == offset + |t| + 1
    ensures dest[..] == old(dest[..offset]) + t + [NUL] + old(dest[next..])
  {
    var k := 0;
    while k < |t|
      invariant k <= |t|
      invariant forall j :: 0 <= j < dest.Length ==>
        dest[j] == if offset <= j < offset + k then t[j - offset] else old(dest[j])
    {
      dest[offset + k] := t[k];
      k := k + 1;
    }
    dest[offset + |t|] := NUL;
    next := offset + |t| + 1;
    assert dest[..] == old(dest[..offset]) + t + [NUL] + old(dest[next..]);
  }

  /** A fresh array holding the C string `t`. */
  method NewString(t: seq<Char>) returns (a: array<Char>)
    requires NUL !in t
    ensures fresh(a) && a[..] == t + [NUL]
  {
    a := new Char[|t| + 1](i => if 0 <= i < |t| then t[i] else NUL);
  }

  /** The string `append_cmd` copies out for a token: in a private copy of
      the token, `rm_newline` and then, for a literal, `strip_quotes`. */
  method TokenText(cmd: seq<Char>) returns (copy: array<Char>, start: nat)
    requires NUL !in cmd
    ensures fresh(copy) && StrFrom(copy[..], start) == ArgText(cmd)
  {
    copy := NewString(cmd);
    if IsLastArg(cmd) {
      start := LastArgText(copy, cmd);
    } else if IsStrLit(cmd) {
      start := StripQuotes(copy, |cmd|);
    } else {
      StrFromRun(copy[..], 0, |cmd|);
      start := 0;
    }
  }

  /** The last token of a line: `rm_newline`, then `strip_quotes` if what
      remains is a literal. */
  method LastArgText(copy: array<Char>, cmd: seq<Char>) returns (start: nat)
    requires NUL !in cmd && IsLastArg(cmd) && copy[..] == cmd + [NUL]
    modifies copy
    ensures StrFrom(copy[..], start) == ArgText(cmd)
  {
    var n := |cmd| - 1;
    RemoveLastNewline(copy, cmd);
    start := 0;
    if IsStrLit(StrFrom(copy[..], 0)) {
      start := StripQuotes(copy, n);
    }
  }

  /** `rm_newline` on a private copy of a newline-terminated token. */
  method RemoveLastNewline(copy: array<Char>, cmd: seq<Char>)
    requires NUL !in cmd && IsLastArg(cmd) && copy[..] == cmd + [NUL]
    modifies copy
    ensures copy[..] == cmd[..|cmd| - 1] + [NUL, NUL]
    ensures StrFrom(copy[..], 0) == cmd[..|cmd| - 1] == DropNewline(cmd)
  {
    StrFromRun(copy[..], 0, |cmd|);
    assert copy[..|cmd|] == cmd;
    RmNewline(copy);
    StrFromRun(copy[..], 0, |cmd| - 1);
  }

  /** `append_cmd`: writes the token's text and a NUL at `offset` and advances
      the offset past them; the bytes before and after are untouched. */
  method AppendCmd(dest: array<Char>, cmd: seq<Char>, offset: nat) returns (next: nat)
    requires NUL !in cmd && offset + |cmd| < dest.Length
    modifies dest
    ensures next == offset + |ArgText(cmd)| + 1
    ensures dest[..] == old(dest[..offset]) + ArgText(cmd) + [NUL] + old(dest[next..])
  {
    ArgTextShape(cmd);
    var copy, start := TokenText(cmd);
    next := CopyString(dest, offset, StrFrom(copy[..], start));
  }

  // ---------------------------------------------------------------------------
  // Packing tokens into a buffer and reading them back
  // ---------------------------------------------------------------------------

  /** The delimiters `format_cmd` splits a command at: blank and tab. */
  const Blanks: seq<Char> := [SPACE, TAB]

  /** A packed buffer's contents: each text followed by a NUL. */
  function Pack(ws: seq<seq<Char>>): seq<Char>
  {
    if ws == [] then [] else Pack(ws[..|ws| - 1]) + ws[|ws| - 1] + [NUL]
  }

  /** The texts `append_cmd` writes for a list of tokens. */
  function ArgTexts(ts: seq<seq<Char>>): (r: seq<seq<Char>>)
    ensures |r| == |ts| && forall k :: 0 <= k < |ts| ==> r[k] == ArgText(ts[k])
  {
    seq(|ts|, k requires 0 <= k < |ts| => ArgText(ts[k]))
  }

  /** `n` NUL bytes: the zeroed rest of a buffer. */
  function Zeros(n: nat): (z: seq<Char>)
    ensures |z| == n && forall k :: 0 <= k < n ==> z[k] == NUL
  {
    seq(n, k => NUL)
  }

  lemma {:induction false} PackAppend(a: seq<seq<Char>>, b: seq<seq<Char>>)
    ensures Pack(a + b) == Pack(a) + Pack(b)
    decreases |b|
  {
    if b == [] {
      assert a + b == a;
    } else {
      assert (a + b)[..|a + b| - 1] == a + b[..|b| - 1];
      PackAppend(a, b[..|b| - 1]);
    }
  }

  lemma PackOne(w: seq<Char>)
    ensures Pack([w]) == w + [NUL]
  {
    var ws: seq<seq<Char>> := [w];
    assert ws[..0] == [];
  }

  /** Writing texts instead of tokens never takes more room. */
  lemma {:induction false} PackArgTextsShorter(ts: seq<seq<Char>>)
    ensures |Pack(ArgTexts(ts))| <= |Pack(ts)|
    decreases |ts|
  {
    if ts != [] {
      var init := ts[..|ts| - 1];
      assert ArgTexts(ts)[..|ts| - 1] == ArgTexts(init);
      PackArgTextsShorter(init);
      ArgTextShape(ts[|ts| - 1]);
    }
  }

  /** The tokens of a line, packed, fit in one byte more than the line. */
  lemma {:induction false} TokensPackBound(s: seq<Char>, cur: Cursor, delims: seq<Char>)
    requires Tokenizable(s, cur) && Positive(delims)
    ensures |Pack(Tokens(s, cur, delims))| <= cur.len - cur.next + 1
    ensures cur.next == cur.len ==> Tokens(s, cur, delims) == []
    decreases cur.len - cur.next
  {
    Strtok2Advances(s, cur, delims);
    var st := Strtok2Step(s, cur, delims);
    if st.token.None? {
      TokensNone(s, cur, delims);
    } else {
      var w := StrFrom(st.buf, st.token.value);
      TokensSome(s, cur, delims, st.token.value, st.cursor, st.buf);
      TokensPackBound(st.buf, st.cursor, delims);
      PackAppend([w], Tokens(st.buf, st.cursor, delims));
      PackOne(w);
    }
  }

  /** Non-empty, NUL-free texts: what can be read back out of a packed buffer. */
  predicate Words(ws: seq<seq<Char>>)
  {
    forall k :: 0 <= k < |ws| ==> |ws[k]| > 0 && NUL !in ws[k]
  }

  lemma WordsCons(w: seq<Char>, ws: seq<seq<Char>>)
    requires |w| > 0 && NUL !in w && Words(ws)
    ensures Words([w] + ws)
  {
    forall k | 0 < k < |[w] + ws|
      ensures |([w] + ws)[k]| > 0 && NUL !in ([w] + ws)[k]
    {
      assert ([w] + ws)[k] == ws[k - 1];
    }
  }

  /** Every token is non-empty and NUL-free. */
  lemma {:induction false} TokensShape(s: seq<Char>, cur: Cursor, delims: seq<Char>)
    requires Tokenizable(s, cur) && Positive(delims)
    ensures Words(Tokens(s, cur, delims))
    decreases cur.len - cur.next
  {
    Strtok2Advances(s, cur, delims);
    var st := Strtok2Step(s, cur, delims);
    if st.token.None? {
      TokensNone(s, cur, delims);
    } else {
      TokensSome(s, cur, delims, st.token.value, st.cursor, st.buf);
      TokensShape(st.buf, st.cursor, delims);
      WordsCons(StrFrom(st.buf, st.token.value), Tokens(st.buf, st.cursor, delims));
    }
  }

  /** What one `strtok2` call means for the tokens still to come and for the
      buffer once they are all out. */
  lemma Strtok2Bookkeeping(before: seq<Char>, cur: Cursor, delims: seq<Char>,
                           token: Option<nat>, next: Cursor, after: seq<Char>)
    requires Tokenizable(before, cur) && Positive(delims)
    requires Step(token, next, after) == Strtok2Step(before, cur, delims)
    ensures Tokenizable(after, next) && next.len == cur.len
    ensures token.None? ==> Tokens(before, cur, delims) == [] && Spent(before, cur, delims) == after
    ensures token.Some? ==>
      && cur.next < next.next
      && Tokens(before, cur, delims) == [StrFrom(after, token.value)] + Tokens(after, next, delims)
      && Spent(before, cur, delims) == Spent(after, next, delims)
  {
    Strtok2Advances(before, cur, delims);
    if token.None? {
      TokensNone(before, cur, delims);
    } else {
      TokensSome(before, cur, delims, token.value, next, after);
    }
  }

  lemma ConsAssoc(a: seq<seq<Char>>, w: seq<Char>, r: seq<seq<Char>>)
    ensures (a + [w]) + r == a + ([w] + r)
  {
  }

  /** Appending one more token's text to a packed buffer. */
  lemma PackArgTextsSnoc(acc: seq<seq<Char>>, w: seq<Char>)
    ensures Pack(ArgTexts(acc + [w])) == Pack(ArgTexts(acc)) + ArgText(w) + [NUL]
  {
    var ws := ArgTexts(acc + [w]);
    assert ws[..|ws| - 1] == ArgTexts(acc);
  }

  /** A buffer holding the texts of `acc`, packed, then nothing but NULs
      from `off` on. */
  predicate Packed(d: seq<Char>, acc: seq<seq<Char>>, off: nat)
  {
    off == |Pack(ArgTexts(acc))| && off <= |d| && d == Pack(ArgTexts(acc)) + Zeros(|d| - off)
  }

  /** One `append_cmd` of token `w` onto a zero-padded packed buffer. */
  lemma AppendedLayout(dest: seq<Char>, acc: seq<seq<Char>>, w: seq<Char>, off: nat, next: nat)
    requires off == |Pack(ArgTexts(acc))| && next == off + |ArgText(w)| + 1 && next <= |dest|
    requires dest == Pack(ArgTexts(acc)) + Zeros(|dest| - off)
    ensures dest[..off] + ArgText(w) + [NUL] + dest[next..] == Pack(ArgTexts(acc + [w])) + Zeros(|dest| - next)
  {
    PackArgTextsSnoc(acc, w);
    assert dest[..off] == Pack(ArgTexts(acc));
    assert dest[next..] == Zeros(|dest| - next);
  }

  /** Room in the buffer for the next token, and for the rest after it. */
  lemma AppendRoom(acc: seq<seq<Char>>, w: seq<Char>, rest: seq<seq<Char>>, room: nat)
    requires |Pack(acc)| + |Pack([w] + rest)| < room
    ensures |Pack(ArgTexts(acc))| + |w| < room
    ensures |Pack(ArgTexts(acc))| + |ArgText(w)| + 1 <= room
    ensures |Pack(acc + [w])| + |Pack(rest)| < room
  {
    PackArgTextsShorter(acc);
    PackAppend([w], rest);
    PackOne(w);
    PackAppend(acc, [w]);
    ArgTextShape(w);
  }

  /** `append_cmd` of token `w` onto a packed buffer with room for `w` and
      the tokens `rest` still to come. */
  method AppendToken(dest: array<Char>, w: seq<Char>, offset: nat, ghost acc: seq<seq<Char>>,
                     ghost rest: seq<seq<Char>>) returns (off: nat, ghost acc': seq<seq<Char>>)
    requires NUL !in w
    requires Packed(dest[..], acc, offset)
    requires |Pack(acc)| + |Pack([w] + rest)| < dest.Length
    modifies dest
    ensures acc' == acc + [w]
    ensures Packed(dest[..], acc', off) && off < dest.Length
    ensures |Pack(acc')| + |Pack(rest)| < dest.Length
  {
    AppendRoom(acc, w, rest, dest.Length);
    ghost var d := dest[..];
    off := AppendCmd(dest, w, offset);
    AppendedLayout(d, acc, w, offset, off);
    acc' := acc + [w];
    assert dest[..] == Pack(ArgTexts(acc')) + Zeros(dest.Length - off);
    PackArgTextsSnoc(acc, w);
    PackArgTextsShorter(acc');
  }

  /** `*(dest + offset) = '\0'` on a buffer already zero from `offset` on. */
  method CloseBuffer(dest: array<Char>, offset: nat)
    requires offset < dest.Length && dest[offset] == NUL
    modifies dest
    ensures dest[..] == old(dest[..])
  {
    dest[offset] := NUL;
  }

  /** `strtok2(NULL, delims)`, described by the tokens still to come and
      the buffer left once they are all out. */
  method TakeToken(src: array<Char>, cur: Cursor, delims: seq<Char>) returns (token: Option<nat>, next: Cursor)
    requires Tokenizable(src[..], cur) && Positive(delims)
    modifies src
    ensures Tokenizable(src[..], next) && next.len == cur.len
    ensures token.None? ==>
      Tokens(old(src[..]), cur, delims) == [] && src[..] == Spent(old(src[..]), cur, delims)
    ensures token.Some? ==>
      && cur.next < next.next
      && Tokens(old(src[..]), cur, delims) == [StrFrom(src[..], token.value)] + Tokens(src[..], next, delims)
      && Spent(old(src[..]), cur, delims) == Spent(src[..], next, delims)
  {
    ghost var before := src[..];
    token, next := Strtok2(src, cur, delims);
    Strtok2Bookkeeping(before, cur, delims, token, next, src[..]);
  }

  /** One pass of the loop `format_cmd` and `split` share: call
      `strtok2(NULL, delims)`; on NULL close the packed buffer with a NUL,
      otherwise append the token's text. */
  method AppendNext(src: array<Char>, delims: seq<Char>, dest: array<Char>, cur: Cursor, offset: nat,
                    ghost acc: seq<seq<Char>>)
      returns (token: Option<nat>, next: Cursor, off: nat, ghost acc': seq<seq<Char>>)
    requires src != dest && Tokenizable(src[..], cur) && Positive(delims)
    requires Packed(dest[..], acc, offset)
    requires |Pack(acc)| + |Pack(Tokens(src[..], cur, delims))| < dest.Length
    modifies src, dest
    ensures Tokenizable(src[..], next) && next.len == cur.len
    ensures Packed(dest[..], acc', off) && off < dest.Length
    ensures token.None? ==>
      acc' == acc && Tokens(old(src[..]), cur, delims) == [] && src[..] == Spent(old(src[..]), cur, delims)
    ensures token.Some? ==> cur.next < next.next && |acc'| == |acc| + 1
    ensures token.Some? ==> acc' + Tokens(src[..], next, delims) == acc + Tokens(old(src[..]), cur, delims)
    ensures token.Some? ==> Spent(src[..], next, delims) == Spent(old(src[..]), cur, delims)
    ensures token.Some? ==> |Pack(acc')| + |Pack(Tokens(src[..], next, delims))| < dest.Length
  {
    token, next := TakeToken(src, cur, delims);
    ghost var after := src[..];
    PackArgTextsShorter(acc);
    if token.None? {
      assert dest[offset] == Zeros(dest.Length - offset)[0];
      CloseBuffer(dest, offset);
      off, acc' := offset, acc;
    } else {
      var w := StrFrom(src[..], token.value);
      ghost var rest := Tokens(after, next, delims);
      off, acc' := AppendToken(dest, w, offset, acc, rest);
      ConsAssoc(acc, w, rest);
    }
    assert src[..] == after;
  }

  /** The loop `format_cmd` and `split` share: `strtok2(NULL, delims)` until
      it returns NULL, each token's text appended, and a last NUL closing the
      packed buffer.  Returns the number of tokens appended. */
  method AppendRest(src: array<Char>, delims: seq<Char>, dest: array<Char>, cur: Cursor, offset: nat,
                    ghost done: seq<seq<Char>>) returns (count: nat)
    requires src != dest && Tokenizable(src[..], cur) && Positive(delims)
    requires Packed(dest[..], done, offset)
    requires |Pack(done)| + |Pack(Tokens(src[..], cur, delims))| < dest.Length
    modifies src, dest
    ensures var rest := Tokens(old(src[..]), cur, delims);
      var p := Pack(ArgTexts(done + rest));
      && count == |rest| && |p| < dest.Length
      && Packed(dest[..], done + rest, |p|)
      && src[..] == Spent(old(src[..]), cur, delims)
  {
    ghost var s0 := src[..];
    ghost var all := done + Tokens(s0, cur, delims);
    ghost var acc := done;
    var token: Option<nat> := Some(cur.next);
    var next := cur;
    var off: nat := offset;
    count := 0;
    while token.Some?
      invariant Tokenizable(src[..], next) && next.len == cur.len
      invariant token.Some? ==> acc + Tokens(src[..], next, delims) == all
      invariant token.Some? ==> Spent(src[..], next, delims) == Spent(s0, cur, delims)
      invariant token.Some? ==> |Pack(acc)| + |Pack(Tokens(src[..], next, delims))| < dest.Length
      invariant token.None? ==> acc == all && src[..] == Spent(s0, cur, delims) && off < dest.Length
      invariant Packed(dest[..], acc, off)
      invariant count == |acc| - |done| && |acc| >= |done|
      decreases if token.Some? then next.len - next.next + 1 else 0
    {
      token, next, off, acc := AppendNext(src, delims, dest, next, off, acc);
      if token.Some? {
        count := count + 1;
      }
    }
  }

  /** `format_cmd`: the command's blank-separated tokens, each written as
      `append_cmd` writes it, packed into the zeroed `dest`; a line without
      tokens leaves `dest` all NUL.  `src` is left as `strtok2` leaves it. */
  method FormatCmd(src: array<Char>, dest: array<Char>)
    requires src != dest && NUL in src[..]
    requires dest[..] == Zeros(dest.Length) && Strlen(src[..]) + 2 <= dest.Length
    modifies src, dest
    ensures var ts := Tokens(old(src[..]), Begin(old(src[..])), Blanks);
      var p := Pack(ArgTexts(ts));
      && |p| < dest.Length && Packed(dest[..], ts, |p|)
      && src[..] == Spent(old(src[..]), Begin(old(src[..])), Blanks)
  {
    ghost var s0 := src[..];
    var cur := Begin(src[..]);
    TokensPackBound(src[..], cur, Blanks);
    var token, next := TakeToken(src, cur, Blanks);
    if token.None? {
      var off := AppendCmd(dest, [], 0);
      assert dest[..] == Zeros(dest.Length);
    } else {
      var count := PackTokens(src, Blanks, dest, token.value, next, s0, cur);
    }
  }

  /** `split`: the tokens of `src` between the separator `delim`, packed like
      `format_cmd` packs blank-separated ones, and their number.  The source
      hands the first token to `append_cmd` unchecked, so there must be one. */
  method Split(src: array<Char>, delim: Char, dest: array<Char>) returns (count: nat)
    requires src != dest && NUL in src[..] && delim > 0
    requires Tokens(src[..], Begin(src[..]), [delim]) != []
    requires dest[..] == Zeros(dest.Length) && Strlen(src[..]) + 2 <= dest.Length
    modifies src, dest
    ensures var ts := Tokens(old(src[..]), Begin(old(src[..])), [delim]);
      var p := Pack(ArgTexts(ts));
      && count == |ts| && |p| < dest.Length && Packed(dest[..], ts, |p|)
      && src[..] == Spent(old(src[..]), Begin(old(src[..])), [delim])
  {
    ghost var s0 := src[..];
    var cur := Begin(src[..]);
    TokensPackBound(src[..], cur, [delim]);
    var token, next := TakeToken(src, cur, [delim]);
    count := PackTokens(src, [delim], dest, token.value, next, s0, cur);
  }

  /** The part `format_cmd` and `split` share once `strtok2` has returned the
      first token `tok` of the line `s0` and left the cursor at `next`: append
      it and every following token to the zeroed `dest`, counting them. */
  method PackTokens(src: array<Char>, delims: seq<Char>, dest: array<Char>, tok: nat, next: Cursor,
                    ghost s0: seq<Char>, ghost cur: Cursor) returns (count: nat)
    requires src != dest && Positive(delims) && Tokenizable(s0, cur) && Tokenizable(src[..], next)
    requires Tokens(s0, cur, delims) == [StrFrom(src[..], tok)] + Tokens(src[..], next, delims)
    requires Spent(s0, cur, delims) == Spent(src[..], next, delims)
    requires dest[..] == Zeros(dest.Length) && |Pack(Tokens(s0, cur, delims))| < dest.Length
    modifies src, dest
    ensures var ts := Tokens(s0, cur, delims);
      var p := Pack(ArgTexts(ts));
      && count == |ts| && |p| < dest.Length && Packed(dest[..], ts, |p|)
      && src[..] == Spent(s0, cur, delims)
  {
    ghost var ts := Tokens(s0, cur, delims);
    var w := StrFrom(src[..], tok);
    ghost var more := Tokens(src[..], next, delims);
    var off, acc := AppendToken(dest, w, 0, [], more);
    assert acc + more == ts;
    var rest := AppendRest(src, delims, dest, next, off, acc);
    count := 1 + rest;
  }

  /** The strings `buf_to_strs` reads out of a packed buffer from index `i`:
      one per NUL-terminated string, up to the first empty one. */
  function Strings(b: seq<Char>, i: nat): (r: seq<seq<Char>>)
    decreases |b| - i
    ensures Words(r)
  {
    if i >= |b| || b[i] == NUL then []
    else
      var w := StrFrom(b, i);
      WordsCons(w, Strings(b, i + |w| + 1));
      [w] + Strings(b, i + |w| + 1)
  }

  /** The texts before the first empty one. */
  function UpToEmpty(ws: seq<seq<Char>>): (r: seq<seq<Char>>)
    ensures |r| <= |ws| && r == ws[..|r|]
    ensures forall k :: 0 <= k < |r| ==> ws[k] != []
    ensures |r| < |ws| ==> ws[|r|] == []
  {
    if ws == [] || ws[0] == [] then []
    else
      var r := [ws[0]] + UpToEmpty(ws[1..]);
      assert ws == [ws[0]] + ws[1..];
      r
  }

  lemma PackPrefix(xs: seq<seq<Char>>, i: nat)
    requires i <= |xs|
    ensures Pack(xs) == Pack(xs[..i]) + Pack(xs[i..])
  {
    assert xs == xs[..i] + xs[i..];
    PackAppend(xs[..i], xs[i..]);
  }

  /** Where the `i`-th text of a packed buffer starts, and what is read there. */
  lemma PackedAt(xs: seq<seq<Char>>, k: nat, i: nat)
    requires forall j :: 0 <= j < |xs| ==> NUL !in xs[j]
    requires i < |xs|
    ensures var b := Pack(xs) + Zeros(k); var p := |Pack(xs[..i])|;
      && StrFrom(b, p) == xs[i]
      && |Pack(xs[..i + 1])| == p + |xs[i]| + 1 <= |Pack(xs)|
  {
    var b := Pack(xs) + Zeros(k);
    var pre := Pack(xs[..i]);
    PackPrefix(xs, i + 1);
    assert xs[..i + 1][..i] == xs[..i];
    assert Pack(xs[..i + 1]) == pre + xs[i] + [NUL];
    var rest := [NUL] + Pack(xs[i + 1..]) + Zeros(k);
    assert b == pre + xs[i] + rest;
    SliceOfConcat(pre, xs[i], rest);
    StrFromIs(b, |pre|, xs[i]);
  }

  /** The middle part of a concatenation, and what follows it. */
  lemma SliceOfConcat(a: seq<Char>, c: seq<Char>, d: seq<Char>)
    requires d != []
    ensures var b := a + c + d; b[|a|..|a| + |c|] == c && b[|a| + |c|] == d[0]
  {
  }

  /** `buf_to_strs`: the start of each string of a packed buffer, up to the
      first empty string; the end of the sequence is the NULL that closes the
      argument vector.  The strings read are the packed texts up to the first
      empty one. */
  method BufToStrs(buf: array<Char>, ghost ws: seq<seq<Char>>, ghost off: nat) returns (argv: seq<nat>)
    requires Packed(buf[..], ws, off) && off < buf.Length
    requires forall j :: 0 <= j < |ws| ==> NUL !in ws[j]
    ensures var r := Strings(buf[..], 0);
      |argv| == |r| && forall j :: 0 <= j < |r| ==> StrFrom(buf[..], argv[j]) == r[j]
    ensures Strings(buf[..], 0) == UpToEmpty(ArgTexts(ws))
  {
    ghost var xs := ArgTexts(ws);
    forall j | 0 <= j < |xs|
      ensures NUL !in xs[j]
    {
      ArgTextShape(ws[j]);
    }
    PackedLayout(xs, buf.Length - off);
    var i;
    argv, i := StringStarts(buf, xs, Offsets(xs));
    assert xs[0..] == xs;
    StringsLayout(buf[..], xs, Offsets(xs), 0);
    ghost var r := UpToEmpty(xs);
    assert |r| == i;
  }

  /** Where each text of a packed buffer starts. */
  function Offsets(xs: seq<seq<Char>>): (pos: seq<nat>)
    ensures |pos| == |xs| + 1 && forall i :: 0 <= i <= |xs| ==> pos[i] == |Pack(xs[..i])|
  {
    seq(|xs| + 1, i requires 0 <= i <= |xs| => |Pack(xs[..i])|)
  }

  /** Buffer `b` holds the texts `xs` at offsets `pos`, each running up to
      the next offset but one, and a NUL after the last. */
  predicate Layout(b: seq<Char>, xs: seq<seq<Char>>, pos: seq<nat>)
  {
    && |pos| == |xs| + 1 && pos[0] == 0 && pos[|xs|] < |b| && b[pos[|xs|]] == NUL
    && (forall i :: 0 <= i <= |xs| ==> pos[i] <= pos[|xs|])
    && (forall i {:trigger xs[i]} :: 0 <= i < |xs| ==> pos[i + 1] == pos[i] + |xs[i]| + 1 && StrFrom(b, pos[i]) == xs[i])
  }

  lemma PackedLayout(xs: seq<seq<Char>>, k: nat)
    requires forall j :: 0 <= j < |xs| ==> NUL !in xs[j]
    requires k > 0
    ensures Layout(Pack(xs) + Zeros(k), xs, Offsets(xs))
  {
    var b := Pack(xs) + Zeros(k);
    var pos := Offsets(xs);
    assert xs[..|xs|] == xs;
    assert b[pos[|xs|]] == NUL;
    forall i | 0 <= i < |xs|
      ensures pos[i + 1] == pos[i] + |xs[i]| + 1 && StrFrom(b, pos[i]) == xs[i]
    {
      PackedAt(xs, k, i);
    }
    forall i | 0 <= i <= |xs|
      ensures pos[i] <= pos[|xs|]
    {
      PackPrefix(xs, i);
    }
  }

  /** Reading a laid-out buffer back, from its `i`-th text on, stops at the
      first empty text. */
  lemma {:induction false} StringsLayout(b: seq<Char>, xs: seq<seq<Char>>, pos: seq<nat>, i: nat)
    requires Layout(b, xs, pos) && i <= |xs|
    ensures Strings(b, pos[i]) == UpToEmpty(xs[i..])
    decreases |xs| - i
  {
    if i < |xs| {
      StringsStep(b, pos[i], xs[i]);
      assert xs[i..][0] == xs[i];
      if xs[i] != [] {
        StringsLayout(b, xs, pos, i + 1);
        assert xs[i..][1..] == xs[i + 1..];
      }
    } else {
      assert b[pos[i]] == NUL;
    }
  }

  /** One string read by `buf_to_strs`: an empty one ends the reading. */
  lemma StringsStep(b: seq<Char>, p: nat, w: seq<Char>)
    requires StrFrom(b, p) == w
    ensures w == [] ==> Strings(b, p) == []
    ensures w != [] ==> Strings(b, p) == [w] + Strings(b, p + |w| + 1)
  {
  }

  /** The loop of `buf_to_strs`: from one string to the next, `strlen + 1`
      bytes on, until a string is empty. */
  method StringStarts(buf: array<Char>, ghost xs: seq<seq<Char>>, ghost pos: seq<nat>) returns (argv: seq<nat>, i: nat)
    requires Layout(buf[..], xs, pos)
    ensures i <= |xs| && |argv| == i && (i < |xs| ==> xs[i] == [])
    ensures forall j :: 0 <= j < i ==> xs[j] != [] && StrFrom(buf[..], argv[j]) == xs[j]
  {
    ghost var b := buf[..];
    i := 0;
    var ptr: nat := 0;
    argv := [];
    while buf[ptr] != NUL
      invariant i <= |xs| && ptr == pos[i]
      invariant |argv| == i
      invariant forall j :: 0 <= j < i ==> xs[j] != [] && StrFrom(b, argv[j]) == xs[j]
      decreases |xs| - i
    {
      assert StrFrom(b, ptr) == xs[i];
      assert StrFrom(b, ptr) != [] by {
        assert b[ptr] != NUL;
      }
      argv := argv + [ptr];
      ptr := ptr + |StrFrom(buf[..], ptr)| + 1;
      i := i + 1;
    }
  }

  // ---------------------------------------------------------------------------
  // From a command line to its argument vector
  // ---------------------------------------------------------------------------

  /** The argument vector `format_cmd` followed by `buf_to_strs` makes of the
      command held in `s`. */
  function Argv(s: seq<Char>): (argv: seq<seq<Char>>)
    requires NUL in s
    ensures forall k :: 0 <= k < |argv| ==> |argv[k]| > 0 && NUL !in argv[k]
  {
    var ts := Tokens(s, Begin(s), Blanks);
    TokensShape(s, Begin(s), Blanks);
    ArgTextsNulFree(ts);
    UpToEmpty(ArgTexts(ts))
  }

  lemma ArgTextsNulFree(ts: seq<seq<Char>>)
    requires Words(ts)
    ensures forall k :: 0 <= k < |ts| ==> NUL !in ArgTexts(ts)[k]
  {
    forall k | 0 <= k < |ts|
      ensures NUL !in ArgTexts(ts)[k]
    {
      ArgTextShape(ts[k]);
    }
  }

  /** `format_cmd(src, dest)` then `buf_to_strs(dest, argv)`: `argv` points at
      the strings of `Argv` of the command. */
  method FormatArgv(src: array<Char>, dest: array<Char>) returns (argv: seq<nat>)
    requires src != dest && NUL in src[..]
    requires dest[..] == Zeros(dest.Length) && Strlen(src[..]) + 2 <= dest.Length
    modifies src, dest
    ensures |argv| == |Argv(old(src[..]))|
    ensures forall j :: 0 <= j < |argv| ==> StrFrom(dest[..], argv[j]) == Argv(old(src[..]))[j]
  {
    ghost var s := src[..];
    ghost var ts := Tokens(s, Begin(s), Blanks);
    TokensShape(s, Begin(s), Blanks);
    FormatCmd(src, dest);
    argv := BufToStrs(dest, ts, |Pack(ArgTexts(ts))|);
  }

  /** A line of blanks, perhaps ending in the newline, has an empty argument
      vector: `argv[0]` is NULL. */
  lemma BlankLineNoArgs(s: seq<Char>)
    requires NUL in s
    requires forall j :: 0 <= j < Strlen(s) ==> s[j] in Blanks || (j == Strlen(s) - 1 && s[j] == NEWLINE)
    ensures Argv(s) == []
  {
    BlankLineTokens(s);
    assert ArgText([NEWLINE]) == [];
    var ts := Tokens(s, Begin(s), Blanks);
    assert ts == [] || ArgTexts(ts) == [[]];
  }

  /** The tokens of a blank line: none, or the newline alone. */
  lemma BlankLineTokens(s: seq<Char>)
    requires NUL in s
    requires forall j :: 0 <= j < Strlen(s) ==> s[j] in Blanks || (j == Strlen(s) - 1 && s[j] == NEWLINE)
    ensures var n := Strlen(s);
      Tokens(s, Begin(s), Blanks) == if n > 0 && s[n - 1] == NEWLINE then [[NEWLINE]] else []
  {
    var n := Strlen(s);
    BlankLineSeparators(s);
    TokensClean(s, Begin(s), Blanks);
    var m := SepMask(s, n, Blanks);
    if n > 0 && s[n - 1] == NEWLINE {
      BlankLineFields(s, m, n);
    } else {
      assert FirstWith(m, 0, false) == n;
    }
  }

  /** A blank line has no quotes, so every blank separates. */
  lemma BlankLineSeparators(s: seq<Char>)
    requires NUL in s
    requires forall j :: 0 <= j < Strlen(s) ==> s[j] in Blanks || (j == Strlen(s) - 1 && s[j] == NEWLINE)
    ensures Clean(s, Strlen(s))
    ensures forall j :: 0 <= j < Strlen(s) ==> (SepMask(s, Strlen(s), Blanks)[j] <==> s[j] != NEWLINE)
  {
    assert GetQuote(s, Strlen(s)) == NUL;
  }

  lemma BlankLineFields(s: seq<Char>, m: seq<bool>, n: nat)
    requires 0 < n == |m| < |s| && s[n - 1] == NEWLINE
    requires forall j :: 0 <= j < n ==> (m[j] <==> j != n - 1)
    ensures Fields(s, m, 0) == [[NEWLINE]]
  {
    assert !m[n - 1];
    assert FirstWith(m, 0, false) == n - 1;
    assert FirstWith(m, n, true) == n;
    assert FirstWith(m, n - 1, true) == n;
    assert s[n - 1..n] == [NEWLINE];
  }

  /** `echo 'a b' c`: the quoted blank stays inside its argument and the
      quotes go: the argument vector is `echo`, `a b`, `c`. */
  lemma EchoLineArgv()
    ensures var s: seq<Char> := [101, 99, 104, 111, SPACE, SQUOTE, 97, SPACE, 98, SQUOTE, SPACE, 99, NUL];
      NUL in s && Argv(s) == [[101, 99, 104, 111], [97, SPACE, 98], [99]]
  {
    var s: seq<Char> := [101, 99, 104, 111, SPACE, SQUOTE, 97, SPACE, 98, SQUOTE, SPACE, 99, NUL];
    Strtok2KeepsQuotedBlank();
    EchoLineTexts([[101, 99, 104, 111], [SQUOTE, 97, SPACE, 98, SQUOTE], [99]]);
  }

  lemma EchoLineTexts(ts: seq<seq<Char>>)
    requires ts == [[101, 99, 104, 111], [SQUOTE, 97, SPACE, 98, SQUOTE], [99]]
    ensures UpToEmpty(ArgTexts(ts)) == [[101, 99, 104, 111], [97, SPACE, 98], [99]]
  {
    var q := ts[1];
    assert q[1..|q| - 1] == [97, SPACE, 98];
    assert ArgText(ts[0]) == ts[0] && ArgText(q) == [97, SPACE, 98] && ArgText(ts[2]) == ts[2];
    var xs := ArgTexts(ts);
    assert xs == [[101, 99, 104, 111], [97, SPACE, 98], [99]];
    assert xs[1..][1..] == [[99]] && [[99]][1..] == [];
  }

  /** An empty quoted token, `''` or `""`, ends the argument vector made of
      tokens `ts` (as `Argv` makes it of a line's tokens): no argument from it
      on is passed. */
  lemma EmptyLiteralTruncates(ts: seq<seq<Char>>, k: nat)
    requires k < |ts| && (ts[k] == [SQUOTE, SQUOTE] || ts[k] == [DQUOTE, DQUOTE])
    ensures |UpToEmpty(ArgTexts(ts))| <= k
  {
    assert ArgTexts(ts)[k] == ArgText(ts[k]) == [];
  }
}
