/** The quote-aware scanner of strquote.c: quote validation, quoted-literal
    tests, a `strchr` and a `strtok` that skip over quoted text.  The hidden
    `static` state of `strtok2` is the explicit `Cursor` here. */
module StrQuote {
  import opened CString

  // ---------------------------------------------------------------------------
  // Classifying a line or a token
  // ---------------------------------------------------------------------------

  /** `is_str_lit`: the token starts and ends with the same quote character.
      The first character is tested first, so the empty token is not a
      literal and its (non-existent) last character is never read. */
  function IsStrLit(s: seq<Char>): (b: bool)
    ensures b <==> |s| > 0 && IsQuote(s[0]) && s[|s| - 1] == s[0]
  {
    |s| > 0 &&
    ((s[0] == SQUOTE && s[|s| - 1] == SQUOTE) || (s[0] == DQUOTE && s[|s| - 1] == DQUOTE))
  }

  /** `contains_quotes`: -1 if both quote kinds occur, 0 if neither, otherwise
      the one kind that occurs. */
  function ContainsQuotes(s: seq<Char>): (r: int)
    ensures r == -1 <==> SQUOTE in s && DQUOTE in s
    ensures r == 0 <==> SQUOTE !in s && DQUOTE !in s
    ensures r == SQUOTE as int <==> SQUOTE in s && DQUOTE !in s
    ensures r == DQUOTE as int <==> DQUOTE in s && SQUOTE !in s
  {
    var single := IndexOf(s, SQUOTE);
    var double := IndexOf(s, DQUOTE);
    if single.Some? && double.Some? then -1
    else if single.None? && double.None? then 0
    else if single.None? then DQUOTE as int
    else SQUOTE as int
  }

  /** The quote kind `contains_valid_quotes` counts: `'` if one occurs, else `"`. */
  function CountedQuote(s: seq<Char>): (q: Char)
    ensures IsQuote(q)
  {
    if SQUOTE in s then SQUOTE else DQUOTE
  }

  /** `contains_valid_quotes`: -1 when the counted quote kind occurs an odd
      number of times, otherwise that kind (so a quote-free line gives `"`). */
  method ContainsValidQuotes(s: seq<Char>) returns (r: int)
    ensures r == -1 <==> Count(s, CountedQuote(s)) % 2 == 1
    ensures r != -1 ==> r == CountedQuote(s) as int
  {
    var single := IndexOf(s, SQUOTE);
    var double := IndexOf(s, DQUOTE);
    var quote: Char;
    var pos: Option<nat>;
    if single.None? {
      quote, pos := DQUOTE, double;
    } else {
      quote, pos := SQUOTE, single;
    }
    CountAbsent(s, quote);
    if pos.Some? {
      CountAbsent(s[..pos.value], quote);
    }
    var count := 0;
    while pos.Some?
      invariant pos.Some? ==> pos.value < |s| && s[pos.value] == quote && count == Count(s[..pos.value], quote)
      invariant pos.None? ==> count == Count(s, quote)
      decreases if pos.Some? then |s| - pos.value else 0
    {
      var p := pos.value;
      CountPastOccurrence(s, p, quote);
      // strchr(++pos, quote): search what follows the occurrence just counted
      var rest := IndexOf(s[p + 1..], quote);
      if rest.Some? {
        var next := p + 1 + rest.value;
        assert s[next] == s[p + 1..][rest.value];
        pos := Some(next);
      } else {
        pos := None;
      }
      count := count + 1;
    }
    if count % 2 != 0 {
      r := -1;
    } else {
      r := quote as int;
    }
  }

  /** Counting from one occurrence of `q` to the next one (or to the end). */
  lemma CountPastOccurrence(s: seq<Char>, p: nat, q: Char)
    requires p < |s| && s[p] == q
    ensures var rest := IndexOf(s[p + 1..], q);
      && (rest.Some? ==> Count(s[..p + 1 + rest.value], q) == Count(s[..p], q) + 1)
      && (rest.None? ==> Count(s, q) == Count(s[..p], q) + 1)
  {
    CountPrefixStep(s, p, q);
    var rest := IndexOf(s[p + 1..], q);
    if rest.Some? {
      var k := rest.value;
      assert s[..p + 1 + k] == s[..p + 1] + s[p + 1..][..k];
      CountAppend(s[..p + 1], s[p + 1..][..k], q);
      CountAbsent(s[p + 1..][..k], q);
    } else {
      assert s == s[..p + 1] + s[p + 1..];
      CountAppend(s[..p + 1], s[p + 1..], q);
      CountAbsent(s[p + 1..], q);
    }
  }

  /** The interior a pointer returned by `strip_quotes` designates: both outer
      characters are dropped when the string starts with a quote. */
  function Interior(s: seq<Char>): (r: seq<Char>)
  {
    if |s| > 0 && IsQuote(s[0]) then (if |s| >= 2 then s[1..|s| - 1] else []) else s
  }

  /** `strip_quotes` on the NUL-terminated string of length `n` held in `a`:
      when it starts with a quote, the first and last characters become NUL
      and the returned pointer is one past the start. */
  method StripQuotes(a: array<Char>, n: nat) returns (start: nat)
    requires n < a.Length && a[n] == NUL && NUL !in a[..n]
    modifies a
    ensures start <= n
    ensures n > 0 && IsQuote(old(a[0])) ==> start == 1 && a[..] == old(a[..])[0 := NUL][n - 1 := NUL]
    ensures !(n > 0 && IsQuote(old(a[0]))) ==> start == 0 && a[..] == old(a[..])
    ensures StrFrom(a[..], start) == Interior(old(a[..n]))
  {
    ghost var s := a[..n];
    if a[0] != SQUOTE && a[0] != DQUOTE {
      assert n > 0 ==> a[0] == s[0];
      StrFromIs(a[..], 0, s);
      return 0;
    }
    assert n > 0;
    a[0] := NUL;
    a[n - 1] := NUL;
    start := 1;
    if n >= 2 {
      assert a[..][1..n - 1] == s[1..n - 1];
      StrFromIs(a[..], 1, s[1..n - 1]);
    } else {
      StrFromIs(a[..], 1, []);
    }
  }

  // ---------------------------------------------------------------------------
  // Quote state
  // ---------------------------------------------------------------------------

  /** Index of the first quote character at or after `i` among the first `len`
      characters, or `len` if there is none. */
  function QuoteFrom(s: seq<Char>, len: nat, i: nat): (k: nat)
    requires i <= len <= |s|
    decreases len - i
    ensures i <= k <= len
    ensures forall j :: i <= j < k ==> !IsQuote(s[j])
    ensures k < len ==> IsQuote(s[k])
  {
    if i == len then len else if IsQuote(s[i]) then i else QuoteFrom(s, len, i + 1)
  }

  /** `get_quote`: the first `'` or `"` among the first `len` characters, or 0. */
  function GetQuote(s: seq<Char>, len: nat): (q: Char)
    requires len <= |s|
    ensures q == NUL <==> forall i :: 0 <= i < len ==> !IsQuote(s[i])
    ensures q != NUL ==> IsQuote(q) && q in s[..len]
    ensures forall j :: 0 <= j < len && IsQuote(s[j]) && s[j] != q ==> q in s[..j]
  {
    var k := QuoteFrom(s, len, 0);
    assert k < len ==> s[..len][k] == s[k];
    assert forall j :: k < j <= len ==> s[..j][k] == s[k];
    if k < len then s[k] else NUL
  }

  /** Odd number of `q` before index `i`: position `i` lies between an opening
      and a closing `q` (the state `inside_quote` holds when `i` is reached). */
  predicate Inside(s: seq<Char>, q: Char, i: nat)
    requires i <= |s|
  {
    Count(s[..i], q) % 2 == 1
  }

  /** Position `i` is strictly inside a quoted region of the line's quote kind:
      the positions `replace_within_quotes` and `restore_within_quotes` may touch. */
  predicate Quoted(s: seq<Char>, len: nat, i: nat)
    requires i < len <= |s|
  {
    var q := GetQuote(s, len);
    q != NUL && s[i] != q && Inside(s, q, i)
  }

  /** Two buffers that hold the same quote characters at the same places (among
      the first `len`) have the same quote kind and the same quoted positions. */
  lemma {:induction false} QuotingAgrees(s: seq<Char>, t: seq<Char>, len: nat)
    requires len <= |s| && len <= |t|
    requires forall i :: 0 <= i < len && (IsQuote(s[i]) || IsQuote(t[i])) ==> s[i] == t[i]
    ensures GetQuote(t, len) == GetQuote(s, len)
    ensures GetQuote(s, len) != NUL ==>
      forall i :: 0 <= i <= len ==> Inside(t, GetQuote(s, len), i) == Inside(s, GetQuote(s, len), i)
    ensures forall i :: 0 <= i < len ==> Quoted(t, len, i) == Quoted(s, len, i)
  {
    QuoteFromAgrees(s, t, len, 0);
    var q := GetQuote(s, len);
    if q != NUL {
      assert forall i :: 0 <= i < len ==> (s[i] == q <==> t[i] == q);
      forall i | 0 <= i <= len
        ensures Inside(t, q, i) == Inside(s, q, i)
      {
        CountAgree(s, t, q, i);
      }
    }
  }

  lemma {:induction false} QuoteFromAgrees(s: seq<Char>, t: seq<Char>, len: nat, i: nat)
    requires i <= len <= |s| && len <= |t|
    requires forall j :: 0 <= j < len && (IsQuote(s[j]) || IsQuote(t[j])) ==> s[j] == t[j]
    ensures QuoteFrom(t, len, i) == QuoteFrom(s, len, i)
    decreases len - i
  {
    if i < len && !IsQuote(s[i]) {
      QuoteFromAgrees(s, t, len, i + 1);
    }
  }

  // ---------------------------------------------------------------------------
  // Hiding delimiters inside quotes by negating them, and restoring them
  // ---------------------------------------------------------------------------

  /** Delimiter sets as the shell passes them: ASCII and not NUL. */
  predicate Positive(delims: seq<Char>)
  {
    forall d :: d in delims ==> d > 0
  }

  /** Delimiter sets that in addition never contain a quote character
      (`" \t"`, `";"`, `"&"`, `">"`, `"|"` are the ones the shell uses). */
  predicate Delims(delims: seq<Char>)
  {
    forall d :: d in delims ==> d > 0 && !IsQuote(d)
  }

  /** The buffer after `replace_within_quotes(s, delims, len)`. */
  function Replaced(s: seq<Char>, delims: seq<Char>, len: nat): (r: seq<Char>)
    requires len <= |s| && Positive(delims)
    ensures |r| == |s|
    ensures forall i :: 0 <= i < |s| ==> (r[i] == NUL <==> s[i] == NUL)
    ensures forall i :: len <= i < |s| ==> r[i] == s[i]
  {
    seq(|s|, i requires 0 <= i < |s| =>
      if i < len && Quoted(s, len, i) && s[i] in delims then Neg(s[i]) else s[i])
  }

  /** The buffer after `restore_within_quotes(s, len)`: every negative
      character strictly inside quotes is negated. */
  function Restored(s: seq<Char>, len: nat): (r: seq<Char>)
    requires len <= |s|
    ensures |r| == |s|
    ensures forall i :: 0 <= i < |s| ==> (r[i] == NUL <==> s[i] == NUL)
    ensures forall i :: len <= i < |s| ==> r[i] == s[i]
  {
    seq(|s|, i requires 0 <= i < |s| =>
      if i < len && Quoted(s, len, i) && s[i] < 0 then Neg(s[i]) else s[i])
  }

  /** `replace_within_quotes`: in place, each delimiter strictly inside quotes
      becomes its negation; quote characters and everything outside quotes stay. */
  method ReplaceWithinQuotes(a: array<Char>, delims: seq<Char>, len: nat)
    requires len <= a.Length && Positive(delims)
    modifies a
    ensures a[..] == Replaced(old(a[..]), delims, len)
  {
    ghost var s := a[..];
    var quote := GetQuote(a[..], len);
    if quote == NUL {
      ReplacedAt(s, delims, len);
      assert a[..] == Replaced(s, delims, len);
      return;
    }
    var inside := false;
    var index := 0;
    while index < len
      invariant index <= len
      invariant inside == Inside(s, quote, index)
      invariant forall i :: 0 <= i < index ==>
        a[i] == (if s[i] != quote && Inside(s, quote, i) && s[i] in delims then Neg(s[i]) else s[i])
      invariant forall i :: index <= i < a.Length ==> a[i] == s[i]
    {
      inside := ReplaceAt(a, s, quote, delims, index, inside);
      index := index + 1;
    }
    ReplacedAt(s, delims, len);
    assert a[..] == Replaced(s, delims, len);
  }

  /** One round of `replace_within_quotes`'s loop: a quote character flips
      `inside`; inside quotes, a delimiter at `index` is negated. */
  method ReplaceAt(a: array<Char>, ghost s: seq<Char>, quote: Char, delims: seq<Char>, index: nat, inside: bool)
    returns (inside': bool)
    requires index < a.Length == |s| && Positive(delims) && a[index] == s[index]
    requires inside == Inside(s, quote, index)
    modifies a
    ensures inside' == Inside(s, quote, index + 1)
    ensures a[index] == if s[index] != quote && Inside(s, quote, index) && s[index] in delims then Neg(s[index]) else s[index]
    ensures forall i :: 0 <= i < a.Length && i != index ==> a[i] == old(a[i])
  {
    CountPrefixStep(s, index, quote);
    inside' := inside;
    if a[index] == quote {
      inside' := !inside;
    } else if inside {
      NegateDelimiter(a, index, delims);
    }
  }

  /** The inner loop of `replace_within_quotes`: the character at `index` is
      negated when it equals one of the delimiters. */
  method NegateDelimiter(a: array<Char>, index: nat, delims: seq<Char>)
    requires index < a.Length && Positive(delims)
    modifies a
    ensures a[index] == if old(a[index]) in delims then Neg(old(a[index])) else old(a[index])
    ensures forall i :: 0 <= i < a.Length && i != index ==> a[i] == old(a[i])
  {
    var k := 0;
    while k < |delims|
      invariant k <= |delims|
      invariant a[index] == if old(a[index]) in delims[..k] then Neg(old(a[index])) else old(a[index])
      invariant forall i :: 0 <= i < a.Length && i != index ==> a[i] == old(a[i])
    {
      assert delims[..k + 1] == delims[..k] + [delims[k]];
      assert delims[k] in delims && delims[k] > 0;
      assert old(a[index]) in delims[..k] ==> old(a[index]) in delims && a[index] < 0;
      if a[index] == delims[k] {
        a[index] := Neg(delims[k]);
      }
      k := k + 1;
    }
    assert delims[..k] == delims;
  }

  /** One position of `Replaced`. */
  lemma ReplacedAt(s: seq<Char>, delims: seq<Char>, len: nat)
    requires len <= |s| && Positive(delims)
    ensures forall i :: 0 <= i < |s| ==>
      Replaced(s, delims, len)[i] == (if i < len && Quoted(s, len, i) && s[i] in delims then Neg(s[i]) else s[i])
  {
  }

  /** `restore_within_quotes`: in place, each negative character strictly inside
      quotes is negated back. */
  method RestoreWithinQuotes(a: array<Char>, len: nat)
    requires len <= a.Length
    modifies a
    ensures a[..] == Restored(old(a[..]), len)
  {
    ghost var s := a[..];
    var quote := GetQuote(a[..], len);
    if quote == NUL {
      RestoredAt(s, len);
      assert a[..] == Restored(s, len);
      return;
    }
    var inside := false;
    var index := 0;
    while index < len
      invariant index <= len
      invariant inside == Inside(s, quote, index)
      invariant forall i :: 0 <= i < index ==> a[i] == if s[i] != quote && Inside(s, quote, i) && s[i] < 0 then Neg(s[i]) else s[i]
      invariant forall i :: index <= i < a.Length ==> a[i] == s[i]
    {
      inside := RestoreAt(a, s, quote, index, inside);
      index := index + 1;
    }
    RestoredAt(s, len);
    assert a[..] == Restored(s, len);
  }

  /** One round of `restore_within_quotes`'s loop: a quote character flips
      `inside`; inside quotes, a negative character at `index` is negated back. */
  method RestoreAt(a: array<Char>, ghost s: seq<Char>, quote: Char, index: nat, inside: bool)
    returns (inside': bool)
    requires index < a.Length == |s| && a[index] == s[index]
    requires inside == Inside(s, quote, index)
    modifies a
    ensures inside' == Inside(s, quote, index + 1)
    ensures a[index] == if s[index] != quote && Inside(s, quote, index) && s[index] < 0 then Neg(s[index]) else s[index]
    ensures forall i :: 0 <= i < a.Length && i != index ==> a[i] == old(a[i])
  {
    CountPrefixStep(s, index, quote);
    inside' := inside;
    if a[index] == quote {
      inside' := !inside;
    } else if inside && a[index] < 0 {
      a[index] := Neg(a[index]);
    }
  }

  /** One position of `Restored`. */
  lemma RestoredAt(s: seq<Char>, len: nat)
    requires len <= |s|
    ensures forall i :: 0 <= i < |s| ==>
      Restored(s, len)[i] == (if i < len && Quoted(s, len, i) && s[i] < 0 then Neg(s[i]) else s[i])
  {
  }

  /** No character strictly inside quotes is negative (no byte of 128 or more
      was quoted). */
  predicate Clean(s: seq<Char>, len: nat)
    requires len <= |s|
  {
    forall i :: 0 <= i < len && Quoted(s, len, i) ==> s[i] >= 0
  }

  /** Replacing only rewrites delimiters inside quotes, to negative non-quote values. */
  lemma ReplacedKeepsQuoting(s: seq<Char>, delims: seq<Char>, len: nat)
    requires len <= |s| && Delims(delims)
    ensures var r := Replaced(s, delims, len);
      forall i :: 0 <= i < len && (IsQuote(s[i]) || IsQuote(r[i])) ==> s[i] == r[i]
  {
  }

  /** Restoring after replacing gives back the original buffer, provided no
      character inside quotes was negative to begin with. */
  lemma RestoreAfterReplace(s: seq<Char>, delims: seq<Char>, len: nat)
    requires len <= |s| && Delims(delims) && Clean(s, len)
    ensures Restored(Replaced(s, delims, len), len) == s
  {
    var r := Replaced(s, delims, len);
    ReplacedKeepsQuoting(s, delims, len);
    QuotingAgrees(s, r, len);
    var t := Restored(r, len);
    forall i | 0 <= i < |s|
      ensures t[i] == s[i]
    {
      if i < len && Quoted(s, len, i) {
        assert Quoted(r, len, i);
      }
    }
  }

  /** Without the cleanliness condition the round trip fails: a quoted byte
      0xC3 (the `char` -61, the lead byte of a two-byte UTF-8 sequence) comes
      back as 61, the character `=`. */
  lemma RestoreFlipsQuotedHighBytes()
    ensures var s: seq<Char> := [SQUOTE, -61, SQUOTE];
      Restored(Replaced(s, [SPACE, TAB], 3), 3) == [SQUOTE, 61, SQUOTE]
  {
    var s: seq<Char> := [SQUOTE, -61, SQUOTE];
    assert GetQuote(s, 3) == SQUOTE by {
      assert QuoteFrom(s, 3, 0) == 0;
    }
    assert s[..1] == [SQUOTE];
    assert Count(s[..1], SQUOTE) == 1 by {
      assert s[..1][..0] == [];
    }
    var r := Replaced(s, [SPACE, TAB], 3);
    assert r == s;
  }

  // ---------------------------------------------------------------------------
  // strchr2: searching outside quotes
  // ---------------------------------------------------------------------------

  /** Position `i` is outside every quoted region of the line's quote kind and
      is not itself such a quote: where `strchr2` may find its character. */
  predicate Bare(s: seq<Char>, i: nat)
    requires i < |s|
  {
    var q := GetQuote(s, |s|);
    q == NUL || (s[i] != q && !Inside(s, q, i))
  }

  /** The first bare occurrence of `c` at or after `i`. */
  function BareFrom(s: seq<Char>, c: Char, i: nat): (r: Option<nat>)
    requires i <= |s|
    decreases |s| - i
    ensures r.Some? ==> i <= r.value < |s| && s[r.value] == c && Bare(s, r.value)
    ensures forall j :: i <= j < |s| && s[j] == c && Bare(s, j) ==> r.Some? && r.value <= j
  {
    if i == |s| then None
    else if s[i] == c && Bare(s, i) then Some(i)
    else BareFrom(s, c, i + 1)
  }

  /** What `strchr2(s, c)` returns: the first occurrence of `c` outside quotes,
      or NULL; like `strchr`, a search for NUL on a quote-free line finds the
      terminator. */
  function FindUnquoted(s: seq<Char>, c: Char): (r: Option<nat>)
    requires NUL !in s
    ensures c != NUL ==> r == BareFrom(s, c, 0)
    ensures c == NUL ==> r == if GetQuote(s, |s|) == NUL then Some(|s|) else None
  {
    if c == NUL then (if GetQuote(s, |s|) == NUL then Some(|s|) else None)
    else BareFrom(s, c, 0)
  }

  /** On a line without quotes `strchr2` agrees with `strchr`. */
  lemma {:induction false} FindUnquotedQuoteFree(s: seq<Char>, c: Char)
    requires NUL !in s && GetQuote(s, |s|) == NUL
    ensures FindUnquoted(s, c) == Strchr(s, c)
  {
    if c != NUL {
      var r := BareFrom(s, c, 0);
      var x := IndexOf(s, c);
      if x.Some? {
        assert s[x.value] == c && Bare(s, x.value);
        assert forall j :: 0 <= j < x.value ==> s[..x.value][j] == s[j];
      }
      if r.Some? {
        assert c in s;
      }
    }
  }

  /** `strchr2`: scan with an `inside_quote` flag toggled on each occurrence
      of the line's quote kind. */
  method Strchr2(s: seq<Char>, c: Char) returns (r: Option<nat>)
    requires NUL !in s
    ensures r == FindUnquoted(s, c)
    ensures c != NUL && r.Some? ==> s[r.value] == c && Bare(s, r.value)
    ensures c != NUL ==> forall j :: 0 <= j < |s| && s[j] == c && Bare(s, j) ==> r.Some? && r.value <= j
  {
    var quote := GetQuote(s, |s|);
    if quote == NUL {
      FindUnquotedQuoteFree(s, c);
      return Strchr(s, c);
    }
    var inside := false;
    var pos := 0;
    while pos < |s|
      invariant pos <= |s| && inside == Inside(s, quote, pos)
      invariant c != NUL ==> BareFrom(s, c, pos) == BareFrom(s, c, 0)
    {
      CountPrefixStep(s, pos, quote);
      if s[pos] == quote {
        inside := !inside;
      } else if !inside {
        if s[pos] == c {
          return Some(pos);
        }
      }
      pos := pos + 1;
    }
    return None;
  }


  // ---------------------------------------------------------------------------
  // strtok2: splitting outside quotes, with an explicit cursor
  // ---------------------------------------------------------------------------

  /** The hidden state of `strtok2` made explicit: `len` is `current_len`, the
      length of the line being split, and `next` is where the wrapped `strtok`
      resumes. */
  datatype Cursor = Cursor(len: nat, next: nat)

  /** A buffer and cursor splitting can continue on: the line ends with NUL at
      `len` and the part not yet split holds no NUL. */
  predicate Tokenizable(s: seq<Char>, cur: Cursor)
  {
    && cur.next <= cur.len < |s| && s[cur.len] == NUL
    && forall j :: cur.next <= j < cur.len ==> s[j] != NUL
  }

  /** The state `strtok2(str, delims)` starts from when handed a new line. */
  function Begin(s: seq<Char>): (c: Cursor)
    requires NUL in s
    ensures Tokenizable(s, c) && c.next == 0 && c.len == Strlen(s)
  {
    var n := Strlen(s);
    assert s[..|s|] == s;
    assert forall j :: 0 <= j < n ==> s[j] == s[..n][j];
    Cursor(n, 0)
  }

  /** One call's result: the token pointer (or NULL), the new cursor and the buffer. */
  datatype Step = Step(token: Option<nat>, cursor: Cursor, buf: seq<Char>)

  /** The first index at or after `i` where `m` holds `b`, or `|m|`. */
  function FirstWith(m: seq<bool>, i: nat, b: bool): (k: nat)
    requires i <= |m|
    decreases |m| - i
    ensures i <= k <= |m|
    ensures forall j :: i <= j < k ==> m[j] != b
    ensures k < |m| ==> m[k] == b
  {
    if i == |m| || m[i] == b then i else FirstWith(m, i + 1, b)
  }

  /** One cut of the line by a separator mask `m`: skip separators; if none
      but separators remain there is no token; otherwise the token runs to
      the next separator, which becomes NUL, and the cursor moves past it. */
  function Cut(s: seq<Char>, m: seq<bool>, cur: Cursor): (st: Step)
    requires Tokenizable(s, cur) && |m| == cur.len
    ensures |st.buf| == |s|
  {
    var start := FirstWith(m, cur.next, false);
    if start == cur.len then Step(None, Cursor(cur.len, cur.len), s)
    else
      var end := FirstWith(m, start, true);
      if end == cur.len then Step(Some(start), Cursor(cur.len, cur.len), s)
      else Step(Some(start), Cursor(cur.len, end + 1), s[end := NUL])
  }

  /** Progress of one call: a token is non-empty, lies past the old cursor and
      ends either at the line's end or just before the new cursor. */
  predicate Advances(cur: Cursor, st: Step)
  {
    && st.cursor.len == cur.len && |st.buf| > cur.len
    && (st.token.None? ==> st.cursor.next == cur.len)
    && (st.token.Some? ==>
         var t := st.token.value;
         var n := |StrFrom(st.buf, t)|;
         cur.next <= t && 0 < n && t + n <= st.cursor.next <= cur.len
         && (st.cursor.next == cur.len || st.cursor.next == t + n + 1))
  }

  /** A cut returns the first non-separator as the token, whose string ends
      at the next separator or at the end of the line, and makes progress. */
  lemma CutAdvances(s: seq<Char>, m: seq<bool>, cur: Cursor)
    requires Tokenizable(s, cur) && |m| == cur.len
    ensures var st := Cut(s, m, cur);
      && Tokenizable(st.buf, st.cursor) && Advances(cur, st)
      && (st.token.None? <==> FirstWith(m, cur.next, false) == cur.len)
      && (st.token.Some? ==>
           var t := st.token.value;
           t == FirstWith(m, cur.next, false) && t + |StrFrom(st.buf, t)| == FirstWith(m, t, true))
  {
    var start := FirstWith(m, cur.next, false);
    if start < cur.len {
      var end := FirstWith(m, start, true);
      var buf := if end == cur.len then s else s[end := NUL];
      StrFromRun(buf, start, end);
    }
  }

  /** Which of the first `len` characters are delimiters, as plain `strtok` sees them. */
  function DelimMask(s: seq<Char>, delims: seq<Char>, len: nat): (m: seq<bool>)
    requires len <= |s|
    ensures |m| == len && forall j :: 0 <= j < len ==> (m[j] <==> s[j] in delims)
  {
    seq(len, j requires 0 <= j < len => s[j] in delims)
  }

  /** Which of the first `len` characters separate fields once quotes are
      honoured: delimiters that are not inside quotes. */
  function SepMask(s: seq<Char>, len: nat, delims: seq<Char>): (m: seq<bool>)
    requires len <= |s|
    ensures |m| == len && forall j :: 0 <= j < len ==> (m[j] <==> s[j] in delims && !Quoted(s, len, j))
  {
    seq(len, j requires 0 <= j < len => s[j] in delims && !Quoted(s, len, j))
  }

  /** glibc `strtok(NULL, delims)` resuming at `cur.next`: a cut at every delimiter. */
  function StrtokStep(s: seq<Char>, cur: Cursor, delims: seq<Char>): (st: Step)
    requires Tokenizable(s, cur)
    ensures |st.buf| == |s|
  {
    Cut(s, DelimMask(s, delims, cur.len), cur)
  }

  /** `strtok2`, one call: hide quoted delimiters, call `strtok`, unhide. */
  function Strtok2Step(s: seq<Char>, cur: Cursor, delims: seq<Char>): (st: Step)
    requires Tokenizable(s, cur) && Positive(delims)
    ensures |st.buf| == |s|
  {
    var mid := StrtokStep(Replaced(s, delims, cur.len), cur, delims);
    Step(mid.token, mid.cursor, Restored(mid.buf, cur.len))
  }

  /** Whatever the buffer holds, a `strtok2` call makes progress and leaves a
      buffer it can continue on. */
  lemma Strtok2Advances(s: seq<Char>, cur: Cursor, delims: seq<Char>)
    requires Tokenizable(s, cur) && Positive(delims)
    ensures var st := Strtok2Step(s, cur, delims); Tokenizable(st.buf, st.cursor) && Advances(cur, st)
  {
    var r := Replaced(s, delims, cur.len);
    CutAdvances(r, DelimMask(r, delims, cur.len), cur);
    var mid := StrtokStep(r, cur, delims);
    var st := Strtok2Step(s, cur, delims);
    if mid.token.Some? {
      StrFromSameLength(mid.buf, st.buf, mid.token.value);
    }
  }

  /** The texts successive `strtok2(NULL, delims)` calls yield from `cur` on,
      each read out of the buffer right after its own call. */
  function Tokens(s: seq<Char>, cur: Cursor, delims: seq<Char>): seq<seq<Char>>
    requires Tokenizable(s, cur) && Positive(delims)
    decreases cur.len - cur.next
  {
    Strtok2Advances(s, cur, delims);
    var st := Strtok2Step(s, cur, delims);
    if st.token.None? then [] else [StrFrom(st.buf, st.token.value)] + Tokens(st.buf, st.cursor, delims)
  }

  /** The buffer once successive calls from `cur` on have returned NULL. */
  function Spent(s: seq<Char>, cur: Cursor, delims: seq<Char>): (r: seq<Char>)
    requires Tokenizable(s, cur) && Positive(delims)
    decreases cur.len - cur.next
    ensures |r| == |s|
  {
    Strtok2Advances(s, cur, delims);
    var st := Strtok2Step(s, cur, delims);
    if st.token.None? then st.buf else Spent(st.buf, st.cursor, delims)
  }

  /** The reference split: the maximal runs of non-separators from index `i` on. */
  function Fields(s: seq<Char>, m: seq<bool>, i: nat): (fs: seq<seq<Char>>)
    requires |m| <= |s| && i <= |m|
    decreases |m| - i
    ensures forall k :: 0 <= k < |fs| ==> |fs[k]| > 0
  {
    var start := FirstWith(m, i, false);
    if start == |m| then []
    else
      var end := FirstWith(m, start, true);
      [s[start..end]] + (if end == |m| then [] else Fields(s, m, end + 1))
  }

  lemma {:induction false} FirstWithAgree(m: seq<bool>, n: seq<bool>, i: nat, b: bool)
    requires |m| == |n| && i <= |m|
    requires forall j :: i <= j < |m| ==> m[j] == n[j]
    ensures FirstWith(m, i, b) == FirstWith(n, i, b)
    decreases |m| - i
  {
    if i < |m| {
      FirstWithAgree(m, n, i + 1, b);
    }
  }

  /** Fields from `i` on only look at characters and separators from `i` on. */
  lemma {:induction false} FieldsAgree(s: seq<Char>, t: seq<Char>, m: seq<bool>, n: seq<bool>, i: nat)
    requires |m| == |n| && |m| <= |s| && |m| <= |t| && i <= |m|
    requires forall j :: i <= j < |m| ==> s[j] == t[j] && m[j] == n[j]
    ensures Fields(s, m, i) == Fields(t, n, i)
    decreases |m| - i
  {
    FirstWithAgree(m, n, i, false);
    var start := FirstWith(m, i, false);
    if start < |m| {
      FirstWithAgree(m, n, start, true);
      var end := FirstWith(m, start, true);
      var w := s[start..end];
      assert w == t[start..end];
      if end < |m| {
        FieldsAgree(s, t, m, n, end + 1);
        assert Fields(s, m, i) == [w] + Fields(s, m, end + 1);
        assert Fields(t, n, i) == [w] + Fields(t, n, end + 1);
      } else {
        assert Fields(s, m, i) == [w] == Fields(t, n, i);
      }
    }
  }

  /** After hiding, the plain delimiters are exactly the unquoted ones. */
  lemma DelimMaskReplaced(s: seq<Char>, delims: seq<Char>, len: nat)
    requires len <= |s| && Positive(delims)
    ensures DelimMask(Replaced(s, delims, len), delims, len) == SepMask(s, len, delims)
  {
    var r := Replaced(s, delims, len);
    ReplacedAt(s, delims, len);
    forall j | 0 <= j < len
      ensures (r[j] in delims) == (s[j] in delims && !Quoted(s, len, j))
    {
      if Quoted(s, len, j) && s[j] in delims {
        assert r[j] < 0;
      }
    }
  }

  /** Writing NUL over a delimiter changes no quoting and keeps the buffer clean. */
  lemma TerminateAtDelimiter(s: seq<Char>, len: nat, delims: seq<Char>, e: nat)
    requires e < len <= |s| && Delims(delims) && s[e] in delims
    ensures forall j :: 0 <= j < len ==> Quoted(s[e := NUL], len, j) == Quoted(s, len, j)
    ensures Clean(s, len) ==> Clean(s[e := NUL], len)
  {
    QuotingAgrees(s, s[e := NUL], len);
  }

  /** Hiding commutes with terminating at an unquoted delimiter. */
  lemma ReplacedTerminated(s: seq<Char>, len: nat, delims: seq<Char>, e: nat)
    requires e < len <= |s| && Delims(delims) && s[e] in delims && !Quoted(s, len, e)
    ensures Replaced(s, delims, len)[e := NUL] == Replaced(s[e := NUL], delims, len)
  {
    TerminateAtDelimiter(s, len, delims, e);
    ReplacedAt(s, delims, len);
    ReplacedAt(s[e := NUL], delims, len);
  }

  /** On a clean buffer one `strtok2` call is exactly a cut at the unquoted
      delimiters: the buffer comes back as it was except for the NUL written
      at the end of the token. */
  lemma Strtok2Clean(s: seq<Char>, cur: Cursor, delims: seq<Char>)
    requires Tokenizable(s, cur) && Delims(delims) && Clean(s, cur.len)
    ensures Strtok2Step(s, cur, delims) == Cut(s, SepMask(s, cur.len, delims), cur)
  {
    var len := cur.len;
    var m := SepMask(s, len, delims);
    DelimMaskReplaced(s, delims, len);
    var start := FirstWith(m, cur.next, false);
    var end := FirstWith(m, start, true);
    if start < len && end < len {
      ReplacedTerminated(s, len, delims, end);
      TerminateAtDelimiter(s, len, delims, end);
      RestoreAfterReplace(s[end := NUL], delims, len);
    } else {
      RestoreAfterReplace(s, delims, len);
    }
  }

  /** `strtok2` never ends a token at a delimiter inside quotes, whatever the
      buffer holds: the character a token stops at is an unquoted delimiter. */
  lemma Strtok2NeverSplitsQuoted(s: seq<Char>, cur: Cursor, delims: seq<Char>)
    requires Tokenizable(s, cur) && Positive(delims)
    ensures var st := Strtok2Step(s, cur, delims);
      st.token.Some? && st.token.value + |StrFrom(st.buf, st.token.value)| < cur.len ==>
        var e := st.token.value + |StrFrom(st.buf, st.token.value)|;
        s[e] in delims && !Quoted(s, cur.len, e)
  {
    var r := Replaced(s, delims, cur.len);
    var m := SepMask(s, cur.len, delims);
    DelimMaskReplaced(s, delims, cur.len);
    var mid := StrtokStep(r, cur, delims);
    assert mid == Cut(r, m, cur);
    CutStopsAtSeparator(r, m, cur);
    var st := Strtok2Step(s, cur, delims);
    assert st.token == mid.token;
    if st.token.Some? {
      StrFromSameLength(mid.buf, st.buf, st.token.value);
    }
  }

  /** A token cut by the mask `m` ends at a separator of `m`, or at the end. */
  lemma CutStopsAtSeparator(s: seq<Char>, m: seq<bool>, cur: Cursor)
    requires Tokenizable(s, cur) && |m| == cur.len
    ensures var st := Cut(s, m, cur);
      st.token.Some? && st.token.value + |StrFrom(st.buf, st.token.value)| < cur.len ==>
        m[st.token.value + |StrFrom(st.buf, st.token.value)|]
  {
    CutAdvances(s, m, cur);
  }

  /** The fields after a NUL written over an unquoted delimiter are those
      of the buffer before. */
  lemma FieldsAfterTerminate(s: seq<Char>, len: nat, delims: seq<Char>, e: nat)
    requires e < len <= |s| && Delims(delims) && s[e] in delims
    ensures Fields(s[e := NUL], SepMask(s[e := NUL], len, delims), e + 1) == Fields(s, SepMask(s, len, delims), e + 1)
  {
    var t := s[e := NUL];
    var mt, ms := SepMask(t, len, delims), SepMask(s, len, delims);
    TerminateAtDelimiter(s, len, delims, e);
    forall j | e + 1 <= j < len
      ensures t[j] == s[j] && mt[j] == ms[j]
    {
      assert Quoted(t, len, j) == Quoted(s, len, j);
    }
    FieldsAgree(t, s, mt, ms, e + 1);
  }

  /** One field of the reference split, followed by the rest. */
  lemma FieldsStep(s: seq<Char>, m: seq<bool>, i: nat, start: nat, end: nat)
    requires |m| <= |s| && i <= |m|
    requires start == FirstWith(m, i, false) < |m| && end == FirstWith(m, start, true)
    ensures Fields(s, m, i) == [s[start..end]] + (if end == |m| then [] else Fields(s, m, end + 1))
  {
  }

  /** A call that returns NULL ends the tokens. */
  lemma TokensNone(s: seq<Char>, cur: Cursor, delims: seq<Char>)
    requires Tokenizable(s, cur) && Positive(delims) && Strtok2Step(s, cur, delims).token.None?
    ensures Tokens(s, cur, delims) == []
    ensures Spent(s, cur, delims) == Strtok2Step(s, cur, delims).buf
  {
  }

  /** A call that returns a token contributes it and goes on from the new state. */
  lemma TokensSome(s: seq<Char>, cur: Cursor, delims: seq<Char>, tok: nat, next: Cursor, buf: seq<Char>)
    requires Tokenizable(s, cur) && Positive(delims) && Strtok2Step(s, cur, delims) == Step(Some(tok), next, buf)
    ensures Tokenizable(buf, next) && next.len == cur.len && next.len - next.next < cur.len - cur.next
    ensures Tokens(s, cur, delims) == [StrFrom(buf, tok)] + Tokens(buf, next, delims)
    ensures Spent(s, cur, delims) == Spent(buf, next, delims)
  {
    Strtok2Advances(s, cur, delims);
  }

  /** A cursor at the end of the line yields nothing more. */
  lemma TokensAtEnd(s: seq<Char>, cur: Cursor, delims: seq<Char>)
    requires Tokenizable(s, cur) && Positive(delims) && cur.next == cur.len
    ensures Strtok2Step(s, cur, delims).token.None? && Tokens(s, cur, delims) == []
  {
    Strtok2Advances(s, cur, delims);
    TokensNone(s, cur, delims);
  }

  /** One token of a clean buffer: the run up to the next unquoted delimiter
      `end`; the buffer is the same but for a NUL there and is still clean. */
  lemma TokensStep(s: seq<Char>, cur: Cursor, delims: seq<Char>, start: nat, end: nat, t: seq<Char>, next: Cursor)
    requires Tokenizable(s, cur) && Delims(delims) && Clean(s, cur.len)
    requires start == FirstWith(SepMask(s, cur.len, delims), cur.next, false) < cur.len
    requires end == FirstWith(SepMask(s, cur.len, delims), start, true)
    requires t == if end == cur.len then s else s[end := NUL]
    requires next == Cursor(cur.len, if end == cur.len then cur.len else end + 1)
    ensures Tokenizable(t, next) && Clean(t, cur.len)
    ensures Tokens(s, cur, delims) == [s[start..end]] + Tokens(t, next, delims)
  {
    var len := cur.len;
    Strtok2Clean(s, cur, delims);
    assert Strtok2Step(s, cur, delims) == Step(Some(start), next, t);
    TokensSome(s, cur, delims, start, next, t);
    if end < len {
      TerminateAtDelimiter(s, len, delims, end);
    }
    StrFromRun(t, start, end);
    assert t[start..end] == s[start..end];
  }

  /** On a clean buffer, the tokens `strtok2` yields are the reference split
      at the unquoted delimiters. */
  lemma {:induction false} TokensClean(s: seq<Char>, cur: Cursor, delims: seq<Char>)
    requires Tokenizable(s, cur) && Delims(delims) && Clean(s, cur.len)
    ensures Tokens(s, cur, delims) == Fields(s, SepMask(s, cur.len, delims), cur.next)
    decreases cur.len - cur.next
  {
    var len := cur.len;
    var m := SepMask(s, len, delims);
    var start := FirstWith(m, cur.next, false);
    Strtok2Clean(s, cur, delims);
    if start == len {
      TokensNone(s, cur, delims);
    } else {
      var end := FirstWith(m, start, true);
      FieldsStep(s, m, cur.next, start, end);
      if end < len {
        var t := s[end := NUL];
        TokensStep(s, cur, delims, start, end, t, Cursor(len, end + 1));
        TokensClean(t, Cursor(len, end + 1), delims);
        FieldsAfterTerminate(s, len, delims, end);
      } else {
        TokensStep(s, cur, delims, start, end, s, Cursor(len, len));
        Strtok2Clean(s, Cursor(len, len), delims);
        TokensNone(s, Cursor(len, len), delims);
      }
    }
  }

  /** The quote kind of `echo 'a b' c` and the parity of the quotes before
      each blank. */
  lemma EchoLineQuotes(s: seq<Char>)
    requires s == [101, 99, 104, 111, SPACE, SQUOTE, 97, SPACE, 98, SQUOTE, SPACE, 99, NUL]
    ensures GetQuote(s, 12) == SQUOTE
    ensures !Inside(s, SQUOTE, 4) && Inside(s, SQUOTE, 7) && !Inside(s, SQUOTE, 10)
  {
    assert GetQuote(s, 12) == SQUOTE by {
      assert QuoteFrom(s, 12, 5) == 5;
    }
    assert SQUOTE !in s[..5];
    CountAbsent(s[..4], SQUOTE);
    CountAbsent(s[..5], SQUOTE);
    CountPrefixStep(s, 5, SQUOTE);
    CountPrefixStep(s, 6, SQUOTE);
    CountPrefixStep(s, 7, SQUOTE);
    CountPrefixStep(s, 8, SQUOTE);
    CountPrefixStep(s, 9, SQUOTE);
  }

  /** In `echo 'a b' c` the blank inside the quotes is no separator, and no
      quoted character is negative. */
  lemma EchoLineSeparators(s: seq<Char>)
    requires s == [101, 99, 104, 111, SPACE, SQUOTE, 97, SPACE, 98, SQUOTE, SPACE, 99, NUL]
    ensures SepMask(s, 12, [SPACE, TAB]) == [false, false, false, false, true, false, false, false, false, false, true, false]
    ensures Clean(s, 12)
  {
    EchoLineQuotes(s);
    var m := SepMask(s, 12, [SPACE, TAB]);
    forall j | 0 <= j < 12 && j != 4 && j != 7 && j != 10
      ensures !m[j]
    {
      assert s[j] !in [SPACE, TAB];
    }
    assert m[4] && !m[7] && m[10];
    assert forall i :: 0 <= i < 12 ==> s[i] >= 0;
  }

  /** The reference split of `echo 'a b' c` by its separators. */
  lemma EchoLineFields(s: seq<Char>, m: seq<bool>)
    requires s == [101, 99, 104, 111, SPACE, SQUOTE, 97, SPACE, 98, SQUOTE, SPACE, 99, NUL]
    requires m == [false, false, false, false, true, false, false, false, false, false, true, false]
    ensures Fields(s, m, 0) == [[101, 99, 104, 111], [SQUOTE, 97, SPACE, 98, SQUOTE], [99]]
  {
    EchoLineWords(s);
    assert FirstWith(m, 3, true) == 4;
    assert FirstWith(m, 1, true) == 4;
    assert FirstWith(m, 0, false) == 0 && FirstWith(m, 0, true) == 4;
    assert FirstWith(m, 9, true) == 10;
    assert FirstWith(m, 7, true) == 10;
    assert FirstWith(m, 6, true) == 10;
    assert FirstWith(m, 5, false) == 5 && FirstWith(m, 5, true) == 10;
    assert FirstWith(m, 11, false) == 11 && FirstWith(m, 11, true) == 12;
    FieldsStep(s, m, 0, 0, 4);
    FieldsStep(s, m, 5, 5, 10);
    FieldsStep(s, m, 11, 11, 12);
  }

  /** The three words of `echo 'a b' c`, where they lie in the line. */
  lemma EchoLineWords(s: seq<Char>)
    requires s == [101, 99, 104, 111, SPACE, SQUOTE, 97, SPACE, 98, SQUOTE, SPACE, 99, NUL]
    ensures s[0..4] == [101, 99, 104, 111] && s[5..10] == [SQUOTE, 97, SPACE, 98, SQUOTE] && s[11..12] == [99]
  {
    var a, b, c := [101, 99, 104, 111], [SQUOTE, 97, SPACE, 98, SQUOTE], [99];
    assert s == a + [SPACE] + b + [SPACE] + c + [NUL];
  }

  /** `echo 'a b' c` splits into three words, the quoted one keeping its
      blank and its quotes (the letters are written as their codes). */
  lemma Strtok2KeepsQuotedBlank()
    ensures var s: seq<Char> := [101, 99, 104, 111, SPACE, SQUOTE, 97, SPACE, 98, SQUOTE, SPACE, 99, NUL];
      NUL in s && Tokens(s, Begin(s), [SPACE, TAB]) == [[101, 99, 104, 111], [SQUOTE, 97, SPACE, 98, SQUOTE], [99]]
  {
    var s: seq<Char> := [101, 99, 104, 111, SPACE, SQUOTE, 97, SPACE, 98, SQUOTE, SPACE, 99, NUL];
    StrFromRun(s, 0, 12);
    assert Begin(s) == Cursor(12, 0);
    EchoLineSeparators(s);
    TokensClean(s, Begin(s), [SPACE, TAB]);
    EchoLineFields(s, SepMask(s, 12, [SPACE, TAB]));
  }

  /** glibc `strtok` on an array, resuming at the cursor. */
  method Strtok(a: array<Char>, cur: Cursor, delims: seq<Char>) returns (token: Option<nat>, next: Cursor)
    requires Tokenizable(a[..], cur)
    modifies a
    ensures Step(token, next, a[..]) == StrtokStep(old(a[..]), cur, delims)
  {
    var m := DelimMask(a[..], delims, cur.len);
    var start := FirstWith(m, cur.next, false);
    if start == cur.len {
      return None, Cursor(cur.len, cur.len);
    }
    var end := FirstWith(m, start, true);
    if end == cur.len {
      return Some(start), Cursor(cur.len, cur.len);
    }
    a[end] := NUL;
    return Some(start), Cursor(cur.len, end + 1);
  }

  /** `strtok2` on an array: the explicit cursor replaces the function's
      `static` variables. */
  method Strtok2(a: array<Char>, cur: Cursor, delims: seq<Char>) returns (token: Option<nat>, next: Cursor)
    requires Tokenizable(a[..], cur) && Positive(delims)
    modifies a
    ensures Step(token, next, a[..]) == Strtok2Step(old(a[..]), cur, delims)
  {
    ReplaceWithinQuotes(a, delims, cur.len);
    token, next := Strtok(a, cur, delims);
    RestoreWithinQuotes(a, cur.len);
  }
}
