/** C-level vocabulary shared by the scanner, the formatter and the engine:
    signed 8-bit characters, NUL-terminated strings read out of a buffer,
    and the libc `strchr` the shell relies on. */
module CString {

  /** A pointer that may be NULL: `None` is NULL, `Some(i)` points at index `i`. */
  datatype Option<T> = None | Some(value: T)

  /** A C `char` on the platform the shell is built for (x86-64 Linux): signed, 8 bits. */
  type Char = c: int | -128 <= c < 128

  const NUL: Char := 0
  const TAB: Char := 9
  const NEWLINE: Char := 10
  const SPACE: Char := 32
  const DQUOTE: Char := 34
  const AMP: Char := 38
  const SQUOTE: Char := 39
  const SEMI: Char := 59
  const GT: Char := 62
  const PIPE: Char := 124

  predicate IsQuote(c: Char)
  {
    c == SQUOTE || c == DQUOTE
  }

  /** `-(c)` stored back into a `char`: the promoted `int` 128 wraps to -128. */
  function Neg(c: Char): (r: Char)
    ensures c < 0 && c != -128 ==> r > 0
    ensures c > 0 ==> r < 0
    ensures c != -128 ==> r + c == 0
    ensures c == -128 ==> r == c
  {
    if c == -128 then -128 else -c
  }

  /** Number of occurrences of `c` in `s`. */
  function Count(s: seq<Char>, c: Char): nat
  {
    if s == [] then 0 else Count(s[..|s| - 1], c) + (if s[|s| - 1] == c then 1 else 0)
  }

  lemma {:induction false} CountAppend(a: seq<Char>, b: seq<Char>, c: Char)
    ensures Count(a + b, c) == Count(a, c) + Count(b, c)
  {
    if b != [] {
      assert (a + b)[..|a + b| - 1] == a + b[..|b| - 1];
      CountAppend(a, b[..|b| - 1], c);
    } else {
      assert a + b == a;
    }
  }

  lemma {:induction false} CountAbsent(s: seq<Char>, c: Char)
    ensures Count(s, c) == 0 <==> c !in s
  {
    if s != [] {
      CountAbsent(s[..|s| - 1], c);
      assert s == s[..|s| - 1] + [s[|s| - 1]];
    }
  }

  /** The count over a prefix grows by one exactly at an occurrence. */
  lemma CountPrefixStep(s: seq<Char>, i: nat, c: Char)
    requires i < |s|
    ensures Count(s[..i + 1], c) == Count(s[..i], c) + (if s[i] == c then 1 else 0)
  {
    assert s[..i + 1][..i] == s[..i];
  }

  /** Two strings that agree on where `c` occurs have the same count of `c` in every prefix. */
  lemma {:induction false} CountAgree(s: seq<Char>, t: seq<Char>, c: Char, n: nat)
    requires n <= |s| && n <= |t|
    requires forall i :: 0 <= i < n ==> (s[i] == c <==> t[i] == c)
    ensures Count(s[..n], c) == Count(t[..n], c)
  {
    if n > 0 {
      CountAgree(s, t, c, n - 1);
      CountPrefixStep(s, n - 1, c);
      CountPrefixStep(t, n - 1, c);
    }
  }

  /** libc `strchr` for a non-NUL character: the first index of `c`, or NULL. */
  function IndexOf(s: seq<Char>, c: Char): (r: Option<nat>)
    ensures r.Some? ==> r.value < |s| && s[r.value] == c && c !in s[..r.value]
    ensures r.None? <==> c !in s
  {
    if s == [] then None
    else if s[0] == c then Some(0)
    else match IndexOf(s[1..], c)
      case None => None
      case Some(k) =>
        assert s[..k + 1] == [s[0]] + s[1..][..k];
        Some(k + 1)
  }

  /** libc `strchr` on a NUL-terminated `s`: searching for NUL finds the terminator. */
  function Strchr(s: seq<Char>, c: Char): (r: Option<nat>)
    requires NUL !in s
    ensures c == NUL ==> r == Some(|s|)
    ensures c != NUL ==> r == IndexOf(s, c)
  {
    if c == NUL then Some(|s|) else IndexOf(s, c)
  }

  /** The NUL-terminated string a pointer to index `i` of buffer `s` designates
      (stopping at the end of the buffer if no NUL follows). */
  function StrFrom(s: seq<Char>, i: nat): (r: seq<Char>)
    decreases |s| - i
    ensures NUL !in r
    ensures i <= |s| ==> i + |r| <= |s| && r == s[i..i + |r|]
    ensures i <= |s| && i + |r| < |s| ==> s[i + |r|] == NUL
  {
    if i >= |s| || s[i] == NUL then [] else [s[i]] + StrFrom(s, i + 1)
  }

  /** A buffer holding `t` at index `i`, followed by a NUL, designates `t` at `i`. */
  lemma {:induction false} StrFromIs(s: seq<Char>, i: nat, t: seq<Char>)
    requires i + |t| < |s| && s[i..i + |t|] == t && NUL !in t && s[i + |t|] == NUL
    ensures StrFrom(s, i) == t
    decreases |t|
  {
    if t != [] {
      assert s[i] == t[0];
      assert s[i + 1..i + 1 + |t[1..]|] == t[1..];
      StrFromIs(s, i + 1, t[1..]);
    }
  }

  /** A run of non-NUL characters from `i` up to a NUL at `e` is the string at `i`. */
  lemma {:induction false} StrFromRun(s: seq<Char>, i: nat, e: nat)
    requires i <= e < |s| && s[e] == NUL
    requires forall j :: i <= j < e ==> s[j] != NUL
    ensures StrFrom(s, i) == s[i..e]
    decreases e - i
  {
    if i < e {
      StrFromRun(s, i + 1, e);
      assert s[i..e] == [s[i]] + s[i + 1..e];
    }
  }

  /** Buffers with NUL at the same places designate strings of the same lengths. */
  lemma {:induction false} StrFromSameLength(s: seq<Char>, t: seq<Char>, i: nat)
    requires |s| == |t| && forall j :: 0 <= j < |s| ==> (s[j] == NUL <==> t[j] == NUL)
    ensures |StrFrom(s, i)| == |StrFrom(t, i)|
    decreases |s| - i
  {
    if i < |s| && s[i] != NUL {
      StrFromSameLength(s, t, i + 1);
    }
  }

  /** `strlen` of the string at the start of a buffer. */
  function Strlen(s: seq<Char>): (n: nat)
    ensures n <= |s| && NUL !in s[..n]
    ensures n < |s| ==> s[n] == NUL
  {
    |StrFrom(s, 0)|
  }

  /** The bytes of an ASCII text, for writing concrete inputs. */
  function Bytes(t: string): (r: seq<Char>)
    requires forall i :: 0 <= i < |t| ==> t[i] < 128 as char
    ensures |r| == |t| && forall i :: 0 <= i < |t| ==> r[i] == t[i] as int
  {
    seq(|t|, i requires 0 <= i < |t| => t[i] as int)
  }
}
