/** The two pieces of C string semantics the error functions depend on:
    `snprintf` into a buffer of `BUF_SIZE` bytes keeps at most `BUF_SIZE - 1`
    characters (section 7.21.6.5 of ISO C11), and a `%s` conversion or `fputs`
    reads a character array only up to its first NUL. */
module CStrings {

  /** Size of each of the three stack buffers of `outputError`. */
  const BUF_SIZE: nat := 500

  const NUL: char := '\0'

  function Min(a: int, b: int): int { if a <= b then a else b }

  /** The characters `snprintf(buf, BUF_SIZE, ...)` leaves in `buf` (before its
      terminating NUL) when the complete formatted output is `s`. Overflow is
      silent: the return value reporting it is ignored by the source. */
  function Truncate(s: string): (r: string)
    ensures r <= s
    ensures |r| <= BUF_SIZE - 1
    ensures |s| < BUF_SIZE ==> r == s
    ensures |s| >= BUF_SIZE ==> |r| == BUF_SIZE - 1
  {
    s[..Min(|s|, BUF_SIZE - 1)]
  }

  /** Truncation keeps the first `k` characters whenever `s` has them and
      they fit the buffer. */
  lemma TruncateKeepsPrefix(s: string, k: nat)
    requires k <= |s| && k < BUF_SIZE
    ensures |Truncate(s)| >= k && Truncate(s)[..k] == s[..k]
  {
  }

  /** What a `%s` conversion or `fputs` reads from a character array holding
      `s`: the longest NUL-free prefix. */
  function UpToNul(s: string): (r: string)
    ensures r <= s
    ensures NUL !in r
    ensures |r| < |s| ==> s[|r|] == NUL
    ensures NUL !in s ==> r == s
  {
    if s == [] || s[0] == NUL then [] else [s[0]] + UpToNul(s[1..])
  }

  /** A prefix of a NUL-free string is NUL-free. */
  lemma NulFreePrefix(a: string, b: string)
    requires a <= b && NUL !in b
    ensures NUL !in a
  {
    assert a == b[..|a|];
  }

  /** The two contract clauses of `UpToNul` that speak about `t` determine it:
      any NUL-free prefix of `s` that stops at a NUL or at the end of `s` is
      `UpToNul(s)`. */
  lemma {:induction false} UpToNulUnique(s: string, t: string)
    requires t <= s && NUL !in t
    requires |t| < |s| ==> s[|t|] == NUL
    ensures t == UpToNul(s)
  {
    if s != [] && s[0] != NUL {
      assert t != [] && t[0] == s[0];
      UpToNulUnique(s[1..], t[1..]);
    }
  }

  /** Truncating a buffer and then reading it as a C string is the same as
      reading it first and then truncating: the order in which `snprintf` and
      `%s` are applied to a user message does not matter. */
  lemma TruncateUpToNulCommute(s: string)
    ensures UpToNul(Truncate(s)) == Truncate(UpToNul(s))
  {
    var a := UpToNul(Truncate(s));
    var b := Truncate(UpToNul(s));
    var u := UpToNul(s);
    assert b <= Truncate(s) by {
      assert b == u[..|b|] && u == s[..|u|];
    }
    if |b| < |Truncate(s)| {
      assert |b| < BUF_SIZE - 1 && |b| == |u| && |u| < |s|;
      assert Truncate(s)[|b|] == s[|u|];
    }
    UpToNulUnique(Truncate(s), b);
  }
}
