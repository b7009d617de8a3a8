/**
 C strings in a byte array: what a reader that stops at NUL sees, and what strncpy
 writes.
 */
module CString {
  import opened BufferPool

  function UpToNul(s: string): string {
    if s == [] || s[0] == NUL then [] else [s[0]] + UpToNul(s[1..])
  }

  /** The n bytes strncpy writes: the source up to a NUL, padded with NUL. */
  function StrNCpy(src: string, n: nat): (dst: string)
    requires n <= |src|
    ensures |dst| == n
  {
    if n == 0 then []
    else if src[0] == NUL then Zeros(n)
    else [src[0]] + StrNCpy(src[1..], n - 1)
  }

  /** The same length, and the same string to a reader that stops at NUL. */
  ghost predicate SameCString(s: string, t: string) {
    |s| == |t| && UpToNul(s) == UpToNul(t) && (NUL in s <==> NUL in t)
  }

  lemma {:induction false} UpToNulOfConcat(s: string, t: string)
    ensures UpToNul(s + t) == if NUL in s then UpToNul(s) else s + UpToNul(t)
  {
    if s == [] {
      assert s + t == t;
    } else if s[0] != NUL {
      UpToNulOfConcat(s[1..], t);
      assert (s + t)[1..] == s[1..] + t;
    }
  }

  lemma {:induction false} NoNul(s: string)
    requires NUL !in s
    ensures UpToNul(s) == s
  {
    if s != [] { NoNul(s[1..]); }
  }

  lemma {:induction false} StrNCpyIsPrefix(src: string, n: nat)
    requires n <= |src|
    ensures SameCString(StrNCpy(src, n), src[..n])
  {
    if n > 0 && src[0] != NUL {
      StrNCpyIsPrefix(src[1..], n - 1);
      var d := StrNCpy(src[1..], n - 1);
      assert src[..n] == [src[0]] + src[1..][..n - 1];
      assert ([src[0]] + d)[1..] == d;
      assert src[..n][1..] == src[1..][..n - 1];
    } else if n > 0 {
      assert Zeros(n)[0] == NUL && src[..n][0] == NUL;
    }
  }

  lemma AppendSame(s: string, t: string, x: string, y: string)
    requires SameCString(s, t) && SameCString(x, y)
    ensures SameCString(s + x, t + y)
  {
    UpToNulOfConcat(s, x);
    UpToNulOfConcat(t, y);
    if NUL !in s {
      NoNul(s);
      NoNul(t);
    }
  }

  lemma SameWithoutNul(s: string, t: string)
    requires SameCString(s, t) && NUL !in t
    ensures s == t
  {
    NoNul(s);
    NoNul(t);
  }
}
