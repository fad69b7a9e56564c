/**
 * C string conventions used by the host program: a string is the content of a
 * char buffer up to its first NUL, and the library comparisons strncmp/strcmp
 * stop at the first NUL of either operand.
 */
module CStrings {

  const NUL: char := '\0'

  predicate NoNul(s: seq<char>) {
    forall i :: 0 <= i < |s| ==> s[i] != NUL
  }

  /** strlen: the index of the first NUL, or the whole length if there is none. */
  function StrLen(s: seq<char>): (n: nat)
    ensures n <= |s|
    ensures NoNul(s[..n])
    ensures n < |s| ==> s[n] == NUL
  {
    if s == [] || s[0] == NUL then 0
    else
      var m := StrLen(s[1..]);
      assert s[..1 + m] == [s[0]] + s[1..][..m];
      1 + m
  }

  /** The string value held by a char buffer. */
  function CString(buf: seq<char>): (s: seq<char>)
    ensures s <= buf && NoNul(s)
    ensures |s| < |buf| ==> buf[|s|] == NUL
  {
    buf[..StrLen(buf)]
  }

  /** The three facts StrLen promises determine it. */
  lemma {:induction false} StrLenUnique(s: seq<char>, n: nat)
    requires n <= |s| && NoNul(s[..n])
    requires n < |s| ==> s[n] == NUL
    ensures StrLen(s) == n
    decreases n
  {
    if n > 0 {
      assert s[0] == s[..n][0];
      var t := s[1..];
      assert t[..n - 1] == s[..n][1..];
      StrLenUnique(t, n - 1);
    }
  }

  /** A buffer with a NUL at index k holds the same string as its first k characters. */
  lemma CStringTerminated(buf: seq<char>, k: nat)
    requires k < |buf| && buf[k] == NUL
    ensures StrLen(buf) == StrLen(buf[..k])
    ensures CString(buf) == CString(buf[..k])
  {
    var m := StrLen(buf[..k]);
    assert buf[..m] == buf[..k][..m];
    StrLenUnique(buf, m);
  }

  /** A buffer whose first k characters are NUL-free and whose k-th is NUL holds exactly those k characters. */
  lemma CStringUpTo(buf: seq<char>, k: nat)
    requires k < |buf| && NoNul(buf[..k]) && buf[k] == NUL
    ensures CString(buf) == buf[..k]
  {
    StrLenUnique(buf, k);
  }

  lemma CStringOfNoNul(s: seq<char>)
    requires NoNul(s)
    ensures CString(s) == s
  {
    StrLenUnique(s, |s|);
  }

  /** Reading a non-NUL first character and then the rest of the buffer. */
  lemma CStringCons(buf: seq<char>)
    requires buf != [] && buf[0] != NUL
    ensures CString(buf) == [buf[0]] + CString(buf[1..])
  {
    var m := StrLen(buf[1..]);
    assert buf[..1 + m] == [buf[0]] + buf[1..][..m];
  }

  /** A NUL-free prefix survives into the string value of the whole buffer. */
  lemma {:induction false} CStringAppend(p: seq<char>, t: seq<char>)
    requires NoNul(p)
    ensures CString(p + t) == p + CString(t)
    decreases |p|
  {
    if p != [] {
      assert (p + t)[1..] == p[1..] + t;
      CStringCons(p + t);
      CStringAppend(p[1..], t);
      calc {
        CString(p + t);
        [p[0]] + CString(p[1..] + t);
        [p[0]] + (p[1..] + CString(t));
        { assert p == [p[0]] + p[1..]; }
        p + CString(t);
      }
    } else {
      assert p + t == t;
    }
  }

  /** The character the C library reads at the front of a string; the end of the sequence reads as NUL. */
  function Head(s: seq<char>): char {
    if s == [] then NUL else s[0]
  }

  /** strncmp(a, b, n) == 0: the first n characters agree, stopping early at a NUL both share. */
  function StrNCmpZero(a: seq<char>, b: seq<char>, n: nat): bool
    decreases n
  {
    n == 0 || (Head(a) == Head(b) && (Head(a) == NUL || StrNCmpZero(a[1..], b[1..], n - 1)))
  }

  /** strcmp(a, b) == 0. */
  function StrCmpZero(a: seq<char>, b: seq<char>): bool
    decreases |a|
  {
    Head(a) == Head(b) && (Head(a) == NUL || StrCmpZero(a[1..], b[1..]))
  }

  /**
   * strncmp against the full length of a NUL-free pattern is an exact,
   * case-sensitive prefix test on the string the buffer holds.
   */
  lemma {:induction false} StrNCmpZeroIsPrefix(a: seq<char>, p: seq<char>)
    requires NoNul(p)
    ensures StrNCmpZero(a, p, |p|) <==> p <= CString(a)
    decreases |p|
  {
    if p != [] {
      if Head(a) == p[0] {
        CStringCons(a);
        StrNCmpZeroIsPrefix(a[1..], p[1..]);
        assert p == [p[0]] + p[1..];
      } else if a != [] && a[0] != NUL {
        CStringCons(a);
      } else {
        assert CString(a) == [];
      }
    }
  }

  /** strcmp on NUL-free strings is equality. */
  lemma {:induction false} StrCmpZeroIsEquality(a: seq<char>, b: seq<char>)
    requires NoNul(a) && NoNul(b)
    ensures StrCmpZero(a, b) <==> a == b
    decreases |a|
  {
    if a != [] && b != [] && a[0] == b[0] {
      StrCmpZeroIsEquality(a[1..], b[1..]);
      assert a == [a[0]] + a[1..] && b == [b[0]] + b[1..];
    }
  }
}
