/**
  NUL-terminated character buffers as the C library sees them: `strlen`,
  `strncpy` and `strncmp` over a fixed-size `char` array, modelled as a
  sequence that holds the whole buffer.
*/
module CStrings {

  const NUL: char := '\0'

  predicate NulFree(s: string) { forall i | 0 <= i < |s| :: s[i] != NUL }

  /** `strlen`: the number of characters before the first NUL.  A buffer with
      no NUL at all counts in full. */
  function CStrLen(s: seq<char>): (n: nat)
    ensures n <= |s|
    ensures forall i | 0 <= i < n :: s[i] != NUL
    ensures n < |s| ==> s[n] == NUL
  {
    NulFrom(s, 0)
  }

  /** The place of the first NUL at or after place i, or |s| if none. */
  function NulFrom(s: seq<char>, i: nat): (n: nat)
    requires i <= |s|
    ensures i <= n <= |s|
    ensures forall k | i <= k < n :: s[k] != NUL
    ensures n < |s| ==> s[n] == NUL
    decreases |s| - i
  {
    if i == |s| || s[i] == NUL then i else NulFrom(s, i + 1)
  }

  /** The C string a buffer holds: everything before the first NUL. */
  function CStr(s: seq<char>): (r: string)
    ensures |r| <= |s| && r == s[..|r|]
    ensures NulFree(r)
    ensures |r| < |s| ==> s[|r|] == NUL
  {
    s[..CStrLen(s)]
  }

  /** The first NUL of a buffer is where its C string ends. */
  lemma CStrEndsAtFirstNul(s: seq<char>, k: nat)
    requires k < |s| && s[k] == NUL
    requires forall i | 0 <= i < k :: s[i] != NUL
    ensures CStrLen(s) == k && CStr(s) == s[..k]
  {
  }

  lemma CStrOfNulFree(s: string)
    requires NulFree(s)
    ensures CStr(s) == s
  {
  }

  function Min(a: int, b: int): int { if a < b then a else b }

  /** The first n characters of a C string, or all of it when it is shorter. */
  function Truncate(s: string, n: nat): (r: string)
    ensures |r| == Min(|s|, n) && r == s[..|r|]
  {
    if |s| <= n then s else s[..n]
  }

  /** `strncpy(dest, src, n)`: the characters of the C string `src` go to
      the first n places of `dest`, the rest of those n places become NUL, and
      places from n on are left alone. */
  function StrNCopy(dest: seq<char>, src: string, n: nat): (r: seq<char>)
    requires n <= |dest|
    ensures |r| == |dest|
    ensures forall i | 0 <= i < n :: r[i] == if i < |CStr(src)| then src[i] else NUL
    ensures r[n..] == dest[n..]
  {
    var len := CStrLen(src);
    seq(|dest|, i requires 0 <= i < |dest| => if i < n then (if i < len then src[i] else NUL) else dest[i])
  }

  /** `strncpy(dest, src, n)` on a character array. */
  method StrNCopyInto(dest: array<char>, src: string, n: nat)
    requires n <= dest.Length
    modifies dest
    ensures dest[..] == StrNCopy(old(dest[..]), src, n)
  {
    var len := CStrLen(src);
    forall k | 0 <= k < n {
      dest[k] := if k < len then src[k] else NUL;
    }
  }

  /** When the place just after the copied range already holds a NUL (as the
      last place of a buffer copied with `n = size - 1` does), the copy holds
      the source's C string cut to n characters. */
  lemma {:induction false} StrNCopyCStr(dest: seq<char>, src: string, n: nat)
    requires n < |dest| && dest[n] == NUL
    ensures CStr(StrNCopy(dest, src, n)) == Truncate(CStr(src), n)
  {
    var r := StrNCopy(dest, src, n);
    var t := Truncate(CStr(src), n);
    var k := |t|;
    assert r[n..][0] == dest[n..][0];
    CStrEndsAtFirstNul(r, k);
    assert r[..k] == t;
  }

  /** `strncmp(a, b, n) == 0`: the C strings agree on their first n characters,
      a terminator included. */
  predicate StrNEqual(a: seq<char>, b: seq<char>, n: nat) {
    Truncate(CStr(a), n) == Truncate(CStr(b), n)
  }
}
