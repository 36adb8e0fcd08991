/** C strings: a byte sequence up to its first NUL, and bounded copies. */
module Strings {
  import opened Memory

  /** The bytes of `s` before its first NUL. */
  function CString(s: seq<Byte>): (r: seq<Byte>)
    ensures |r| <= |s|
  {
    if s == [] || s[0] == 0 then [] else [s[0]] + CString(s[1..])
  }

  /** At most the first `n` bytes. */
  function Cut(s: seq<Byte>, n: nat): seq<Byte> {
    if |s| <= n then s else s[..n]
  }

  predicate NoNul(s: seq<Byte>) {
    forall i :: 0 <= i < |s| ==> s[i] != 0
  }

  /** A NUL-free prefix belongs to the string; the string ends where a NUL or the bytes do. */
  lemma {:induction false} CStringPrefix(s: seq<Byte>, i: nat)
    requires i <= |s| && forall j :: 0 <= j < i ==> s[j] != 0
    ensures |CString(s)| >= i && s[..i] <= CString(s)
    ensures i == |s| || s[i] == 0 ==> CString(s) == s[..i]
  {
    if i > 0 {
      CStringPrefix(s[1..], i - 1);
      assert s[..i] == [s[0]] + s[1..][..i - 1];
    }
  }

  lemma {:induction false} CStringHasNoNul(s: seq<Byte>)
    ensures NoNul(CString(s)) && CString(s) <= s
    ensures |CString(s)| < |s| ==> s[|CString(s)|] == 0
  {
    if s != [] && s[0] != 0 {
      CStringHasNoNul(s[1..]);
    }
  }

  /** strncpy of both programs and kernel: copies up to count - 1 bytes, stops at a NUL, and always
      terminates the copy. The source is a NUL-terminated string or long enough. */
  method Strncpy(dest: array<Byte>, src: seq<Byte>, count: nat)
    requires 0 < count <= dest.Length && (0 in src || count - 1 <= |src|)
    modifies dest
    ensures var s := Cut(CString(src), count - 1); |s| < count && dest[..] == s + [0] + old(dest[|s| + 1..])
  {
    var i := 0;
    while i < count - 1
      invariant 0 <= i <= count - 1 && i <= |src|
      invariant forall j :: 0 <= j < i ==> src[j] != 0
      invariant dest[..i] == src[..i] && dest[i..] == old(dest[i..])
    {
      CStringPrefix(src, i);
      CStringHasNoNul(src);
      assert i < |src|;
      if src[i] == 0 {
        break;
      }
      dest[i] := src[i];
      i := i + 1;
    }
    CStringPrefix(src, i);
    assert Cut(CString(src), count - 1) == src[..i];
    dest[i] := 0;
  }

  /** A string that ends inside its bytes. */
  lemma Terminated(s: seq<Byte>)
    requires 0 in s
    ensures CString(s) + [0] <= s && NoNul(CString(s))
    ensures |CString(s)| < |s| && s[|CString(s)|] == 0 && s[..|CString(s)|] == CString(s)
  {
    CStringHasNoNul(s);
    var i :| 0 <= i < |s| && s[i] == 0;
    assert |CString(s)| == |s| ==> CString(s) == s;
  }

  /** strnlen */
  method Strnlen(s: seq<Byte>, max: nat) returns (n: nat)
    requires 0 in s
    ensures n == |Cut(CString(s), max)|
  {
    n := 0;
    Terminated(s);
    while n < max
      invariant n <= max && n <= |CString(s)|
    {
      if s[n] == 0 {
        break;
      }
      n := n + 1;
    }
  }

  /** strlen */
  method Strlen(s: seq<Byte>) returns (n: nat)
    requires 0 in s
    ensures n == |CString(s)|
  {
    n := 0;
    Terminated(s);
    while s[n] != 0
      invariant n <= |CString(s)|
      decreases |s| - n
    {
      n := n + 1;
    }
  }
}
