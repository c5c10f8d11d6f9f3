/**
 * The <string.h> copies both servers use to fill their fixed buffers in place:
 * strcpy, strcat and the single-byte truncation `*p = '\0'`.
 */
module CString {
  import opened Bytes

  /** strcpy(dst, src): src and its terminator overwrite the front of dst; the rest of dst stays. */
  method StrCpy(dst: array<byte>, src: seq<byte>)
    requires NoNul(src) && |src| < dst.Length
    modifies dst
    ensures dst[..] == src + [NUL] + old(dst[|src| + 1..])
    ensures CStr(dst[..]) == src
  {
    var i := 0;
    while i < |src|
      invariant 0 <= i <= |src|
      invariant forall k :: 0 <= k < i ==> dst[k] == src[k]
      invariant forall k :: i <= k < dst.Length ==> dst[k] == old(dst[k])
    {
      dst[i] := src[i];
      i := i + 1;
    }
    dst[i] := NUL;
    assert dst[..] == src + [NUL] + old(dst[|src| + 1..]);
    CStrOfTerminated(src, old(dst[|src| + 1..]));
  }

  /** strcat(dst, src): src and a terminator replace the terminator of the string in dst. */
  method StrCat(dst: array<byte>, src: seq<byte>)
    requires NoNul(src) && |CStr(dst[..])| + |src| < dst.Length
    modifies dst
    ensures dst[..] == old(CStr(dst[..])) + src + [NUL] + old(dst[|CStr(dst[..])| + |src| + 1..])
    ensures CStr(dst[..]) == old(CStr(dst[..])) + src
  {
    var head := CStr(dst[..]);
    var n := |head|;
    var i := 0;
    while i < |src|
      invariant 0 <= i <= |src|
      invariant forall k :: 0 <= k < n ==> dst[k] == head[k]
      invariant forall k :: 0 <= k < i ==> dst[n + k] == src[k]
      invariant forall k :: n + i <= k < dst.Length ==> dst[k] == old(dst[k])
    {
      dst[n + i] := src[i];
      i := i + 1;
    }
    dst[n + i] := NUL;
    assert dst[..] == head + src + [NUL] + old(dst[n + |src| + 1..]);
    assert NoNul(head + src);
    assert dst[..] == (head + src) + [NUL] + old(dst[n + |src| + 1..]);
    CStrOfTerminated(head + src, old(dst[n + |src| + 1..]));
  }

  /** `*p = '\0'` at index i: the string in dst is cut to its first i bytes. */
  method Truncate(dst: array<byte>, i: nat)
    requires i < |CStr(dst[..])|
    modifies dst
    ensures dst[..] == old(dst[..])[i := NUL]
    ensures CStr(dst[..]) == old(CStr(dst[..]))[..i]
  {
    ghost var s := CStr(dst[..]);
    dst[i] := NUL;
    assert dst[..] == s[..i] + [NUL] + dst[i + 1..];
    CStrOfTerminated(s[..i], dst[i + 1..]);
  }
}
