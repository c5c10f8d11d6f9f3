/**
 * Bytes and the C-string and <ctype.h>/<stdlib.h> helpers both servers rely on:
 * NUL-terminated contents, strstr, index, isspace, isxdigit, tolower, atoi,
 * the "%d" conversion and the whitespace tokens "%s" reads in sscanf.
 */
module Bytes {

  newtype byte = b: int | 0 <= b < 256

  datatype Option<T> = None | Some(value: T)

  const NUL: byte := 0
  const LF: byte := 10
  const CR: byte := 13
  const SP: byte := 32

  /** The bytes of an ASCII literal. */
  function Ascii(s: string): (r: seq<byte>)
    ensures |r| == |s|
  {
    seq(|s|, i requires 0 <= i < |s| => (s[i] as int % 256) as byte)
  }

  function Min(a: int, b: int): int
  {
    if a <= b then a else b
  }

  function Max(a: int, b: int): int
  {
    if a <= b then b else a
  }

  /** Concatenation regrouped; stated once so that proofs need not rediscover it. */
  lemma Assoc<T>(a: seq<T>, b: seq<T>, c: seq<T>)
    ensures a + b + c == a + (b + c)
  {
  }

  /** Dropping i and then j elements drops i + j; stated once, as for Assoc. */
  lemma DropDrop<T>(s: seq<T>, i: nat, j: nat)
    requires i + j <= |s|
    ensures s[i..][j..] == s[i + j..]
  {
  }

  /** The last two pieces of a + (b + (c + v)), found by counting back from its end. */
  lemma LastPieces<T>(a: seq<T>, b: seq<T>, c: seq<T>, v: seq<T>)
    ensures var h := a + (b + (c + v));
      h[|h| - |v|..] == v && h[|h| - |v| - |c|..|h| - |v|] == c
  {
    var h := a + (b + (c + v));
    assert h == (a + b) + c + v;
  }

  predicate IsPrefix(p: seq<byte>, s: seq<byte>)
  {
    |p| <= |s| && s[..|p|] == p
  }

  predicate NoNul(s: seq<byte>)
  {
    forall i :: 0 <= i < |s| ==> s[i] != NUL
  }

  /** What a C function sees of a buffer: the bytes before the first NUL. */
  function CStr(s: seq<byte>): (r: seq<byte>)
    ensures IsPrefix(r, s) && NoNul(r)
    ensures |r| < |s| ==> s[|r|] == NUL
  {
    if |s| == 0 || s[0] == NUL then [] else [s[0]] + CStr(s[1..])
  }

  lemma {:induction false} CStrOfTerminated(s: seq<byte>, t: seq<byte>)
    requires NoNul(s)
    ensures CStr(s + [NUL] + t) == s
  {
    if s != [] {
      assert (s + [NUL] + t)[1..] == s[1..] + [NUL] + t;
      CStrOfTerminated(s[1..], t);
    }
  }

  /** A C function stops at the first NUL, whatever follows it. */
  lemma {:induction false} CStrOfJoin(s: seq<byte>, t: seq<byte>)
    ensures CStr(s + [NUL] + t) == CStr(s)
  {
    if s != [] && s[0] != NUL {
      assert (s + [NUL] + t)[1..] == s[1..] + [NUL] + t;
      CStrOfJoin(s[1..], t);
    }
  }

  lemma CStrOfTerminatedAt(buf: seq<byte>, j: nat)
    requires j < |buf| && buf[j] == NUL
    ensures CStr(buf) == CStr(buf[..j])
  {
    assert buf == buf[..j] + [NUL] + buf[j + 1..];
    CStrOfJoin(buf[..j], buf[j + 1..]);
  }

  /** Cutting a buffer at k leaves a C string that starts the one of the whole buffer. */
  lemma {:induction false} CStrOfTake(s: seq<byte>, k: nat)
    requires k <= |s|
    ensures IsPrefix(CStr(s[..k]), CStr(s))
  {
    if k > 0 && s[0] != NUL {
      assert s[..k][1..] == s[1..][..k - 1];
      CStrOfTake(s[1..], k - 1);
    }
  }

  /** A NUL at index k bounds the string a C function sees to k bytes. */
  lemma CStrBound(buf: seq<byte>, k: nat)
    requires k < |buf| && buf[k] == NUL
    ensures |CStr(buf)| <= k
  {
  }

  /** An all-zero buffer: how the model fills a C buffer before anything is written to it. */
  function Zeros(n: nat): (z: seq<byte>)
    ensures |z| == n && CStr(z) == []
  {
    seq(n, _ => NUL)
  }

  lemma ZerosDrop(n: nat, k: nat)
    requires k <= n
    ensures Zeros(n)[k..] == Zeros(n - k)
  {
  }

  /** What follows index k of a NUL-free string is NUL-free. */
  lemma NoNulDrop(s: seq<byte>, k: nat)
    requires NoNul(s) && k <= |s|
    ensures NoNul(s[k..])
  {
    forall i | 0 <= i < |s| - k
      ensures s[k..][i] != NUL
    {
      assert s[k..][i] == s[k + i];
    }
  }

  lemma {:induction false} CStrOfNoNul(s: seq<byte>)
    requires NoNul(s)
    ensures CStr(s) == s
  {
    if s != [] {
      CStrOfNoNul(s[1..]);
    }
  }

  /** strstr(s, pat) != NULL: pat occurs somewhere in s. */
  predicate Contains(s: seq<byte>, pat: seq<byte>)
    ensures Contains(s, pat) ==> |pat| <= |s|
    decreases |s|
  {
    IsPrefix(pat, s) || (|s| > 0 && Contains(s[1..], pat))
  }

  lemma {:induction false} ContainsAt(s: seq<byte>, pat: seq<byte>, i: nat)
    requires i + |pat| <= |s| && s[i..i + |pat|] == pat
    ensures Contains(s, pat)
  {
    if i > 0 {
      assert s[1..][i - 1..i - 1 + |pat|] == s[i..i + |pat|];
      ContainsAt(s[1..], pat, i - 1);
    }
  }

  /** Every occurrence lies inside s: Contains is exactly "some slice of s equals pat". */
  lemma {:induction false} ContainsWitness(s: seq<byte>, pat: seq<byte>) returns (i: nat)
    requires Contains(s, pat)
    ensures i + |pat| <= |s| && s[i..i + |pat|] == pat
  {
    if IsPrefix(pat, s) {
      i := 0;
    } else {
      var j := ContainsWitness(s[1..], pat);
      assert s[1..][j..j + |pat|] == s[j + 1..j + 1 + |pat|];
      i := j + 1;
    }
  }

  /** A pattern holding a byte that s lacks does not occur in s. */
  lemma NotContainsByByte(s: seq<byte>, pat: seq<byte>, i: nat)
    requires i < |pat| && pat[i] !in s
    ensures !Contains(s, pat)
  {
    if Contains(s, pat) {
      var j := ContainsWitness(s, pat);
    }
  }

  /** A pattern that starts the first k bytes of s occurs in s. */
  lemma PrefixContains(s: seq<byte>, pat: seq<byte>, k: nat)
    requires k <= |s|
    ensures IsPrefix(pat, s[..k]) ==> Contains(s, pat)
  {
    if IsPrefix(pat, s[..k]) {
      assert s[..|pat|] == s[..k][..|pat|];
      ContainsAt(s, pat, 0);
    }
  }

  /** An occurrence in a tail of s is an occurrence in s. */
  lemma ContainsOfDrop(s: seq<byte>, pat: seq<byte>, d: nat)
    requires d <= |s|
    ensures Contains(s[d..], pat) ==> Contains(s, pat)
  {
    if Contains(s[d..], pat) {
      var i := ContainsWitness(s[d..], pat);
      assert s[d..][i..i + |pat|] == s[d + i..d + i + |pat|];
      ContainsAt(s, pat, d + i);
    }
  }

  lemma ContainsInConcat(a: seq<byte>, b: seq<byte>, c: seq<byte>)
    ensures Contains(a + b + c, b)
  {
    assert (a + b + c)[|a|..|a| + |b|] == b;
    ContainsAt(a + b + c, b, |a|);
  }

  /** index(s, b): the position of the first b in s. */
  function IndexOf(s: seq<byte>, b: byte): (r: Option<nat>)
    ensures r.Some? ==> r.value < |s| && s[r.value] == b && b !in s[..r.value]
    ensures r.None? <==> b !in s
  {
    if |s| == 0 then None
    else if s[0] == b then Some(0)
    else match IndexOf(s[1..], b)
      case None => None
      case Some(i) => assert s[1..][..i] == s[1..i + 1]; Some(i + 1)
  }

  /** isspace in the C locale: space, \t, \n, \v, \f, \r. */
  predicate IsSpace(c: byte)
    ensures IsSpace(c) <==> c in {9, 10, 11, 12, 13, 32}
  {
    c == SP || 9 <= c <= 13
  }

  predicate IsDigit(c: byte)
  {
    '0' as int <= c as int <= '9' as int
  }

  /** isxdigit; after tolower a hex digit is a decimal digit or one of a..f, as decode_uri assumes. */
  predicate IsXDigit(c: byte)
    ensures IsXDigit(c) <==> IsDigit(ToLower(c)) || 'a' as int <= ToLower(c) as int <= 'f' as int
  {
    IsDigit(c) || 'a' as int <= c as int <= 'f' as int || 'A' as int <= c as int <= 'F' as int
  }

  /** tolower in the C locale. */
  function ToLower(c: byte): (r: byte)
    ensures 'A' as int <= c as int <= 'Z' as int ==> r as int == c as int + 32
    ensures !('A' as int <= c as int <= 'Z' as int) ==> r == c
  {
    if 'A' as int <= c as int <= 'Z' as int then c + 32 else c
  }

  function Lower(s: seq<byte>): (r: seq<byte>)
    ensures |r| == |s|
  {
    seq(|s|, i requires 0 <= i < |s| => ToLower(s[i]))
  }

  /** Folding case commutes with cutting: the fold of a slice is the slice of the fold. */
  lemma LowerSlice(s: seq<byte>, i: nat, j: nat)
    requires i <= j <= |s|
    ensures Lower(s)[i..j] == Lower(s[i..j])
  {
    assert forall k :: 0 <= k < j - i ==> Lower(s)[i..j][k] == ToLower(s[i + k]) == Lower(s[i..j])[k];
  }

  /** The value of a hex digit, either case. */
  function HexValue(c: byte): (v: nat)
    requires IsXDigit(c)
    ensures v < 16
  {
    if IsDigit(c) then c as int - '0' as int
    else if 'a' as int <= c as int then c as int - 'a' as int + 10
    else c as int - 'A' as int + 10
  }

  function SkipSpace(s: seq<byte>): (r: seq<byte>)
    ensures |r| <= |s| && r == s[|s| - |r|..]
    ensures |r| > 0 ==> !IsSpace(r[0])
    ensures forall i :: 0 <= i < |s| - |r| ==> IsSpace(s[i])
  {
    if |s| > 0 && IsSpace(s[0]) then SkipSpace(s[1..]) else s
  }

  /** The longest prefix of s made of bytes satisfying IsDigit. */
  function LeadingDigits(s: seq<byte>): (r: seq<byte>)
    ensures IsPrefix(r, s)
    ensures forall i :: 0 <= i < |r| ==> IsDigit(r[i])
    ensures |r| < |s| ==> !IsDigit(s[|r|])
  {
    if |s| > 0 && IsDigit(s[0]) then [s[0]] + LeadingDigits(s[1..]) else []
  }

  /** The number a string of decimal digits denotes. */
  function DigitsValue(d: seq<byte>): nat
    requires forall i :: 0 <= i < |d| ==> IsDigit(d[i])
  {
    if |d| == 0 then 0
    else
      assert IsDigit(d[|d| - 1]);
      DigitsValue(d[..|d| - 1]) * 10 + (d[|d| - 1] as int - '0' as int)
  }

  /** atoi: skip leading white space, an optional sign, then the longest run of digits. */
  function Atoi(s: seq<byte>): (r: int)
    ensures var t := SkipSpace(s); r < 0 ==> |t| > 1 && t[0] == '-' as int as byte && IsDigit(t[1])
    ensures var t := SkipSpace(s);
      r > 0 ==> |t| > 0 && (IsDigit(t[0]) || (t[0] == '+' as int as byte && |t| > 1 && IsDigit(t[1])))
  {
    var t := SkipSpace(s);
    if |t| > 0 && t[0] == '-' as int as byte then -(DigitsValue(LeadingDigits(t[1..])) as int)
    else if |t| > 0 && t[0] == '+' as int as byte then DigitsValue(LeadingDigits(t[1..]))
    else DigitsValue(LeadingDigits(t))
  }

  function Digit(d: nat): (c: byte)
    requires d < 10
    ensures IsDigit(c) && c as int - '0' as int == d
  {
    ('0' as int + d) as byte
  }

  /** printf's "%d" for a non-negative number. */
  function Dec(n: nat): (r: seq<byte>)
    ensures |r| > 0
    ensures forall i :: 0 <= i < |r| ==> IsDigit(r[i])
  {
    if n < 10 then [Digit(n)] else Dec(n / 10) + [Digit(n % 10)]
  }

  lemma {:induction false} DecValue(n: nat)
    ensures DigitsValue(Dec(n)) == n
  {
    if n >= 10 {
      DecValue(n / 10);
      assert Dec(n)[..|Dec(n)| - 1] == Dec(n / 10);
    }
  }

  lemma {:induction false} LeadingDigitsOfDigits(d: seq<byte>, t: seq<byte>)
    requires forall i :: 0 <= i < |d| ==> IsDigit(d[i])
    requires |t| > 0 ==> !IsDigit(t[0])
    ensures LeadingDigits(d + t) == d
  {
    if d != [] {
      assert (d + t)[1..] == d[1..] + t;
      LeadingDigitsOfDigits(d[1..], t);
    }
  }

  /** atoi reads back what "%d" wrote, whatever non-digit follows. */
  lemma AtoiDec(n: nat, t: seq<byte>)
    requires |t| > 0 ==> !IsDigit(t[0])
    ensures Atoi(Dec(n) + t) == n
  {
    var s := Dec(n) + t;
    assert !IsSpace(s[0]);
    LeadingDigitsOfDigits(Dec(n), t);
    DecValue(n);
  }
}
