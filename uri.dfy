/**
 * mini_server.c's decode_uri: one left-to-right pass over the request target that turns
 * "%XY" (two hex digits, either case) into the byte 16*X+Y and '+' into a space.
 */
module UriCodec {
  import opened Bytes
  import opened CString

  const MAXSIZE: nat := 8192

  const PERCENT: byte := 37
  const PLUS: byte := 43

  /** An escape starts at i: '%' followed by two hex digits that both lie inside s. */
  predicate EscapeAt(s: seq<byte>, i: nat)
  {
    i + 2 < |s| && s[i] == PERCENT && IsXDigit(s[i + 1]) && IsXDigit(s[i + 2])
  }

  /** The byte "%XY" stands for. */
  function EscapedByte(hi: byte, lo: byte): byte
    requires IsXDigit(hi) && IsXDigit(lo)
  {
    (16 * HexValue(hi) + HexValue(lo)) as byte
  }

  function Decode(s: seq<byte>): (r: seq<byte>)
    ensures |r| <= |s|
    decreases |s|
  {
    if |s| == 0 then []
    else if EscapeAt(s, 0) then [EscapedByte(s[1], s[2])] + Decode(s[3..])
    else if s[0] == PLUS then [SP] + Decode(s[1..])
    else [s[0]] + Decode(s[1..])
  }

  /** The byte the pass writes for position i of s, and how many input bytes it uses. */
  function StepAt(s: seq<byte>, i: nat): (r: (byte, nat))
    requires i < |s|
    ensures i + r.1 <= |s|
  {
    if EscapeAt(s, i) then (EscapedByte(s[i + 1], s[i + 2]), 3)
    else if s[i] == PLUS then (SP, 1)
    else (s[i], 1)
  }

  /** Decoding position i by one step keeps "output so far ++ rest decoded" equal to the whole. */
  lemma DecodeAdvance(s: seq<byte>, i: nat, done: seq<byte>)
    requires i < |s| && done + Decode(s[i..]) == Decode(s)
    ensures done + [StepAt(s, i).0] + Decode(s[i + StepAt(s, i).1..]) == Decode(s)
  {
    var t := s[i..];
    var (c, n) := StepAt(s, i);
    assert EscapeAt(t, 0) == EscapeAt(s, i);
    assert t[n..] == s[i + n..];
    assert Decode(t) == [c] + Decode(t[n..]);
    Assoc(done, [c], Decode(t[n..]));
  }

  /** decode_uri's digit arithmetic: lower-case the digit, then subtract 'a'-10 or '0'. */
  function LoweredDigitValue(c: byte): (v: int)
    requires IsXDigit(c)
    ensures v == HexValue(c)
  {
    var a := ToLower(c);
    if a >= 'a' as int as byte then a as int - ('a' as int - 10) else a as int - '0' as int
  }

  /**
   * decode_uri(uri): decode the string in uri into a scratch buffer of MAXSIZE+1 bytes, then
   * strcpy it back; a decoded NUL ("%00") therefore ends the string uri holds afterwards.
   */
  method DecodeUri(uri: array<byte>)
    requires |CStr(uri[..])| <= MAXSIZE && |CStr(uri[..])| < uri.Length
    modifies uri
    ensures var d := CStr(Decode(old(CStr(uri[..])))); uri[..] == d + [NUL] + old(uri[|d| + 1..])
    ensures CStr(uri[..]) == CStr(Decode(old(CStr(uri[..]))))
  {
    var buffer := new byte[MAXSIZE + 1];
    DecodeInto(uri, buffer);
    ghost var d := CStr(Decode(old(CStr(uri[..]))));
    StrCpy(uri, CStr(buffer[..]));
    assert uri[..] == d + [NUL] + old(uri[..])[|d| + 1..];
  }

  /** One pass of decode_uri's loop at index i: the byte it writes and how far i moves on. */
  method DecodeAt(uri: array<byte>, ghost s: seq<byte>, len: nat, i: nat) returns (c: byte, step: nat)
    requires i < len == |s| <= uri.Length && uri[..len] == s
    ensures (c, step) == StepAt(s, i)
  {
    assert uri[i] == s[i];
    step := 1;
    if uri[i] == PERCENT && i + 2 < len && IsXDigit(uri[i + 1]) && IsXDigit(uri[i + 2]) {
      assert uri[i + 1] == s[i + 1] && uri[i + 2] == s[i + 2];
      c := (16 * LoweredDigitValue(uri[i + 1]) + LoweredDigitValue(uri[i + 2])) as byte;
      step := 3;
    } else if uri[i] == PLUS {
      c := SP;
    } else {
      c := uri[i];
    }
  }

  /** The loop of decode_uri: the decoded string, terminated, at the front of buffer. */
  method DecodeInto(uri: array<byte>, buffer: array<byte>)
    requires |CStr(uri[..])| < buffer.Length && uri != buffer
    modifies buffer
    ensures CStr(buffer[..]) == CStr(Decode(CStr(uri[..])))
  {
    ghost var s := CStr(uri[..]);
    var len := |CStr(uri[..])|;
    var i, j := 0, 0;
    assert uri[..len] == s;
    while i < len
      invariant 0 <= j <= i <= len
      invariant buffer[..j] + Decode(s[i..]) == Decode(s)
    {
      var c, step := DecodeAt(uri, s, len, i);
      ghost var done := buffer[..j];
      DecodeAdvance(s, i, done);
      buffer[j] := c;
      assert buffer[..j + 1] == done + [c];
      j := j + 1;
      i := i + step;
    }
    assert s[i..] == [];
    assert Decode(s[i..]) == [];
    ghost var d := buffer[..j];
    assert d == Decode(s);
    buffer[j] := NUL;
    assert buffer[..j] == d;
    CStrOfTerminatedAt(buffer[..], j);
    assert CStr(buffer[..]) == CStr(Decode(s));
    assert uri[..] == old(uri[..]);
  }

  /** A target with no '%' and no '+' passes through unchanged. */
  lemma {:induction false} DecodeIdentity(s: seq<byte>)
    requires PERCENT !in s && PLUS !in s
    ensures Decode(s) == s
  {
    if s != [] {
      DecodeIdentity(s[1..]);
    }
  }

  /** The pass is single: "%2541" gives "%41", which a second pass would turn into "A". */
  lemma SinglePass()
    ensures Decode(Ascii("%2541")) == Ascii("%41")
    ensures Decode(Ascii("%41")) == Ascii("A")
  {
    var s: seq<byte> := [PERCENT, 50, 53, 52, 49];
    assert Ascii("%2541") == s;
    assert EscapeAt(s, 0) && s[3..] == [52, 49];
    assert Decode(s) == [PERCENT] + Decode([52, 49]);
    assert Ascii("%41") == [PERCENT, 52, 49];
    assert EscapeAt([PERCENT, 52, 49], 0);
    assert Decode([PERCENT, 52, 49]) == [65] + Decode([]);
  }

  lemma PlusAndEscape()
    ensures Decode(Ascii("a+b%20c")) == Ascii("a b c")
  {
    var s: seq<byte> := [97, PLUS, 98, PERCENT, 50, 48, 99];
    assert Ascii("a+b%20c") == s;
    assert EscapeAt(s[3..], 0) && s[3..][3..] == [99];
    assert Decode(s[3..]) == [SP, 99];
    assert Decode(s[2..]) == [98, SP, 99] by { assert s[2..][1..] == s[3..]; }
    assert Decode(s[1..]) == [SP, 98, SP, 99] by { assert s[1..][1..] == s[2..]; }
    assert Decode(s) == [97, SP, 98, SP, 99] by { assert !EscapeAt(s, 0); }
    assert Ascii("a b c") == [97, SP, 98, SP, 99];
  }

  /** An upper-case hex digit for 0..15. */
  function HexDigit(d: nat): (c: byte)
    requires d < 16
    ensures IsXDigit(c) && HexValue(c) == d
  {
    if d < 10 then ('0' as int + d) as byte else ('A' as int + d - 10) as byte
  }

  /** Every byte written as "%XY". */
  function PercentEncode(s: seq<byte>): (r: seq<byte>)
    ensures |r| == 3 * |s|
  {
    if s == [] then []
    else [PERCENT, HexDigit(s[0] as int / 16), HexDigit(s[0] as int % 16)] + PercentEncode(s[1..])
  }

  /** Decoding undoes a full percent-encoding of any byte string. */
  lemma {:induction false} DecodePercentEncode(s: seq<byte>)
    ensures Decode(PercentEncode(s)) == s
  {
    if s != [] {
      var e := PercentEncode(s);
      assert EscapeAt(e, 0);
      assert EscapedByte(e[1], e[2]) == s[0];
      assert e[3..] == PercentEncode(s[1..]);
      DecodePercentEncode(s[1..]);
    }
  }

  /** Spaces written as '+', everything else as is: the form HTML forms submit. */
  function PlusEncode(s: seq<byte>): (r: seq<byte>)
    ensures |r| == |s|
  {
    if s == [] then [] else [if s[0] == SP then PLUS else s[0]] + PlusEncode(s[1..])
  }

  /** For text with no literal '%' or '+', decoding undoes the '+' encoding. */
  lemma {:induction false} DecodePlusEncode(s: seq<byte>)
    requires PERCENT !in s && PLUS !in s
    ensures Decode(PlusEncode(s)) == s
  {
    if s != [] {
      var e := PlusEncode(s);
      assert e[0] != PERCENT && e[1..] == PlusEncode(s[1..]);
      DecodePlusEncode(s[1..]);
    }
  }
}
