/**
 * A connected socket as the request handler sees it: the bytes the peer sends
 * before it closes, a read cursor, and the bytes written back so far.
 * The readers and writers of mini_server.c (recv_line, recv_nbytes, send_nbytes)
 * and the stdio calls server.c makes on the same socket (fgets, fprintf).
 */
module Socket {
  import opened Bytes

  const EOL: seq<byte> := [CR, LF]

  /** The length of the run of CR bytes that ends p. */
  function TrailingCRs(p: seq<byte>): (n: nat)
    ensures n <= |p|
  {
    if |p| > 0 && p[|p| - 1] == CR then TrailingCRs(p[..|p| - 1]) + 1 else 0
  }

  /**
   * recv_line's two-state matcher completes at byte i of s exactly when s[i] is LF and
   * the CR run before it has odd length: on a mismatch the matcher drops back to state 0
   * without looking at the current byte again, so each second CR of a run is lost.
   */
  predicate EndsLineAt(s: seq<byte>, i: nat)
  {
    i < |s| && s[i] == LF && TrailingCRs(s[..i]) % 2 == 1
  }

  /** One byte through recv_line's matcher: it completes, or its new state is the parity of the CR run. */
  lemma MatcherStep(rest: seq<byte>, c: nat, matched: nat)
    requires c < |rest| && matched == TrailingCRs(rest[..c]) % 2
    ensures EndsLineAt(rest, c) <==> rest[c] == EOL[matched] && matched == 1
    ensures !EndsLineAt(rest, c) ==>
      (if rest[c] == EOL[matched] then matched + 1 else 0) == TrailingCRs(rest[..c + 1]) % 2
  {
    assert rest[..c + 1][..c] == rest[..c];
  }

  /** recv_line's matcher has not completed on any of the first k bytes of s. */
  predicate NoLineEndBefore(s: seq<byte>, k: nat)
  {
    forall i :: 0 <= i < k ==> !EndsLineAt(s, i)
  }

  lemma NoLineEndExtend(s: seq<byte>, k: nat)
    requires NoLineEndBefore(s, k)
    ensures !EndsLineAt(s, k) ==> NoLineEndBefore(s, k + 1)
  {
  }

  /** None of the first k bytes of s is LF. */
  predicate NoLfBefore(s: seq<byte>, k: nat)
  {
    forall i :: 0 <= i < k && i < |s| ==> s[i] != LF
  }

  lemma NoLfExtend(s: seq<byte>, k: nat)
    requires NoLfBefore(s, k) && k < |s| && s[k] != LF
    ensures NoLfBefore(s, k + 1)
  {
  }

  lemma NoLfIn(s: seq<byte>, k: nat)
    requires NoLfBefore(s, k) && k <= |s|
    ensures LF !in s[..k]
  {
    forall i | 0 <= i < k
      ensures s[..k][i] != LF
    {
    }
  }

  /** The first end of line in s at an index in [j, limit). */
  function FirstLineEndFrom(s: seq<byte>, limit: int, j: nat): (r: Option<nat>)
    ensures r.Some? ==> j <= r.value < limit && EndsLineAt(s, r.value)
    ensures r.Some? ==> forall i :: j <= i < r.value ==> !EndsLineAt(s, i)
    ensures r.None? ==> forall i :: j <= i < limit ==> !EndsLineAt(s, i)
    decreases |s| - j
  {
    if j >= |s| || j >= limit then None
    else if EndsLineAt(s, j) then Some(j)
    else FirstLineEndFrom(s, limit, j + 1)
  }

  function FirstLineEnd(s: seq<byte>, limit: int): Option<nat>
  {
    FirstLineEndFrom(s, limit, 0)
  }

  lemma {:induction false} FirstLineEndSkip(s: seq<byte>, limit: int, j: nat)
    requires forall i :: 0 <= i < j ==> !EndsLineAt(s, i)
    ensures FirstLineEnd(s, limit) == FirstLineEndFrom(s, limit, j)
  {
    if j > 0 {
      FirstLineEndSkip(s, limit, j - 1);
    }
  }

  /** What one recv_line call leaves behind: its result, the bytes it consumed, the buffer. */
  datatype LineRead = LineRead(k: int, consumed: nat, buf: seq<byte>)

  function ReadLine(rest: seq<byte>, sizeMax: int, buf: seq<byte>): (r: LineRead)
    requires sizeMax <= |buf|
    ensures |r.buf| == |buf| && r.k >= -1
    ensures r.consumed <= |rest| && r.consumed <= Max(sizeMax, 0)
    ensures r.k >= 0 ==> r.consumed == r.k + 2 && r.buf[r.k] == NUL
  {
    match FirstLineEnd(rest, sizeMax)
    case Some(e) =>
      assert TrailingCRs(rest[..e]) >= 1;
      LineRead(e - 1, e + 1, rest[..e - 1] + [NUL, LF] + buf[e + 1..])
    case None =>
      var n := Min(Max(sizeMax, 0), |rest|);
      LineRead(-1, n, rest[..n] + buf[n..])
  }

  /**
   * recv_line returns k >= 0 exactly when the matcher completes at index k + 1 within size_max
   * bytes: then k + 2 bytes are consumed, the line before the CR is in the buffer, the CR has
   * become NUL and nothing after the LF is written. Otherwise it returns -1 after taking
   * min(size_max, available) bytes; either way no byte beyond those consumed changes.
   */
  lemma ReadLineCases(rest: seq<byte>, sizeMax: int, buf: seq<byte>)
    requires sizeMax <= |buf|
    ensures var r := ReadLine(rest, sizeMax, buf);
      && (r.k >= 0 <==> FirstLineEnd(rest, sizeMax).Some?)
      && (r.k >= 0 ==>
        && r.consumed == r.k + 2 && EndsLineAt(rest, r.k + 1) && NoLineEndBefore(rest, r.k + 1)
        && rest[r.k] == CR && r.buf[..r.k] == rest[..r.k] && r.buf[r.k] == NUL
        && r.buf[r.k + 1] == LF && r.buf[r.k + 2..] == buf[r.k + 2..])
      && (r.k == -1 ==>
        && r.consumed == Min(Max(sizeMax, 0), |rest|) && NoLineEndBefore(rest, r.consumed)
        && r.buf[..r.consumed] == rest[..r.consumed] && r.buf[r.consumed..] == buf[r.consumed..])
  {
    match FirstLineEnd(rest, sizeMax)
    case Some(e) =>
      assert TrailingCRs(rest[..e]) >= 1;
    case None =>
  }

  /** A line of bytes holding no LF whose CR run at the end is even (say, empty) is read back whole. */
  lemma {:induction false} ReadLineOfPlainLine(s: seq<byte>, t: seq<byte>, sizeMax: int, buf: seq<byte>)
    requires LF !in s && TrailingCRs(s) % 2 == 0
    requires |s| + 2 <= sizeMax <= |buf|
    ensures var r := ReadLine(s + EOL + t, sizeMax, buf);
      r.k == |s| && r.consumed == |s| + 2 && r.buf[..|s|] == s && r.buf[|s|] == NUL
  {
    var w := s + EOL + t;
    forall i | 0 <= i < |s| + 1 ensures !EndsLineAt(w, i) {
      assert w[i] != LF by {
        if i < |s| { assert w[i] == s[i]; }
      }
    }
    assert w[..|s| + 1][..|s|] == s;
    assert TrailingCRs(w[..|s| + 1]) == TrailingCRs(s) + 1;
    assert EndsLineAt(w, |s| + 1);
    FirstLineEndSkip(w, sizeMax, |s| + 1);
  }

  /** The quirk: a line ending in an odd run of CR bytes is never terminated by the CR LF after it. */
  lemma {:induction false} OddCrRunHidesEol(s: seq<byte>, t: seq<byte>)
    requires TrailingCRs(s) % 2 == 1
    ensures !EndsLineAt(s + EOL + t, |s| + 1)
  {
    var w := s + EOL + t;
    assert w[..|s| + 1][..|s|] == s;
    assert TrailingCRs(w[..|s| + 1]) == TrailingCRs(s) + 1;
  }

  /** "\r\r\n" does not end a line, however much room the buffer has. */
  lemma CrCrLfIsNoLine(t: seq<byte>, sizeMax: int)
    requires LF !in t
    ensures FirstLineEnd([CR, CR, LF] + t, sizeMax).None?
  {
    var w := [CR, CR, LF] + t;
    assert TrailingCRs(w[..2]) == 2 by {
      assert w[..2][..1] == [CR];
      assert w[..2][..1][..0] == [];
    }
    forall i | 0 <= i < |w| ensures !EndsLineAt(w, i) {
      if i != 2 {
        assert w[i] != LF by {
          if i > 2 { assert w[i] == t[i - 3]; }
        }
      }
    }
  }

  /** What one fgets(buf, n, stream) call leaves behind: non-NULL result, bytes consumed, buffer. */
  datatype FgetsRead = FgetsRead(ok: bool, consumed: nat, buf: seq<byte>)

  /** glibc's fgets: at most n-1 bytes, through the first LF; NULL with buf untouched at end of file. */
  function Fgets(rest: seq<byte>, n: int, buf: seq<byte>): (r: FgetsRead)
    requires n <= |buf|
    ensures |r.buf| == |buf| && r.consumed <= |rest|
    ensures r.ok ==> r.consumed < n && r.buf[r.consumed] == NUL
    ensures !r.ok ==> r.consumed == 0 && r.buf == buf
    ensures r.ok && n > 1 ==> r.consumed > 0
  {
    if n <= 0 then FgetsRead(false, 0, buf)
    else if n == 1 then FgetsRead(true, 0, [NUL] + buf[1..])
    else if |rest| == 0 then FgetsRead(false, 0, buf)
    else
      var avail := rest[..Min(n - 1, |rest|)];
      var c := match IndexOf(avail, LF) case Some(i) => i + 1 case None => |avail|;
      FgetsRead(true, c, rest[..c] + [NUL] + buf[c + 1..])
  }

  /**
   * fgets returns NULL, leaving buf untouched, exactly when n <= 0 or the stream is at its end
   * (and n > 1). Otherwise it copies the bytes up to and including the first LF, stopping
   * earlier after n - 1 bytes or at the end of the stream, and writes NUL after them.
   */
  lemma FgetsCases(rest: seq<byte>, n: int, buf: seq<byte>)
    requires n <= |buf|
    ensures var r := Fgets(rest, n, buf);
      && (!r.ok <==> n <= 0 || (n > 1 && |rest| == 0))
      && (!r.ok ==> r.consumed == 0 && r.buf == buf)
      && (r.ok ==>
        && 0 <= r.consumed < n && r.buf[..r.consumed] == rest[..r.consumed]
        && r.buf[r.consumed] == NUL && r.buf[r.consumed + 1..] == buf[r.consumed + 1..])
      && (r.ok && r.consumed > 0 ==> LF !in rest[..r.consumed - 1])
      && (r.ok && n > 1 ==> r.consumed > 0)
      && (r.ok ==> r.consumed == n - 1 || r.consumed == |rest| || rest[r.consumed - 1] == LF)
  {
    if n > 1 && |rest| > 0 {
      var avail := rest[..Min(n - 1, |rest|)];
      var c := match IndexOf(avail, LF) case Some(i) => i + 1 case None => |avail|;
      assert avail[..c] == rest[..c];
    }
  }

  /** fgets on a line that fits: it stops right after the LF and terminates the copy there. */
  lemma FgetsOfLine(p: seq<byte>, q: seq<byte>, n: int, buf: seq<byte>)
    requires LF !in p && |p| + 1 < n <= |buf|
    ensures var r := Fgets(p + [LF] + q, n, buf);
      && r.ok && r.consumed == |p| + 1 && r.buf[..|p| + 1] == p + [LF] && r.buf[|p| + 1] == NUL
  {
    var s := p + [LF] + q;
    var avail := s[..Min(n - 1, |s|)];
    assert avail[..|p|] == p && avail[|p|] == LF;
    assert IndexOf(avail, LF) == Some(|p|);
    assert s[..|p| + 1] == p + [LF];
  }

  /** A read loop's buffer after c bytes: what came in, then what was there before. */
  lemma FillStep(rest: seq<byte>, old_: seq<byte>, c: nat)
    requires c < |rest| && c < |old_|
    ensures (rest[..c] + old_[c..])[c := rest[c]] == rest[..c + 1] + old_[c + 1..]
  {
  }

  lemma TerminateAt(rest: seq<byte>, old_: seq<byte>, c: nat)
    requires c <= |rest| && c < |old_|
    ensures (rest[..c] + old_[c..])[c := NUL] == rest[..c] + [NUL] + old_[c + 1..]
  {
  }

  /** recv_line's buffer once the LF at e completes the line: the CR before it turned into NUL. */
  lemma TerminateLine(rest: seq<byte>, old_: seq<byte>, e: nat)
    requires 1 <= e < |rest| && e < |old_| && rest[e] == LF
    ensures (rest[..e + 1] + old_[e + 1..])[e - 1 := NUL] == rest[..e - 1] + [NUL, LF] + old_[e + 1..]
  {
  }

  /** recv_line meeting its first end of line at e. */
  lemma ReadLineFoundAt(rest: seq<byte>, sizeMax: int, old_: seq<byte>, e: nat)
    requires sizeMax <= |old_| && e < sizeMax && EndsLineAt(rest, e)
    requires NoLineEndBefore(rest, e)
    ensures 1 <= e && ReadLine(rest, sizeMax, old_) == LineRead(e - 1, e + 1, rest[..e - 1] + [NUL, LF] + old_[e + 1..])
  {
    FirstLineEndSkip(rest, sizeMax, e);
    assert TrailingCRs(rest[..e]) >= 1;
  }

  /** recv_line running out of room or input before any end of line. */
  lemma ReadLineNone(rest: seq<byte>, sizeMax: int, old_: seq<byte>, n: nat)
    requires sizeMax <= |old_| && n == Min(Max(sizeMax, 0), |rest|)
    requires NoLineEndBefore(rest, n)
    ensures ReadLine(rest, sizeMax, old_) == LineRead(-1, n, rest[..n] + old_[n..])
  {
    FirstLineEndSkip(rest, sizeMax, n);
  }

  /** fgets stopping after count bytes, for any of the three reasons it stops. */
  lemma FgetsOfCount(rest: seq<byte>, n: int, old_: seq<byte>, count: nat)
    requires 1 < n <= |old_| && 0 < count <= |rest| && count <= n - 1
    requires LF !in rest[..count - 1]
    requires count == n - 1 || count == |rest| || rest[count - 1] == LF
    ensures Fgets(rest, n, old_) == FgetsRead(true, count, rest[..count] + [NUL] + old_[count + 1..])
  {
    var avail := rest[..Min(n - 1, |rest|)];
    assert rest[..count] == avail[..count];
    assert avail[..count - 1] == rest[..count - 1];
    assert IndexOf(avail, LF) == (if rest[count - 1] == LF then Some(count - 1) else None);
  }

  class Connection {
    var input: seq<byte>
    var pos: nat
    var output: seq<byte>

    ghost predicate Valid()
      reads this
    {
      pos <= |input|
    }

    /** The bytes the peer has sent and the server has not read yet. */
    function Rest(): seq<byte>
      reads this
      requires Valid()
    {
      input[pos..]
    }

    constructor (data: seq<byte>)
      ensures Valid() && input == data && pos == 0 && output == []
    {
      input, pos, output := data, 0, [];
    }

    /** recv(sockfd, p, 1, 0): 1 and the next byte, or 0 once the peer has closed. */
    method Recv1() returns (received: int, b: byte)
      requires Valid()
      modifies this`pos
      ensures Valid()
      ensures old(pos) < |input| ==> received == 1 && b == input[old(pos)] && pos == old(pos) + 1
      ensures old(pos) == |input| ==> received == 0 && pos == old(pos)
    {
      if pos < |input| {
        received, b := 1, input[pos];
        pos := pos + 1;
      } else {
        received, b := 0, 0;
      }
    }

    /**
     * recv_line: one byte at a time into dst until the matcher sees CR LF (the CR becomes
     * NUL and the length before it is returned), the peer closes or size_max bytes are in (-1).
     */
    method RecvLine(dst: array<byte>, sizeMax: int) returns (k: int)
      requires Valid() && sizeMax <= dst.Length
      modifies this`pos, dst
      ensures Valid()
      ensures var r := ReadLine(old(Rest()), sizeMax, old(dst[..]));
        k == r.k && pos == old(pos) + r.consumed && dst[..] == r.buf
    {
      ghost var rest := Rest();
      ghost var before := dst[..];
      var sizeCurr, found := RecvUntilEol(dst, sizeMax);
      if found {
        ReadLineFoundAt(rest, sizeMax, before, sizeCurr);
        TerminateLine(rest, before, sizeCurr);
        dst[sizeCurr - 1] := NUL;
        k := sizeCurr - 1;
      } else {
        ReadLineNone(rest, sizeMax, before, sizeCurr);
        k := -1;
      }
    }

    /**
     * recv_line's loop: bytes go into dst until the matcher completes at index sizeCurr
     * (found), or the peer closes or size_max bytes are in.
     */
    method RecvUntilEol(dst: array<byte>, sizeMax: int) returns (sizeCurr: nat, found: bool)
      requires Valid() && sizeMax <= dst.Length
      modifies this`pos, dst
      ensures Valid() && input == old(input) && NoLineEndBefore(old(Rest()), sizeCurr)
      ensures found ==> (
        && sizeCurr < sizeMax && EndsLineAt(old(Rest()), sizeCurr)
        && pos == old(pos) + sizeCurr + 1
        && dst[..] == old(Rest())[..sizeCurr + 1] + old(dst[..])[sizeCurr + 1..])
      ensures !found ==> (
        && sizeCurr == Min(Max(sizeMax, 0), |old(Rest())|)
        && pos == old(pos) + sizeCurr
        && dst[..] == old(Rest())[..sizeCurr] + old(dst[..])[sizeCurr..])
    {
      ghost var rest := Rest();
      ghost var before := dst[..];
      sizeCurr := 0;
      var matched := 0;
      while sizeCurr < sizeMax
        invariant Valid() && input == old(input)
        invariant 0 <= sizeCurr <= |rest| && pos == old(pos) + sizeCurr
        invariant sizeCurr <= Max(sizeMax, 0) && sizeCurr <= dst.Length
        invariant matched == TrailingCRs(rest[..sizeCurr]) % 2
        invariant NoLineEndBefore(rest, sizeCurr)
        invariant dst[..] == rest[..sizeCurr] + before[sizeCurr..]
      {
        var received, b := Recv1();
        if received == 0 {
          return sizeCurr, false;
        }
        FillStep(rest, before, sizeCurr);
        dst[sizeCurr] := b;
        MatcherStep(rest, sizeCurr, matched);
        if b == EOL[matched] && matched == 1 {
          return sizeCurr, true;
        }
        NoLineEndExtend(rest, sizeCurr);
        matched := if b == EOL[matched] then matched + 1 else 0;
        sizeCurr := sizeCurr + 1;
      }
      found := false;
    }

    /** recv_nbytes: up to n bytes into the front of dst, fewer if the peer closes; no terminator. */
    method RecvNBytes(dst: array<byte>, n: int)
      requires Valid() && n <= dst.Length
      modifies this`pos, dst
      ensures Valid()
      ensures var m := Min(Max(n, 0), |old(Rest())|);
        pos == old(pos) + m && dst[..] == old(Rest())[..m] + old(dst[m..])
    {
      ghost var rest := Rest();
      var left := n;
      var i := 0;
      while left > 0
        invariant Valid() && input == old(input)
        invariant 0 <= i <= |rest| && pos == old(pos) + i
        invariant i + left == n && (i > 0 ==> left >= 0)
        invariant forall j :: 0 <= j < i ==> dst[j] == rest[j]
        invariant forall j :: i <= j < dst.Length ==> dst[j] == old(dst[j])
      {
        var received, b := Recv1();
        if received == 0 {
          break;
        }
        dst[i] := b;
        i := i + 1;
        left := left - 1;
      }
      assert i == Min(Max(n, 0), |rest|);
      assert dst[..] == rest[..i] + old(dst[i..]);
    }

    /** send(): a blocking stream send moves between 1 and all of the bytes offered. */
    method Send(chunk: seq<byte>) returns (sent: int)
      requires |chunk| > 0
      modifies this`output
      ensures 1 <= sent <= |chunk| && output == old(output) + chunk[..sent]
    {
      sent :| 1 <= sent <= |chunk|;
      output := output + chunk[..sent];
    }

    /** send_nbytes: repeat send until all n bytes of src are out, in order, each exactly once. */
    method SendNBytes(src: seq<byte>, n: int)
      requires n <= |src|
      modifies this`output
      ensures output == old(output) + src[..Max(n, 0)]
    {
      var off := 0;
      var left := n;
      while left > 0
        invariant off + left == n && 0 <= off <= Max(n, 0)
        invariant output == old(output) + src[..off]
      {
        var sent := Send(src[off..off + left]);
        assert src[..off] + src[off..off + left][..sent] == src[..off + sent];
        off := off + sent;
        left := left - sent;
      }
    }

    /** fgets(buf, n, stream) on the socket's stdio stream. */
    method ReadLineStdio(buf: array<byte>, n: int) returns (ok: bool)
      requires Valid() && n <= buf.Length
      modifies this`pos, buf
      ensures Valid()
      ensures var r := Fgets(old(Rest()), n, old(buf[..]));
        ok == r.ok && pos == old(pos) + r.consumed && buf[..] == r.buf
    {
      ghost var rest := Rest();
      if n <= 0 {
        return false;
      }
      if n == 1 {
        buf[0] := NUL;
        return true;
      }
      ghost var before := buf[..];
      var count := RecvUntilLf(buf, n);
      if count == 0 {
        return false;
      }
      FgetsOfCount(rest, n, before, count);
      TerminateAt(rest, before, count);
      buf[count] := NUL;
      ok := true;
    }

    /** fgets' reading loop: bytes into buf until n - 1 of them, an LF, or the end of the stream. */
    method RecvUntilLf(buf: array<byte>, n: int) returns (count: nat)
      requires Valid() && 1 < n <= buf.Length
      modifies this`pos, buf
      ensures Valid() && count <= n - 1 && count <= |old(Rest())| && pos == old(pos) + count
      ensures count > 0 ==> LF !in old(Rest())[..count - 1]
      ensures count == n - 1 || count == |old(Rest())| || (count > 0 && old(Rest())[count - 1] == LF)
      ensures buf[..] == old(Rest())[..count] + old(buf[..])[count..]
    {
      ghost var rest := Rest();
      ghost var before := buf[..];
      count := 0;
      var last: byte := 0;
      while count < n - 1 && (count == 0 || last != LF)
        invariant Valid() && input == old(input)
        invariant 0 <= count <= |rest| && count <= n - 1 && pos == old(pos) + count
        invariant count > 0 ==> last == rest[count - 1] && NoLfBefore(rest, count - 1)
        invariant buf[..] == rest[..count] + before[count..]
      {
        var received, b := Recv1();
        if received == 0 {
          break;
        }
        if count > 0 {
          NoLfExtend(rest, count - 1);
        }
        FillStep(rest, before, count);
        buf[count] := b;
        last := b;
        count := count + 1;
      }
      if count > 0 {
        NoLfIn(rest, count - 1);
      }
    }

    /** fprintf on the socket's stream: the formatted bytes, whole and in order. */
    method Print(s: seq<byte>)
      modifies this`output
      ensures output == old(output) + s
    {
      output := output + s;
    }
  }
}
