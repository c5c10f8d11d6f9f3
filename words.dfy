/** The white-space separated words sscanf's "%s %s %s" reads from a request line. */
module Words {
  import opened Bytes

  /** The longest prefix of s holding no white space. */
  function Word(s: seq<byte>): (w: seq<byte>)
    ensures IsPrefix(w, s)
    ensures forall i :: 0 <= i < |w| ==> !IsSpace(w[i])
    ensures |w| < |s| ==> IsSpace(s[|w|])
  {
    if |s| > 0 && !IsSpace(s[0]) then [s[0]] + Word(s[1..]) else []
  }

  /** The white-space separated words of s, in order, as successive "%s" conversions read them. */
  function Tokens(s: seq<byte>): (ts: seq<seq<byte>>)
    ensures forall k :: 0 <= k < |ts| ==> |ts[k]| > 0
    decreases |s|
  {
    if |s| == 0 then []
    else if IsSpace(s[0]) then Tokens(s[1..])
    else
      var w := Word(s);
      [w] + Tokens(s[|w|..])
  }

  /** Each token is a piece of s: no longer than s, and free of NUL when s is. */
  lemma {:induction false} TokensWithin(s: seq<byte>)
    ensures forall k :: 0 <= k < |Tokens(s)| ==> |Tokens(s)[k]| <= |s|
    ensures NoNul(s) ==> forall k :: 0 <= k < |Tokens(s)| ==> NoNul(Tokens(s)[k])
    decreases |s|
  {
    if |s| > 0 && IsSpace(s[0]) {
      TokensWithin(s[1..]);
    } else if |s| > 0 {
      var w := Word(s);
      var rest := s[|w|..];
      TokensWithin(rest);
      assert NoNul(s) ==> NoNul(w) by {
        if NoNul(s) {
          forall i | 0 <= i < |w| ensures w[i] != NUL { assert w[i] == s[i]; }
        }
      }
      forall k | 0 <= k < |Tokens(s)|
        ensures |Tokens(s)[k]| <= |s| && (NoNul(s) ==> NoNul(Tokens(s)[k]))
      {
        if k > 0 { assert Tokens(s)[k] == Tokens(rest)[k - 1]; }
      }
    }
  }

  /** The first two tokens and a separator between them fit in s. */
  lemma {:induction false} SecondTokenBound(s: seq<byte>)
    requires |Tokens(s)| >= 2
    ensures |Tokens(s)[1]| + |Tokens(s)[0]| + 1 <= |s|
    decreases |s|
  {
    if IsSpace(s[0]) {
      SecondTokenBound(s[1..]);
    } else {
      var w := Word(s);
      var rest := s[|w|..];
      assert Tokens(s) == [w] + Tokens(rest);
      assert |rest| > 0 && IsSpace(rest[0]);
      assert Tokens(rest) == Tokens(rest[1..]);
      TokensWithin(rest[1..]);
    }
  }

  predicate IsWord(w: seq<byte>)
  {
    |w| > 0 && forall i :: 0 <= i < |w| ==> !IsSpace(w[i])
  }

  /** A word followed by white space or nothing is read whole. */
  lemma {:induction false} WordOfWord(w: seq<byte>, t: seq<byte>)
    requires forall i :: 0 <= i < |w| ==> !IsSpace(w[i])
    requires |t| > 0 ==> IsSpace(t[0])
    ensures Word(w + t) == w
  {
    if w != [] {
      assert (w + t)[1..] == w[1..] + t;
      WordOfWord(w[1..], t);
    }
  }

  /** A word at the front is the first token, whatever white space follows. */
  lemma TokensOfWordThen(w: seq<byte>, t: seq<byte>)
    requires IsWord(w) && (|t| > 0 ==> IsSpace(t[0]))
    ensures Tokens(w + t) == [w] + Tokens(t)
  {
    WordOfWord(w, t);
    assert (w + t)[|w|..] == t;
  }

  /** White space alone holds no token. */
  lemma {:induction false} TokensOfSpaces(t: seq<byte>)
    requires forall i :: 0 <= i < |t| ==> IsSpace(t[i])
    ensures Tokens(t) == []
    decreases |t|
  {
    if |t| > 0 {
      TokensOfSpaces(t[1..]);
    }
  }

  /** A word, one space, then more: the word, then the tokens of the rest. */
  lemma TokensOfWordSpace(w: seq<byte>, rest: seq<byte>)
    requires IsWord(w)
    ensures Tokens(w + ([SP] + rest)) == [w] + Tokens(rest)
  {
    TokensOfWordThen(w, [SP] + rest);
    assert ([SP] + rest)[1..] == rest;
  }

  /** The request line, regrouped from the right. */
  lemma RegroupLine(a: seq<byte>, b: seq<byte>, c: seq<byte>, t: seq<byte>)
    ensures a + [SP] + b + [SP] + c + t == a + ([SP] + (b + ([SP] + (c + t))))
  {
    calc {
      a + [SP] + b + [SP] + c + t;
      { Assoc(a + [SP] + b + [SP], c, t); }
      a + [SP] + b + [SP] + (c + t);
      { Assoc(a + [SP] + b, [SP], c + t); }
      a + [SP] + b + ([SP] + (c + t));
      { Assoc(a + [SP], b, [SP] + (c + t)); }
      a + [SP] + (b + ([SP] + (c + t)));
      { Assoc(a, [SP], b + ([SP] + (c + t))); }
      a + ([SP] + (b + ([SP] + (c + t))));
    }
  }

  /** Three words joined by single spaces, then white space or nothing, are read back as those three words. */
  lemma TokensOfThreeWords(a: seq<byte>, b: seq<byte>, c: seq<byte>, t: seq<byte>)
    requires IsWord(a) && IsWord(b) && IsWord(c)
    requires forall i :: 0 <= i < |t| ==> IsSpace(t[i])
    ensures Tokens(a + [SP] + b + [SP] + c + t) == [a, b, c]
  {
    TokensOfSpaces(t);
    TokensOfWordThen(c, t);
    TokensOfWordSpace(b, c + t);
    TokensOfWordSpace(a, b + ([SP] + (c + t)));
    RegroupLine(a, b, c, t);
  }
}
