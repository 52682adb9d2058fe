// The header names and values that the response parser of components/esp-ml307/src/http_client.cc
// looks for, spelled as words and found by offsets, and what they settle at the end of the headers.
module HttpWords {
  import opened Bytes
  import opened Common
  import opened HttpResponse

  lemma WordsSpelled()
    ensures CONNECTION == Ascii("connection") && KEEP_ALIVE == Ascii("keep-alive") && CLOSE == Ascii("close")
    ensures TRANSFER_ENCODING == Ascii("transfer-encoding") && CHUNKED == Ascii("chunked")
    ensures CONTENT_LENGTH == Ascii("content-length")
    ensures forall c :: Blank(c) <==> c in Ascii(" \t")
    ensures forall c :: IsSpace(c) <==> c in Ascii(" \t\n\r") + [11, 12]
    ensures CRLF == Ascii("\r\n") && [COLON] == Ascii(":") && [SEMICOLON] == Ascii(";")
  {
    assert Ascii(" \t") == [32, 9];
    assert Ascii(" \t\n\r") + [11, 12] == [32, 9, 10, 13, 11, 12];
  }

  lemma DigitsSpelled(d: nat)
    requires d < 16
    ensures HexDigit(d) == Ascii("0123456789abcdef")[d]
    ensures Digit(Ascii("0123456789abcdef")[d]) == d && Digit(Ascii("0123456789ABCDEF")[d]) == d
  {
    assert Ascii("0123456789abcdef") == [48, 49, 50, 51, 52, 53, 54, 55, 56, 57, 97, 98, 99, 100, 101, 102];
    assert Ascii("0123456789ABCDEF") == [48, 49, 50, 51, 52, 53, 54, 55, 56, 57, 65, 66, 67, 68, 69, 70];
  }

  /** c is the small letter l, in either case, or it is l. */
  predicate SameLetter(c: byte, l: byte) {
    c == l || (97 <= l <= 122 && c == l - 32)
  }

  /** s is the word w, written in small letters, in any case. */
  predicate SameWord(s: seq<byte>, w: seq<byte>) {
    |s| == |w| && forall k | 0 <= k < |w| :: SameLetter(s[k], w[k])
  }

  predicate OccursAnyCase(s: seq<byte>, w: seq<byte>, i: int) {
    0 <= i && i + |w| <= |s| && SameWord(s[i..i + |w|], w)
  }

  /** The value has the word in it somewhere. */
  ghost predicate Has(value: Option<seq<byte>>, w: seq<byte>) {
    value.Some? && exists i :: Occurs(value.value, w, i)
  }

  ghost predicate HasAnyCase(value: Option<seq<byte>>, w: seq<byte>) {
    value.Some? && exists i :: OccursAnyCase(value.value, w, i)
  }

  /** Words without capital letters. */
  predicate Small(w: seq<byte>) {
    forall c | c in w :: !(65 <= c <= 90)
  }

  lemma LowerIs(s: seq<byte>, w: seq<byte>)
    requires Small(w)
    ensures Lower(s) == w <==> SameWord(s, w)
  {
    if Lower(s) == w {
      forall k | 0 <= k < |w| ensures SameLetter(s[k], w[k]) {
        assert w[k] in w && Lower(s)[k] == w[k];
      }
    } else if |s| == |w| {
      var k :| 0 <= k < |w| && Lower(s)[k] != w[k];
      assert w[k] in w;
    }
  }

  lemma LowerSlice(s: seq<byte>, i: int, j: int)
    requires 0 <= i <= j <= |s|
    ensures |Lower(s)| == |s| && Lower(s)[i..j] == Lower(s[i..j])
  {
  }

  /** Contains finds pat exactly if it stands at some offset. */
  lemma {:induction false} ContainsExactly(s: seq<byte>, pat: seq<byte>)
    ensures Contains(s, pat) <==> exists i :: Occurs(s, pat, i)
    decreases |s|
  {
    if |pat| <= |s| {
      if s[..|pat|] == pat {
        assert s[0..0 + |pat|] == s[..|pat|];
        assert Occurs(s, pat, 0);
      } else {
        ContainsExactly(s[1..], pat);
        OccursBehind(s, pat);
      }
    }
  }

  lemma OccursBehind(s: seq<byte>, pat: seq<byte>)
    requires s != [] && |pat| <= |s| && s[..|pat|] != pat
    ensures (exists i :: Occurs(s, pat, i)) <==> exists i :: Occurs(s[1..], pat, i)
  {
    var t := s[1..];
    forall i | Occurs(s, pat, i) ensures Occurs(t, pat, i - 1) {
      assert s[0..|pat|] == s[..|pat|];
      assert t[i - 1..i - 1 + |pat|] == s[i..i + |pat|];
    }
    forall i | Occurs(t, pat, i) ensures Occurs(s, pat, i + 1) {
      assert s[i + 1..i + 1 + |pat|] == t[i..i + |pat|];
    }
  }

  lemma ContainsAnyCase(s: seq<byte>, w: seq<byte>)
    requires Small(w)
    ensures Contains(Lower(s), w) <==> HasAnyCase(Some(s), w)
  {
    hide Lower, Contains, SameWord, Small;
    ContainsExactly(Lower(s), w);
    LowerSlice(s, 0, |s|);
    forall i ensures Occurs(Lower(s), w, i) <==> OccursAnyCase(s, w, i) {
      if 0 <= i && i + |w| <= |s| {
        LowerSlice(s, i, i + |w|);
        LowerIs(s[i..i + |w|], w);
      }
    }
    if Contains(Lower(s), w) {
      var i :| Occurs(Lower(s), w, i);
      assert OccursAnyCase(s, w, i);
    }
  }

  /** The stored value of a header, by its name in small letters. */
  function Value(headers: map<seq<byte>, seq<byte>>, name: string): Option<seq<byte>> {
    if Ascii(name) in headers then Some(headers[Ascii(name)]) else None
  }

  /** Whether the server keeps the connection, by the value of its Connection header; nothing said, nothing changed. */
  ghost predicate Alive(connection: Option<seq<byte>>, before: bool) {
    HasAnyCase(connection, Ascii("keep-alive")) || (before && !HasAnyCase(connection, Ascii("close")))
  }

  /** What the blank line settles, by the stored headers. */
  lemma HeadersEndMeans(h: Head)
    ensures var r := HeadersEnd(h);
      && r.received && r.status == h.status && r.headers == h.headers
      && (r.keepAlive <==> Alive(Value(h.headers, "connection"), h.keepAlive))
      && (r.chunked <==> h.chunked || Has(Value(h.headers, "transfer-encoding"), Ascii("chunked")))
  {
    hide Contains, Lower, Strtoul;
    WordsSpelled();
    if CONNECTION in h.headers {
      ContainsAnyCase(h.headers[CONNECTION], KEEP_ALIVE);
      ContainsAnyCase(h.headers[CONNECTION], CLOSE);
    }
    if TRANSFER_ENCODING in h.headers {
      ContainsExactly(h.headers[TRANSFER_ENCODING], CHUNKED);
    }
  }

  // ---------------------------------------------------------------------------------------
  // headers_received_, and a connection that is lost.

  /** Behind the blank line. */
  predicate BehindHead(phase: Phase) {
    phase != StatusLine && phase != Headers
  }

  predicate ReceivedRight(p: Parser) {
    p.head.received <==> BehindHead(p.phase)
  }

  lemma LineReceived(p: Parser, line: seq<byte>)
    requires Sound(p) && LinePhase(p.phase) && ReceivedRight(p)
    ensures ReceivedRight(OnLine(p, line).p)
  {
    hide ParseStatusLine, ParseHeaderLine, ParseChunkSize, Strtoul, Contains, Lower;
  }

  lemma PassReceived(p: Parser)
    requires Sound(p) && p.rx != [] && p.phase != Complete && ReceivedRight(p)
    ensures ReceivedRight(OnePass(p).p)
  {
    hide OnLine, Stripped;
    if LinePhase(p.phase) && IndexOf(p.rx, LF) < |p.rx| {
      var i := IndexOf(p.rx, LF);
      LineReceived(p.(rx := p.rx[i + 1..]), Stripped(p.rx[..i]));
    }
  }

  lemma {:induction false} ProcessReceived(p: Parser)
    requires Sound(p) && ReceivedRight(p)
    ensures ReceivedRight(Process(p))
    decreases |p.rx|
  {
    hide OnePass;
    if p.rx != [] && p.phase != Complete {
      PassReceived(p);
      if OnePass(p).Next? {
        ProcessReceived(OnePass(p).p);
      }
    }
  }

  lemma {:induction false} FeedsReceived(p: Parser, pieces: seq<seq<byte>>)
    requires Sound(p) && ReceivedRight(p)
    ensures ReceivedRight(FeedAll(p, pieces))
    decreases |pieces|
  {
    hide Process;
    if pieces != [] {
      ProcessReceived(p.(rx := p.rx + pieces[0]));
      FeedsReceived(Feed(p, pieces[0]), pieces[1..]);
    }
  }

  /** Whatever a server sends, in whatever pieces: the headers count as received exactly behind their blank line. */
  lemma ReceivedExactly(keepAlive: bool, pieces: seq<seq<byte>>)
    ensures var q := FeedAll(Fresh(keepAlive), pieces); q.head.received <==> BehindHead(q.phase)
  {
    FeedsReceived(Fresh(keepAlive), pieces);
  }

  /** A connection that is lost here is an error: the head has come, but not all of the body. */
  predicate CutShort(p: Parser) {
    && p.head.received
    && if p.head.chunked then p.phase != Complete else p.total < p.head.contentLength
  }
}
