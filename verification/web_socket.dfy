// WebSocket framing as components/esp-ml307/src/web_socket.cc does it: what Send and
// SendControlFrame put on the wire, and what OnTcpData makes of a byte stream that arrives in
// arbitrary pieces (sections 5.2 to 5.4 of RFC 6455).
module WebSocket {
  import opened Bytes

  // ---------------------------------------------------------------------------------------
  // Masking.

  function Xor(a: nat, b: nat): nat {
    if a == 0 && b == 0 then 0 else (a % 2 + b % 2) % 2 + 2 * Xor(a / 2, b / 2)
  }

  lemma XorStep(a: nat, b: nat)
    ensures Xor(a, b) % 2 == (a % 2 + b % 2) % 2 && Xor(a, b) / 2 == Xor(a / 2, b / 2)
  {
  }

  lemma {:induction false} XorXor(a: nat, b: nat)
    ensures Xor(Xor(a, b), b) == a
  {
    hide Xor;
    if a == 0 && b == 0 {
      assert Xor(0, 0) == 0 by { XorZero(); }
    } else {
      XorXor(a / 2, b / 2);
      XorStep(a, b);
      XorStep(Xor(a, b), b);
    }
  }

  lemma XorZero()
    ensures Xor(0, 0) == 0
  {
  }

  /** Bit patterns that fit in n bits stay there. */
  lemma {:induction false} XorFits(a: nat, b: nat, n: nat)
    requires a < Pow2(n) && b < Pow2(n)
    ensures Xor(a, b) < Pow2(n)
  {
    if n > 0 && (a != 0 || b != 0) {
      XorFits(a / 2, b / 2, n - 1);
    }
  }

  function Pow2(n: nat): nat {
    if n == 0 then 1 else 2 * Pow2(n - 1)
  }

  function XorByte(a: byte, b: byte): (r: byte)
    ensures r == Xor(a, b)
  {
    assert Pow2(8) == 256 by {
      assert Pow2(2) == 4;
      assert Pow2(4) == 16;
      assert Pow2(6) == 64;
    }
    XorFits(a, b, 8);
    Xor(a, b)
  }

  type Key = k: seq<byte> | |k| == 4 witness [0, 0, 0, 0]

  function Masked(payload: seq<byte>, key: Key): (r: seq<byte>)
    ensures |r| == |payload|
  {
    seq(|payload|, i requires 0 <= i < |payload| => XorByte(payload[i], key[i % 4]))
  }

  /** Bit i of n. */
  predicate Bit(n: nat, i: nat) {
    if i == 0 then n % 2 == 1 else Bit(n / 2, i - 1)
  }

  lemma {:induction false} XorBits(a: nat, b: nat, i: nat)
    ensures Bit(Xor(a, b), i) <==> Bit(a, i) != Bit(b, i)
    decreases i
  {
    XorStep(a, b);
    if i > 0 {
      XorBits(a / 2, b / 2, i - 1);
    }
  }

  /** Each bit of the payload is turned over exactly where the key's byte has a one. */
  lemma MaskedBits(payload: seq<byte>, key: Key, k: nat, i: nat)
    requires k < |payload|
    ensures Bit(Masked(payload, key)[k], i) <==> Bit(payload[k], i) != Bit(key[k % 4], i)
  {
    XorBits(payload[k], key[k % 4], i);
  }

  lemma MaskedTwice(payload: seq<byte>, key: Key)
    ensures Masked(Masked(payload, key), key) == payload
  {
    forall i | 0 <= i < |payload|
      ensures Masked(Masked(payload, key), key)[i] == payload[i]
    {
      XorXor(payload[i], key[i % 4]);
    }
  }

  // ---------------------------------------------------------------------------------------
  // One frame.

  datatype Frame = Frame(fin: bool, opcode: nat, payload: seq<byte>)

  datatype Parsed = NeedMore | Got(frame: Frame, size: nat)

  function BigEndian(b: seq<byte>): nat {
    if b == [] then 0 else BigEndian(b[..|b| - 1]) * 256 + b[|b| - 1]
  }

  /** The bytes of the length field that follow the first two. */
  function ExtraLength(len7: nat): nat {
    if len7 == 126 then 2 else if len7 == 127 then 8 else 0
  }

  /** Lines 319-358: the frame at the head of b, once all of it is there. */
  function ParseFrame(b: seq<byte>): (p: Parsed)
    ensures p.Got? ==> 2 <= p.size <= |b|
  {
    if |b| < 2 then NeedMore
    else
      var len7 := b[1] % 128;
      var start := 2 + ExtraLength(len7);
      if |b| < start then NeedMore
      else
        var len := if start == 2 then len7 else BigEndian(b[2..start]);
        if b[1] >= 128 then
          if |b| < start + 4 + len then NeedMore
          else Got(Frame(b[0] >= 128, b[0] % 16, Masked(b[start + 4..start + 4 + len], b[start..start + 4])),
                   start + 4 + len)
        else if |b| < start + len then NeedMore
        else Got(Frame(b[0] >= 128, b[0] % 16, b[start..start + len]), start + len)
  }

  /** A complete frame is complete whatever follows it. */
  lemma ParseFramePrefix(b: seq<byte>, x: seq<byte>)
    requires ParseFrame(b).Got?
    ensures ParseFrame(b + x) == ParseFrame(b)
  {
    hide Masked, BigEndian;
    var start := 2 + ExtraLength(b[1] % 128);
    SliceOfSum(b, x, 2, start);
    var len := if start == 2 then b[1] % 128 else BigEndian(b[2..start]);
    if b[1] >= 128 {
      SliceOfSum(b, x, start, start + 4);
      SliceOfSum(b, x, start + 4, start + 4 + len);
    } else {
      SliceOfSum(b, x, start, start + len);
    }
  }

  lemma SliceOfSum(b: seq<byte>, x: seq<byte>, i: nat, j: nat)
    requires i <= j <= |b|
    ensures (b + x)[i..j] == b[i..j]
  {
  }

  const MAX_SEND := 65535
  const MAX_CONTROL := 125

  /** Send's and SendControlFrame's wire format. */
  function EncodeFrame(fin: bool, opcode: nat, payload: seq<byte>, key: Key): seq<byte>
    requires opcode < 16 && |payload| <= MAX_SEND
  {
    [(if fin then 128 else 0) + opcode]
    + (if |payload| < 126 then [128 + |payload|] else [128 + 126, |payload| / 256, |payload| % 256])
    + key + Masked(payload, key)
  }

  lemma {:induction false} ParseEncoded(fin: bool, opcode: nat, payload: seq<byte>, key: Key, rest: seq<byte>)
    requires opcode < 16 && |payload| <= MAX_SEND
    ensures var e := EncodeFrame(fin, opcode, payload, key);
      ParseFrame(e + rest) == Got(Frame(fin, opcode, payload), |e|)
  {
    hide ParseFrame, Masked;
    var n := |payload|;
    var first: byte := (if fin then 128 else 0) + opcode;
    var head: seq<byte> := [first] + if n < 126 then [128 + n] else [128 + 126, n / 256, n % 256];
    if n >= 126 {
      assert head[2..] == [n / 256, n % 256];
      TwoBytes(n);
    }
    ParseLaid(head, n, key, Masked(payload, key));
    MaskedTwice(payload, key);
    ParseFramePrefix(head + key + Masked(payload, key), rest);
  }

  lemma TwoBytes(n: nat)
    requires n <= MAX_SEND
    ensures BigEndian([n / 256, n % 256]) == n
  {
    var b: seq<byte> := [n / 256, n % 256];
    assert b[..1] == [n / 256] && b[..1][..0] == [];
    assert BigEndian(b[..1]) == n / 256;
  }

  /** A masked frame laid out behind its head. */
  lemma ParseLaid(head: seq<byte>, n: nat, key: Key, masked: seq<byte>)
    requires |head| >= 2 && head[1] >= 128 && |head| == 2 + ExtraLength(head[1] % 128) && |masked| == n
    requires n == if |head| == 2 then head[1] % 128 else BigEndian(head[2..])
    ensures ParseFrame(head + key + masked) ==
      Got(Frame(head[0] >= 128, head[0] % 16, Masked(masked, key)), |head| + 4 + n)
  {
    hide Masked, BigEndian;
    var e, start := head + key + masked, |head|;
    assert e[0] == head[0] && e[1] == head[1] && e[2..start] == head[2..];
    assert e[start..start + 4] == key && e[start + 4..start + 4 + n] == masked;
  }

  // ---------------------------------------------------------------------------------------
  // The receiver.

  datatype Event =
    | Accepted | Rejected                        // the handshake event bits
    | Data(payload: seq<byte>, binary: bool)     // on_data_
    | Disconnected                               // on_disconnected_
    | Pong(payload: seq<byte>)                   // a pong frame handed to SendControlFrame

  /** The fields OnTcpData works on, and everything it has told the outside so far. */
  datatype Receiver = Receiver(buffer: seq<byte>, handshaken: bool, connected: bool,
                               message: seq<byte>, fragmented: bool, binary: bool, log: seq<Event>)

  /** Lines 362-382: a text, binary or continuation frame. */
  function HandleData(r: Receiver, f: Frame): Receiver {
    if f.opcode != 0 && r.fragmented then r
    else
      var message := (if f.opcode != 0 then [] else r.message) + f.payload;
      var binary := if f.opcode != 0 then f.opcode == 2 else r.binary;
      if f.fin then
        r.(log := r.log + [Data(message, binary)], message := [], fragmented := false, binary := binary)
      else
        r.(message := message, fragmented := f.opcode != 0 || r.fragmented, binary := binary)
  }

  /** Lines 360-397. */
  function Handle(r: Receiver, f: Frame): (h: Receiver)
    ensures h.buffer == r.buffer && h.handshaken == r.handshaken && |h.log| >= |r.log|
  {
    if f.opcode <= 2 then HandleData(r, f)
    else if f.opcode == 8 then r.(connected := false, log := r.log + [Disconnected])
    else if f.opcode == 9 && |f.payload| <= MAX_CONTROL then r.(log := r.log + [Pong(f.payload)])
    else r
  }

  /** The frame loop: handle complete frames until the buffer holds none. */
  function Drain(r: Receiver): (d: Receiver)
    ensures ParseFrame(d.buffer) == NeedMore && d.handshaken == r.handshaken && |d.log| >= |r.log|
    decreases |r.buffer|
  {
    hide Handle, ParseFrame;
    match ParseFrame(r.buffer)
    case NeedMore => r
    case Got(f, size) => Drain(Handle(r.(buffer := r.buffer[size..]), f))
  }

  /** One pass of the frame loop, at an offset into the buffer b. */
  lemma DrainPass(r: Receiver, b: seq<byte>, offset: nat, f: Frame, size: nat)
    requires offset <= |b| && ParseFrame(b[offset..]) == Got(f, size)
    ensures offset + size <= |b|
    ensures Drain(r.(buffer := b[offset..])) == Drain(Handle(r, f).(buffer := b[offset + size..]))
  {
    hide Handle, ParseFrame;
    var left := b[offset..];
    assert left[size..] == b[offset + size..];
    HandleApart(r, f, left[size..]);
  }

  /** It ends where no frame is complete. */
  lemma DrainEnd(r: Receiver)
    requires ParseFrame(r.buffer) == NeedMore
    ensures Drain(r) == r
  {
    hide ParseFrame;
  }

  /** The bytes of the answers to pings; `draw` is the mask drawn behind a history of events. */
  function Answers(log: seq<Event>, draw: seq<Event> -> Key): seq<byte> {
    if log == [] then []
    else
      var before, e := log[..|log| - 1], log[|log| - 1];
      Answers(before, draw) +
        (if e.Pong? && |e.payload| <= MAX_CONTROL then EncodeFrame(true, 10, e.payload, draw(before)) else [])
  }

  lemma AnswersSnoc(log: seq<Event>, e: Event, draw: seq<Event> -> Key)
    ensures Answers(log + [e], draw) == Answers(log, draw) +
      (if e.Pong? && |e.payload| <= MAX_CONTROL then EncodeFrame(true, 10, e.payload, draw(log)) else [])
  {
    assert (log + [e])[..|log|] == log;
  }

  const BLANK_LINE: seq<byte> := [13, 10, 13, 10]
  // "HTTP/1.1 101"
  const SWITCHING: seq<byte> := [72, 84, 84, 80, 47, 49, 46, 49, 32, 49, 48, 49]

  /** The least offset from i on where pat occurs in s, or -1. */
  function Find(s: seq<byte>, pat: seq<byte>, i: nat): (p: int)
    ensures p == -1 || (i <= p && p + |pat| <= |s| && s[p..p + |pat|] == pat)
    decreases |s| - i
  {
    if i + |pat| > |s| then -1
    else if s[i..i + |pat|] == pat then i
    else Find(s, pat, i + 1)
  }

  /** OnTcpData */
  function Feed(r: Receiver, data: seq<byte>): Receiver {
    var b := r.buffer + data;
    if r.handshaken then Drain(r.(buffer := b))
    else
      var pos := Find(b, BLANK_LINE, 0);
      if pos < 0 then r.(buffer := b)
      else if Find(b[..pos + 4], SWITCHING, 0) >= 0 then
        Drain(r.(buffer := b[pos + 4..], handshaken := true, log := r.log + [Accepted]))
      else r.(buffer := b[pos + 4..], log := r.log + [Rejected])
  }

  function FeedAll(r: Receiver, pieces: seq<seq<byte>>): Receiver
    decreases |pieces|
  {
    if pieces == [] then r else FeedAll(Feed(r, pieces[0]), pieces[1..])
  }

  // ---------------------------------------------------------------------------------------
  // Segmentation.

  /** Handling a frame has nothing to do with the bytes behind it. */
  lemma HandleApart(r: Receiver, f: Frame, b: seq<byte>)
    ensures Handle(r.(buffer := b), f) == Handle(r, f).(buffer := b)
  {
  }

  lemma {:induction false} DrainAppend(r: Receiver, x: seq<byte>)
    ensures var d := Drain(r); Drain(d.(buffer := d.buffer + x)) == Drain(r.(buffer := r.buffer + x))
    decreases |r.buffer|
  {
    hide ParseFrame, Handle;
    match ParseFrame(r.buffer)
    case NeedMore =>
    case Got(f, size) =>
      ParseFramePrefix(r.buffer, x);
      assert (r.buffer + x)[size..] == r.buffer[size..] + x;
      var s := Handle(r.(buffer := r.buffer[size..]), f);
      HandleApart(r.(buffer := r.buffer[size..]), f, r.buffer[size..] + x);
      DrainAppend(s, x);
  }

  lemma {:induction false} FindPrefix(s: seq<byte>, x: seq<byte>, pat: seq<byte>, i: nat)
    requires Find(s, pat, i) >= 0
    ensures Find(s + x, pat, i) == Find(s, pat, i)
    decreases |s| - i
  {
    assert (s + x)[i..i + |pat|] == s[i..i + |pat|];
    if s[i..i + |pat|] != pat {
      FindPrefix(s, x, pat, i + 1);
    }
  }

  /** The first response block ends inside r's buffer followed by a, and is refused. */
  predicate Refuses(r: Receiver, a: seq<byte>) {
    var b := r.buffer + a;
    !r.handshaken && Find(b, BLANK_LINE, 0) >= 0 && Find(b[..Find(b, BLANK_LINE, 0) + 4], SWITCHING, 0) < 0
  }

  lemma {:induction false} FeedSplitsAfter(r: Receiver, a: seq<byte>, b: seq<byte>)
    requires r.handshaken
    ensures Feed(Feed(r, a), b) == Feed(r, a + b)
  {
    hide Drain, ParseFrame;
    assert r.buffer + a + b == r.buffer + (a + b);
    DrainAppend(r.(buffer := r.buffer + a), b);
  }

  lemma NothingYet(r: Receiver, a: seq<byte>)
    requires !r.handshaken && Find(r.buffer + a, BLANK_LINE, 0) < 0
    ensures Feed(r, a) == r.(buffer := r.buffer + a)
  {
    hide Drain, Find;
  }

  /** Only the buffered bytes and the new ones together matter. */
  lemma FeedJoined(r: Receiver, c: seq<byte>, b: seq<byte>, d: seq<byte>)
    requires r.buffer + d == c + b
    ensures Feed(r.(buffer := c), b) == Feed(r, d)
  {
    hide Drain, ParseFrame, Find;
  }

  lemma {:induction false} FeedSplitsAccepting(r: Receiver, a: seq<byte>, b: seq<byte>)
    requires !r.handshaken && Find(r.buffer + a, BLANK_LINE, 0) >= 0 && !Refuses(r, a)
    ensures Feed(Feed(r, a), b) == Feed(r, a + b)
  {
    hide Drain, ParseFrame, Find;
    assert r.buffer + a + b == r.buffer + (a + b);
    var c := r.buffer + a;
    var pos := Find(c, BLANK_LINE, 0);
    FindPrefix(c, b, BLANK_LINE, 0);
    assert (c + b)[..pos + 4] == c[..pos + 4];
    assert (c + b)[pos + 4..] == c[pos + 4..] + b;
    var s := r.(buffer := c[pos + 4..], handshaken := true, log := r.log + [Accepted]);
    assert Feed(r, a) == Drain(s);
    assert Feed(r, a + b) == Drain(s.(buffer := s.buffer + b));
    DrainAppend(s, b);
  }

  lemma {:induction false} FeedSplitsRefusing(r: Receiver, a: seq<byte>, b: seq<byte>)
    requires Refuses(r, a)
    ensures Feed(Feed(r, a), b) == Feed(r, a + b) <==> Find(Feed(r, a).buffer + b, BLANK_LINE, 0) < 0
  {
    hide Drain, ParseFrame, Find;
    assert r.buffer + a + b == r.buffer + (a + b);
    var c := r.buffer + a;
    var pos := Find(c, BLANK_LINE, 0);
    FindPrefix(c, b, BLANK_LINE, 0);
    assert (c + b)[..pos + 4] == c[..pos + 4];
    assert (c + b)[pos + 4..] == c[pos + 4..] + b;
    assert Feed(r, a).log == r.log + [Rejected] == Feed(r, a + b).log;
  }

  /**
   * Feeding a and then b is feeding a + b, exactly unless a completes a response that is refused
   * and a further response block is complete by the end of b: the refusal ends the call, and only
   * the next call looks at what came after.
   */
  lemma {:induction false} FeedSplits(r: Receiver, a: seq<byte>, b: seq<byte>)
    ensures Feed(Feed(r, a), b) == Feed(r, a + b)
      <==> !(Refuses(r, a) && Find(Feed(r, a).buffer + b, BLANK_LINE, 0) >= 0)
  {
    hide Feed, Find;
    if r.handshaken {
      FeedSplitsAfter(r, a, b);
    } else if Refuses(r, a) {
      FeedSplitsRefusing(r, a, b);
    } else if Find(r.buffer + a, BLANK_LINE, 0) >= 0 {
      FeedSplitsAccepting(r, a, b);
    } else {
      assert Feed(r, a) == r.(buffer := r.buffer + a) by { NothingYet(r, a); }
      assert r.buffer + a + b == r.buffer + (a + b);
      FeedJoined(r, r.buffer + a, b, a + b);
    }
  }

  /** So after the handshake the cuts between TCP segments are invisible. */
  lemma {:induction false} SegmentationIndependence(r: Receiver, pieces: seq<seq<byte>>)
    requires r.handshaken && ParseFrame(r.buffer) == NeedMore
    ensures FeedAll(r, pieces) == Feed(r, Flatten(pieces))
    decreases |pieces|
  {
    if pieces == [] {
      assert r.buffer + [] == r.buffer;
    } else {
      SegmentationIndependence(Feed(r, pieces[0]), pieces[1..]);
      FeedSplits(r, pieces[0], Flatten(pieces[1..]));
    }
  }

  // ---------------------------------------------------------------------------------------
  // The sender.

  /** One call of Send or of SendControlFrame, with the mask it drew. */
  datatype Call =
    | Send(payload: seq<byte>, binary: bool, fin: bool, key: Key)
    | Control(opcode: nat, payload: seq<byte>, key: Key)

  predicate Proper(c: Call) {
    c.Control? ==> c.opcode in {8, 9, 10}
  }

  /** What one call writes; a payload beyond the limit is refused and nothing is written. */
  function Wire(c: Call, continuation: bool): seq<byte>
    requires Proper(c)
  {
    match c
    case Send(p, binary, fin, key) =>
      if |p| > MAX_SEND then []
      else EncodeFrame(fin, if binary then 2 else if !continuation then 1 else 0, p, key)
    case Control(opcode, p, key) =>
      if |p| > MAX_CONTROL then [] else EncodeFrame(true, opcode, p, key)
  }

  /** Send's continuation_ field after the call. */
  function Continues(c: Call, continuation: bool): bool {
    if c.Send? && |c.payload| <= MAX_SEND then !c.fin else continuation
  }

  function Stream(calls: seq<Call>, continuation: bool): seq<byte>
    requires forall c | c in calls :: Proper(c)
  {
    if calls == [] then []
    else Wire(calls[0], continuation) + Stream(calls[1..], Continues(calls[0], continuation))
  }

  // What the calls mean to the application: the message being put together, if any, and the events.

  datatype Pending = Closed | Open(payload: seq<byte>, binary: bool)

  function Grown(m: Pending, p: seq<byte>, binary: bool): Pending {
    if m.Open? then m.(payload := m.payload + p) else Open(p, binary)
  }

  function PendingAfter(m: Pending, c: Call): Pending {
    if c.Control? || |c.payload| > MAX_SEND then m
    else if c.fin then Closed
    else Grown(m, c.payload, c.binary)
  }

  function EventsOf(m: Pending, c: Call): seq<Event> {
    match c
    case Send(p, binary, fin, _) =>
      if fin && |p| <= MAX_SEND then [Data(Grown(m, p, binary).payload, Grown(m, p, binary).binary)] else []
    case Control(opcode, p, _) =>
      if |p| > MAX_CONTROL then []
      else if opcode == 8 then [Disconnected]
      else if opcode == 9 then [Pong(p)]
      else []
  }

  function Meaning(m: Pending, calls: seq<Call>): seq<Event>
    decreases |calls|
  {
    if calls == [] then [] else EventsOf(m, calls[0]) + Meaning(PendingAfter(m, calls[0]), calls[1..])
  }

  /** No later fragment of a message is sent as binary. */
  predicate BinaryOnlyFirst(m: Pending, calls: seq<Call>)
    decreases |calls|
  {
    calls == [] ||
    ((calls[0].Send? && calls[0].binary && |calls[0].payload| <= MAX_SEND ==> m.Closed?)
     && BinaryOnlyFirst(PendingAfter(m, calls[0]), calls[1..]))
  }

  /** The receiver stands where the sender's messages leave it. */
  predicate InStep(r: Receiver, m: Pending) {
    && r.handshaken && r.buffer == []
    && r.fragmented == m.Open?
    && (m.Open? ==> r.message == m.payload && r.binary == m.binary)
  }

  lemma {:induction false} DrainEmpty(r: Receiver)
    requires r.buffer == []
    ensures Drain(r) == r
  {
  }

  lemma {:induction false} HandleCall(r: Receiver, m: Pending, c: Call, rest: seq<byte>)
    requires InStep(r, m) && Proper(c)
    requires c.Send? && c.binary && |c.payload| <= MAX_SEND ==> m.Closed?
    ensures exists s ::
      && InStep(s, PendingAfter(m, c)) && s.log == r.log + EventsOf(m, c)
      && Drain(r.(buffer := Wire(c, m.Open?) + rest)) == Drain(s.(buffer := rest))
  {
    var w := Wire(c, m.Open?);
    if w == [] {
      assert w + rest == rest;
      assert r.log + [] == r.log;
      assert InStep(r, PendingAfter(m, c));
    } else {
      var opcode := if c.Control? then c.opcode else if c.binary then 2 else if m.Closed? then 1 else 0;
      var f := Frame(c.Control? || c.fin, opcode, c.payload);
      ParseEncoded(f.fin, opcode, c.payload, c.key, rest);
      assert (w + rest)[|w|..] == rest;
      var s := Handle(r, f);
      assert Handle(r.(buffer := rest), f) == s.(buffer := rest);
      assert [] + c.payload == c.payload;
      assert r.log + [] == r.log;
      assert InStep(s, PendingAfter(m, c)) && s.log == r.log + EventsOf(m, c);
    }
  }

  /**
   * Round trip: whatever is sent, in any fragments, with any masks, with control frames in between,
   * is delivered exactly once, in order, with its bytes and kind.
   */
  lemma {:induction false} RoundTrip(r: Receiver, m: Pending, calls: seq<Call>)
    requires InStep(r, m) && BinaryOnlyFirst(m, calls)
    requires forall c | c in calls :: Proper(c)
    ensures Feed(r, Stream(calls, m.Open?)).log == r.log + Meaning(m, calls)
    ensures Feed(r, Stream(calls, m.Open?)).buffer == []
    decreases |calls|
  {
    hide ParseFrame, Handle, Drain, EventsOf, Wire;
    assert [] + Stream(calls, m.Open?) == Stream(calls, m.Open?);
    if calls == [] {
      DrainEmpty(r);
      assert r.log + [] == r.log;
    } else {
      var c := calls[0];
      var rest := Stream(calls[1..], Continues(c, m.Open?));
      HandleCall(r, m, c, rest);
      var s :| InStep(s, PendingAfter(m, c)) && s.log == r.log + EventsOf(m, c)
        && Drain(r.(buffer := Wire(c, m.Open?) + rest)) == Drain(s.(buffer := rest));
      assert Continues(c, m.Open?) == PendingAfter(m, c).Open?;
      RoundTrip(s, PendingAfter(m, c), calls[1..]);
      assert [] + rest == rest;
      assert r.log + EventsOf(m, c) + Meaning(PendingAfter(m, c), calls[1..])
          == r.log + (EventsOf(m, c) + Meaning(PendingAfter(m, c), calls[1..]));
    }
  }

  /** The same when the stream arrives in arbitrary TCP segments. */
  lemma {:induction false} RoundTripInPieces(r: Receiver, calls: seq<Call>, pieces: seq<seq<byte>>)
    requires InStep(r, Closed) && BinaryOnlyFirst(Closed, calls)
    requires forall c | c in calls :: Proper(c)
    requires Flatten(pieces) == Stream(calls, false)
    ensures FeedAll(r, pieces).log == r.log + Meaning(Closed, calls)
  {
    RoundTrip(r, Closed, calls);
    SegmentationIndependence(r, pieces);
  }

  // ---------------------------------------------------------------------------------------
  // One message sent in fragments.

  function Fragments(parts: seq<seq<byte>>, binary: bool, keys: seq<Key>): (calls: seq<Call>)
    requires |keys| == |parts|
    ensures forall c | c in calls :: Proper(c)
  {
    if parts == [] then []
    else [Send(parts[0], binary, |parts| == 1, keys[0])] + Fragments(parts[1..], binary, keys[1..])
  }

  lemma MeaningCons(m: Pending, c: Call, rest: seq<Call>)
    ensures Meaning(m, [c] + rest) == EventsOf(m, c) + Meaning(PendingAfter(m, c), rest)
    ensures BinaryOnlyFirst(m, [c] + rest) <==>
      (c.Send? && c.binary && |c.payload| <= MAX_SEND ==> m.Closed?) && BinaryOnlyFirst(PendingAfter(m, c), rest)
    ensures Meaning(m, []) == [] && BinaryOnlyFirst(m, [])
  {
    assert ([c] + rest)[1..] == rest;
  }

  lemma {:induction false} TextFragmentsMean(m: Pending, parts: seq<seq<byte>>, keys: seq<Key>)
    requires parts != [] && |keys| == |parts| && forall p | p in parts :: |p| <= MAX_SEND
    requires m.Open? ==> !m.binary
    ensures var calls := Fragments(parts, false, keys);
      && BinaryOnlyFirst(m, calls)
      && Meaning(m, calls) == [Data((if m.Open? then m.payload else []) + Flatten(parts), false)]
    decreases |parts|
  {
    hide Meaning, BinaryOnlyFirst, Flatten, Fragments;
    FragmentsFirst(parts, false, keys);
    var c := Send(parts[0], false, |parts| == 1, keys[0]);
    var rest := Fragments(parts[1..], false, keys[1..]);
    var before := if m.Open? then m.payload else [];
    assert parts[0] in parts;
    MeaningCons(m, c, rest);
    assert before + Flatten(parts) == before + parts[0] + Flatten(parts[1..]);
    assert Grown(m, parts[0], false).payload == before + parts[0];
    if |parts| == 1 {
      assert rest == [] && Flatten(parts[1..]) == [] && PendingAfter(m, c) == Closed;
      MeaningCons(Closed, c, []);
      assert before + Flatten(parts) == before + parts[0];
    } else {
      TextFragmentsMean(PendingAfter(m, c), parts[1..], keys[1..]);
    }
  }

  lemma FragmentsFirst(parts: seq<seq<byte>>, binary: bool, keys: seq<Key>)
    requires parts != [] && |keys| == |parts|
    ensures Fragments(parts, binary, keys) ==
      [Send(parts[0], binary, |parts| == 1, keys[0])] + Fragments(parts[1..], binary, keys[1..])
    ensures Flatten(parts) == parts[0] + Flatten(parts[1..])
    ensures |parts| == 1 ==> Flatten(parts[1..]) == [] && Fragments(parts[1..], binary, keys[1..]) == []
  {
  }

  /** While a message is open, frames that start one are dropped. */
  lemma {:induction false} BinaryContinuationDropped(
      r: Receiver, parts: seq<seq<byte>>, keys: seq<Key>, continuation: bool)
    requires r.handshaken && r.buffer == [] && r.fragmented && |keys| == |parts|
    requires forall p | p in parts :: |p| <= MAX_SEND
    ensures Feed(r, Stream(Fragments(parts, true, keys), continuation)) == r
    decreases |parts|
  {
    hide ParseFrame;
    var s := Stream(Fragments(parts, true, keys), continuation);
    assert [] + s == s;
    if parts == [] {
      DrainEmpty(r);
    } else {
      var c := Send(parts[0], true, |parts| == 1, keys[0]);
      assert parts[0] in parts;
      assert Fragments(parts, true, keys)[1..] == Fragments(parts[1..], true, keys[1..]);
      var rest := Stream(Fragments(parts[1..], true, keys[1..]), Continues(c, continuation));
      var w := Wire(c, continuation);
      ParseEncoded(c.fin, 2, c.payload, c.key, rest);
      assert (w + rest)[|w|..] == rest;
      assert Handle(r.(buffer := rest), Frame(c.fin, 2, c.payload)) == r.(buffer := rest);
      BinaryContinuationDropped(r, parts[1..], keys[1..], Continues(c, continuation));
      assert [] + rest == rest;
    }
  }

  /**
   * A message is delivered whole exactly when it is text or goes out as one frame: Send repeats
   * opcode 2 on the later fragments of a binary message, and OnTcpData drops those.
   */
  lemma {:induction false} FragmentedDelivery(r: Receiver, parts: seq<seq<byte>>, binary: bool, keys: seq<Key>)
    requires InStep(r, Closed) && parts != [] && |keys| == |parts| && forall p | p in parts :: |p| <= MAX_SEND
    ensures Feed(r, Stream(Fragments(parts, binary, keys), false)).log == r.log + [Data(Flatten(parts), binary)]
      <==> !binary || |parts| == 1
  {
    hide ParseFrame, Feed, Stream, Meaning, BinaryOnlyFirst, Handle;
    var calls := Fragments(parts, binary, keys);
    assert parts[0] in parts;
    if !binary {
      TextFragmentsMean(Closed, parts, keys);
      assert [] + Flatten(parts) == Flatten(parts);
      RoundTrip(r, Closed, calls);
    } else if |parts| == 1 {
      SingleBinaryMeans(parts[0], keys[0]);
      assert parts[1..] == [] && Flatten(parts) == parts[0] + [] == parts[0];
      assert Fragments(parts[1..], true, keys[1..]) == [];
      assert calls == [Send(parts[0], true, true, keys[0])];
      RoundTrip(r, Closed, calls);
    } else {
      FirstBinaryFragment(r, parts, keys);
    }
  }

  lemma SingleBinaryMeans(p: seq<byte>, key: Key)
    requires |p| <= MAX_SEND
    ensures var calls := [Send(p, true, true, key)];
      BinaryOnlyFirst(Closed, calls) && Meaning(Closed, calls) == [Data(p, true)]
  {
    var calls := [Send(p, true, true, key)];
    assert calls[1..] == [];
  }

  lemma {:induction false} FirstBinaryFragment(r: Receiver, parts: seq<seq<byte>>, keys: seq<Key>)
    requires InStep(r, Closed) && |parts| > 1 && |keys| == |parts| && forall p | p in parts :: |p| <= MAX_SEND
    ensures Feed(r, Stream(Fragments(parts, true, keys), false)).log == r.log
  {
    hide ParseFrame;
    var c := Send(parts[0], true, false, keys[0]);
    assert parts[0] in parts;
    var calls := Fragments(parts, true, keys);
    assert calls[1..] == Fragments(parts[1..], true, keys[1..]);
    var rest := Stream(calls[1..], true);
    var w := Wire(c, false);
    assert Stream(calls, false) == w + rest;
    ParseEncoded(false, 2, c.payload, c.key, rest);
    assert (w + rest)[|w|..] == rest && [] + (w + rest) == w + rest;
    var s := Handle(r, Frame(false, 2, c.payload));
    BinaryContinuationDropped(s, parts[1..], keys[1..], true);
    assert [] + rest == rest;
  }
}
