// What a server sends and the client makes of it: frames without a mask (section 5.1 of RFC 6455) in
// each of the three forms of the length field, messages in fragments with control frames between
// them, and the response that opens the stream.
module WebSocketServer {
  import opened Bytes
  import opened Common
  import opened WebSocket

  // ---------------------------------------------------------------------------------------
  // One frame.

  /** The forms of the length: in the second byte, in two more bytes, in eight more. */
  datatype Form = Short | Medium | Long

  /** A frame together with the form of its length and the mask, if there is one. */
  datatype Sent = Sent(frame: Frame, form: Form, mask: Option<Key>)

  function Width(form: Form): nat {
    match form
    case Short => 0
    case Medium => 2
    case Long => 8
  }

  function Pow256(k: nat): nat {
    if k == 0 then 1 else 256 * Pow256(k - 1)
  }

  /** n in k bytes, the most significant one first. */
  function BigBytes(n: nat, k: nat): (b: seq<byte>)
    ensures |b| == k
  {
    if k == 0 then [] else BigBytes(n / 256, k - 1) + [n % 256]
  }

  /** A frame that can be sent so: an opcode of four bits, and a length that has this form. */
  predicate Sendable(s: Sent) {
    && s.frame.opcode < 16
    && if s.form.Short? then |s.frame.payload| < 126 else |s.frame.payload| < Pow256(Width(s.form))
  }

  function Head(s: Sent): (b: seq<byte>)
    requires Sendable(s)
    ensures |b| == 2 + Width(s.form)
  {
    var n := |s.frame.payload|;
    [(if s.frame.fin then 128 else 0) + s.frame.opcode,
     (if s.mask.Some? then 128 else 0) + (match s.form case Short => n case Medium => 126 case Long => 127)]
    + BigBytes(n, Width(s.form))
  }

  /** The bytes of a frame. */
  function Laid(s: Sent): seq<byte>
    requires Sendable(s)
  {
    match s.mask
    case None => Head(s) + s.frame.payload
    case Some(key) => Head(s) + key + Masked(s.frame.payload, key)
  }

  lemma {:induction false} BigBytesRead(n: nat, k: nat)
    requires n < Pow256(k)
    ensures BigEndian(BigBytes(n, k)) == n
  {
    if k > 0 {
      var b := BigBytes(n, k);
      BigBytesRead(n / 256, k - 1);
      assert b[..|b| - 1] == BigBytes(n / 256, k - 1);
    }
  }

  /** A frame laid out without a mask behind its head. */
  lemma ParsePlain(head: seq<byte>, n: nat, payload: seq<byte>)
    requires |head| >= 2 && head[1] < 128 && |head| == 2 + ExtraLength(head[1]) && |payload| == n
    requires n == if |head| == 2 then head[1] else BigEndian(head[2..])
    ensures ParseFrame(head + payload) == Got(Frame(head[0] >= 128, head[0] % 16, payload), |head| + n)
  {
    hide BigEndian;
    var e, start := head + payload, |head|;
    assert e[0] == head[0] && e[1] == head[1] && e[2..start] == head[2..];
    assert e[start..start + n] == payload;
  }

  lemma HeadSays(s: Sent)
    requires Sendable(s)
    ensures var h := Head(s);
      && h[0] == (if s.frame.fin then 128 else 0) + s.frame.opcode
      && (h[1] >= 128 <==> s.mask.Some?) && |h| == 2 + ExtraLength(h[1] % 128)
      && |s.frame.payload| == if |h| == 2 then h[1] % 128 else BigEndian(h[2..])
  {
    hide BigEndian, BigBytes;
    assert Head(s)[2..] == BigBytes(|s.frame.payload|, Width(s.form));
    if !s.form.Short? {
      BigBytesRead(|s.frame.payload|, Width(s.form));
    }
  }

  /** A frame in any form, with a mask or without one, is decoded to what it is and to its exact size. */
  lemma {:induction false} ParseLaidFrame(s: Sent, rest: seq<byte>)
    requires Sendable(s)
    ensures ParseFrame(Laid(s) + rest) == Got(s.frame, |Laid(s)|)
  {
    hide ParseFrame, Masked, BigEndian, Head;
    HeadSays(s);
    var n := |s.frame.payload|;
    match s.mask {
      case None => ParsePlain(Head(s), n, s.frame.payload);
      case Some(key) =>
        ParseLaid(Head(s), n, key, Masked(s.frame.payload, key));
        MaskedTwice(s.frame.payload, key);
    }
    ParseFramePrefix(Laid(s), rest);
  }

  /** What the client itself sends always has a mask, and the shortest form of the length that fits. */
  lemma ClientFrame(fin: bool, opcode: nat, payload: seq<byte>, key: Key)
    requires opcode < 16 && |payload| <= 65535
    ensures var s := Sent(Frame(fin, opcode, payload), if |payload| < 126 then Short else Medium, Some(key));
      Sendable(s) && EncodeFrame(fin, opcode, payload, key) == Laid(s)
  {
    hide Masked;
    var n := |payload|;
    if n >= 126 {
      assert BigBytes(n / 256 / 256, 0) == [] && BigBytes(n / 256, 1) == [n / 256];
      assert BigBytes(n, 2) == [n / 256] + [n % 256] == [n / 256, n % 256];
      assert Pow256(1) == 256;
    } else {
      assert BigBytes(n, 0) == [];
    }
  }

  // ---------------------------------------------------------------------------------------
  // A stream of frames.

  function Stream(sent: seq<Sent>): seq<byte>
    requires forall s | s in sent :: Sendable(s)
  {
    if sent == [] then [] else Laid(sent[0]) + Stream(sent[1..])
  }

  function Frames(sent: seq<Sent>): (f: seq<Frame>)
    ensures |f| == |sent|
  {
    if sent == [] then [] else [sent[0].frame] + Frames(sent[1..])
  }

  function HandleAll(r: Receiver, frames: seq<Frame>): (h: Receiver)
    ensures h.buffer == r.buffer && h.handshaken == r.handshaken
    decreases |frames|
  {
    if frames == [] then r else HandleAll(Handle(r, frames[0]), frames[1..])
  }

  lemma {:induction false} StreamDrained(r: Receiver, sent: seq<Sent>)
    requires r.buffer == [] && forall s | s in sent :: Sendable(s)
    ensures Drain(r.(buffer := Stream(sent))) == HandleAll(r, Frames(sent))
    decreases |sent|
  {
    hide ParseFrame, Handle, Laid;
    if sent == [] {
      EmptyDrained(r);
    } else {
      var f, rest := sent[0].frame, Stream(sent[1..]);
      var b := Laid(sent[0]) + rest;
      ParseLaidFrame(sent[0], rest);
      assert b[0..] == b && b[|Laid(sent[0])|..] == rest;
      DrainPass(r, b, 0, f, |Laid(sent[0])|);
      assert Frames(sent)[1..] == Frames(sent[1..]);
      StreamDrained(Handle(r, f), sent[1..]);
    }
  }

  lemma EmptyDrained(r: Receiver)
    requires r.buffer == []
    ensures Drain(r) == r && ParseFrame(r.buffer) == NeedMore
  {
  }

  /** Behind the handshake the client handles each frame once, in order, in whatever pieces they come. */
  lemma {:induction false} StreamHandled(r: Receiver, sent: seq<Sent>, pieces: seq<seq<byte>>)
    requires r.handshaken && r.buffer == [] && forall s | s in sent :: Sendable(s)
    requires Flatten(pieces) == Stream(sent)
    ensures FeedAll(r, pieces) == HandleAll(r, Frames(sent))
  {
    hide ParseFrame, Handle, Laid, HandleAll, Drain, FeedAll;
    EmptyDrained(r);
    SegmentationIndependence(r, pieces);
    assert [] + Stream(sent) == Stream(sent);
    StreamDrained(r, sent);
  }

  // ---------------------------------------------------------------------------------------
  // What the frames mean.

  function AfterFrame(m: Pending, f: Frame): Pending {
    if f.opcode > 2 then m
    else if f.fin then Closed
    else Grown(m, f.payload, f.opcode == 2)
  }

  /** A frame of opcode 1 or 2 starts a message, one of opcode 0 goes on with it. */
  function Tells(m: Pending, f: Frame): seq<Event> {
    if f.opcode <= 2 then
      if f.fin then
        var whole := Grown(m, f.payload, f.opcode == 2);
        [Data(whole.payload, whole.binary)]
      else []
    else if f.opcode == 8 then [Disconnected]
    else if f.opcode == 9 && |f.payload| <= 125 then [Pong(f.payload)]
    else []
  }

  function Meant(m: Pending, frames: seq<Frame>): seq<Event>
    decreases |frames|
  {
    if frames == [] then [] else Tells(m, frames[0]) + Meant(AfterFrame(m, frames[0]), frames[1..])
  }

  predicate FitsIn(m: Pending, f: Frame) {
    f.opcode <= 2 ==> (f.opcode == 0 <==> m.Open?)
  }

  /** Messages are begun, continued and ended in turn, as section 5.4 of RFC 6455 demands. */
  predicate InTurn(m: Pending, frames: seq<Frame>)
    decreases |frames|
  {
    frames == [] || (FitsIn(m, frames[0]) && InTurn(AfterFrame(m, frames[0]), frames[1..]))
  }

  predicate Closes(frames: seq<Frame>) {
    exists f | f in frames :: f.opcode == 8
  }

  lemma {:induction false} HandleMeans(r: Receiver, m: Pending, f: Frame)
    requires InStep(r, m) && FitsIn(m, f)
    ensures InStep(Handle(r, f), AfterFrame(m, f)) && Handle(r, f).log == r.log + Tells(m, f)
    ensures Handle(r, f).connected == (r.connected && f.opcode != 8)
  {
    assert r.log + [] == r.log && [] + f.payload == f.payload;
  }

  lemma {:induction false} HandleAllMeans(r: Receiver, m: Pending, frames: seq<Frame>)
    requires InStep(r, m) && InTurn(m, frames)
    ensures HandleAll(r, frames).log == r.log + Meant(m, frames)
    ensures HandleAll(r, frames).connected == (r.connected && !Closes(frames))
    decreases |frames|
  {
    hide Handle, Tells, AfterFrame, InStep, FitsIn;
    if frames == [] {
      assert r.log + [] == r.log;
    } else {
      var f, more := frames[0], frames[1..];
      HandleMeans(r, m, f);
      HandleAllMeans(Handle(r, f), AfterFrame(m, f), more);
      assert Closes(frames) <==> f.opcode == 8 || Closes(more) by {
        assert frames == [f] + more;
      }
      var told, rest := Tells(m, f), Meant(AfterFrame(m, f), more);
      assert r.log + told + rest == r.log + (told + rest);
    }
  }

  // ---------------------------------------------------------------------------------------
  // Messages.

  /** A message as its sender cuts it. */
  datatype Message = Message(parts: seq<seq<byte>>, binary: bool)

  /** The fragments behind the first. */
  function Later(parts: seq<seq<byte>>): seq<Frame> {
    if parts == [] then [] else [Frame(|parts| == 1, 0, parts[0])] + Later(parts[1..])
  }

  function InFragments(m: Message): seq<Frame>
    requires m.parts != []
  {
    [Frame(|m.parts| == 1, if m.binary then 2 else 1, m.parts[0])] + Later(m.parts[1..])
  }

  function AllFragments(messages: seq<Message>): seq<Frame>
    requires forall m | m in messages :: m.parts != []
  {
    if messages == [] then [] else InFragments(messages[0]) + AllFragments(messages[1..])
  }

  /** The data frames among the frames sent. */
  function DataFrames(frames: seq<Frame>): seq<Frame> {
    if frames == [] then [] else (if frames[0].opcode <= 2 then [frames[0]] else []) + DataFrames(frames[1..])
  }

  /** The payloads of the pings among them that a control frame may carry. */
  function Pings(frames: seq<Frame>): seq<seq<byte>> {
    if frames == [] then []
    else
      var f := frames[0];
      (if f.opcode == 9 && |f.payload| <= 125 then [f.payload] else []) + Pings(frames[1..])
  }

  /** What is delivered to the application, what is answered. */
  function Delivered(log: seq<Event>): seq<Event> {
    if log == [] then [] else (if log[0].Data? then [log[0]] else []) + Delivered(log[1..])
  }

  function Answered(log: seq<Event>): seq<seq<byte>> {
    if log == [] then [] else (if log[0].Pong? then [log[0].payload] else []) + Answered(log[1..])
  }

  function Wholes(messages: seq<Message>): seq<Event> {
    if messages == [] then []
    else [Data(Flatten(messages[0].parts), messages[0].binary)] + Wholes(messages[1..])
  }

  lemma DeliveredCons(e: seq<Event>, log: seq<Event>)
    requires |e| <= 1
    ensures Delivered(e + log) == (if e != [] && e[0].Data? then e else []) + Delivered(log)
    ensures Answered(e + log) == (if e != [] && e[0].Pong? then [e[0].payload] else []) + Answered(log)
  {
    if e == [] {
      assert e + log == log;
    } else {
      assert (e + log)[1..] == log && e == [e[0]];
    }
  }

  lemma {:induction false} PingsAnswered(m: Pending, frames: seq<Frame>)
    ensures Answered(Meant(m, frames)) == Pings(frames)
    decreases |frames|
  {
    if frames != [] {
      var m2 := AfterFrame(m, frames[0]);
      DeliveredCons(Tells(m, frames[0]), Meant(m2, frames[1..]));
      PingsAnswered(m2, frames[1..]);
    }
  }

  /** What the data frames are still to bring: the rest of an open message, then whole ones. */
  function Expected(m: Pending, parts: seq<seq<byte>>, messages: seq<Message>): seq<Event> {
    (if m.Open? then [Data(m.payload + Flatten(parts), m.binary)] else []) + Wholes(messages)
  }

  ghost predicate Brings(m: Pending, parts: seq<seq<byte>>, messages: seq<Message>, data: seq<Frame>) {
    && (m.Open? <==> parts != [])
    && (forall w | w in messages :: w.parts != [])
    && data == Later(parts) + AllFragments(messages)
  }

  /** A data frame is the next fragment: of the open message, or the first one of a new message. */
  lemma NextFragment(m: Pending, parts: seq<seq<byte>>, messages: seq<Message>, f: Frame, data: seq<Frame>)
      returns (parts2: seq<seq<byte>>, messages2: seq<Message>)
    requires Brings(m, parts, messages, [f] + data) && f.opcode <= 2
    ensures FitsIn(m, f) && Brings(AfterFrame(m, f), parts2, messages2, data)
    ensures Expected(m, parts, messages) == Tells(m, f) + Expected(AfterFrame(m, f), parts2, messages2)
  {
    var all := Later(parts) + AllFragments(messages);
    assert all[0] == f && all[1..] == data;
    if m.Open? {
      parts2, messages2 := parts[1..], messages;
      assert all[1..] == Later(parts2) + AllFragments(messages);
      assert m.payload + Flatten(parts) == m.payload + parts[0] + Flatten(parts2);
      if parts2 == [] {
        assert m.payload + Flatten(parts) == m.payload + parts[0];
      }
    } else {
      assert Later(parts) == [] && messages != [];
      var w := messages[0];
      assert w in messages;
      parts2, messages2 := w.parts[1..], messages[1..];
      assert all[1..] == Later(parts2) + AllFragments(messages2);
      assert Flatten(w.parts) == w.parts[0] + Flatten(parts2);
      if parts2 == [] {
        assert Flatten(w.parts) == w.parts[0];
      }
      assert Wholes(messages) == [Data(Flatten(w.parts), w.binary)] + Wholes(messages2);
    }
  }

  lemma {:induction false} BringsExpected(
      m: Pending, parts: seq<seq<byte>>, messages: seq<Message>, frames: seq<Frame>)
    requires Brings(m, parts, messages, DataFrames(frames))
    ensures InTurn(m, frames) && Delivered(Meant(m, frames)) == Expected(m, parts, messages)
    decreases |frames|
  {
    hide Brings, Expected, FitsIn;
    if frames == [] {
      NothingMore(m, parts, messages);
    } else {
      var f, more := frames[0], frames[1..];
      var m2 := AfterFrame(m, f);
      DeliveredCons(Tells(m, f), Meant(m2, more));
      if f.opcode <= 2 {
        assert DataFrames(frames) == [f] + DataFrames(more);
        var parts2, messages2 := NextFragment(m, parts, messages, f, DataFrames(more));
        BringsExpected(m2, parts2, messages2, more);
      } else {
        assert DataFrames(frames) == DataFrames(more);
        assert FitsIn(m, f) by { ControlFits(m, f); }
        BringsExpected(m, parts, messages, more);
      }
    }
  }

  lemma ControlFits(m: Pending, f: Frame)
    requires f.opcode > 2
    ensures FitsIn(m, f)
  {
  }

  lemma FragmentsThere(messages: seq<Message>)
    requires forall w | w in messages :: w.parts != []
    ensures messages != [] ==> AllFragments(messages) != []
  {
  }

  lemma NothingMore(m: Pending, parts: seq<seq<byte>>, messages: seq<Message>)
    requires Brings(m, parts, messages, [])
    ensures Expected(m, parts, messages) == []
  {
    FragmentsThere(messages);
  }

  /**
   * Whatever messages a server sends, text or binary, cut into any fragments, with any control frames
   * between them, in any forms of the length and in any TCP segments: each is delivered whole, once,
   * in order and with its kind; each ping is answered with its payload; and the connection is taken
   * for closed exactly if there is a close frame.
   */
  lemma {:induction false} MessagesDelivered(
      r: Receiver, messages: seq<Message>, sent: seq<Sent>, pieces: seq<seq<byte>>)
    requires InStep(r, Closed) && (forall s | s in sent :: Sendable(s)) && Flatten(pieces) == Stream(sent)
    requires forall m | m in messages :: m.parts != []
    requires DataFrames(Frames(sent)) == AllFragments(messages)
    ensures var t := FeedAll(r, pieces);
      && t.log == r.log + Meant(Closed, Frames(sent))
      && Delivered(Meant(Closed, Frames(sent))) == Wholes(messages)
      && Answered(Meant(Closed, Frames(sent))) == Pings(Frames(sent))
      && t.connected == (r.connected && !Closes(Frames(sent))) && t.buffer == []
  {
    hide FeedAll, Handle, Meant, Delivered, DataFrames, AllFragments, Closes, HandleAll, Stream, Frames, Wholes;
    StreamHandled(r, sent, pieces);
    var frames := Frames(sent);
    assert [] + AllFragments(messages) == AllFragments(messages);
    BringsExpected(Closed, [], messages, frames);
    assert [] + Wholes(messages) == Wholes(messages);
    HandleAllMeans(r, Closed, frames);
    PingsAnswered(Closed, frames);
  }

  /** The frame that RFC 6455 gives as its example in section 5.7: "Hello" in one text frame. */
  lemma HelloDelivered(r: Receiver)
    requires InStep(r, Closed)
    ensures Feed(r, [0x81, 0x05] + Ascii("Hello")).log == r.log + [Data(Ascii("Hello"), false)]
  {
    hide ParseFrame, Feed, Handle;
    var s := Sent(Frame(true, 1, Ascii("Hello")), Short, None);
    var b: seq<byte> := [0x81, 0x05] + Ascii("Hello");
    assert Laid(s) == b;
    assert [s][1..] == [] && Stream([s]) == b + [] == b;
    assert [b][1..] == [] && Flatten([b]) == b;
    assert FeedAll(r, [b]) == Feed(r, b);
    StreamHandled(r, [s], [b]);
    assert Frames([s])[1..] == [];
    assert HandleAll(r, Frames([s])) == Handle(r, s.frame);
    HandleMeans(r, Closed, s.frame);
  }

  // ---------------------------------------------------------------------------------------
  // What the answers to pings are on the wire.

  /** The frames that a stream consists of. */
  function FramesIn(b: seq<byte>): seq<Frame>
    decreases |b|
  {
    match ParseFrame(b)
    case NeedMore => []
    case Got(f, size) => [f] + FramesIn(b[size..])
  }

  /** It ends with the end of a frame. */
  predicate EndsWhole(b: seq<byte>)
    decreases |b|
  {
    b == [] || (ParseFrame(b).Got? && EndsWhole(b[ParseFrame(b).size..]))
  }

  function PongFrames(payloads: seq<seq<byte>>): seq<Frame> {
    if payloads == [] then [] else [Frame(true, 10, payloads[0])] + PongFrames(payloads[1..])
  }

  lemma {:induction false} FramesInAppend(a: seq<byte>, x: seq<byte>)
    requires EndsWhole(a)
    ensures FramesIn(a + x) == FramesIn(a) + FramesIn(x)
    ensures EndsWhole(x) ==> EndsWhole(a + x)
    decreases |a|
  {
    hide ParseFrame;
    if a == [] {
      EmptyDrained(Receiver(a, true, true, [], false, false, []));
      assert a + x == x;
    } else {
      var size := ParseFrame(a).size;
      ParseFramePrefix(a, x);
      assert (a + x)[size..] == a[size..] + x;
      FramesInAppend(a[size..], x);
    }
  }

  lemma OneFrame(e: seq<byte>, f: Frame)
    requires ParseFrame(e) == Got(f, |e|)
    ensures FramesIn(e) == [f] && EndsWhole(e)
  {
    hide ParseFrame;
    assert e[|e|..] == [];
    EmptyDrained(Receiver([], true, true, [], false, false, []));
    assert FramesIn([]) == [];
  }

  lemma {:induction false} PongFramesAppend(a: seq<seq<byte>>, p: seq<byte>)
    ensures PongFrames(a + [p]) == PongFrames(a) + [Frame(true, 10, p)]
  {
    if a == [] {
      assert a + [p] == [p] && [p][1..] == [];
    } else {
      assert (a + [p])[1..] == a[1..] + [p];
      PongFramesAppend(a[1..], p);
    }
  }

  lemma {:induction false} AnsweredAppend(log: seq<Event>, e: Event)
    ensures Answered(log + [e]) == Answered(log) + if e.Pong? then [e.payload] else []
  {
    if log == [] {
      assert log + [e] == [e] && [e][1..] == [] && Answered([]) == [];
    } else {
      assert (log + [e])[1..] == log[1..] + [e] && (log + [e])[0] == log[0];
      AnsweredAppend(log[1..], e);
      var first, last := if log[0].Pong? then [log[0].payload] else [], if e.Pong? then [e.payload] else [];
      assert first + (Answered(log[1..]) + last) == first + Answered(log[1..]) + last;
    }
  }

  predicate FitControl(log: seq<Event>) {
    forall e | e in log :: e.Pong? ==> |e.payload| <= 125
  }

  /**
   * The bytes written for the pings of a history, whatever masks are drawn, are a stream of final
   * frames with opcode 10, one for each ping, in order and with its payload.
   */
  lemma {:induction false} AnswersArePongs(log: seq<Event>, draw: seq<Event> -> Key)
    requires FitControl(log)
    ensures FramesIn(Answers(log, draw)) == PongFrames(Answered(log)) && EndsWhole(Answers(log, draw))
    decreases |log|
  {
    hide ParseFrame, Answered, PongFrames, FramesIn, EncodeFrame, EndsWhole;
    if log == [] {
      AnswersNothing(draw);
    } else {
      var before, e := log[..|log| - 1], log[|log| - 1];
      assert before + [e] == log && e in log;
      AnswersArePongs(before, draw);
      AnsweredAppend(before, e);
      AnswersSnoc(before, e, draw);
      if e.Pong? {
        var bytes := EncodeFrame(true, 10, e.payload, draw(before));
        ParseEncoded(true, 10, e.payload, draw(before), []);
        assert bytes + [] == bytes;
        OneFrame(bytes, Frame(true, 10, e.payload));
        FramesInAppend(Answers(before, draw), bytes);
        PongFramesAppend(Answered(before), e.payload);
      } else {
        assert Answers(before, draw) + [] == Answers(before, draw);
        assert Answered(before) + [] == Answered(before);
      }
    }
  }

  lemma AnswersNothing(draw: seq<Event> -> Key)
    ensures FramesIn(Answers([], draw)) == PongFrames(Answered([])) && EndsWhole(Answers([], draw))
  {
  }

  // ---------------------------------------------------------------------------------------
  // The response that opens the stream.

  lemma Spelled()
    ensures SWITCHING == Ascii("HTTP/1.1 101") && BLANK_LINE == Ascii("\r\n\r\n")
  {
  }

  /** Find answers the least offset from i on at which pat occurs, and -1 exactly if there is none. */
  lemma {:induction false} FindExactly(s: seq<byte>, pat: seq<byte>, i: nat)
    ensures var p := Find(s, pat, i);
      if p == -1 then forall k | i <= k :: !Occurs(s, pat, k)
      else i <= p && Occurs(s, pat, p) && forall k | i <= k < p :: !Occurs(s, pat, k)
    decreases |s| - i
  {
    if i + |pat| <= |s| && s[i..i + |pat|] != pat {
      FindExactly(s, pat, i + 1);
    }
  }

  /** The lines up to and with the first blank one. */
  ghost predicate IsHead(head: seq<byte>) {
    && Occurs(head, Ascii("\r\n\r\n"), |head| - 4)
    && forall p | Occurs(head, Ascii("\r\n\r\n"), p) :: p == |head| - 4
  }

  ghost predicate Switches(head: seq<byte>) {
    exists p :: Occurs(head, Ascii("HTTP/1.1 101"), p)
  }

  /** What the parser looks for in a stream that begins with a response. */
  lemma HeadFound(head: seq<byte>, rest: seq<byte>)
    requires IsHead(head)
    ensures Find(head + rest, BLANK_LINE, 0) == |head| - 4 && (head + rest)[..|head|] == head
    ensures Find(head, SWITCHING, 0) >= 0 <==> Switches(head)
  {
    hide Find;
    Spelled();
    FindExactly(head, BLANK_LINE, 0);
    FindExactly(head, SWITCHING, 0);
    FindPrefix(head, rest, BLANK_LINE, 0);
  }

  /** As long as the first response is accepted, no cut is seen. */
  lemma {:induction false} AcceptedInPieces(r: Receiver, head: seq<byte>, rest: seq<byte>, pieces: seq<seq<byte>>)
    requires !r.handshaken && IsHead(head) && Switches(head) && pieces != []
    requires r.buffer + Flatten(pieces) == head + rest
    ensures FeedAll(r, pieces) == Feed(r, Flatten(pieces))
    decreases |pieces|
  {
    hide Feed, Find, IsHead, Switches;
    var first, more := pieces[0], pieces[1..];
    NotRefused(r, head, rest, first, Flatten(more));
    var s := Feed(r, first);
    if more == [] {
      assert first + [] == first;
    } else if s.handshaken {
      Settled(r, first);
      SegmentationIndependence(s, more);
    } else {
      Unsettled(r, head, rest, first, Flatten(more));
      assert s.buffer + Flatten(more) == r.buffer + Flatten(pieces);
      AcceptedInPieces(s, head, rest, more);
    }
  }

  lemma NotRefused(r: Receiver, head: seq<byte>, rest: seq<byte>, a: seq<byte>, b: seq<byte>)
    requires !r.handshaken && IsHead(head) && Switches(head) && r.buffer + (a + b) == head + rest
    ensures !Refuses(r, a) && Feed(Feed(r, a), b) == Feed(r, a + b)
  {
    hide Feed, Find, IsHead, Switches;
    HeadFound(head, rest);
    var c := r.buffer + a;
    assert c + b == head + rest;
    if Find(c, BLANK_LINE, 0) >= 0 {
      FindPrefix(c, b, BLANK_LINE, 0);
      FindWithin(c, BLANK_LINE);
      assert c[..|head|] == (c + b)[..|head|] == head;
    }
    FeedSplits(r, a, b);
  }

  lemma FindWithin(s: seq<byte>, pat: seq<byte>)
    ensures Find(s, pat, 0) >= 0 ==> Find(s, pat, 0) + |pat| <= |s|
  {
  }

  lemma Settled(r: Receiver, a: seq<byte>)
    requires !r.handshaken && Feed(r, a).handshaken
    ensures ParseFrame(Feed(r, a).buffer) == NeedMore
  {
    hide ParseFrame, Find, Handle;
  }

  lemma Unsettled(r: Receiver, head: seq<byte>, rest: seq<byte>, a: seq<byte>, b: seq<byte>)
    requires !r.handshaken && !Refuses(r, a) && !Feed(r, a).handshaken
    ensures Feed(r, a) == r.(buffer := r.buffer + a)
  {
    hide Find, Drain;
  }

  /**
   * The handshake. A response that has "HTTP/1.1 101" in it somewhere before its blank line is accepted,
   * and all that follows is delivered, however the stream is cut; any other is rejected.
   */
  lemma {:induction false} OpeningAccepted(
      r: Receiver, head: seq<byte>, messages: seq<Message>, sent: seq<Sent>, pieces: seq<seq<byte>>)
    requires !r.handshaken && r.buffer == [] && !r.fragmented && IsHead(head) && Switches(head)
    requires (forall s | s in sent :: Sendable(s)) && Flatten(pieces) == head + Stream(sent)
    requires forall m | m in messages :: m.parts != []
    requires DataFrames(Frames(sent)) == AllFragments(messages)
    ensures var t := FeedAll(r, pieces);
      && t.log == r.log + [Accepted] + Meant(Closed, Frames(sent)) && t.handshaken && t.buffer == []
      && t.connected == (r.connected && !Closes(Frames(sent)))
      && Delivered(Meant(Closed, Frames(sent))) == Wholes(messages)
      && Answered(Meant(Closed, Frames(sent))) == Pings(Frames(sent))
  {
    hide Meant, Delivered, DataFrames, AllFragments, HandleAll, Stream, Frames, Wholes, Answered, Drain, Find, IsHead,
         Switches, Closes;
    HeadIsLong(head);
    assert [] + Flatten(pieces) == Flatten(pieces);
    AcceptedInPieces(r, head, Stream(sent), pieces);
    HeadFound(head, Stream(sent));
    var s := r.(handshaken := true, log := r.log + [Accepted]);
    assert (head + Stream(sent))[|head|..] == Stream(sent);
    assert Feed(r, Flatten(pieces)) == Drain(s.(buffer := Stream(sent)));
    assert [] + Stream(sent) == Stream(sent);
    assert Feed(s, Stream(sent)) == Drain(s.(buffer := Stream(sent)));
    assert FeedAll(s, [Stream(sent)]) == Feed(s, Stream(sent)) by { OnePiece(s, Stream(sent)); }
    assert Flatten([Stream(sent)]) == Stream(sent) by { OnePiece(s, Stream(sent)); }
    MessagesDelivered(s, messages, sent, [Stream(sent)]);
  }

  lemma OnePiece(r: Receiver, b: seq<byte>)
    ensures FeedAll(r, [b]) == Feed(r, b) && Flatten([b]) == b
  {
    hide Feed;
    assert [b][1..] == [] && b + [] == b;
  }

  lemma HeadIsLong(head: seq<byte>)
    requires IsHead(head)
    ensures |head| >= 4
  {
  }

  lemma {:induction false} OpeningRejected(r: Receiver, head: seq<byte>, pieces: seq<seq<byte>>)
    requires !r.handshaken && IsHead(head) && !Switches(head)
    requires r.buffer + Flatten(pieces) == head && |r.buffer| < |head|
    ensures var t := FeedAll(r, pieces); t == r.(buffer := [], log := r.log + [Rejected])
    decreases |pieces|
  {
    hide Find, IsHead, Switches, Drain, Feed;
    var first, more := pieces[0], pieces[1..];
    var c := r.buffer + first;
    assert c + Flatten(more) == head;
    HeadFound(head, []);
    HeadIsLong(head);
    assert head + [] == head;
    if Find(c, BLANK_LINE, 0) >= 0 {
      FindPrefix(c, Flatten(more), BLANK_LINE, 0);
      FindWithin(c, BLANK_LINE);
      assert c == head && Flatten(more) == [];
      RefusedOnce(r, first, head);
      NothingLeft(r.(buffer := [], log := r.log + [Rejected]), more);
    } else {
      NothingYet(r, first);
      assert c != head;
      OpeningRejected(r.(buffer := c), head, more);
    }
  }

  lemma RefusedOnce(r: Receiver, a: seq<byte>, head: seq<byte>)
    requires !r.handshaken && r.buffer + a == head && IsHead(head) && !Switches(head)
    ensures Feed(r, a) == r.(buffer := [], log := r.log + [Rejected])
  {
    hide Find, IsHead, Switches, Drain;
    HeadFound(head, []);
    HeadIsLong(head);
    assert head + [] == head && head[|head|..] == [];
  }

  lemma {:induction false} NothingLeft(r: Receiver, pieces: seq<seq<byte>>)
    requires !r.handshaken && r.buffer == [] && Flatten(pieces) == []
    ensures FeedAll(r, pieces) == r
    decreases |pieces|
  {
    if pieces != [] {
      assert pieces[0] == [] && [] + pieces[0] == [];
      NothingLeft(r, pieces[1..]);
    }
  }
}
