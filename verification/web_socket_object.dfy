// class WebSocket of components/esp-ml307/src/web_socket.cc, with its fields updated in place. What
// it hands to TCP and to its callbacks is kept in `wire` and `log`.
module WebSocketObject {
  import opened Bytes
  import opened WebSocket

  class Socket {
    var receiveBuffer: seq<byte>
    var handshakeCompleted: bool
    var connected: bool
    var continuation: bool
    var currentMessage: seq<byte>
    var isFragmented: bool
    var isBinary: bool
    var log: seq<Event>
    var wire: seq<byte>
    /** rand(), as far as the masks of pongs go: any function of what has happened. */
    const draw: seq<Event> -> Key

    function Receiving(): Receiver
      reads this
    {
      Receiver(receiveBuffer, handshakeCompleted, connected, currentMessage, isFragmented, isBinary, log)
    }

    /** What has been written since `wire` was w and the history was l are the answers to the pings since. */
    ghost predicate Answered(w: seq<byte>, l: seq<Event>)
      reads this
    {
      && w <= wire && l <= log
      && Answers(l, draw) + wire[|w|..] == Answers(log, draw)
    }

    constructor (draw: seq<Event> -> Key)
      ensures Receiving() == Receiver([], false, false, [], false, false, []) && !continuation && wire == []
      ensures this.draw == draw
    {
      this.draw := draw;
      receiveBuffer, handshakeCompleted, connected := [], false, false;
      continuation, currentMessage, isFragmented, isBinary := false, [], false, false;
      log, wire := [], [];
    }

    /** The loop that Send and SendControlFrame share. */
    method AppendMasked(frame: seq<byte>, payload: seq<byte>, key: Key) returns (r: seq<byte>)
      ensures r == frame + Masked(payload, key)
    {
      r := frame;
      for i := 0 to |payload|
        invariant r == frame + Masked(payload, key)[..i]
      {
        r := r + [XorByte(payload[i], key[i % 4])];
      }
    }

    /** The mask bit and the length, in one byte or three. */
    method AppendLength(frame: seq<byte>, n: nat) returns (r: seq<byte>)
      requires n <= MAX_SEND
      ensures r == frame + (if n < 126 then [128 + n] else [128 + 126, n / 256, n % 256])
    {
      r := frame;
      if n < 126 {
        r := r + [128 + n];
      } else {
        r := r + [128 + 126];
        r := r + [n / 256];
        r := r + [n % 256];
      }
    }

    /** Send; `key` is the mask drawn from rand(), and the TCP connection takes what it is given. */
    method Send(payload: seq<byte>, binary: bool, fin: bool, key: Key) returns (ok: bool)
      modifies this`wire, this`continuation
      ensures ok <==> |payload| <= 65535
      ensures var c := Call.Send(payload, binary, fin, key);
        wire == old(wire) + Wire(c, old(continuation)) && continuation == Continues(c, old(continuation))
    {
      hide Masked;
      if |payload| > MAX_SEND {
        return false;
      }
      var first: byte := if fin then 128 else 0;
      if binary {
        first := first + 2;
      } else if !continuation {
        first := first + 1;
      }
      var frame := AppendLength([first], |payload|);
      frame := frame + key;
      frame := AppendMasked(frame, payload, key);
      assert frame == EncodeFrame(fin, if binary then 2 else if !continuation then 1 else 0, payload, key);
      continuation := !fin;
      wire := wire + frame;
      return true;
    }

    /** SendControlFrame */
    method SendControlFrame(opcode: nat, payload: seq<byte>, key: Key) returns (ok: bool)
      requires opcode in {8, 9, 10}
      modifies this`wire
      ensures ok <==> |payload| <= 125
      ensures wire == old(wire) + Wire(Control(opcode, payload, key), continuation)
    {
      if |payload| > MAX_CONTROL {
        return false;
      }
      var frame: seq<byte> := [128 + opcode];
      frame := frame + [128 + |payload|];
      frame := frame + key;
      frame := AppendMasked(frame, payload, key);
      assert frame == Wire(Control(opcode, payload, key), continuation);
      wire := wire + frame;
      return true;
    }

    /** Lines 319-358, at offset 0 of what is left of the buffer; found is false where the source breaks. */
    method DecodeFrame(b: seq<byte>) returns (found: bool, f: Frame, size: nat)
      ensures found <==> ParseFrame(b).Got?
      ensures found ==> ParseFrame(b) == Got(f, size)
    {
      found, f, size := false, Frame(false, 0, []), 0;
      if |b| < 2 {
        return;
      }
      var opcode := b[0] % 16;
      var fin := b[0] >= 128;
      var mask := b[1] >= 128;
      var payloadLength: nat := b[1] % 128;
      var headerLength := 2;
      if payloadLength == 126 {
        if |b| < 4 {
          return;
        }
        payloadLength := BigEndianLoop(b[2..4]);
        headerLength := headerLength + 2;
      } else if payloadLength == 127 {
        if |b| < 10 {
          return;
        }
        payloadLength := BigEndianLoop(b[2..10]);
        headerLength := headerLength + 8;
      }
      var key: Key := [0, 0, 0, 0];
      if mask {
        if |b| < headerLength + 4 {
          return;
        }
        key := b[headerLength..headerLength + 4];
        headerLength := headerLength + 4;
      }
      if |b| < headerLength + payloadLength {
        return;
      }
      var payload := b[headerLength..headerLength + payloadLength];
      if mask {
        payload := AppendMasked([], payload, key);
      }
      found, f, size := true, Frame(fin, opcode, payload), headerLength + payloadLength;
    }

    method BigEndianLoop(b: seq<byte>) returns (n: nat)
      ensures n == BigEndian(b)
    {
      n := 0;
      for i := 0 to |b|
        invariant n == BigEndian(b[..i])
      {
        assert b[..i + 1][..i] == b[..i];
        n := n * 256 + b[i];
      }
      assert b[..|b|] == b;
    }

    /** Hands an event to the outside. */
    method Emit(e: Event)
      requires !e.Pong?
      modifies this`log
      ensures log == old(log) + [e] && Answered(wire, old(log))
    {
      hide EncodeFrame;
      AnswersSnoc(log, e, draw);
      log := log + [e];
      assert wire[|wire|..] == [];
    }

    /** The answer to a ping: a control frame with its payload, if that is not too long for one. */
    method Answer(payload: seq<byte>)
      modifies this`log, this`wire
      ensures log == old(log) + (if |payload| <= MAX_CONTROL then [Pong(payload)] else [])
      ensures Answered(old(wire), old(log))
    {
      hide EncodeFrame;
      ghost var was := wire;
      var sent := SendControlFrame(10, payload, draw(log));
      if sent {
        AnswersSnoc(log, Pong(payload), draw);
        log := log + [Pong(payload)];
      }
    }

    /** Answers upon answers. */
    lemma AnsweredOn(w: seq<byte>, l: seq<Event>, w2: seq<byte>, l2: seq<Event>)
      requires w <= w2 && l <= l2 && Answers(l, draw) + w2[|w|..] == Answers(l2, draw) && Answered(w2, l2)
      ensures Answered(w, l)
    {
      hide Answers;
      assert w2[|w|..] + wire[|w2|..] == wire[|w|..];
    }

    lemma AnsweredNothing()
      ensures Answered(wire, log)
    {
      hide Answers;
      assert wire[|wire|..] == [];
    }

    /** The switch over the opcode. */
    method HandleFrame(f: Frame)
      modifies this
      ensures Receiving() == old(Handle(Receiving(), f)) && continuation == old(continuation)
      ensures Answered(old(wire), old(log))
    {
      hide Answers;
      AnsweredNothing();
      if f.opcode <= 2 {
        if f.opcode != 0 && isFragmented {
          return;
        }
        if f.opcode != 0 {
          isFragmented := !f.fin;
          isBinary := f.opcode == 2;
          currentMessage := [];
        }
        currentMessage := currentMessage + f.payload;
        if f.fin {
          Emit(Data(currentMessage, isBinary));
          currentMessage := [];
          isFragmented := false;
        }
      } else if f.opcode == 8 {
        connected := false;
        Emit(Disconnected);
      } else if f.opcode == 9 {
        Answer(f.payload);
      }
    }

    /** The receiver behind the handshake, and whether the frames are looked at. */
    ghost function Shaken(r: Receiver): (Receiver, bool) {
      if r.handshaken then (r, true)
      else
        var pos := Find(r.buffer, BLANK_LINE, 0);
        if pos < 0 then (r, false)
        else if Find(r.buffer[..pos + 4], SWITCHING, 0) >= 0 then
          (r.(buffer := r.buffer[pos + 4..], handshaken := true, log := r.log + [Accepted]), true)
        else (r.(buffer := r.buffer[pos + 4..], log := r.log + [Rejected]), false)
    }

    lemma FeedIs(r: Receiver, data: seq<byte>)
      ensures var (s, frames) := Shaken(r.(buffer := r.buffer + data));
        Feed(r, data) == if frames then Drain(s) else s
    {
      hide Drain, Find;
    }

    /** The handshake part of OnTcpData: false where it returns. */
    method Handshake() returns (frames: bool)
      modifies this
      ensures (Receiving(), frames) == old(Shaken(Receiving())) && continuation == old(continuation)
      ensures Answered(old(wire), old(log))
    {
      hide Answers, Find;
      AnsweredNothing();
      if handshakeCompleted {
        return true;
      }
      var pos := Find(receiveBuffer, BLANK_LINE, 0);
      if pos == -1 {
        return false;
      }
      var response := receiveBuffer[..pos + 4];
      receiveBuffer := receiveBuffer[pos + 4..];
      if Find(response, SWITCHING, 0) != -1 {
        handshakeCompleted := true;
        Emit(Accepted);
        return true;
      }
      Emit(Rejected);
      return false;
    }

    /** OnTcpData: the whole outcome of one TCP segment. */
    method OnTcpData(data: seq<byte>)
      modifies this
      ensures Receiving() == old(Feed(Receiving(), data)) && continuation == old(continuation)
      ensures Answered(old(wire), old(log))
    {
      hide Answers, Drain, Shaken, Feed, Answered;
      ghost var w, l := wire, log;
      FeedIs(Receiving(), data);
      receiveBuffer := receiveBuffer + data;
      var frames := Handshake();
      if frames {
        ghost var w2, l2 := wire, log;
        AnsweredMeans(w, l);
        FrameLoop();
        AnsweredOn(w, l, w2, l2);
      }
    }

    lemma AnsweredMeans(w: seq<byte>, l: seq<Event>)
      requires Answered(w, l)
      ensures w <= wire && l <= log && Answers(l, draw) + wire[|w|..] == Answers(log, draw)
    {
    }

    /** What the frame loop still comes to from an offset on. */
    ghost function Left(offset: nat): Receiver
      requires offset <= |receiveBuffer|
      reads this
    {
      Drain(Receiving().(buffer := receiveBuffer[offset..]))
    }

    /** One pass of the frame loop: the offset behind the frame, or -1. */
    method HandleOne(offset: nat) returns (next: int)
      requires offset <= |receiveBuffer|
      modifies this
      ensures receiveBuffer == old(receiveBuffer) && continuation == old(continuation)
      ensures next == -1 ==> ParseFrame(receiveBuffer[offset..]) == NeedMore && Receiving() == old(Receiving())
      ensures next != -1 ==> offset < next <= |receiveBuffer|
      ensures next != -1 ==> Left(next) == old(Left(offset))
      ensures Answered(old(wire), old(log))
    {
      hide ParseFrame, Handle, Drain, Answers;
      AnsweredNothing();
      var found, f, size := DecodeFrame(receiveBuffer[offset..]);
      if !found {
        return -1;
      }
      ghost var b := receiveBuffer;
      DrainPass(Receiving(), b, offset, f, size);
      FrameSize(b[offset..]);
      HandleFrame(f);
      next := offset + size;
    }

    lemma FrameSize(b: seq<byte>)
      requires ParseFrame(b).Got?
      ensures ParseFrame(b).size >= 2
    {
    }

    method FrameLoop()
      modifies this
      ensures Receiving() == old(Drain(Receiving())) && continuation == old(continuation)
      ensures Answered(old(wire), old(log))
    {
      hide ParseFrame, Handle, Drain, Answers, Answered;
      ghost var start, w, l := Receiving(), wire, log;
      AnsweredNothing();
      var offset := 0;
      assert receiveBuffer[0..] == receiveBuffer;
      while offset < |receiveBuffer|
        invariant 0 <= offset <= |receiveBuffer|
        invariant Left(offset) == Drain(start)
        invariant Answered(w, l) && continuation == old(continuation)
        decreases |receiveBuffer| - offset
      {
        ghost var w2, l2 := wire, log;
        AnsweredMeans(w, l);
        var next := HandleOne(offset);
        AnsweredOn(w, l, w2, l2);
        if next == -1 {
          break;
        }
        offset := next;
      }
      EmptyNeedsMore();
      assert offset == |receiveBuffer| ==> receiveBuffer[offset..] == [];
      AnsweredMeans(w, l);
      receiveBuffer := receiveBuffer[offset..];
      AnsweredIs(w, l);
      DrainEnd(Receiving());
    }

    lemma AnsweredIs(w: seq<byte>, l: seq<Event>)
      requires w <= wire && l <= log && Answers(l, draw) + wire[|w|..] == Answers(log, draw)
      ensures Answered(w, l)
    {
    }

    lemma EmptyNeedsMore()
      ensures ParseFrame([]) == NeedMore
    {
    }
  }
}
