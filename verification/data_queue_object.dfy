// data_queue_t as the object its functions update in place. Each method is one critical section
// of data_queue.c; waiting, which releases the lock, is the business of DataQueueRuns.
module DataQueueObject {
  import opened Bytes
  import opened DataQueue

  /** How one pass through get_buffer's or read_lock's loop ends. */
  datatype Attempt = Refused | MustWait | Granted(at: int, size: int)

  function PayloadSum(blocks: seq<seq<byte>>): nat {
    if blocks == [] then 0 else |blocks[0]| + PayloadSum(blocks[1..])
  }

  /** The queue holds one block and that block fills the buffer. */
  predicate FullBlock(r: Ring) {
    |Blocks(r)| == 1 && |Blocks(r)[0]| + HEAD == |r.buffer|
  }

  /** What one step over the oldest block does, as the loops below see it. */
  lemma {:induction false} Oldest(r: Ring)
    requires Valid(r)
    ensures HaveData(r) <==> Blocks(r) != []
    ensures HaveData(r) ==>
      && ReadPosition(r) == r.rp && r.filled != 0
      && 0 <= r.rp <= |r.buffer| - HEAD && HEAD < SizeWord(r.buffer, r.rp) <= |r.buffer| - r.rp
      && |Blocks(r)[0]| == SizeWord(r.buffer, r.rp) - HEAD
      && Valid(Consumed(r)) && |Blocks(Consumed(r))| == |Blocks(r)| - 1
      && PayloadSum(Blocks(r)) == SizeWord(r.buffer, r.rp) - HEAD + PayloadSum(Blocks(Consumed(r)))
      && SizeWord(r.buffer, r.rp) == LoadInt(r.buffer, r.rp) <= r.filled <= |r.buffer|
      && Consumed(r).filled == r.filled - SizeWord(r.buffer, r.rp)
      && (r.fillEnd != 0 ==> r.rp + SizeWord(r.buffer, r.rp) <= r.fillEnd)
      && (FullBlock(r) <==> SizeWord(r.buffer, r.rp) == |r.buffer|)
    ensures !HaveData(r) ==> r.filled == 0
  {
    HaveDataMeansNonempty(r);
    if HaveData(r) {
      ConsumedIsTail(r);
      HaveDataMeansNonempty(Consumed(r));
    }
  }

  lemma {:induction false} OldestPayload(r: Ring)
    requires Valid(r)
    ensures HaveData(r) ==>
      && 0 <= r.rp <= |r.buffer| - HEAD && HEAD < LoadInt(r.buffer, r.rp) <= |r.buffer| - r.rp
      && Blocks(r) != [] && Blocks(r)[0] == r.buffer[r.rp + HEAD..r.rp + LoadInt(r.buffer, r.rp)]
  {
    if HaveData(r) {
      ConsumedIsTail(r);
    }
  }

  class Queue {
    const buffer: array<byte>
    var fillEnd: int
    var wp: int
    var rp: int
    var filled: int
    var user: int
    var quit: bool
    // The bits of the event group.
    var dataArrive: bool
    var dataConsume: bool
    var userFree: bool

    function Snapshot(): Ring
      reads this, buffer
    {
      Ring(buffer[..], fillEnd, wp, rp, filled, user, quit)
    }

    /** There are `total` free bytes in one piece where get_buffer looks for them. */
    ghost predicate HasRoom(total: int)
      reads this, buffer
    {
      FreeAt(Snapshot(), wp, total) || (fillEnd == 0 && FreeAt(Snapshot(), 0, total))
    }

    constructor (size: nat)
      requires size <= INT_MAX
      ensures fresh(buffer) && buffer.Length == size
      ensures Valid(Snapshot()) && Blocks(Snapshot()) == [] && user == 0 && !quit
      ensures !dataArrive && !dataConsume && !userFree
    {
      buffer := new byte[size];
      fillEnd, wp, rp, filled, user, quit := 0, 0, 0, 0, 0, false;
      dataArrive, dataConsume, userFree := false, false, false;
    }

    /** get_available_size */
    method AvailableSize() returns (n: int)
      ensures n == Available(Snapshot())
      ensures Valid(Snapshot()) ==> forall total | total > 0 :: total <= n <==> FreeAt(Snapshot(), wp, total)
    {
      hide Valid, FreeAt;
      ghost var r := Snapshot();
      if Valid(r) {
        forall total | total > 0 ensures total <= Available(r) <==> FreeAt(r, wp, total) {
          AvailableExactly(r, total);
        }
      }
      if wp > rp {
        return buffer.Length - wp;
      }
      if wp == rp {
        if fillEnd != 0 {
          return 0;
        }
        return buffer.Length - wp;
      }
      return rp - wp;
    }

    /** One pass of data_queue_get_buffer's loop, entering the wait when it fails. */
    method GetBuffer(size: nat) returns (a: Attempt)
      requires size <= INT_MAX - HEAD
      modifies this`fillEnd, this`wp, this`rp, this`user
      ensures a == Refused <==> old(quit) || size + HEAD > buffer.Length
      ensures a == MustWait <==> a != Refused && !old(Grants(Snapshot(), size + HEAD))
      ensures a.Granted? ==> a.at == wp + HEAD && a.size == size
      ensures a != Refused && old(Valid(Snapshot())) ==> (a.Granted? <==> old(HasRoom(size + HEAD)))
      ensures a.Granted? && old(Valid(Snapshot())) ==>
        a.at == HEAD + if old(FreeAt(Snapshot(), wp, size + HEAD)) then old(wp) else 0
      ensures Snapshot() == if a == Refused then old(Snapshot())
        else old(Wrapped(Snapshot(), size + HEAD).(user := user + 1))
    {
      hide Valid, FreeAt;
      if Valid(Snapshot()) {
        GrantsExactly(Snapshot(), size + HEAD);
      }
      var total := size + HEAD;
      if total > buffer.Length || quit {
        return Refused;
      }
      var avail := AvailableSize();
      if avail < total && fillEnd == 0 {
        if wp == rp {
          wp, rp := 0, 0;
        }
        fillEnd := wp;
        wp := 0;
        avail := AvailableSize();
      }
      a := if avail >= total then Granted(wp + HEAD, size) else MustWait;
      user := user + 1;
    }

    /** The caller's memcpy into a block it has reserved. */
    method Store(at: int, payload: seq<byte>)
      requires 0 <= at && at + |payload| <= buffer.Length
      modifies buffer
      ensures buffer[..] == Splice(old(buffer[..]), at, payload)
    {
      for i := 0 to |payload|
        invariant forall k | 0 <= k < buffer.Length ::
          buffer[k] == if at <= k < at + i then payload[k - at] else old(buffer[k])
      {
        buffer[at + i] := payload[i];
      }
    }

    /** data_queue_send_buffer: commit with size > 0, cancel with 0. */
    method SendBuffer(size: nat) returns (ret: int)
      requires Shaped(Snapshot()) && size <= INT_MAX - HEAD
      modifies this, buffer
      ensures ret == 0 <==> size == 0 || size + HEAD <= old(Available(Snapshot()))
      ensures Snapshot() == if ret == 0 && size > 0 then old(Committed(Snapshot(), size))
        else old(Snapshot().(user := user - 1))
      ensures dataArrive == (old(dataArrive) || (ret == 0 && size > 0))
      ensures userFree && dataConsume == old(dataConsume)
    {
      user := user - 1;
      userFree := true;
      if size == 0 {
        return 0;
      }
      var avail := AvailableSize();
      if avail < size + HEAD {
        return -1;
      }
      var word := StoreInt(size + HEAD);
      Store(wp, word);
      wp := wp + size + HEAD;
      filled := filled + size + HEAD;
      dataArrive := true;
      return 0;
    }

    /** One pass of data_queue_read_lock's loop, entering the wait when there is no data. */
    method ReadLock() returns (a: Attempt)
      requires Valid(Snapshot())
      modifies this`user
      ensures Snapshot() == old(Snapshot()).(user := user)
      ensures user == old(user) + if a == Refused then 0 else 1
      ensures a == Refused <==> quit
      ensures a == MustWait <==> !quit && old(Blocks(Snapshot())) == []
      ensures a.Granted? ==>
        && a.at == rp + HEAD && 0 <= a.size && a.at + a.size <= buffer.Length
        && old(Blocks(Snapshot()))[0] == buffer[a.at..a.at + a.size]
    {
      hide Valid, Blocks, SizeWord;
      Oldest(Snapshot());
      OldestPayload(Snapshot());
      if quit {
        return Refused;
      }
      if filled == 0 {
        user := user + 1;
        return MustWait;
      }
      var curRp := if filled <= wp then wp - filled else wp + fillEnd - filled;
      var dataSize := LoadInt(buffer[..], curRp);
      user := user + 1;
      return Granted(curRp + HEAD, dataSize - HEAD);
    }

    /** data_queue_peek_unlock. It signals nobody. */
    method PeekUnlock()
      modifies this`user
      ensures user == old(user) - 1
    {
      user := user - 1;
    }

    /** data_queue_read_unlock */
    method ReadUnlock()
      requires Valid(Snapshot())
      modifies this
      ensures Snapshot() == if old(HaveData(Snapshot())) then old(Consumed(Snapshot()).(user := user - 1))
        else old(Snapshot())
      ensures dataConsume == (old(dataConsume) || old(HaveData(Snapshot())))
      ensures userFree == (old(userFree) || old(HaveData(Snapshot()))) && dataArrive == old(dataArrive)
    {
      if wp == rp && fillEnd == 0 {
        return;
      }
      Consume();
      user := user - 1;
      dataConsume, userFree := true, true;
    }

    /** The lines that read_unlock and consume_all share. */
    method Consume()
      requires Valid(Snapshot()) && HaveData(Snapshot())
      modifies this`rp, this`filled, this`fillEnd
      ensures Snapshot() == old(Consumed(Snapshot()))
    {
      hide Valid, Blocks, SizeWord;
      Oldest(Snapshot());
      var size := LoadInt(buffer[..], rp);
      rp := rp + size;
      filled := filled - size;
      if fillEnd != 0 && rp >= fillEnd {
        fillEnd := 0;
        rp := 0;
      }
    }

    /**
     * data_queue_consume_all. Its sanity check traps on `size >= q->size`, so it empties the queue
     * exactly when no block fills the whole buffer; such a block would be the only one queued.
     */
    method ConsumeAll() returns (trapped: bool)
      requires Valid(Snapshot())
      modifies this`rp, this`filled, this`fillEnd, this`dataConsume
      ensures trapped <==> (!quit && old(FullBlock(Snapshot())))
      ensures quit || trapped ==> Snapshot() == old(Snapshot())
      ensures !quit && !trapped ==> Valid(Snapshot()) && Blocks(Snapshot()) == []
      ensures dataConsume == (old(dataConsume) || (old(HaveData(Snapshot())) && !quit && !trapped))
    {
      hide Valid, Blocks, Consumed, SizeWord;
      ghost var first := Snapshot();
      ghost var moved := false;
      trapped := false;
      while !(wp == rp && fillEnd == 0)
        invariant Valid(Snapshot())
        invariant moved ==> !quit && HaveData(first) && !FullBlock(first) && filled < buffer.Length
        invariant !moved ==> Snapshot() == first
        invariant dataConsume == (old(dataConsume) || moved)
        decreases filled
      {
        if quit {
          break;
        }
        Oldest(Snapshot());
        var size := LoadInt(buffer[..], rp);
        if size < 0 || size >= buffer.Length {
          trapped := true;
          return;
        }
        Consume();
        dataConsume := true;
        moved := true;
      }
      Oldest(Snapshot());
    }

    /** data_queue_query */
    method Query() returns (num: nat, size: nat)
      requires Valid(Snapshot())
      ensures num == |Blocks(Snapshot())| && size == PayloadSum(Blocks(Snapshot()))
    {
      hide Valid, Blocks, SizeWord;
      num, size := 0, 0;
      ghost var c := Snapshot();
      ghost var n, total := |Blocks(c)|, PayloadSum(Blocks(c));
      if !(wp == rp && fillEnd == 0) {
        var pos, ring := rp, fillEnd;
        while pos != wp || ring != 0
          invariant Valid(c) && c.buffer == buffer[..] && c.rp == pos && c.wp == wp && c.fillEnd == ring
          invariant num + |Blocks(c)| == n && size + PayloadSum(Blocks(c)) == total
          decreases |Blocks(c)|
        {
          Oldest(c);
          var blockSize := LoadInt(buffer[..], pos);
          pos := pos + blockSize;
          if ring != 0 && pos == ring {
            ring := 0;
            pos := 0;
          }
          num := num + 1;
          size := size + blockSize - HEAD;
          c := Consumed(c);
        }
      }
      Oldest(c);
    }

    /** data_queue_get_available */
    method GetAvailableSize() returns (n: int)
      ensures n == GetAvailable(Snapshot())
      ensures Valid(Snapshot()) ==> forall m: nat | m > 0 :: m <= n <==> Holds(Snapshot(), m)
    {
      hide Valid, Holds;
      ghost var r := Snapshot();
      if Valid(r) {
        forall m: nat | m > 0 ensures m <= GetAvailable(r) <==> Holds(r, m) {
          GetAvailableExactly(r, m);
        }
      }
      var avail: int;
      if wp == rp && fillEnd == 0 {
        avail := buffer.Length;
      } else {
        avail := AvailableSize();
      }
      n := if avail >= HEAD then avail - HEAD else 0;
    }
  }
}
