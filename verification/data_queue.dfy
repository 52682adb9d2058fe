// The variable-length ring queue of components/media_lib_sal/port/data_queue.c.
//
// A block is a 4-byte size word (which counts itself) followed by its payload. Blocks lie
// contiguously; when the tail of the buffer is too short for a request, `fillEnd` records where
// the old run of blocks ends and writing starts again at 0.
module DataQueue {
  import opened Bytes

  const HEAD := 4

  /** The fields of data_queue_t that its critical sections read and write. */
  datatype Ring = Ring(buffer: seq<byte>, fillEnd: int, wp: int, rp: int, filled: int,
                       user: int, quit: bool)

  // ---------------------------------------------------------------------------------------
  // What the bytes mean: a run of blocks between two offsets.

  /** The size word at p, or -1 where no size word can be. */
  function SizeWord(b: seq<byte>, p: int): int {
    if 0 <= p && p + HEAD <= |b| then LoadInt(b, p) else -1
  }

  /** Stepping from p by the stored sizes lands exactly on e. */
  predicate Chained(b: seq<byte>, p: int, e: int)
    decreases e - p
  {
    p == e || (HEAD < SizeWord(b, p) <= e - p && Chained(b, p + SizeWord(b, p), e))
  }

  /** The payloads met on the way. */
  function Decode(b: seq<byte>, p: int, e: int): (s: seq<seq<byte>>)
    decreases e - p
  {
    if HEAD < SizeWord(b, p) <= e - p && e <= |b| then
      [b[p + HEAD..p + SizeWord(b, p)]] + Decode(b, p + SizeWord(b, p), e)
    else []
  }

  /** The consistency every critical section relies on and restores. */
  predicate Valid(r: Ring) {
    && Shaped(r)
    && if r.fillEnd == 0 then
         Chained(r.buffer, r.rp, r.wp)
       else
         Chained(r.buffer, r.rp, r.fillEnd) && Chained(r.buffer, 0, r.wp)
  }

  /** Its part that concerns the offsets only. */
  predicate Shaped(r: Ring) {
    && |r.buffer| <= INT_MAX
    && 0 <= r.wp <= |r.buffer| && 0 <= r.rp <= |r.buffer|
    && if r.fillEnd == 0 then
         r.rp <= r.wp && r.filled == r.wp - r.rp
       else
         r.wp <= r.rp < r.fillEnd <= |r.buffer| && r.filled == r.fillEnd - r.rp + r.wp
  }

  /** The queue's contents, oldest first, read off the buffer itself. */
  function Blocks(r: Ring): seq<seq<byte>> {
    if r.fillEnd == 0 then Decode(r.buffer, r.rp, r.wp)
    else Decode(r.buffer, r.rp, r.fillEnd) + Decode(r.buffer, 0, r.wp)
  }

  // ---------------------------------------------------------------------------------------
  // The critical sections, as functions on the fields.

  function Available(r: Ring): int {
    if r.wp > r.rp then |r.buffer| - r.wp
    else if r.wp == r.rp then (if r.fillEnd != 0 then 0 else |r.buffer| - r.wp)
    else r.rp - r.wp
  }

  function GetAvailable(r: Ring): int {
    var avail := if r.wp == r.rp && r.fillEnd == 0 then |r.buffer| else Available(r);
    if avail >= HEAD then avail - HEAD else 0
  }

  predicate HaveData(r: Ring) {
    !(r.wp == r.rp && r.fillEnd == 0)
  }

  /** The wrap that get_buffer makes when the tail is too short for `total` bytes. */
  function Wrapped(r: Ring, total: int): Ring {
    if Available(r) < total && r.fillEnd == 0 then
      if r.wp == r.rp then r.(wp := 0, rp := 0, fillEnd := 0)
      else r.(fillEnd := r.wp, wp := 0)
    else r
  }

  /** Whether one pass of get_buffer's loop hands out a block of `total` bytes. */
  predicate Grants(r: Ring, total: int) {
    Available(Wrapped(r, total)) >= total
  }

  /** send_buffer's success branch. */
  function Committed(r: Ring, payload: nat): Ring
    requires payload + HEAD <= INT_MAX
  {
    Advanced(Sized(r, payload), payload)
  }

  /** The size word is stored ahead of the payload ... */
  function Sized(r: Ring, payload: nat): Ring
    requires payload + HEAD <= INT_MAX
  {
    r.(buffer := Splice(r.buffer, r.wp, StoreInt(payload + HEAD)))
  }

  /** ... and wp moves past both. */
  function Advanced(r: Ring, payload: int): Ring {
    r.(wp := r.wp + payload + HEAD, filled := r.filled + payload + HEAD, user := r.user - 1)
  }

  /** Where read_lock looks for the oldest block. It does not consult rp. */
  function ReadPosition(r: Ring): int {
    if r.filled <= r.wp then r.wp - r.filled else r.wp + r.fillEnd - r.filled
  }

  /** Dropping the oldest block, shared by read_unlock and consume_all. */
  function Consumed(r: Ring): Ring {
    var size := SizeWord(r.buffer, r.rp);
    var rp := r.rp + size;
    if r.fillEnd != 0 && rp >= r.fillEnd then r.(rp := 0, fillEnd := 0, filled := r.filled - size)
    else r.(rp := rp, filled := r.filled - size)
  }

  // ---------------------------------------------------------------------------------------
  // Runs of blocks.

  lemma SizeWordFrame(b: seq<byte>, c: seq<byte>, p: int)
    requires 0 <= p && SizeWord(b, p) >= HEAD
    requires p + SizeWord(b, p) <= |b| && p + SizeWord(b, p) <= |c| && Same(b, c, p, p + SizeWord(b, p))
    ensures SizeWord(c, p) == SizeWord(b, p)
  {
    assert b[p] == c[p] && b[p + 1] == c[p + 1] && b[p + 2] == c[p + 2] && b[p + 3] == c[p + 3];
    assert p + HEAD <= |b| && p + HEAD <= |c|;
  }

  lemma {:induction false} ChainFrame(b: seq<byte>, c: seq<byte>, p: int, e: int)
    requires 0 <= p <= e <= |b| && e <= |c| && Same(b, c, p, e)
    requires Chained(b, p, e)
    ensures Chained(c, p, e) && Decode(c, p, e) == Decode(b, p, e)
    decreases e - p
  {
    hide SizeWord;
    if p < e {
      SizeWordFrame(b, c, p);
      var q := p + SizeWord(b, p);
      assert b[p + HEAD..q] == c[p + HEAD..q];
      ChainFrame(b, c, q, e);
    }
  }

  lemma {:induction false} ChainAppend(b: seq<byte>, p: int, e: int, f: int)
    requires 0 <= p <= e && e + HEAD < f <= |b|
    requires Chained(b, p, e) && SizeWord(b, e) == f - e
    ensures Chained(b, p, f) && Decode(b, p, f) == Decode(b, p, e) + [b[e + HEAD..f]]
    decreases e - p
  {
    if p == e {
      assert Chained(b, f, f) && Decode(b, f, f) == [];
    } else {
      ChainAppend(b, p + SizeWord(b, p), e, f);
    }
  }

  lemma {:induction false} ChainHead(b: seq<byte>, p: int, e: int)
    requires 0 <= p < e <= |b| && Chained(b, p, e)
    ensures HEAD < SizeWord(b, p) <= e - p && Chained(b, p + SizeWord(b, p), e)
    ensures |Decode(b, p, e)| > 0
    ensures Decode(b, p, e)[0] == b[p + HEAD..p + SizeWord(b, p)]
    ensures Decode(b, p, e)[1..] == Decode(b, p + SizeWord(b, p), e)
  {
  }

  // ---------------------------------------------------------------------------------------
  // What each critical section does to the contents.

  lemma {:induction false} HaveDataMeansNonempty(r: Ring)
    requires Valid(r)
    ensures HaveData(r) <==> Blocks(r) != []
    ensures HaveData(r) <==> r.filled != 0
    ensures HaveData(r) ==> r.filled > 0 && ReadPosition(r) == r.rp
  {
  }

  /** The oldest block sits at rp, and consuming it leaves the rest in order. */
  lemma {:induction false} ConsumedIsTail(r: Ring)
    requires Valid(r) && HaveData(r)
    ensures HEAD < SizeWord(r.buffer, r.rp) <= |r.buffer| - r.rp
    ensures Blocks(r) != []
    ensures Blocks(r)[0] == r.buffer[r.rp + HEAD..r.rp + SizeWord(r.buffer, r.rp)]
    ensures Valid(Consumed(r)) && Blocks(Consumed(r)) == Blocks(r)[1..]
  {
    hide SizeWord;
    if r.fillEnd == 0 {
      ChainHead(r.buffer, r.rp, r.wp);
    } else {
      ConsumedIsTailWrapped(r);
    }
  }

  lemma {:induction false} ConsumedIsTailWrapped(r: Ring)
    requires Valid(r) && r.fillEnd != 0
    ensures HEAD < SizeWord(r.buffer, r.rp) <= r.fillEnd - r.rp
    ensures Blocks(r) != []
    ensures Blocks(r)[0] == r.buffer[r.rp + HEAD..r.rp + SizeWord(r.buffer, r.rp)]
    ensures Valid(Consumed(r)) && Blocks(Consumed(r)) == Blocks(r)[1..]
  {
    hide SizeWord;
    ChainHead(r.buffer, r.rp, r.fillEnd);
    TailOfConcat(Decode(r.buffer, r.rp, r.fillEnd), Decode(r.buffer, 0, r.wp));
  }

  lemma TailOfConcat<T>(a: seq<T>, b: seq<T>)
    requires a != []
    ensures (a + b)[0] == a[0] && (a + b)[1..] == a[1..] + b
    ensures [] + b == b
  {
  }

  /** Making room never touches what is queued. */
  lemma {:induction false} WrappedKeepsBlocks(r: Ring, total: int)
    requires Valid(r)
    ensures Valid(Wrapped(r, total)) && Blocks(Wrapped(r, total)) == Blocks(r)
    ensures Wrapped(r, total).buffer == r.buffer
  {
    hide SizeWord;
    if Available(r) < total && r.fillEnd == 0 && r.wp != r.rp {
      assert Decode(r.buffer, 0, 0) == [];
    }
  }

  /** `total` bytes from `at` lie in the buffer and meet no queued block. */
  predicate DisjointFromBlocks(r: Ring, at: int, total: int)
  {
    && 0 <= at && at + total <= |r.buffer|
    && if r.fillEnd == 0 then r.wp <= at || at + total <= r.rp
       else r.fillEnd <= at || (r.wp <= at && at + total <= r.rp)
  }

  /** The free region behind wp is such a place. */
  lemma FreeRegionIsDisjoint(r: Ring, total: int)
    requires Shaped(r) && 0 <= total <= Available(r)
    ensures DisjointFromBlocks(r, r.wp, total)
  {
  }

  /** Bytes stored into the free region are invisible until they are committed. */
  lemma {:induction false} FillKeepsBlocks(r: Ring, at: int, s: seq<byte>)
    requires Valid(r) && DisjointFromBlocks(r, at, |s|)
    ensures Valid(r.(buffer := Splice(r.buffer, at, s)))
    ensures Blocks(r.(buffer := Splice(r.buffer, at, s))) == Blocks(r)
  {
    var c := Splice(r.buffer, at, s);
    if r.fillEnd == 0 {
      ChainFrame(r.buffer, c, r.rp, r.wp);
    } else {
      ChainFrame(r.buffer, c, r.rp, r.fillEnd);
      ChainFrame(r.buffer, c, 0, r.wp);
    }
  }

  lemma {:induction false} AdvancedStraight(r: Ring, payload: nat)
    requires Valid(r) && r.fillEnd == 0 && 0 < payload && r.wp + payload + HEAD <= |r.buffer|
    requires SizeWord(r.buffer, r.wp) == payload + HEAD
    ensures Valid(Advanced(r, payload))
    ensures Blocks(Advanced(r, payload)) == Blocks(r) + [r.buffer[r.wp + HEAD..r.wp + payload + HEAD]]
  {
    hide SizeWord;
    ChainAppend(r.buffer, r.rp, r.wp, r.wp + payload + HEAD);
  }

  lemma {:induction false} AdvancedWrapped(r: Ring, payload: nat)
    requires Valid(r) && r.fillEnd != 0 && 0 < payload && r.wp + payload + HEAD <= r.rp
    requires SizeWord(r.buffer, r.wp) == payload + HEAD
    ensures Valid(Advanced(r, payload))
    ensures Blocks(Advanced(r, payload)) == Blocks(r) + [r.buffer[r.wp + HEAD..r.wp + payload + HEAD]]
  {
    hide SizeWord;
    var f := r.wp + payload + HEAD;
    ChainAppend(r.buffer, 0, r.wp, f);
    AppendLast(Decode(r.buffer, r.rp, r.fillEnd), Decode(r.buffer, 0, r.wp), r.buffer[r.wp + HEAD..f]);
  }

  lemma {:induction false} SizedKeepsBlocks(r: Ring, payload: nat)
    requires Valid(r) && 0 < payload && payload + HEAD <= Available(r)
    ensures Valid(Sized(r, payload)) && Blocks(Sized(r, payload)) == Blocks(r)
  {
    FreeRegionIsDisjoint(r, payload + HEAD);
    FillKeepsBlocks(r, r.wp, StoreInt(payload + HEAD));
  }

  lemma SplicedSize(b: seq<byte>, at: int, payload: int)
    requires 0 <= at && 0 <= payload && at + payload + HEAD <= |b| <= INT_MAX
    ensures var c := Splice(b, at, StoreInt(payload + HEAD));
      && SizeWord(c, at) == payload + HEAD
      && c[at + HEAD..at + payload + HEAD] == b[at + HEAD..at + payload + HEAD]
  {
    LoadStore(payload + HEAD);
  }

  /** A commit appends exactly the bytes lying behind the reserved size word. */
  lemma {:induction false} CommittedIsAppend(r: Ring, payload: nat)
    requires Valid(r) && 0 < payload && payload + HEAD <= Available(r)
    ensures r.wp + HEAD + payload <= |r.buffer|
    ensures Valid(Committed(r, payload))
    ensures Blocks(Committed(r, payload)) == Blocks(r) + [r.buffer[r.wp + HEAD..r.wp + payload + HEAD]]
  {
    hide Blocks, Chained, Decode, SizeWord, StoreInt, Splice;
    var t := Sized(r, payload);
    SizedKeepsBlocks(r, payload);
    SplicedSize(r.buffer, r.wp, payload);
    assert t.wp == r.wp && t.rp == r.rp && t.fillEnd == r.fillEnd && |t.buffer| == |r.buffer|;
    assert t.buffer[t.wp + HEAD..t.wp + payload + HEAD] == r.buffer[r.wp + HEAD..r.wp + payload + HEAD];
    AdvancedIsAppend(t, payload);
  }

  lemma AdvancedIsAppend(r: Ring, payload: nat)
    requires Valid(r) && 0 < payload && payload + HEAD <= Available(r) && r.wp + payload + HEAD <= |r.buffer|
    requires SizeWord(r.buffer, r.wp) == payload + HEAD
    ensures Valid(Advanced(r, payload))
    ensures Blocks(Advanced(r, payload)) == Blocks(r) + [r.buffer[r.wp + HEAD..r.wp + payload + HEAD]]
  {
    if r.fillEnd == 0 {
      AdvancedStraight(r, payload);
    } else {
      AdvancedWrapped(r, payload);
    }
  }

  lemma AppendLast<T>(a: seq<T>, b: seq<T>, x: T)
    ensures a + (b + [x]) == a + b + [x]
  {
  }

  /** A reservation survives every read: whatever fits behind wp still fits, at the same place. */
  lemma ConsumedKeepsReservation(r: Ring)
    requires Valid(r) && HaveData(r)
    ensures Consumed(r).wp == r.wp && Available(Consumed(r)) >= Available(r)
  {
  }

  // ---------------------------------------------------------------------------------------
  // When a writer is served.

  /** An empty queue serves every request that can ever be served. */
  lemma EmptyServesAll(r: Ring, total: int)
    requires Valid(r) && Blocks(r) == [] && 0 <= total <= |r.buffer|
    ensures Grants(r, total)
  {
    HaveDataMeansNonempty(r);
  }

  // The same by the offsets that the queued blocks take up.

  /** A block of the run from p to e takes up offset k. */
  predicate TakenUp(b: seq<byte>, p: int, e: int, k: int)
    decreases e - p
  {
    HEAD < SizeWord(b, p) <= e - p && (p <= k < p + SizeWord(b, p) || TakenUp(b, p + SizeWord(b, p), e, k))
  }

  /** Offset k lies in the buffer and no queued block takes it up. */
  predicate Free(r: Ring, k: int) {
    && 0 <= k < |r.buffer|
    && !(if r.fillEnd == 0 then TakenUp(r.buffer, r.rp, r.wp, k)
         else TakenUp(r.buffer, r.rp, r.fillEnd, k) || TakenUp(r.buffer, 0, r.wp, k))
  }

  predicate FreeAt(r: Ring, at: int, total: int) {
    forall k | at <= k < at + total :: Free(r, k)
  }

  lemma {:induction false} ChainTakesUp(b: seq<byte>, p: int, e: int, k: int)
    requires Chained(b, p, e)
    ensures TakenUp(b, p, e, k) <==> p <= k < e
    decreases e - p
  {
    hide SizeWord;
    if p != e {
      ChainTakesUp(b, p + SizeWord(b, p), e, k);
    }
  }

  predicate WithinRuns(r: Ring, k: int) {
    if r.fillEnd == 0 then r.rp <= k < r.wp else r.rp <= k < r.fillEnd || 0 <= k < r.wp
  }

  lemma FreeMeans(r: Ring, k: int)
    requires Valid(r)
    ensures Free(r, k) <==> 0 <= k < |r.buffer| && !WithinRuns(r, k)
  {
    hide SizeWord, Chained, TakenUp;
    if r.fillEnd == 0 {
      ChainTakesUp(r.buffer, r.rp, r.wp, k);
    } else {
      ChainTakesUp(r.buffer, r.rp, r.fillEnd, k);
      ChainTakesUp(r.buffer, 0, r.wp, k);
    }
  }

  /** get_available_size answers exactly the free bytes from wp on. */
  lemma AvailableExactly(r: Ring, total: int)
    requires Valid(r) && total > 0
    ensures total <= Available(r) <==> FreeAt(r, r.wp, total)
  {
    hide Chained, Free;
    forall k ensures Free(r, k) <==> 0 <= k < |r.buffer| && !WithinRuns(r, k) {
      FreeMeans(r, k);
    }
    if total > Available(r) {
      assert !Free(r, r.wp + Available(r));
    }
  }

  /** Before a wrap the bytes in front of the oldest block are free as well, and nothing else at the start is. */
  lemma FreeAtStart(r: Ring, total: int)
    requires Valid(r) && total > 0 && r.fillEnd == 0
    ensures FreeAt(r, 0, total) <==> total <= if r.rp == r.wp then |r.buffer| else r.rp
  {
    hide Chained, Free;
    forall k ensures Free(r, k) <==> 0 <= k < |r.buffer| && !WithinRuns(r, k) {
      FreeMeans(r, k);
    }
    var most := if r.rp == r.wp then |r.buffer| else r.rp;
    if total > most {
      assert !Free(r, most);
    }
  }

  /**
   * One pass of get_buffer grants a request exactly if there are enough free bytes in one piece from
   * wp on or, as long as writing has not wrapped, from the start; and it grants the first of these.
   */
  lemma GrantsExactly(r: Ring, total: int)
    requires Valid(r) && total > 0
    ensures Grants(r, total) <==> FreeAt(r, r.wp, total) || (r.fillEnd == 0 && FreeAt(r, 0, total))
    ensures Grants(r, total) ==> Wrapped(r, total).wp == if FreeAt(r, r.wp, total) then r.wp else 0
  {
    hide Chained, FreeAt;
    AvailableExactly(r, total);
    if r.fillEnd == 0 {
      FreeAtStart(r, total);
    }
  }

  /** There is room for a payload of n bytes from wp on, or the queue is empty and the whole buffer has. */
  predicate Holds(r: Ring, n: nat) {
    if Blocks(r) == [] then n + HEAD <= |r.buffer| else FreeAt(r, r.wp, n + HEAD)
  }

  /** data_queue_get_available answers the greatest payload for which there is room from wp on; all of it, if empty. */
  lemma GetAvailableExactly(r: Ring, n: nat)
    requires Valid(r) && n > 0
    ensures n <= GetAvailable(r) <==> Holds(r, n)
  {
    hide Chained, FreeAt, Blocks;
    HaveDataMeansNonempty(r);
    AvailableExactly(r, n + HEAD);
  }

  /** The ring after k more reads. */
  function Drained(r: Ring, k: nat): Ring {
    if k == 0 then r else Consumed(Drained(r, k - 1))
  }

  lemma {:induction false} DrainedIsSuffix(r: Ring, k: nat)
    requires Valid(r) && k <= |Blocks(r)|
    ensures Valid(Drained(r, k)) && |Drained(r, k).buffer| == |r.buffer|
    ensures Blocks(Drained(r, k)) == Blocks(r)[k..]
  {
    hide Valid, Blocks, SizeWord;
    if k > 0 {
      DrainedIsSuffix(r, k - 1);
      HaveDataMeansNonempty(Drained(r, k - 1));
      ConsumedIsTail(Drained(r, k - 1));
    }
  }

  /** Eventual service: re-testing after each consumption, some prefix of the queued blocks is enough. */
  lemma {:induction false} ServedWithinQueuedBlocks(r: Ring, total: int)
    requires Valid(r) && 0 <= total <= |r.buffer|
    ensures exists k :: 0 <= k <= |Blocks(r)| && Grants(Drained(r, k), total)
  {
    var k := |Blocks(r)|;
    DrainedIsSuffix(r, k);
    EmptyServesAll(Drained(r, k), total);
    assert Grants(Drained(r, k), total);
  }

  /**
   * `data_queue_get_available` is a promise for every request but the empty one: a request for
   * no bytes still needs its size word, yet 0 is also what the query answers when not even that fits.
   */
  lemma AvailableIsPromise(n: nat)
    ensures (forall r: Ring :: Valid(r) && n <= GetAvailable(r) ==> Grants(r, n + HEAD)) <==> n > 0
  {
    if n == 0 {
      var r := Ring(StoreInt(5) + [7], 5, 0, 0, 5, 0, false);
      LoadStore(5);
      assert SizeWord(r.buffer, 0) == 5;
      assert Chained(r.buffer, 5, 5);
      assert Chained(r.buffer, 0, 5) && Chained(r.buffer, 0, 0);
      assert Valid(r) && n <= GetAvailable(r) && !Grants(r, n + HEAD);
    }
  }
}
