// The save_his_t object of components/media_lib_sal/mem_trace/media_lib_mem_his.c, updated in place.
module MemHistoryObject {
  import opened Bytes
  import opened Common
  import opened MemHistory
  import opened MemHistoryRuns

  class History {
    const cache: array<byte>
    const size: nat
    var filled: nat
    var wp: Slot
    var n: nat
    var file: seq<byte>

    /** save_cache[i] */
    function Offset(i: Slot): (at: nat)
      ensures at <= 3 * size
    {
      if i == 0 then 0 else if i == 1 then size else if i == 2 then size + size else size + size + size
    }

    ghost function R(): Ring
      reads this, cache
      requires cache.Length == 4 * size
    {
      Ring([cache[..size], cache[size..size + size], cache[size + size..size + size + size],
            cache[size + size + size..]], filled, wp, n)
    }

    lemma SliceAt(i: Slot)
      requires cache.Length == 4 * size
      ensures R().slices[i] == cache[Offset(i)..Offset(i) + size]
    {
      assert cache[size + size..size + size + size] == cache[size + size..][..size];
    }

    ghost predicate Valid()
      reads this, cache
    {
      size > 0 && cache.Length == 4 * size && RingShape(R(), size)
    }

    /** Everything logged: the file, the queued slices, the partial slice. */
    ghost function Logged(): seq<byte>
      reads this, cache
      requires Valid()
    {
      file + Beyond(R(), 0)
    }

    constructor (cacheSize: nat)
      requires cacheSize >= SAVE_SLICE_NUM
      ensures Valid() && fresh(cache) && Logged() == [] && size == cacheSize / SAVE_SLICE_NUM
    {
      size := cacheSize / SAVE_SLICE_NUM;
      cache := new byte[cacheSize / SAVE_SLICE_NUM * SAVE_SLICE_NUM];
      filled, wp, n, file := 0, 0, 0, [];
      new;
      hide RingShape;
      assert Queue(R().slices, HeadOf(R()), 0) == [];
    }

    /** The part of his_write under the mutex. */
    method StoreLocked(buffer: seq<byte>) returns (fill: nat)
      requires Valid() && n < SAVE_SLICE_NUM
      modifies this`filled, this`wp, this`n, cache
      ensures Valid() && fill == Share(old(R()), size, buffer)
      ensures R() == Stored(old(R()), size, buffer[..fill])
    {
      hide Splice, RingShape, Beyond;
      ghost var r := R();
      ShapeMeans(r, size);
      var left := size - filled;
      fill := if left > |buffer| then |buffer| else left;
      StoredShape(r, size, buffer[..fill]);
      CopyIn(Offset(wp) + filled, buffer[..fill]);
      SlicesSpliced(r, old(cache[..]), Offset(wp) + filled, buffer[..fill]);
      filled := filled + fill;
      if left > fill {
        return;
      }
      filled := 0;
      wp := (wp + 1) % SAVE_SLICE_NUM;
      n := n + 1;
    }

    /** memcpy into the cache */
    method CopyIn(at: nat, data: seq<byte>)
      requires at + |data| <= cache.Length
      modifies cache
      ensures cache[..] == Splice(old(cache[..]), at, data)
    {
      forall i | 0 <= i < |data| {
        cache[at + i] := data[i];
      }
    }

    /** The thread's turn: the oldest slice goes to the file. */
    method SaveOne()
      requires Valid() && n > 0
      modifies this`n, this`file
      ensures Valid() && n == old(n) - 1 && Logged() == old(Logged())
    {
      hide Beyond, Offset;
      ghost var r := R();
      var head: Slot := (wp + SAVE_SLICE_NUM - n) % SAVE_SLICE_NUM;
      SliceAt(head);
      file := file + cache[Offset(head)..Offset(head) + size];
      n := n - 1;
      OldestApart(r, size);
      assert old(file) + (r.slices[head] + Beyond(R(), 0)) == file + Beyond(R(), 0);
    }

    /** his_write; while all slices are full the saving thread has its turn. */
    method HisWrite(data: seq<byte>)
      requires Valid()
      modifies this`filled, this`wp, this`n, this`file, cache
      ensures Valid() && Logged() == old(Logged()) + data
    {
      hide Beyond, Stored;
      var buffer := data;
      ghost var done: seq<byte> := [];
      assert Logged() == old(Logged()) + done;
      while buffer != []
        invariant Valid() && Logged() == old(Logged()) + done && data == done + buffer && n <= SAVE_SLICE_NUM
        decreases |buffer|, n
      {
        if n >= SAVE_SLICE_NUM {
          SaveOne();
        } else {
          ghost var before := R();
          var fill := StoreLocked(buffer);
          ShareMoves(before, size, buffer);
          StoredAppends(before, size, buffer[..fill], 0);
          assert file + (Beyond(before, 0) + buffer[..fill]) == file + Beyond(before, 0) + buffer[..fill];
          done := done + buffer[..fill];
          buffer := buffer[fill..];
        }
      }
    }

    /** What the thread does once it is asked to stop and nobody logs any more. */
    method Sync()
      requires Valid()
      modifies this`n, this`file
      ensures Valid() && n == 0 && file == old(Logged())
    {
      hide RingShape, Beyond, Offset;
      while n > 0
        invariant Valid() && Logged() == old(Logged())
        decreases n
      {
        SaveOne();
      }
      SliceAt(wp);
      OnlyPartial(R(), size);
      if filled > 0 {
        file := file + cache[Offset(wp)..Offset(wp) + filled];
      }
    }
  }

  lemma ShapeMeans(r: Ring, size: nat)
    requires RingShape(r, size)
    ensures r.filled <= size && (size > 0 ==> r.filled < size) && |r.slices[0]| == size
  {
  }

  lemma ShareMoves(r: Ring, size: nat, left: seq<byte>)
    requires RingShape(r, size) && size > 0 && left != []
    ensures 0 < Share(r, size, left) <= size - r.filled
  {
  }

  lemma OnlyPartial(r: Ring, size: nat)
    requires RingShape(r, size) && r.n == 0
    ensures Beyond(r, 0) == r.slices[r.wp][..r.filled] && r.filled <= size
  {
    assert Queue(r.slices, HeadOf(r), 0) == [];
  }

  /** The slices of a cache that is spliced within the current slice. */
  lemma SlicesSpliced(r: Ring, cache: seq<byte>, at: nat, data: seq<byte>)
    requires |r.slices[0]| > 0
    requires var size := |r.slices[0]|;
      && |cache| == 4 * size && r.filled + |data| <= size
      && r.slices == [cache[..size], cache[size..size + size], cache[size + size..size + size + size],
                      cache[size + size + size..]]
      && at == r.filled + (if r.wp == 0 then 0 else if r.wp == 1 then size else if r.wp == 2 then size + size
                           else size + size + size)
    ensures var size := |r.slices[0]|;
      var after := Splice(cache, at, data);
      [after[..size], after[size..size + size], after[size + size..size + size + size], after[size + size + size..]]
        == r.slices[r.wp := Splice(r.slices[r.wp], r.filled, data)]
  {
    hide Splice;
    var size := |r.slices[0]|;
    var last, after := size + size + size, Splice(cache, at, data);
    assert cache[last..] == cache[last..last + size] && after[last..] == after[last..last + size];
    PartSpliced(cache, 0, size, at, data);
    PartSpliced(cache, size, size, at, data);
    PartSpliced(cache, size + size, size, at, data);
    PartSpliced(cache, size + size + size, size, at, data);
  }

  /** A part of a cache after a splice: the data falls into it, or it is as it was. */
  lemma PartSpliced(cache: seq<byte>, from: nat, size: nat, at: nat, data: seq<byte>)
    requires from + size <= |cache|
    ensures from <= at && at + |data| <= from + size ==>
      Splice(cache, at, data)[from..from + size] == Splice(cache[from..from + size], at - from, data)
    ensures at + |data| <= from || from + size <= at ==>
      Splice(cache, at, data)[from..from + size] == cache[from..from + size]
  {
  }

  /** Taking the oldest slice away. */
  lemma OldestApart(r: Ring, size: nat)
    requires RingShape(r, size) && r.n > 0
    ensures Beyond(r, 0) == r.slices[HeadOf(r)] + Beyond(r.(n := r.n - 1), 0)
  {
    hide Queue;
    QueueFirst(r.slices, HeadOf(r), r.n);
    var q, rest := Queue(r.slices, HeadOf(r), r.n), Queue(r.slices, Next(HeadOf(r)), r.n - 1);
    assert q[0..] == q && rest[0..] == rest;
    assert HeadOf(r.(n := r.n - 1)) == Next(HeadOf(r));
    assert Partial(r.(n := r.n - 1)) == Partial(r);
    assert r.slices[HeadOf(r)] + rest + Partial(r) == r.slices[HeadOf(r)] + (rest + Partial(r));
  }
}
