// _realloc of components/media_lib_sal/mem_trace/media_lib_mem_trace.c calls the allocator before it
// takes the mutex. In between other threads run whole operations, and one of them may be handed the
// block that was given back and record it while the old record is still there.
module MemTraceRace {
  import opened MemTrace

  /** What the other threads do to the table and the heap: record a block they were handed; drop a record. */
  datatype Step =
    | Put(addr: nat, size: nat)
    // For a free and a realloc, or, with `freed` false, for a realloc that fails.
    | Drop(addr: nat, freed: bool)

  /**
   * The table, what is live, the address that the realloc gave back, where its old record is or -1,
   * and the block that it was handed instead, 0 for none.
   */
  datatype Window = Window(table: State, live: map<nat, nat>, addr: nat, stale: int, result: nat)

  predicate Allowed(w: Window, step: Step) {
    match step
    case Put(a, _) => a != 0 && a !in w.live
    case Drop(a, _) => a in w.live && a != w.result
  }

  /** Where item k is once item i is removed. */
  function Moved(items: seq<Item>, i: int, k: int): int {
    if k == i then -1 else if k == |items| - 1 then i else k
  }

  function After(w: Window, step: Step): Window {
    match step
    case Put(a, n) => w.(table := Added(w.table, a, n), live := w.live[a := n])
    case Drop(a, freed) =>
      var items, i := w.table.items, Find(w.table.items, a);
      var t := Removed(w.table, a);
      var moved := if i < |items| then Moved(items, i, w.stale) else w.stale;
      // Of two records of the address the one that is left is the old one from now on.
      var left := if a == w.addr && freed && Find(t.items, a) < |t.items| then Find(t.items, a) else moved;
      w.(table := t, live := if freed then w.live - {a} else w.live, stale := left)
  }

  predicate CanRun(w: Window, run: seq<Step>)
    decreases |run|
  {
    run == [] || (Allowed(w, run[0]) && CanRun(After(w, run[0]), run[1..]))
  }

  function Run(w: Window, run: seq<Step>): Window
    decreases |run|
  {
    if run == [] then w else Run(After(w, run[0]), run[1..])
  }

  /** The allocator has answered. */
  function Answered(s: State, live: map<nat, nat>, addr: nat, size: nat, result: nat): Window {
    var rest := live - {addr};
    Window(s, if result == 0 then rest else rest[result := size], addr,
           if Find(s.items, addr) < |s.items| then Find(s.items, addr) else -1, result)
  }

  /** The locked part of _realloc. */
  function Finished(w: Window, size: nat): State {
    var t := Removed(w.table, w.addr);
    if w.result == 0 then t else Added(t, w.result, size)
  }

  // ---------------------------------------------------------------------------------------
  // The invariant.

  /** The record is of a live block, with its size. */
  predicate Sound(x: Item, live: map<nat, nat>) {
    x.addr in live && live[x.addr] == x.size
  }

  /** But for the old record, every record is of a live block and no block has two. */
  predicate WindowInv(w: Window) {
    var items := w.table.items;
    && -1 <= w.stale < |items| && w.addr != 0
    && (w.stale >= 0 ==> items[w.stale].addr == w.addr)
    && (forall i, j | 0 <= i < j < |items| && i != w.stale && j != w.stale :: items[i].addr != items[j].addr)
    && (forall i | 0 <= i < |items| && i != w.stale :: Sound(items[i], w.live))
    && (w.result != 0 ==> w.result in w.live && w.result != w.addr)
    && (forall i | 0 <= i < |items| :: items[i].addr != w.result)
    && 0 !in w.live && |items| <= w.table.capacity
  }

  lemma PutKeepsInv(w: Window, a: nat, n: nat)
    requires WindowInv(w) && Allowed(w, Put(a, n))
    ensures WindowInv(After(w, Put(a, n)))
  {
  }

  lemma RemovedAt(s: State, a: nat)
    ensures Find(s.items, a) < |s.items| ==> Removed(s, a).items == Without(s.items, Find(s.items, a))
    ensures Find(s.items, a) == |s.items| ==> Removed(s, a) == s
    ensures Removed(s, a).capacity == s.capacity
  {
    hide Find, Without;
  }

  /** The items behind a removal, by where they come from. */
  lemma WithoutAt(items: seq<Item>, i: nat)
    requires i < |items|
    ensures |Without(items, i)| == |items| - 1
    ensures forall k | 0 <= k < |items| - 1 :: Without(items, i)[k] == items[if k == i then |items| - 1 else k]
  {
  }

  /** A record of another address is dropped. */
  lemma DropOther(w: Window, a: nat, freed: bool)
    requires WindowInv(w) && Allowed(w, Drop(a, freed)) && a != w.addr
    ensures WindowInv(After(w, Drop(a, freed)))
  {
    hide Find, Removed, Without;
    var items, i := w.table.items, Find(w.table.items, a);
    RemovedAt(w.table, a);
    if i < |items| {
      WithoutAt(items, i);
    }
  }

  /** A record of the address itself is dropped, the old one or that of the thread that holds it. */
  lemma DropSame(w: Window, freed: bool)
    requires WindowInv(w) && Allowed(w, Drop(w.addr, freed))
    ensures WindowInv(After(w, Drop(w.addr, freed)))
  {
    hide Find, Removed, Without;
    var items, i := w.table.items, Find(w.table.items, w.addr);
    var t := Removed(w.table, w.addr);
    RemovedAt(w.table, w.addr);
    if i < |items| {
      WithoutAt(items, i);
    }
    var v := After(w, Drop(w.addr, freed));
    if freed {
      assert forall k | 0 <= k < |t.items| && k != v.stale :: t.items[k].addr != w.addr;
    }
  }

  lemma DropKeepsInv(w: Window, a: nat, freed: bool)
    requires WindowInv(w) && Allowed(w, Drop(a, freed))
    ensures WindowInv(After(w, Drop(a, freed)))
  {
    hide WindowInv, After;
    if a == w.addr {
      DropSame(w, freed);
    } else {
      DropOther(w, a, freed);
    }
  }

  lemma StepKeepsInv(w: Window, step: Step)
    requires WindowInv(w) && Allowed(w, step)
    ensures WindowInv(After(w, step))
  {
    hide WindowInv, After;
    match step
    case Put(a, n) => PutKeepsInv(w, a, n);
    case Drop(a, freed) => DropKeepsInv(w, a, freed);
  }

  lemma {:induction false} RunKeepsInv(w: Window, run: seq<Step>)
    requires WindowInv(w) && CanRun(w, run)
    ensures WindowInv(Run(w, run)) && Run(w, run).addr == w.addr && Run(w, run).result == w.result
    decreases |run|
  {
    hide WindowInv, Allowed;
    if run != [] {
      StepKeepsInv(w, run[0]);
      RunKeepsInv(After(w, run[0]), run[1..]);
    }
  }

  /** The table is right: every record is of a live block with its size, and no block has two. */
  predicate Right(items: seq<Item>, live: map<nat, nat>) {
    Distinct(items) && forall i | 0 <= i < |items| :: Sound(items[i], live)
  }

  predicate Has(items: seq<Item>, addr: nat) {
    exists i | 0 <= i < |items| :: items[i].addr == addr
  }

  lemma AnsweredInv(s: State, live: map<nat, nat>, addr: nat, size: nat, result: nat)
    requires Inv(s) && Right(s.items, live) && addr in live && 0 !in live && (result != 0 ==> result !in live)
    ensures WindowInv(Answered(s, live, addr, size, result))
  {
    hide Find, Total;
  }

  /** A record of the address that is not the old one: it is of the block as it is now. */
  predicate NewAt(w: Window, j: int) {
    0 <= j < |w.table.items| && j != w.stale && w.table.items[j].addr == w.addr
  }

  /**
   * The realloc may go on: nobody has the address, or whoever has it is recorded, and the old record
   * is still there and in front of the new one, or says the same.
   */
  ghost predicate Harmless(w: Window) {
    w.addr in w.live ==> exists j :: NewAt(w, j) && OldInFront(w, j)
  }

  predicate OldInFront(w: Window, j: int) {
    0 <= j < |w.table.items| && 0 <= w.stale < |w.table.items|
    && (w.stale < j || w.table.items[w.stale].size == w.table.items[j].size)
  }

  /** At the end the table is right, and the address is recorded if somebody has it. */
  predicate WellEnded(w: Window, size: nat) {
    var items := Finished(w, size).items;
    Right(items, w.live) && (w.addr in w.live ==> Has(items, w.addr))
  }

  /** What the removal leaves of the address. */
  lemma RemovalLeaves(w: Window)
    requires WindowInv(w)
    ensures var items := Removed(w.table, w.addr).items;
      Right(items, w.live) && (w.addr in w.live ==> Has(items, w.addr)) <==> Harmless(w)
  {
    hide Find, Removed, Without;
    var items, i := w.table.items, Find(w.table.items, w.addr);
    var rest := Removed(w.table, w.addr).items;
    RemovedAt(w.table, w.addr);
    if i == |items| {
      assert rest == items;
    } else {
      WithoutAt(items, i);
      if w.addr !in w.live {
        assert i == w.stale;
      } else if j :| NewAt(w, j) {
        NewIsOne(w, j);
        if 0 <= w.stale {
          OneLeft(w, j, i, rest);
        } else {
          assert i == j && !Has(rest, w.addr);
        }
      } else {
        assert forall k | 0 <= k < |items| && items[k].addr == w.addr :: k == w.stale || NewAt(w, k);
        assert i == w.stale && !Has(rest, w.addr);
      }
    }
  }

  lemma NewIsOne(w: Window, j: int)
    requires WindowInv(w) && NewAt(w, j)
    ensures forall k :: NewAt(w, k) <==> k == j
  {
  }

  /** Of two records the first is removed, and the other one is the only one left. */
  lemma OneLeft(w: Window, j: int, i: nat, rest: seq<Item>)
    requires WindowInv(w) && NewAt(w, j) && 0 <= w.stale && w.addr in w.live
    requires i < |w.table.items| && w.table.items[i].addr == w.addr
    requires forall k | 0 <= k < i :: w.table.items[k].addr != w.addr
    requires rest == Without(w.table.items, i)
    ensures Right(rest, w.live) && Has(rest, w.addr) <==> OldInFront(w, j)
  {
    hide Without;
    var items := w.table.items;
    NewIsOne(w, j);
    WithoutAt(items, i);
    assert i == if w.stale < j then w.stale else j;
    var other := if w.stale < j then j else w.stale;
    var at := if other == |items| - 1 then i else other;
    assert rest[at] == items[other];
    assert Sound(rest[at], w.live) <==> OldInFront(w, j);
  }

  /** Recording the block that the realloc was handed instead changes nothing about that. */
  lemma ResultApart(items: seq<Item>, live: map<nat, nat>, addr: nat, x: Item)
    requires Sound(x, live) && x.addr != addr && forall i | 0 <= i < |items| :: items[i].addr != x.addr
    ensures Right(items + [x], live) <==> Right(items, live)
    ensures Has(items + [x], addr) <==> Has(items, addr)
  {
    var all := items + [x];
    assert forall i | 0 <= i < |items| :: all[i] == items[i];
    assert all[|items|] == x;
  }

  /** A realloc may go on without harm exactly so. */
  lemma HarmlessExactly(w: Window, size: nat)
    requires WindowInv(w) && (w.result != 0 ==> w.live[w.result] == size)
    ensures WellEnded(w, size) <==> Harmless(w)
  {
    hide Find, Removed, Without, Right, Has, Harmless;
    RemovalLeaves(w);
    var t := Removed(w.table, w.addr);
    if w.result != 0 {
      RemovedAt(w.table, w.addr);
      ResultUnrecorded(w);
      ResultApart(t.items, w.live, w.addr, Item(w.result, size, 0));
    }
  }

  lemma ResultUnrecorded(w: Window)
    requires WindowInv(w)
    ensures forall i | 0 <= i < |Removed(w.table, w.addr).items| :: Removed(w.table, w.addr).items[i].addr != w.result
  {
    hide Find, Removed, Without;
    RemovedAt(w.table, w.addr);
    if Find(w.table.items, w.addr) < |w.table.items| {
      WithoutAt(w.table.items, Find(w.table.items, w.addr));
    }
  }

  lemma {:induction false} ResultKept(w: Window, run: seq<Step>, size: nat)
    requires WindowInv(w) && CanRun(w, run) && w.result != 0 && w.result in w.live && w.live[w.result] == size
    ensures w.result in Run(w, run).live && Run(w, run).live[w.result] == size
    decreases |run|
  {
    hide WindowInv;
    if run != [] {
      StepKeepsInv(w, run[0]);
      ResultLives(w, run[0]);
      ResultKept(After(w, run[0]), run[1..], size);
    }
  }

  lemma ResultLives(w: Window, step: Step)
    requires WindowInv(w) && Allowed(w, step) && w.result != 0
    ensures w.result in After(w, step).live && After(w, step).live[w.result] == w.live[w.result]
    ensures After(w, step).result == w.result
  {
    hide Find, Removed, Added;
  }

  /**
   * The race in every run: whatever other threads do between the allocator's answer and the mutex, the
   * table is right behind the realloc exactly if nobody holds the address then, or its holder is
   * recorded and the old record is still there, in front of the new one or of the same size.
   */
  lemma RaceExactly(s: State, live: map<nat, nat>, addr: nat, size: nat, result: nat, run: seq<Step>)
    requires Inv(s) && Right(s.items, live) && addr in live && 0 !in live && (result != 0 ==> result !in live)
    requires CanRun(Answered(s, live, addr, size, result), run)
    ensures var w := Run(Answered(s, live, addr, size, result), run);
      WellEnded(w, size) <==> Harmless(w)
  {
    hide WindowInv, WellEnded, Harmless, Right, Inv, CanRun, Run;
    var w := Answered(s, live, addr, size, result);
    AnsweredInv(s, live, addr, size, result);
    RunKeepsInv(w, run);
    if result != 0 {
      ResultKept(w, run, size);
    }
    HarmlessExactly(Run(w, run), size);
  }

  // ---------------------------------------------------------------------------------------
  // What that means for the runs that come first to mind.

  lemma FindBehind(items: seq<Item>, x: Item, a: nat)
    ensures Find(items + [x], a) ==
      if Find(items, a) < |items| then Find(items, a) else if x.addr == a then |items| else |items| + 1
  {
    assert (items + [x])[..|items|] == items;
  }

  /** The address is handed to another thread at once: no harm exactly if its record finds room behind the old one. */
  lemma HandedOn(w: Window, n: nat)
    requires WindowInv(w) && w.addr !in w.live
    ensures Harmless(After(w, Put(w.addr, n))) <==> |w.table.items| < w.table.capacity && w.stale >= 0
  {
    hide Find;
    var v := After(w, Put(w.addr, n));
    var items := w.table.items;
    assert forall k | 0 <= k < |items| && items[k].addr == w.addr :: k == w.stale;
    if |items| < w.table.capacity {
      assert NewAt(v, |items|);
      assert forall k :: NewAt(v, k) <==> k == |items|;
    } else {
      assert forall k :: !NewAt(v, k);
    }
  }

  /**
   * If it finds room and another block is freed then, the new record takes that one's place: no harm
   * exactly if that place is behind the old record, or the sizes are the same, or there was no record.
   */
  lemma HandedOnAndFreed(w: Window, n: nat, other: nat, freed: bool)
    requires WindowInv(w) && w.addr !in w.live && w.stale >= 0 && |w.table.items| < w.table.capacity
    requires other in w.live && other != w.result
    ensures var k := Find(w.table.items, other);
      Harmless(After(After(w, Put(w.addr, n)), Drop(other, freed))) <==>
        k == |w.table.items| || w.stale < k || w.table.items[w.stale].size == n
  {
    hide Find, Without;
    var items, x := w.table.items, Item(w.addr, n, 0);
    var v := After(w, Put(w.addr, n));
    var k := Find(items, other);
    FindBehind(items, x, other);
    assert forall m | 0 <= m < |items| && items[m].addr == w.addr :: m == w.stale;
    RemovedAt(v.table, other);
    var u := After(v, Drop(other, freed));
    if k == |items| {
      assert u.table == v.table;
      assert NewAt(u, |items|);
      assert forall m :: NewAt(u, m) <==> m == |items|;
    } else {
      WithoutAt(items + [x], k);
      assert u.table.items[k] == x;
      assert NewAt(u, k);
      assert forall m :: NewAt(u, m) <==> m == k;
    }
  }

  /** If a further block is recorded in between, that one takes the place, and there is no harm. */
  lemma HandedOnBehind(w: Window, n: nat, more: nat, size: nat, other: nat, freed: bool)
    requires WindowInv(w) && w.addr !in w.live && w.stale >= 0 && |w.table.items| + 1 < w.table.capacity
    requires other in w.live && other != w.result
    requires more != 0 && more !in w.live && more != w.addr
    ensures Harmless(After(After(After(w, Put(w.addr, n)), Put(more, size)), Drop(other, freed)))
  {
    hide Find, Without;
    var items, x, y := w.table.items, Item(w.addr, n, 0), Item(more, size, 0);
    var v := After(After(w, Put(w.addr, n)), Put(more, size));
    assert v.table.items == items + [x] + [y];
    FindBehind(items, x, other);
    FindBehind(items + [x], y, other);
    RemovedAt(v.table, other);
    var u := After(v, Drop(other, freed));
    if Find(items, other) < |items| {
      WithoutAt(v.table.items, Find(items, other));
    }
    assert NewAt(u, |items|) && OldInFront(u, |items|);
  }
}
