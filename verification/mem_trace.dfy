// The allocation table of components/media_lib_sal/mem_trace/media_lib_mem_trace.c, compared with a
// finite map from live addresses to sizes.
module MemTrace {
  datatype Item = Item(addr: nat, size: nat, moduleId: int)

  /** What allocators and their callers do: malloc, free, and realloc with its result (0 if it failed). */
  datatype Op =
    | Add(addr: nat, size: nat)
    | Remove(addr: nat)
    | Realloc(addr: nat, size: nat, result: nat)

  /** `missed`: the bytes added while there was no room to record them. */
  datatype State = State(capacity: nat, items: seq<Item>, usage: int, peak: int, overflow: bool, missed: nat)

  // ---------------------------------------------------------------------------------------
  // The table.

  /** The sizes of all items. */
  function Total(items: seq<Item>): nat {
    if items == [] then 0 else Total(items[..|items| - 1]) + items[|items| - 1].size
  }

  function AsMap(items: seq<Item>): map<nat, nat> {
    if items == [] then map[]
    else AsMap(items[..|items| - 1])[items[|items| - 1].addr := items[|items| - 1].size]
  }

  predicate Distinct(items: seq<Item>) {
    forall i, j | 0 <= i < j < |items| :: items[i].addr != items[j].addr
  }

  /** The first item with the address, or the number of items. */
  function Find(items: seq<Item>, addr: nat): (i: nat)
    ensures i <= |items| && (i < |items| ==> items[i].addr == addr)
    ensures forall k | 0 <= k < i :: items[k].addr != addr
  {
    if items == [] then 0
    else
      var i := Find(items[..|items| - 1], addr);
      if i < |items| - 1 || items[|items| - 1].addr == addr then i else |items|
  }

  /** remove_trace_item: the last item takes the place of the removed one. */
  function Without(items: seq<Item>, i: nat): seq<Item>
    requires i < |items|
  {
    var rest := items[..|items| - 1];
    if i < |rest| then rest[i := items[|items| - 1]] else rest
  }

  lemma {:induction false} MapKeys(items: seq<Item>, addr: nat)
    ensures addr in AsMap(items) <==> Find(items, addr) < |items|
    decreases |items|
  {
    if items != [] {
      MapKeys(items[..|items| - 1], addr);
    }
  }

  lemma {:induction false} MapValue(items: seq<Item>, i: nat)
    requires Distinct(items) && i < |items|
    ensures items[i].addr in AsMap(items) && AsMap(items)[items[i].addr] == items[i].size
    decreases |items|
  {
    if i < |items| - 1 {
      MapValue(items[..|items| - 1], i);
    }
  }

  /** Replacing an item at i by one of another address. */
  lemma {:induction false} ReplaceTotal(items: seq<Item>, i: nat, x: Item)
    requires i < |items|
    ensures Total(items[i := x]) == Total(items) - items[i].size + x.size
    ensures Total(items) >= items[i].size
    decreases |items|
  {
    var last := |items| - 1;
    if i < last {
      assert items[i := x][..last] == items[..last][i := x];
      ReplaceTotal(items[..last], i, x);
    } else {
      assert items[i := x][..last] == items[..last];
    }
  }

  lemma {:induction false} ReplaceMap(items: seq<Item>, i: nat, x: Item)
    requires Distinct(items) && i < |items|
    requires forall k | 0 <= k < |items| :: items[k].addr != x.addr
    ensures AsMap(items[i := x]) == (AsMap(items) - {items[i].addr})[x.addr := x.size]
    decreases |items|
  {
    var last := |items| - 1;
    if i < last {
      assert items[i := x][..last] == items[..last][i := x];
      ReplaceMap(items[..last], i, x);
    } else {
      assert items[i := x][..last] == items[..last];
      MapKeys(items[..last], items[i].addr);
    }
  }

  /** Removing an item removes its address from the map, its size from the total, and keeps the rest. */
  lemma RemoveItem(items: seq<Item>, i: nat)
    requires Distinct(items) && i < |items|
    ensures Distinct(Without(items, i)) && |Without(items, i)| == |items| - 1
    ensures AsMap(Without(items, i)) == AsMap(items) - {items[i].addr}
    ensures Total(Without(items, i)) == Total(items) - items[i].size
  {
    hide AsMap, Total;
    var last := |items| - 1;
    var rest, x := items[..last], items[last];
    LastItem(items);
    MapKeys(rest, x.addr);
    if i < last {
      ReplaceTotal(rest, i, x);
      ReplaceMap(rest, i, x);
      assert rest[i].addr != x.addr;
    }
  }

  lemma LastItem(items: seq<Item>)
    requires items != []
    ensures var rest, x := items[..|items| - 1], items[|items| - 1];
      AsMap(items) == AsMap(rest)[x.addr := x.size] && Total(items) == Total(rest) + x.size
  {
  }

  lemma AddItem(items: seq<Item>, x: Item)
    ensures AsMap(items + [x]) == AsMap(items)[x.addr := x.size]
    ensures Total(items + [x]) == Total(items) + x.size
    ensures Distinct(items) && x.addr !in AsMap(items) ==> Distinct(items + [x])
  {
    assert (items + [x])[..|items|] == items;
    MapKeys(items, x.addr);
  }

  // ---------------------------------------------------------------------------------------
  // The operations on the table, each under the mutex.

  /** add_trace, for an address that is not null. */
  function Added(s: State, addr: nat, size: nat): State {
    var usage := s.usage + size;
    var t := s.(usage := usage, peak := if s.peak < usage then usage else s.peak);
    if s.capacity == 0 then t.(missed := s.missed + size)
    else if |s.items| >= s.capacity then t.(overflow := true, missed := s.missed + size)
    else t.(overflow := false, items := s.items + [Item(addr, size, 0)])
  }

  /** remove_trace */
  function Removed(s: State, addr: nat): State {
    var i := Find(s.items, addr);
    if i < |s.items| then s.(usage := s.usage - s.items[i].size, items := Without(s.items, i)) else s
  }

  function Apply(s: State, op: Op): State {
    match op
    case Add(addr, size) => if addr == 0 then s else Added(s, addr, size)
    case Remove(addr) => Removed(s, addr)
    case Realloc(addr, size, result) =>
      var t := if addr == 0 then s else Removed(s, addr);
      if result == 0 then t else Added(t, result, size)
  }

  /** The table has no address twice, and the total is what is recorded and what was missed. */
  predicate Inv(s: State) {
    && Distinct(s.items) && |s.items| <= s.capacity && (forall i | 0 <= i < |s.items| :: s.items[i].addr != 0)
    && s.usage == Total(s.items) + s.missed && 0 <= s.usage <= s.peak
  }

  /** An allocator does not hand out an address that is recorded as live. */
  predicate Allowed(s: State, op: Op) {
    match op
    case Add(addr, _) => addr !in AsMap(s.items)
    case Remove(_) => true
    case Realloc(addr, _, result) => result == addr || result !in AsMap(s.items)
  }

  /** The map that the table is to agree with. */
  function Recorded(s: State, op: Op): map<nat, nat> {
    var live := AsMap(s.items);
    match op
    case Add(addr, size) => if addr == 0 || |s.items| >= s.capacity then live else live[addr := size]
    case Remove(addr) => live - {addr}
    case Realloc(addr, size, result) =>
      var rest := live - {addr};
      if result == 0 || |rest| >= s.capacity then rest else rest[result := size]
  }

  lemma {:induction false} MapSize(items: seq<Item>)
    requires Distinct(items)
    ensures |AsMap(items)| == |items|
    decreases |items|
  {
    if items != [] {
      var rest, x := items[..|items| - 1], items[|items| - 1];
      MapSize(rest);
      MapKeys(rest, x.addr);
      assert AsMap(items).Keys == AsMap(rest).Keys + {x.addr};
    }
  }

  lemma RemovedAgrees(s: State, addr: nat)
    requires Inv(s)
    ensures Inv(Removed(s, addr)) && AsMap(Removed(s, addr).items) == AsMap(s.items) - {addr}
    ensures Removed(s, addr).capacity == s.capacity && Removed(s, addr).missed == s.missed
    ensures Removed(s, addr).peak == s.peak && Removed(s, addr).usage <= s.usage
  {
    hide Find;
    var i := Find(s.items, addr);
    MapKeys(s.items, addr);
    if i < |s.items| {
      RemoveItem(s.items, i);
    }
  }

  lemma AddedAgrees(s: State, addr: nat, size: nat)
    requires Inv(s) && addr != 0 && addr !in AsMap(s.items)
    ensures Inv(Added(s, addr, size))
    ensures AsMap(Added(s, addr, size).items) ==
      if |s.items| >= s.capacity then AsMap(s.items) else AsMap(s.items)[addr := size]
  {
    hide Total, AsMap;
    AddItem(s.items, Item(addr, size, 0));
  }

  /** Every operation keeps the invariant and does to the table what it says to a map. */
  lemma StepAgrees(s: State, op: Op)
    requires Inv(s) && Allowed(s, op)
    ensures Inv(Apply(s, op)) && AsMap(Apply(s, op).items) == Recorded(s, op)
  {
    hide Added, Removed, AsMap, Total;
    match op
    case Add(addr, size) =>
      if addr != 0 {
        AddedAgrees(s, addr, size);
      }
    case Remove(addr) => RemovedAgrees(s, addr);
    case Realloc(addr, size, result) =>
      NullAbsent(s);
      var t := if addr == 0 then s else Removed(s, addr);
      if addr != 0 {
        RemovedAgrees(s, addr);
      }
      assert AsMap(t.items) == AsMap(s.items) - {addr};
      MapSize(t.items);
      if result != 0 {
        AddedAgrees(t, result, size);
      }
  }

  lemma NullAbsent(s: State)
    requires Inv(s)
    ensures 0 !in AsMap(s.items)
  {
    MapKeys(s.items, 0);
  }

  // ---------------------------------------------------------------------------------------
  // Whole runs.

  predicate CanRun(s: State, run: seq<Op>)
    decreases |run|
  {
    run == [] || (Allowed(s, run[0]) && CanRun(Apply(s, run[0]), run[1..]))
  }

  function Run(s: State, run: seq<Op>): State
    decreases |run|
  {
    if run == [] then s else Run(Apply(s, run[0]), run[1..])
  }

  function Start(capacity: nat): State {
    State(capacity, [], 0, 0, false, 0)
  }

  /** What the program really holds after an operation: what it was handed and has not given back. */
  function HeldAfter(live: map<nat, nat>, op: Op): map<nat, nat> {
    match op
    case Add(addr, size) => if addr == 0 then live else live[addr := size]
    case Remove(addr) => live - {addr}
    case Realloc(addr, size, result) =>
      // A null result is a failure that leaves the block alone, or the release of a block by a size of 0.
      if result != 0 then (live - {addr})[result := size] else if size == 0 then live - {addr} else live
  }

  function Held(live: map<nat, nat>, run: seq<Op>): map<nat, nat>
    decreases |run|
  {
    if run == [] then live else Held(HeldAfter(live, run[0]), run[1..])
  }

  /** The table has room for the operation, and it is no realloc of a block that fails. */
  predicate Smooth(s: State, op: Op) {
    match op
    case Add(addr, _) => addr != 0 ==> |s.items| < s.capacity
    case Remove(_) => true
    case Realloc(addr, _, result) => if result == 0 then addr == 0 else |AsMap(s.items) - {addr}| < s.capacity
  }

  /** No allocation of the run finds the table full, and no realloc of a block fails. */
  predicate Undisturbed(s: State, run: seq<Op>)
    decreases |run|
  {
    run == [] || (Smooth(s, run[0]) && Undisturbed(Apply(s, run[0]), run[1..]))
  }

  /** The usage is never negative, and it is what is recorded and what was missed. */
  lemma {:induction false} RunKeepsInv(s: State, run: seq<Op>)
    requires Inv(s) && CanRun(s, run)
    ensures Inv(Run(s, run))
    decreases |run|
  {
    hide Inv, Apply, Allowed;
    if run != [] {
      StepAgrees(s, run[0]);
      RunKeepsInv(Apply(s, run[0]), run[1..]);
    }
  }

  /** The bytes that an operation allocates. */
  function Allocates(op: Op): nat {
    match op
    case Add(addr, size) => if addr != 0 then size else 0
    case Remove(_) => 0
    case Realloc(_, size, result) => if result != 0 then size else 0
  }

  predicate IsAllocation(op: Op) {
    (op.Add? && op.addr != 0) || (op.Realloc? && op.result != 0)
  }

  /** An allocation that finds as many blocks recorded as there is room for. */
  predicate FindsFull(s: State, op: Op) {
    IsAllocation(op) && |if op.Realloc? then AsMap(s.items) - {op.addr} else AsMap(s.items)| >= s.capacity
  }

  /** The bytes of the allocations of a run that found the table full. */
  function Unrecorded(s: State, run: seq<Op>): nat
    decreases |run|
  {
    if run == [] then 0
    else (if FindsFull(s, run[0]) then Allocates(run[0]) else 0) + Unrecorded(Apply(s, run[0]), run[1..])
  }

  /** Whether the last allocation of a run found the table full; `was` if there is none. */
  predicate LastFindsFull(s: State, run: seq<Op>, was: bool)
    decreases |run|
  {
    if run == [] then was
    else LastFindsFull(Apply(s, run[0]), run[1..], if IsAllocation(run[0]) then FindsFull(s, run[0]) else was)
  }

  lemma RemovedFlags(s: State, addr: nat)
    ensures Removed(s, addr).missed == s.missed && Removed(s, addr).overflow == s.overflow
    ensures Removed(s, addr).capacity == s.capacity
  {
  }

  lemma StepFlags(s: State, op: Op)
    requires Inv(s)
    ensures var t := Apply(s, op);
      && t.missed == s.missed + (if FindsFull(s, op) then Allocates(op) else 0) && t.capacity == s.capacity
      && (s.capacity > 0 ==> t.overflow == if IsAllocation(op) then FindsFull(s, op) else s.overflow)
  {
    hide AsMap, Total, Removed, Added, Find, Inv;
    match op
    case Add(addr, size) =>
      FullTable(s);
      AddedFlags(s, addr, size);
    case Remove(addr) => RemovedFlags(s, addr);
    case Realloc(addr, size, result) =>
      var t := if addr == 0 then s else Removed(s, addr);
      if addr == 0 {
        NullAbsent(s);
        assert AsMap(s.items) - {0} == AsMap(s.items);
      } else {
        RemovedFlags(s, addr);
        RemovedAgrees(s, addr);
      }
      FullTable(t);
      AddedFlags(t, result, size);
  }

  lemma FullTable(s: State)
    requires Inv(s)
    ensures |AsMap(s.items)| == |s.items|
  {
    MapSize(s.items);
  }

  lemma AddedFlags(s: State, addr: nat, size: nat)
    ensures var t := Added(s, addr, size);
      && t.missed == s.missed + (if |s.items| >= s.capacity then size else 0) && t.capacity == s.capacity
      && (s.capacity > 0 ==> (t.overflow <==> |s.items| >= s.capacity))
  {
  }

  /**
   * In every run the usage is the sizes recorded and the bytes of all the allocations that found the table
   * full; the overflow flag says whether the last allocation did.
   */
  lemma {:induction false} UsageExactly(capacity: nat, run: seq<Op>)
    requires CanRun(Start(capacity), run)
    ensures var t := Run(Start(capacity), run);
      && t.usage == Total(t.items) + Unrecorded(Start(capacity), run)
      && (capacity > 0 ==> (t.overflow <==> LastFindsFull(Start(capacity), run, false)))
  {
    FlagsFrom(Start(capacity), run);
  }

  lemma {:induction false} FlagsFrom(s: State, run: seq<Op>)
    requires Inv(s) && CanRun(s, run)
    ensures var t := Run(s, run);
      && Inv(t) && t.missed == s.missed + Unrecorded(s, run)
      && (s.capacity > 0 ==> (t.overflow <==> LastFindsFull(s, run, s.overflow)))
    decreases |run|
  {
    hide Inv, Apply, Allowed, FindsFull, Allocates, IsAllocation;
    if run != [] {
      StepAgrees(s, run[0]);
      StepFlags(s, run[0]);
      FlagsFrom(Apply(s, run[0]), run[1..]);
    }
  }

  /** Undisturbed, the table holds exactly the live blocks and misses nothing. */
  lemma {:induction false} UndisturbedIsHeap(s: State, run: seq<Op>)
    requires Inv(s) && CanRun(s, run) && Undisturbed(s, run)
    ensures AsMap(Run(s, run).items) == Held(AsMap(s.items), run) && Run(s, run).missed == s.missed
    ensures Inv(Run(s, run))
    decreases |run|
  {
    hide Apply, AsMap, Total, Recorded, HeldAfter, Smooth, Inv;
    if run != [] {
      StepAgrees(s, run[0]);
      SmoothStep(s, run[0]);
      MissedNothing(s, run[0]);
      UndisturbedIsHeap(Apply(s, run[0]), run[1..]);
    }
  }

  lemma SmoothStep(s: State, op: Op)
    requires Inv(s) && Smooth(s, op)
    ensures Recorded(s, op) == HeldAfter(AsMap(s.items), op)
  {
    hide AsMap, Inv, Smooth;
    NullAbsent(s);
    MinusAbsent(AsMap(s.items), 0);
    SmoothIs(s, op);
  }

  lemma MinusAbsent(t: map<nat, nat>, a: nat)
    requires a !in t
    ensures t - {a} == t
  {
  }

  lemma SmoothIs(s: State, op: Op)
    requires Smooth(s, op)
    ensures op.Add? && op.addr != 0 ==> |s.items| < s.capacity
    ensures op.Realloc? && op.result == 0 ==> op.addr == 0
    ensures op.Realloc? && op.result != 0 ==> |AsMap(s.items) - {op.addr}| < s.capacity
  {
    hide AsMap;
  }

  lemma MissedNothing(s: State, op: Op)
    requires Inv(s) && Allowed(s, op) && Smooth(s, op)
    ensures Apply(s, op).missed == s.missed
  {
    hide AsMap, Total, Find;
    if op.Realloc? {
      NullAbsent(s);
      if op.addr != 0 {
        RemovedAgrees(s, op.addr);
        MapSize(Removed(s, op.addr).items);
      } else {
        MapSize(s.items);
        assert AsMap(s.items) - {0} == AsMap(s.items);
      }
    }
  }

  // ---------------------------------------------------------------------------------------
  // The table and the heap in every run.

  /** `live` is what the program holds; `lost` are the live blocks that the table does not know. */
  datatype World = World(table: State, live: map<nat, nat>, lost: set<nat>)

  /** An allocator serves addresses that are not live, and realloc is asked about a live block or none. */
  predicate Serves(live: map<nat, nat>, op: Op) {
    match op
    case Add(addr, _) => addr == 0 || addr !in live
    case Remove(_) => true
    case Realloc(addr, _, result) =>
      (addr == 0 || addr in live) && (result == 0 || (result == addr && addr != 0) || result !in live)
  }

  /** There is a free item once `addr` is not recorded. */
  predicate Room(s: State, addr: nat) {
    |AsMap(s.items) - {addr}| < s.capacity
  }

  /**
   * A block is lost by an allocation that finds the table full, and by a realloc that fails, because
   * that removes the record and leaves the block; it is no longer lost when it is given back.
   */
  function LostAfter(s: State, lost: set<nat>, op: Op): set<nat> {
    match op
    case Add(addr, _) => if addr != 0 && !Room(s, 0) then lost + {addr} else lost
    case Remove(addr) => lost - {addr}
    case Realloc(addr, size, result) =>
      if result == 0 then (if addr == 0 || size == 0 then lost - {addr} else lost + {addr})
      else if Room(s, addr) then lost - {addr} else lost - {addr} + {result}
  }

  function After(w: World, op: Op): World {
    World(Apply(w.table, op), HeldAfter(w.live, op), LostAfter(w.table, w.lost, op))
  }

  predicate Serving(w: World, run: seq<Op>)
    decreases |run|
  {
    run == [] || (Serves(w.live, run[0]) && Serving(After(w, run[0]), run[1..]))
  }

  function Whole(w: World, run: seq<Op>): World
    decreases |run|
  {
    if run == [] then w else Whole(After(w, run[0]), run[1..])
  }

  /** The table is the heap without the lost blocks. */
  predicate Agrees(w: World) {
    Inv(w.table) && w.lost <= w.live.Keys && 0 !in w.live && AsMap(w.table.items) == w.live - w.lost
  }

  lemma RoomIs(s: State)
    requires Inv(s)
    ensures Room(s, 0) <==> |s.items| < s.capacity
  {
    hide Total;
    NullAbsent(s);
    assert AsMap(s.items) - {0} == AsMap(s.items);
    MapSize(s.items);
  }

  lemma WorldStep(w: World, op: Op)
    requires Agrees(w) && Serves(w.live, op)
    ensures Agrees(After(w, op))
  {
    hide Apply, AsMap, Total, Room, Inv;
    ServedIsAllowed(w, op);
    StepAgrees(w.table, op);
    RecordedIs(w.table, op);
    MapStep(AsMap(w.table.items), w.live, w.lost, op, w.table);
  }

  /** The same of maps alone. */
  lemma MapStep(t: map<nat, nat>, live: map<nat, nat>, lost: set<nat>, op: Op, s: State)
    requires lost <= live.Keys && 0 !in live && t == live - lost && Serves(live, op)
    ensures LostAfter(s, lost, op) <= HeldAfter(live, op).Keys && 0 !in HeldAfter(live, op)
    ensures HeldAfter(live, op) - LostAfter(s, lost, op) == match op
      case Add(addr, size) => if addr == 0 || !Room(s, 0) then t else t[addr := size]
      case Remove(addr) => t - {addr}
      case Realloc(addr, size, result) =>
        if result == 0 || !Room(s, addr) then t - {addr} else (t - {addr})[result := size]
  {
    hide Room;
    match op
    case Add(addr, size) =>
    case Remove(addr) =>
      assert t - {addr} == (live - {addr}) - (lost - {addr});
    case Realloc(addr, size, result) =>
      assert t - {addr} == (live - {addr}) - (lost - {addr}) == live - (lost + {addr});
      assert live - {0} == live && lost - {0} == lost && t - {0} == t;
      var held := (live - {addr})[result := size];
      assert (t - {addr})[result := size] == held - (lost - {addr});
      assert t - {addr} == held - (lost - {addr} + {result});
  }

  lemma ServedIsAllowed(w: World, op: Op)
    requires Agrees(w) && Serves(w.live, op)
    ensures Allowed(w.table, op)
  {
    hide AsMap, Total;
  }

  lemma RecordedIs(s: State, op: Op)
    requires Inv(s)
    ensures var t := AsMap(s.items);
      Recorded(s, op) == match op
        case Add(addr, size) => if addr == 0 || !Room(s, 0) then t else t[addr := size]
        case Remove(addr) => t - {addr}
        case Realloc(addr, size, result) =>
          if result == 0 || !Room(s, addr) then t - {addr} else (t - {addr})[result := size]
  {
    hide AsMap, Total;
    RoomIs(s);
  }

  lemma {:induction false} RunAgrees(w: World, run: seq<Op>)
    requires Agrees(w) && Serving(w, run)
    ensures Agrees(Whole(w, run))
    decreases |run|
  {
    hide Agrees, Serves, After;
    if run != [] {
      WorldStep(w, run[0]);
      RunAgrees(After(w, run[0]), run[1..]);
    }
  }

  /** Nothing recorded, nothing held. */
  function Empty(capacity: nat): World {
    World(Start(capacity), map[], {})
  }

  lemma EmptyAgrees(capacity: nat)
    ensures Agrees(Empty(capacity))
  {
  }

  /** In every run the table is the heap but for the lost blocks, hence all of it exactly if none is lost. */
  lemma {:induction false} TableIsHeap(capacity: nat, run: seq<Op>)
    requires Serving(Empty(capacity), run)
    ensures var v := Whole(Empty(capacity), run);
      && Agrees(v) && AsMap(v.table.items) == v.live - v.lost
      && (AsMap(v.table.items) == v.live <==> v.lost == {})
  {
    hide AsMap, Serving, Whole, Inv;
    EmptyAgrees(capacity);
    RunAgrees(Empty(capacity), run);
    var v := Whole(Empty(capacity), run);
    if v.lost == {} {
      assert v.live - {} == v.live;
    } else {
      var a :| a in v.lost;
      assert a in v.live && a !in v.live - v.lost;
    }
  }

  /** A recorded block whose realloc fails is still held and no longer recorded. */
  lemma FailedReallocLoses(w: World, addr: nat, size: nat)
    requires Agrees(w) && addr in AsMap(w.table.items) && size > 0
    ensures Serves(w.live, Op.Realloc(addr, size, 0))
    ensures var v := After(w, Op.Realloc(addr, size, 0));
      addr in v.live && addr !in AsMap(v.table.items) && addr in v.lost
  {
    hide AsMap, Total, Apply;
    WorldStep(w, Op.Realloc(addr, size, 0));
  }

  /** So is a block allocated while the table is full. */
  lemma FullTableLoses(w: World, addr: nat, size: nat)
    requires Agrees(w) && |w.table.items| == w.table.capacity && addr != 0 && addr !in w.live
    ensures var v := After(w, Add(addr, size));
      addr in v.live && addr !in AsMap(v.table.items) && addr in v.lost
  {
    hide AsMap, Total, Apply;
    RoomIs(w.table);
    WorldStep(w, Add(addr, size));
  }

  // ---------------------------------------------------------------------------------------
  // realloc calls the allocator before it takes the mutex, so another thread may be handed the block
  // that was given back, and record it, before the old record is removed. MemTraceRace has every run.

  /**
   * If the realloc goes on next, the old record is the one found first; the table is as if it had been
   * removed first, exactly if the new record found room beside it.
   */
  lemma RaceHeals(s: State, addr: nat, size: nat)
    requires Inv(s) && addr in AsMap(s.items)
    ensures var t, u := Removed(Added(s, addr, size), addr), Added(Removed(s, addr), addr, size);
      && (AsMap(t.items) == AsMap(u.items) <==> |s.items| < s.capacity)
      && AsMap(u.items) == AsMap(s.items)[addr := size]
      && (|s.items| < s.capacity ==> t.usage == u.usage && t.missed == u.missed)
  {
    hide Find, Total, AsMap, Without;
    var items, x := s.items, Item(addr, size, 0);
    var i := Find(items, addr);
    MapKeys(items, addr);
    RemovedAgrees(s, addr);
    RemoveItem(items, i);
    AddedAgrees(Removed(s, addr), addr, size);
    assert (AsMap(items) - {addr})[addr := size] == AsMap(items)[addr := size];
    if |items| < s.capacity {
      FindAppended(items, x, addr);
      ReplaceIn(items, i, x);
      assert Without(items + [x], i) == items[i := x] by { WithoutLast(items, i, x); }
    } else {
      FullOnlyMisses(s, addr, size);
      assert addr !in AsMap(items) - {addr};
    }
  }

  lemma WithoutLast(items: seq<Item>, i: nat, x: Item)
    requires i < |items|
    ensures Without(items + [x], i) == items[i := x]
  {
    assert (items + [x])[..|items|] == items;
  }

  lemma FullOnlyMisses(s: State, addr: nat, size: nat)
    requires |s.items| >= s.capacity
    ensures Added(s, addr, size).items == s.items
    ensures Removed(Added(s, addr, size), addr).items == Removed(s, addr).items
  {
    hide Find, Without;
  }

  lemma FindAppended(items: seq<Item>, x: Item, addr: nat)
    requires Find(items, addr) < |items|
    ensures Find(items + [x], addr) == Find(items, addr)
  {
    assert (items + [x])[..|items|] == items;
  }

  /** Replacing an item by one of the same address. */
  lemma {:induction false} ReplaceIn(items: seq<Item>, i: nat, x: Item)
    requires Distinct(items) && i < |items| && items[i].addr == x.addr
    ensures AsMap(items[i := x]) == AsMap(items)[x.addr := x.size]
    decreases |items|
  {
    var last := |items| - 1;
    if i < last {
      assert items[i := x][..last] == items[..last][i := x];
      ReplaceIn(items[..last], i, x);
    } else {
      assert items[i := x][..last] == items[..last];
    }
  }

  /** The greatest usage within a run, from `highest` on. A realloc is seen after each of its halves. */
  function Highest(s: State, run: seq<Op>, highest: int): int
    decreases |run|
  {
    if run == [] then highest
    else
      var t := Apply(s, run[0]);
      Highest(t, run[1..], if highest < t.usage then t.usage else highest)
  }

  /** peak_mem_usage is the running maximum of mem_usage. */
  lemma {:induction false} PeakIsHighest(s: State, run: seq<Op>)
    requires Inv(s) && CanRun(s, run)
    ensures Run(s, run).peak == Highest(s, run, s.peak)
    decreases |run|
  {
    hide Inv, Apply, Allowed;
    if run != [] {
      StepAgrees(s, run[0]);
      PeakStep(s, run[0]);
      PeakIsHighest(Apply(s, run[0]), run[1..]);
    }
  }

  lemma PeakStep(s: State, op: Op)
    requires Inv(s)
    ensures Apply(s, op).peak == if s.peak < Apply(s, op).usage then Apply(s, op).usage else s.peak
  {
    hide Find, Total, AsMap, Without, Removed;
    if op.Remove? || op.Realloc? {
      RemovedAgrees(s, op.addr);
    }
  }
}
