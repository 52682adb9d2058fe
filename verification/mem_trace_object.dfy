// The mem_trace_t object of components/media_lib_sal/mem_trace/media_lib_mem_trace.c, updated in place.
module MemTraceObject {
  import opened MemTrace

  class Tracer {
    const recordNum: nat
    const items: array<Item>
    var num: nat
    var memUsage: int
    var peakMemUsage: int
    var overflow: bool
    ghost var missed: nat

    ghost predicate Shaped()
      reads this
    {
      items.Length == recordNum && num <= recordNum
    }

    ghost function S(): State
      reads this, items
      requires Shaped()
    {
      State(recordNum, items[..num], memUsage, peakMemUsage, overflow, missed)
    }

    ghost predicate Valid()
      reads this, items
    {
      Shaped() && Inv(S())
    }

    constructor (recordNum: nat)
      ensures Valid() && S() == Start(recordNum) && fresh(items)
    {
      this.recordNum := recordNum;
      items := new Item[recordNum](_ => Item(0, 0, 0));
      num, memUsage, peakMemUsage, overflow, missed := 0, 0, 0, false, 0;
    }

    /** add_mem_usage; usage by module is left out. */
    method AddMemUsage(size: nat)
      modifies this`memUsage, this`peakMemUsage
      ensures memUsage == old(memUsage) + size
      ensures peakMemUsage == if old(peakMemUsage) < memUsage then memUsage else old(peakMemUsage)
    {
      memUsage := memUsage + size;
      if peakMemUsage < memUsage {
        peakMemUsage := memUsage;
      }
    }

    /** get_trace_item: the index of the first item with the address. */
    method GetTraceItem(addr: nat) returns (i: nat)
      requires Shaped()
      ensures i == Find(items[..num], addr)
    {
      i := 0;
      while i < num
        invariant i <= num && forall k | 0 <= k < i :: items[k].addr != addr
      {
        if addr == items[i].addr {
          return;
        }
        i := i + 1;
      }
    }

    /** remove_trace_item: the tail takes the item's place and is cleared. */
    method RemoveTraceItem(i: nat)
      requires Shaped() && i < num
      modifies this`num, items
      ensures Shaped() && items[..num] == Without(old(items[..num]), i)
    {
      num := num - 1;
      items[i] := items[num];
      items[num] := Item(0, 0, 0);
    }

    method AddTraceItem(addr: nat, size: nat)
      requires Shaped()
      modifies this`num, this`overflow, items
      ensures Shaped()
      ensures old(num) >= recordNum ==> overflow && items[..num] == old(items[..num])
      ensures old(num) < recordNum ==> !overflow && items[..num] == old(items[..num]) + [Item(addr, size, 0)]
    {
      if num >= recordNum {
        overflow := true;
        return;
      }
      overflow := false;
      items[num] := Item(addr, size, 0);
      num := num + 1;
    }

    /** add_trace */
    method AddTrace(addr: nat, size: nat)
      requires Valid() && addr != 0 && addr !in AsMap(items[..num])
      modifies this, items
      ensures Valid() && S() == Added(old(S()), addr, size)
    {
      hide Total, AsMap;
      AddedAgrees(S(), addr, size);
      AddMemUsage(size);
      if num >= recordNum {
        missed := missed + size;
      }
      if recordNum > 0 {
        AddTraceItem(addr, size);
      }
    }

    /** remove_trace */
    method RemoveTrace(addr: nat)
      requires Valid()
      modifies this, items
      ensures Valid() && S() == Removed(old(S()), addr)
    {
      RemovedAgrees(S(), addr);
      var i := GetTraceItem(addr);
      if i < num {
        memUsage := memUsage - items[i].size;
        RemoveTraceItem(i);
      }
    }

    /** _realloc, once the kept allocator has answered with `result`. */
    method Realloc(addr: nat, size: nat, result: nat)
      requires Valid() && Allowed(S(), MemTrace.Op.Realloc(addr, size, result))
      modifies this, items
      ensures Valid() && S() == Apply(old(S()), MemTrace.Op.Realloc(addr, size, result))
    {
      NullAbsent(S());
      if addr != 0 {
        RemovedAgrees(S(), addr);
        RemoveTrace(addr);
      }
      if result != 0 {
        AddTrace(result, size);
      }
    }
  }
}
