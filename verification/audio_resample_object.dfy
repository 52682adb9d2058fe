// resample_t of components/av_render/src/audio_resample.c: opening the converters, and a write that
// passes the samples from one work buffer to the other.
module AudioResampleObject {
  import opened Bytes
  import opened AudioResample

  class WorkBuf {
    var data: array<byte>
    var used: bool

    constructor ()
      ensures !used && fresh(data) && data.Length == 0
    {
      data := new byte[0];
      used := false;
    }
  }

  class Resampler {
    const input: Format
    const output: Format
    var ops: seq<Op>
    /** The formats that each converter was opened with. */
    var formats: map<Op, (Format, Format)>
    const first: WorkBuf
    const second: WorkBuf

    ghost predicate Valid()
      reads this, first, second
    {
      && first != second && first.data != second.data
      && ops == Plan(input, output)
      && (forall k | 0 <= k < |ops| :: Fits(k))
    }

    /** Converter k was opened with the formats that a write has in front of it and behind it. */
    ghost predicate Fits(k: nat)
      reads this
      requires k < |ops|
    {
      && ops[k] in formats
      && formats[ops[k]] == (FormatAt(input, output, ops, k), FormatAt(input, output, ops, k + 1))
    }

    /** A planned resampler whose converters are still to be opened. */
    constructor (input: Format, output: Format)
      ensures ops == Plan(input, output) && first != second && first.data != second.data && Idle()
      ensures fresh(first) && fresh(second) && fresh(first.data) && fresh(second.data)
      ensures this.input == input && this.output == output
    {
      this.input, this.output := input, output;
      first := new WorkBuf();
      second := new WorkBuf();
      ops, formats := Plan(input, output), map[];
    }

    /** The loop of audio_resample_open; `opens` says which converters open. */
    method Open(opens: Op -> bool) returns (ok: bool)
      requires ops == Plan(input, output) && first != second && first.data != second.data
      modifies this`formats
      ensures ok <==> forall op | op in ops :: opens(op)
      ensures ok ==> Valid()
    {
      hide Plan, FormatAt;
      PlanIsNeeded(input, output);
      var cur := input;
      FormatFirst(input, output, ops);
      for i := 0 to |ops|
        invariant cur == FormatAt(input, output, ops, i)
        invariant forall k | 0 <= k < i :: Fits(k) && opens(ops[k])
      {
        if !opens(ops[i]) {
          return false;
        }
        var next := Next(ops[i], cur, output);
        FormatStep(input, output, ops, i);
        assert forall k | 0 <= k < i :: Fits(k) && ops[k] != ops[i];
        formats := formats[ops[i] := (cur, next)];
        cur := next;
      }
      ok := true;
    }

    ghost predicate Idle()
      reads first, second
    {
      !first.used && !second.used
    }
  
    function Buf(i: int): WorkBuf {
      if i == 0 then first else second
    }

    /** alloc_work_buf: the first free buffer, grown if need be; -1 if none is free or memory is refused. */
    method AllocWorkBuf(size: nat, grants: nat -> bool) returns (i: int)
      requires first != second && first.data != second.data
      modifies first, second
      ensures first.data != second.data
      ensures fresh(first.data) || first.data == old(first.data)
      ensures fresh(second.data) || second.data == old(second.data)
      ensures i == -1 ==> first.used == old(first.used) && second.used == old(second.used)
      ensures i == -1 ==> old(first.used && second.used) || !grants(size)
      ensures i != -1 ==>
        && i == (if !old(first.used) then 0 else 1)
        && !old(Buf(i).used) && Buf(i).used && Buf(i).data.Length >= size
        && Buf(1 - i).used == old(Buf(1 - i).used) && Buf(1 - i).data == old(Buf(1 - i).data)
    {
      i := 0;
      while i < 2
        invariant 0 <= i <= 2
        invariant i > 0 ==> first.used
        invariant i > 1 ==> second.used
        invariant first.used == old(first.used) && second.used == old(second.used)
        invariant first.data == old(first.data) && second.data == old(second.data)
      {
        var b := Buf(i);
        if !b.used {
          if size > b.data.Length {
            if !grants(size) {
              return -1;
            }
            b.data := new byte[size];
          }
          b.used := true;
          return;
        }
        i := i + 1;
      }
      return -1;
    }

    /**
     * audio_resample_write. `delivered` is what the callback gets, if it is called; `l` are the opened
     * converters, `grants` says which sizes the allocator grants.
     */
    method Write(data: seq<byte>, l: Library, grants: nat -> bool) returns (ok: bool, delivered: seq<byte>)
      requires Valid() && Idle() && Sane(l)
      requires input.channel > 0 && input.bits >= 8
      modifies first, first.data, second, second.data
      ensures Valid() && Idle()
      ensures data == [] || ops == [] ==> ok && delivered == data
      ensures ok && data != [] && ops != [] ==>
        delivered == After(l, input, output, ops, Whole(data, input), |ops|).data
      ensures !ok ==> delivered == [] && exists size: nat :: !grants(size)
    {
      if data == [] || ops == [] {
        return true, data;
      }
      var cur, last := -1, -1;
      var info := input;
      var samples := |data| / (info.channel * (info.bits / 8));
      var need := 0;
      ghost var x := Whole(data, input);
      WholeFits(data, input);
      for i := 0 to |ops|
        invariant Valid() && info == FormatAt(input, output, ops, i)
        invariant fresh(first.data) || first.data == old(first.data)
        invariant fresh(second.data) || second.data == old(second.data)
        invariant x == After(l, input, output, ops, Whole(data, input), i)
        invariant samples == x.samples && |x.data| == Size(samples, info)
        invariant last == cur && -1 <= cur <= 1
        invariant first.used == (cur == 0) && second.used == (cur == 1)
        invariant cur == -1 <==> i == 0
        invariant cur == -1 ==> x.data <= data
        invariant cur != -1 ==> need == |x.data| <= Buf(cur).data.Length && Buf(cur).data[..need] == x.data
      {
        assert Fits(i);
        need := NeedSize(l, ops[i], samples, info, output);
        cur := AllocWorkBuf(need, grants);
        if cur == -1 {
          if last != -1 {
            Buf(last).used := false;
          }
          return false, [];
        }
        assert cur != last;
        var source := if last == -1 then data[..Size(samples, info)] else Buf(last).data[..Size(samples, info)];
        assert source == x.data;
        var y := l.convert(ops[i], formats[ops[i]].0, formats[ops[i]].1, Pcm(samples, source));
        NeedSuffices(l, ops[i], info, output, x);
        CopyOut(Buf(cur).data, y.data);
        info := Next(ops[i], info, output);
        if ops[i] == RateCvt {
          need := |y.data|;
          samples := y.samples;
        }
        x := y;
        if last != -1 {
          Buf(last).used := false;
        }
        last := cur;
      }
      Buf(cur).used := false;
      ok, delivered := true, Buf(cur).data[..need];
    }
  }

  lemma FormatFirst(input: Format, out: Format, ops: seq<Op>)
    ensures FormatAt(input, out, ops, 0) == input
  {
  }

  lemma FormatStep(input: Format, out: Format, ops: seq<Op>, i: nat)
    requires i < |ops|
    ensures FormatAt(input, out, ops, i + 1) == Next(ops[i], FormatAt(input, out, ops, i), out)
  {
  }

  /** The whole samples at the start of data. */
  function Whole(data: seq<byte>, f: Format): Pcm
    requires f.channel > 0 && f.bits >= 8
  {
    var n := |data| / SampleSize(f);
    Pcm(n, if Size(n, f) <= |data| then data[..Size(n, f)] else [])
  }

  function SampleSize(f: Format): (n: nat)
    requires f.channel > 0 && f.bits >= 8
    ensures n > 0
  {
    MulPositive(f.channel, f.bits / 8);
    f.channel * (f.bits / 8)
  }

  lemma MulPositive(a: nat, b: nat)
    requires a > 0 && b > 0
    ensures a * b > 0
  {
  }

  lemma WholeFits(data: seq<byte>, f: Format)
    requires f.channel > 0 && f.bits >= 8
    ensures var n := |data| / SampleSize(f);
      Size(n, f) <= |data| && Whole(data, f) == Pcm(n, data[..Size(n, f)])
  {
    var s := SampleSize(f);
    assert |data| == |data| / s * s + |data| % s;
  }

  /** A converter stores what it makes. */
  method CopyOut(a: array<byte>, s: seq<byte>)
    requires |s| <= a.Length
    modifies a
    ensures a[..|s|] == s
  {
    forall i | 0 <= i < |s| {
      a[i] := s[i];
    }
  }
}
