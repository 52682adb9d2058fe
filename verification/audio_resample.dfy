// The conversion plan of components/av_render/src/audio_resample.c.
module AudioResample {
  import opened Bytes
  import opened Common

  datatype Format = Format(rate: nat, channel: nat, bits: nat)

  datatype Op = ChCvt | BitCvt | RateCvt

  /** What a converter for `op` on the way to `out` makes of a format. */
  function Next(op: Op, f: Format, out: Format): Format {
    match op
    case ChCvt => f.(channel := out.channel)
    case BitCvt => f.(bits := out.bits)
    case RateCvt => f.(rate := out.rate)
  }

  /** sort_resample_ops */
  function Plan(input: Format, out: Format): seq<Op> {
    (if input.channel > out.channel then [ChCvt] else []) +
    (if input.bits > out.bits then [BitCvt] else []) +
    (if input.rate != out.rate then [RateCvt] else []) +
    (if input.bits < out.bits then [BitCvt] else []) +
    (if input.channel < out.channel then [ChCvt] else [])
  }

  /** The format in front of operation k: the fold that open and write each compute. */
  function FormatAt(input: Format, out: Format, ops: seq<Op>, k: nat): Format
    requires k <= |ops|
  {
    if k == 0 then input else Next(ops[k - 1], FormatAt(input, out, ops, k - 1), out)
  }

  // ---------------------------------------------------------------------------------------
  // The plan.

  predicate Once(ops: seq<Op>) {
    forall i, j | 0 <= i < j < |ops| :: ops[i] != ops[j]
  }

  lemma PlanMembers(input: Format, out: Format)
    ensures var ops := Plan(input, out);
      && |ops| <= 3
      && (ChCvt in ops <==> input.channel != out.channel)
      && (BitCvt in ops <==> input.bits != out.bits)
      && (RateCvt in ops <==> input.rate != out.rate)
  {
    var a := if input.channel > out.channel then [ChCvt] else [];
    var b := if input.bits > out.bits then [BitCvt] else [];
    var c := if input.rate != out.rate then [RateCvt] else [];
    var d := if input.bits < out.bits then [BitCvt] else [];
    var e := if input.channel < out.channel then [ChCvt] else [];
    assert Plan(input, out) == a + b + c + d + e;
  }

  lemma OnceAppend(a: seq<Op>, b: seq<Op>)
    requires Once(a) && Once(b) && forall x | x in a :: x !in b
    ensures Once(a + b)
  {
    forall i, j | 0 <= i < j < |a + b| ensures (a + b)[i] != (a + b)[j] {
      if i < |a| && |a| <= j {
        assert (a + b)[i] in a && (a + b)[j] in b;
      }
    }
  }

  lemma PlanOnce(input: Format, out: Format)
    ensures Once(Plan(input, out))
  {
    var a := if input.channel > out.channel then [ChCvt] else [];
    var b := if input.bits > out.bits then [BitCvt] else [];
    var c := if input.rate != out.rate then [RateCvt] else [];
    var d := if input.bits < out.bits then [BitCvt] else [];
    var e := if input.channel < out.channel then [ChCvt] else [];
    OnceAppend(a, b);
    OnceAppend(a + b, c);
    OnceAppend(a + b + c, d);
    OnceAppend(a + b + c + d, e);
  }

  /** An operation is planned exactly where the formats differ, and once. */
  lemma PlanIsNeeded(input: Format, out: Format)
    ensures var ops := Plan(input, out);
      && |ops| <= 3 && Once(ops)
      && (ChCvt in ops <==> input.channel != out.channel)
      && (BitCvt in ops <==> input.bits != out.bits)
      && (RateCvt in ops <==> input.rate != out.rate)
      && (ops == [] <==> input == out)
  {
    hide Plan;
    PlanMembers(input, out);
    PlanOnce(input, out);
    if Plan(input, out) != [] {
      var op := Plan(input, out)[0];
      assert op in Plan(input, out) && (op == ChCvt || op == BitCvt || op == RateCvt);
    }
  }

  /** Narrowing comes in front of the rate conversion, channels first; widening behind it, channels last. */
  function Rank(op: Op, input: Format, out: Format): nat {
    match op
    case ChCvt => if input.channel > out.channel then 0 else 4
    case BitCvt => if input.bits > out.bits then 1 else 3
    case RateCvt => 2
  }

  lemma PlanOrdered(input: Format, out: Format)
    ensures Ranked(Plan(input, out), 5, input, out)
  {
    hide Rank, Ranked;
    Ranks(input, out);
    var a := if input.channel > out.channel then [ChCvt] else [];
    RankedPut([], input.channel > out.channel, ChCvt, 0, input, out);
    assert [] + a == a;
    var b := a + if input.bits > out.bits then [BitCvt] else [];
    RankedPut(a, input.bits > out.bits, BitCvt, 1, input, out);
    var c := b + if input.rate != out.rate then [RateCvt] else [];
    RankedPut(b, input.rate != out.rate, RateCvt, 2, input, out);
    var d := c + if input.bits < out.bits then [BitCvt] else [];
    RankedPut(c, input.bits < out.bits, BitCvt, 3, input, out);
    RankedPut(d, input.channel < out.channel, ChCvt, 4, input, out);
  }

  lemma Ranks(input: Format, out: Format)
    ensures Rank(RateCvt, input, out) == 2 && Ranked([], 0, input, out)
    ensures Rank(ChCvt, input, out) == if input.channel > out.channel then 0 else 4
    ensures Rank(BitCvt, input, out) == if input.bits > out.bits then 1 else 3
  {
  }

  /** In the order of their ranks, all below k. */
  predicate Ranked(ops: seq<Op>, k: nat, input: Format, out: Format) {
    && (forall i, j | 0 <= i < j < |ops| :: Rank(ops[i], input, out) < Rank(ops[j], input, out))
    && forall i | 0 <= i < |ops| :: Rank(ops[i], input, out) < k
  }

  lemma RankedPut(ops: seq<Op>, put: bool, op: Op, k: nat, input: Format, out: Format)
    requires Ranked(ops, k, input, out) && (put ==> Rank(op, input, out) == k)
    ensures Ranked(ops + if put then [op] else [], k + 1, input, out)
  {
    hide Rank;
    if !put {
      assert ops + [] == ops;
    }
  }

  function Reversed(ops: seq<Op>): seq<Op> {
    if ops == [] then [] else Reversed(ops[1..]) + [ops[0]]
  }

  lemma {:induction false} ReversedAppend(a: seq<Op>, b: seq<Op>)
    ensures Reversed(a + b) == Reversed(b) + Reversed(a)
  {
    if a == [] {
      assert a + b == b;
    } else {
      assert (a + b)[1..] == a[1..] + b;
      ReversedAppend(a[1..], b);
    }
  }

  /** The way back takes the operations in reverse. */
  lemma PlanBack(input: Format, out: Format)
    ensures Plan(out, input) == Reversed(Plan(input, out))
  {
    var a := if input.channel > out.channel then [ChCvt] else [];
    var b := if input.bits > out.bits then [BitCvt] else [];
    var c := if input.rate != out.rate then [RateCvt] else [];
    var d := if input.bits < out.bits then [BitCvt] else [];
    var e := if input.channel < out.channel then [ChCvt] else [];
    ReversedFive(a, b, c, d, e);
  }

  lemma ReversedFive(a: seq<Op>, b: seq<Op>, c: seq<Op>, d: seq<Op>, e: seq<Op>)
    requires |a| <= 1 && |b| <= 1 && |c| <= 1 && |d| <= 1 && |e| <= 1
    ensures Reversed(a + b + c + d + e) == e + d + c + b + a
  {
    hide Reversed;
    ReversedAppend(a + b + c + d, e);
    ReversedAppend(a + b + c, d);
    ReversedAppend(a + b, c);
    ReversedAppend(a, b);
    ReversedOne(a);
    ReversedOne(b);
    ReversedOne(c);
    ReversedOne(d);
    ReversedOne(e);
    Regroup(e, d, c + (b + a));
    Regroup(e + d, c, b + a);
    Regroup(e + d + c, b, a);
  }

  lemma Regroup(x: seq<Op>, y: seq<Op>, z: seq<Op>)
    ensures x + (y + z) == x + y + z
  {
  }

  lemma ReversedOne(a: seq<Op>)
    requires |a| <= 1
    ensures Reversed(a) == a
  {
    if a != [] {
      assert a[1..] == [] && Reversed(a[1..]) == [];
    }
  }

  /** In front of operation k each field is the input's until its operation has come, and the output's from then on. */
  lemma {:induction false} FormatBySteps(input: Format, out: Format, ops: seq<Op>, k: nat)
    requires k <= |ops|
    ensures FormatAt(input, out, ops, k) ==
      Format(if RateCvt in ops[..k] then out.rate else input.rate,
             if ChCvt in ops[..k] then out.channel else input.channel,
             if BitCvt in ops[..k] then out.bits else input.bits)
  {
    if k > 0 {
      FormatBySteps(input, out, ops, k - 1);
      assert ops[..k] == ops[..k - 1] + [ops[k - 1]];
    }
  }

  /** The plan leads to the output's format. */
  lemma PlanArrives(input: Format, out: Format)
    ensures FormatAt(input, out, Plan(input, out), |Plan(input, out)|) == out
  {
    var ops := Plan(input, out);
    PlanIsNeeded(input, out);
    FormatBySteps(input, out, ops, |ops|);
    assert ops[..|ops|] == ops;
  }

  /** The rate conversion works on as few channels and bits as the two formats allow. */
  lemma RateIsCheapest(input: Format, out: Format, k: nat)
    requires k < |Plan(input, out)| && Plan(input, out)[k] == RateCvt
    ensures var f := FormatAt(input, out, Plan(input, out), k);
      f == Format(input.rate, Min(input.channel, out.channel), Min(input.bits, out.bits))
  {
    hide FormatAt;
    var ops := Plan(input, out);
    var a := if input.channel > out.channel then [ChCvt] else [];
    var b := if input.bits > out.bits then [BitCvt] else [];
    var d := if input.bits < out.bits then [BitCvt] else [];
    var e := if input.channel < out.channel then [ChCvt] else [];
    var front := a + b;
    assert ops == front + ([RateCvt] + d + e);
    PlanIsNeeded(input, out);
    assert ops[|front|] == RateCvt;
    assert k == |front| && ops[..k] == front;
    FormatBySteps(input, out, ops, k);
  }

  /** No other order of operations lets the rate conversion work on less. */
  lemma NoCheaperOrder(input: Format, out: Format, k: nat, other: seq<Op>, j: nat)
    requires k < |Plan(input, out)| && Plan(input, out)[k] == RateCvt
    requires j < |other| && other[j] == RateCvt
    ensures var f, g := FormatAt(input, out, Plan(input, out), k), FormatAt(input, out, other, j);
      f.channel <= g.channel && f.bits <= g.bits
  {
    hide Plan;
    RateIsCheapest(input, out, k);
    FormatBySteps(input, out, other, j);
  }

  // ---------------------------------------------------------------------------------------
  // What a write computes.

  /** The bytes of so many samples: SAMPLE_SIZE times their number. */
  function Size(samples: nat, f: Format): nat {
    samples * (f.channel * (f.bits / 8))
  }

  datatype Pcm = Pcm(samples: nat, data: seq<byte>)

  /** The converters: what each makes of its input, and the most samples that the rate converter can make of n. */
  datatype Library = Library(convert: (Op, Format, Format, Pcm) -> Pcm, maxOut: nat -> nat)

  /** What esp_ae promises. */
  ghost predicate Sane(l: Library) {
    forall op: Op, f: Format, g: Format, x: Pcm | |x.data| == Size(x.samples, f) ::
      && |l.convert(op, f, g, x).data| == Size(l.convert(op, f, g, x).samples, g)
      && (if op == RateCvt then l.convert(op, f, g, x).samples <= l.maxOut(x.samples)
          else l.convert(op, f, g, x).samples == x.samples)
  }

  /** The samples behind the first k operations. */
  function After(l: Library, input: Format, out: Format, ops: seq<Op>, x: Pcm, k: nat): Pcm
    requires k <= |ops|
  {
    if k == 0 then x
    else
      l.convert(ops[k - 1], FormatAt(input, out, ops, k - 1), FormatAt(input, out, ops, k),
                After(l, input, out, ops, x, k - 1))
  }

  /** get_need_size on the format in front of the operation. */
  function NeedSize(l: Library, op: Op, samples: nat, f: Format, out: Format): nat {
    match op
    case ChCvt => samples * out.channel * (f.bits / 8)
    case RateCvt => l.maxOut(samples) * f.channel * (f.bits / 8)
    case BitCvt => samples * f.channel * (out.bits / 8)
  }

  lemma SizeMono(n: nat, m: nat, f: Format)
    requires n <= m
    ensures Size(n, f) <= Size(m, f)
  {
    var s := f.channel * (f.bits / 8);
    assert (m - n) * s >= 0;
    assert m * s == n * s + (m - n) * s;
  }

  lemma MulAssoc(a: nat, b: nat, c: nat)
    ensures a * b * c == a * (b * c)
  {
  }

  /** The buffer asked for holds what the converter makes. */
  lemma NeedSuffices(l: Library, op: Op, f: Format, out: Format, x: Pcm)
    requires Sane(l) && |x.data| == Size(x.samples, f)
    ensures |l.convert(op, f, Next(op, f, out), x).data| <= NeedSize(l, op, x.samples, f, out)
    ensures op != RateCvt || l.convert(op, f, Next(op, f, out), x).samples == l.maxOut(x.samples) ==>
      |l.convert(op, f, Next(op, f, out), x).data| == NeedSize(l, op, x.samples, f, out)
  {
    var g := Next(op, f, out);
    var y := l.convert(op, f, g, x);
    MulAssoc(if op == RateCvt then l.maxOut(x.samples) else x.samples, g.channel, g.bits / 8);
    if op == RateCvt {
      SizeMono(y.samples, l.maxOut(x.samples), g);
    }
  }
}
