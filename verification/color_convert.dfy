// The table-driven YUV420 to RGB565 conversion of components/av_render/src/color_convert.c.
module ColorConvert {
  import opened Bytes

  type word = x: int | 0 <= x < 0x1_0000

  // ---------------------------------------------------------------------------------------
  // One colour.

  function Limit(a: int): (r: byte)
    ensures r == a || (a < 0 && r == 0) || (a > 255 && r == 255)
  {
    if a > 255 then 255 else if a < 0 then 0 else a
  }

  // The formula, on luma and chroma relative to their zeros; the shift rounds down.
  function Red(c: int, e: int): byte {
    Limit((298 * c + 409 * e + 128) / 256)
  }

  function Green(c: int, d: int, e: int): byte {
    Limit((298 * c - 100 * d - 208 * e + 128) / 256)
  }

  function Blue(c: int, d: int): byte {
    Limit((298 * c + 516 * d + 128) / 256)
  }

  type Y6 = x: int | 0 <= x < 64
  type C5 = x: int | 0 <= x < 32

  // The luma and chroma that a table entry stands for. The low bits of u come from the luma.
  function LumaOf(y0: Y6): int {
    4 * y0 + y0 % 4
  }

  function UOf(y0: Y6, u0: C5): int {
    8 * u0 + y0 % 8
  }

  function VOf(v0: C5): int {
    8 * v0 + v0 % 8
  }

  /** The colour of a table entry before it is packed. */
  datatype Rgb = Rgb(r: byte, g: byte, b: byte)

  function Colour(y0: Y6, u0: C5, v0: C5): Rgb {
    var y, u, v := LumaOf(y0) - 16, UOf(y0, u0) - 128, VOf(v0) - 128;
    Rgb(Red(y, v), Green(y, u, v), Blue(y, u))
  }

  /** The colour that the formula gives for three bytes. */
  function Exact(y: byte, u: byte, v: byte): Rgb {
    Rgb(Red(y - 16, v - 128), Green(y - 16, u - 128, v - 128), Blue(y - 16, u - 128))
  }

  /** RGB565 of the leading 5, 6 and 5 bits. */
  function Pack(c: Rgb): word {
    (c.r / 8 * 64 + c.g / 4) * 32 + c.b / 8
  }

  function Swap(w: word): word {
    w % 256 * 256 + w / 256
  }

  /** The table entry for an index triple in either byte order. */
  function Entry(big: bool, y0: Y6, u0: C5, v0: C5): word {
    var w := Pack(Colour(y0, u0, v0));
    if big then Swap(w) else w
  }

  /** The packed fields are the leading bits of the three colours. */
  lemma PackedFields(c: Rgb)
    ensures var w := Pack(c);
      w / 2048 == c.r / 8 && w / 32 % 64 == c.g / 4 && w % 32 == c.b / 8
  {
    var r, g, b := c.r / 8, c.g / 4, c.b / 8;
    assert 0 <= r < 32 && 0 <= g < 64 && 0 <= b < 32;
    var w := Pack(c);
    assert w == 2048 * r + (32 * g + b) && 0 <= 32 * g + b < 2048;
    assert w / 32 == 64 * r + g;
  }

  /** The big-endian table is the byte swap of the little-endian one, and swapping again gives it back. */
  lemma BigIsSwapped(y0: Y6, u0: C5, v0: C5)
    ensures Swap(Entry(true, y0, u0, v0)) == Entry(false, y0, u0, v0)
    ensures Entry(true, y0, u0, v0) % 256 == Entry(false, y0, u0, v0) / 256
    ensures Entry(true, y0, u0, v0) / 256 == Entry(false, y0, u0, v0) % 256
  {
    hide Colour, Pack;
    var w := Pack(Colour(y0, u0, v0));
    SwapTwice(w);
  }

  lemma SwapTwice(w: word)
    ensures Swap(w) % 256 == w / 256 && Swap(w) / 256 == w % 256 && Swap(Swap(w)) == w
  {
    var low, high := w % 256, w / 256;
    assert w == 256 * high + low && 0 <= high < 256 && 0 <= low < 256;
    assert Swap(w) == 256 * low + high;
  }

  // ---------------------------------------------------------------------------------------
  // The error of the table.

  predicate Near(a: int, b: int, bound: int) {
    a - b <= bound && b - a <= bound
  }

  /** Rounding and limiting do not carry two values further apart than this. */
  lemma LimitNear(a: int, b: int, bound: nat)
    requires Near(a, b, 256 * bound)
    ensures Near(Limit(a / 256), Limit(b / 256), bound)
  {
    assert a / 256 - b / 256 <= bound && b / 256 - a / 256 <= bound;
  }

  lemma LowBits(y: byte, u: byte, v: byte)
    ensures Near(LumaOf(y / 4), y, 3) && Near(UOf(y / 4, u / 8), u, 7) && Near(VOf(v / 8), v, 7)
  {
  }

  /**
   * For luma and u together: the low bits of u are filled from those of the luma, so the two errors
   * cannot both be at their worst where they would add up in the green.
   */
  lemma GreenCoupling(y: byte, u: byte)
    ensures Near(298 * LumaOf(y / 4) - 100 * UOf(y / 4, u / 8), 298 * y - 100 * u, 1294)
  {
    var y0 := y / 4;
    var s, t, l, m := y0 % 4, y0 % 8, y % 4, u % 8;
    assert y == 4 * y0 + l && u == 8 * (u / 8) + m;
    assert t == s || t == s + 4;
  }

  lemma RedNear(a: int, c: int, y: int, v: int)
    requires Near(a, y, 3) && Near(c, v, 7)
    ensures Near(Red(a - 16, c - 128), Red(y - 16, v - 128), 15)
  {
    hide Limit;
    LimitNear(298 * (a - 16) + 409 * (c - 128) + 128, 298 * (y - 16) + 409 * (v - 128) + 128, 15);
  }

  lemma GreenNear(a: int, b: int, c: int, y: int, u: int, v: int)
    requires Near(298 * a - 100 * b, 298 * y - 100 * u, 1294) && Near(c, v, 7)
    ensures Near(Green(a - 16, b - 128, c - 128), Green(y - 16, u - 128, v - 128), 11)
  {
    hide Limit;
    LimitNear(298 * (a - 16) - 100 * (b - 128) - 208 * (c - 128) + 128,
              298 * (y - 16) - 100 * (u - 128) - 208 * (v - 128) + 128, 11);
  }

  lemma BlueNear(a: int, b: int, y: int, u: int)
    requires Near(a, y, 3) && Near(b, u, 7)
    ensures Near(Blue(a - 16, b - 128), Blue(y - 16, u - 128), 18)
  {
    hide Limit;
    LimitNear(298 * (a - 16) + 516 * (b - 128) + 128, 298 * (y - 16) + 516 * (u - 128) + 128, 18);
  }

  /**
   * The colour that the table holds for three bytes is within 15, 11 and 18 of the formula's.
   */
  lemma TableError(y: byte, u: byte, v: byte)
    ensures var t, x := Colour(y / 4, u / 8, v / 8), Exact(y, u, v);
      Near(t.r, x.r, 15) && Near(t.g, x.g, 11) && Near(t.b, x.b, 18)
  {
    hide LumaOf, UOf, VOf, Red, Green, Blue;
    LowBits(y, u, v);
    GreenCoupling(y, u);
    var a, b, c := LumaOf(y / 4), UOf(y / 4, u / 8), VOf(v / 8);
    RedNear(a, c, y, v);
    GreenNear(a, b, c, y, u, v);
    BlueNear(a, b, y, u);
  }

  // No smaller bounds hold.

  lemma RedIsTight(y: byte, u: byte, v: byte)
    requires y == 243 && v == 7
    ensures Colour(y / 4, u / 8, v / 8).r == Exact(y, u, v).r - 15
  {
    hide Green, Blue;
    assert y / 4 == 60 && v / 8 == 0;
    assert LumaOf(60) == 240 && VOf(0) == 0;
    assert Red(224, -128) == 56;
    assert Red(227, -121) == 71;
  }

  lemma GreenIsTight(y: byte, u: byte, v: byte)
    requires y == 12 && u == 6 && v == 7
    ensures Colour(y / 4, u / 8, v / 8).g == Exact(y, u, v).g + 11
  {
    hide Red, Green, Blue, LumaOf, UOf, VOf;
    assert y / 4 == 3 && u / 8 == 0 && v / 8 == 0;
    LowBitsThere();
    GreenThere();
  }

  lemma LowBitsThere()
    ensures LumaOf(3) == 15 && VOf(0) == 0 && UOf(3, 0) == 3
  {
  }

  lemma GreenThere()
    ensures Green(-1, -125, -128) == 152 && Green(-4, -122, -121) == 141
  {
    assert 298 * -1 - 100 * -125 - 208 * -128 + 128 == 38954;
    assert 298 * -4 - 100 * -122 - 208 * -121 + 128 == 36304;
    assert 38954 / 256 == 152 && 36304 / 256 == 141;
  }

  lemma BlueIsTight(y: byte, u: byte, v: byte)
    requires y == 252 && u == 104
    ensures Colour(y / 4, u / 8, v / 8).b == Exact(y, u, v).b + 18
  {
    hide Red, Green;
    assert y / 4 == 63 && u / 8 == 13;
    assert LumaOf(63) == 255 && UOf(63, 13) == 111;
    assert Blue(239, -17) == 244;
    assert Blue(236, -24) == 226;
  }

  // ---------------------------------------------------------------------------------------
  // What the formula stands for.

  function Clip(x: real): real {
    if x < 0.0 then 0.0 else if x > 255.0 then 255.0 else x
  }

  predicate Close(a: int, x: real, bound: real) {
    -bound <= a as real - x <= bound
  }

  /** Rounding to the nearest of 256ths, then limiting, is half a step away from limiting alone. */
  lemma Rounded(n: int)
    ensures Close(Limit((n + 128) / 256), Clip(n as real / 256.0), 0.5)
  {
    var q := (n + 128) / 256;
    assert 256 * q <= n + 128 < 256 * q + 256;
    assert 256.0 * q as real <= n as real + 128.0 < 256.0 * q as real + 256.0;
  }

  lemma ClipNear(x: real, y: real, bound: real)
    requires -bound <= x - y <= bound
    ensures -bound <= Clip(x) - Clip(y) <= bound
  {
  }

  /**
   * For all bytes the formula is within 0.8 of the conversion of ITU-R BT.601 in its usual decimals, limited
   * to 0 to 255.
   */
  lemma FormulaNear(y: byte, u: byte, v: byte)
    ensures var c, d, e := (y - 16) as real, (u - 128) as real, (v - 128) as real;
      var x := Exact(y, u, v);
      && Close(x.r, Clip(1.164 * c + 1.596 * e), 0.8)
      && Close(x.g, Clip(1.164 * c - 0.392 * d - 0.813 * e), 0.8)
      && Close(x.b, Clip(1.164 * c + 2.017 * d), 0.8)
  {
    hide Red, Green, Blue, Clip;
    RedFormula(y - 16, v - 128);
    GreenFormula(y - 16, u - 128, v - 128);
    BlueFormula(y - 16, u - 128);
  }

  lemma RedFormula(c: int, e: int)
    requires -256 < c < 256 && -128 <= e <= 128
    ensures Close(Red(c, e), Clip(1.164 * c as real + 1.596 * e as real), 0.8)
  {
    hide Limit, Clip;
    Rounded(298 * c + 409 * e);
    ClipNear((298 * c + 409 * e) as real / 256.0, 1.164 * c as real + 1.596 * e as real, 0.3);
  }

  lemma GreenFormula(c: int, d: int, e: int)
    requires -256 < c < 256 && -128 <= d <= 128 && -128 <= e <= 128
    ensures Close(Green(c, d, e), Clip(1.164 * c as real - 0.392 * d as real - 0.813 * e as real), 0.8)
  {
    hide Limit, Clip;
    Rounded(298 * c - 100 * d - 208 * e);
    ClipNear((298 * c - 100 * d - 208 * e) as real / 256.0, 1.164 * c as real - 0.392 * d as real - 0.813 * e as real,
             0.3);
  }

  lemma BlueFormula(c: int, d: int)
    requires -256 < c < 256 && -128 <= d <= 128
    ensures Close(Blue(c, d), Clip(1.164 * c as real + 2.017 * d as real), 0.8)
  {
    hide Limit, Clip;
    Rounded(298 * c + 516 * d);
    ClipNear((298 * c + 516 * d) as real / 256.0, 1.164 * c as real + 2.017 * d as real, 0.3);
  }

  /** Black, white and pure red by the formula. */
  lemma ExactColours()
    ensures Exact(16, 128, 128) == Rgb(0, 0, 0) && Exact(235, 128, 128) == Rgb(255, 255, 255)
    ensures Exact(81, 90, 240) == Rgb(255, 0, 0)
  {
  }

  /**
   * An entry stands for a luma and a chroma with its index in the leading bits. The low bits of luma and v
   * repeat those of their own index; the low bits of u are those of the luma's.
   */
  lemma EntryStandsFor(y0: Y6, u0: C5, v0: C5)
    ensures LumaOf(y0) / 4 == y0 && LumaOf(y0) % 4 == y0 % 4
    ensures UOf(y0, u0) / 8 == u0 && UOf(y0, u0) % 8 == y0 % 8
    ensures VOf(v0) / 8 == v0 && VOf(v0) % 8 == v0 % 8
  {
    assert 0 <= y0 % 4 < 4 && 0 <= y0 % 8 < 8 && 0 <= v0 % 8 < 8;
  }

  /**
   * In the table white is white, but black keeps a trace of blue: the low bits of u are filled from those
   * of the luma.
   */
  lemma TableColours()
    ensures Entry(false, 235 / 4, 128 / 8, 128 / 8) == 0xFFFF
    ensures Entry(false, 16 / 4, 128 / 8, 128 / 8) == 0x0001 && Entry(true, 16 / 4, 128 / 8, 128 / 8) == 0x0100
  {
    assert 235 / 4 == 58 && 128 / 8 == 16 && 16 / 4 == 4;
    assert LumaOf(58) == 234 && UOf(58, 16) == 130 && VOf(16) == 128;
    assert Colour(58, 16, 16) == Rgb(254, 253, 255);
    assert LumaOf(4) == 16 && UOf(4, 16) == 132;
    assert Colour(4, 16, 16) == Rgb(0, 0, 8);
  }

  // ---------------------------------------------------------------------------------------
  // The table's index.

  function Index(y0: Y6, u0: C5, v0: C5): word {
    y0 * 1024 + u0 * 32 + v0
  }

  function YAt(k: word): Y6 { k / 1024 }

  function UAt(k: word): C5 { k / 32 % 32 }

  function VAt(k: word): C5 { k % 32 }

  /** Every index belongs to exactly one triple. */
  lemma IndexBijective(k: word, y0: Y6, u0: C5, v0: C5)
    ensures Index(y0, u0, v0) == k <==> y0 == YAt(k) && u0 == UAt(k) && v0 == VAt(k)
  {
    assert k == 1024 * (k / 1024) + k % 1024;
    assert k % 1024 == 32 * (k / 32 % 32) + k % 32;
    if Index(y0, u0, v0) == k {
      assert 0 <= u0 * 32 + v0 < 1024;
      assert k / 1024 == y0 && k / 32 == 32 * y0 + u0;
    }
  }

  /** The table's entry at index k. */
  function EntryAt(big: bool, k: word): word {
    Entry(big, YAt(k), UAt(k), VAt(k))
  }

  // ---------------------------------------------------------------------------------------
  // Products, with what is needed of them.

  function Times(a: nat, b: nat): nat {
    a * b
  }

  lemma TimesNext(a: nat, b: nat)
    ensures Times(a + 1, b) == Times(a, b) + b && Times(0, b) == 0
  {
    assert (a + 1) * b == a * b + b;
  }

  lemma TimesMono(a: nat, b: nat, w: nat)
    ensures a >= b ==> Times(a, w) >= Times(b, w)
  {
    if a >= b {
      assert (a - b) * w >= 0;
      assert a * w == b * w + (a - b) * w;
    }
  }

  lemma TimesTwice(a: nat, b: nat)
    ensures Times(2 * a, 2 * b) == 4 * Times(a, b) && Times(2 * a, 2 * b + 1) == 4 * Times(a, b) + 2 * a
    ensures Times(2 * a + 1, 2 * b) == 4 * Times(a, b) + 2 * b
    ensures Times(2 * a + 1, 2 * b + 1) == 4 * Times(a, b) + 2 * a + 2 * b + 1
  {
    var p := a * b;
    assert (2 * a) * (2 * b) == 4 * p;
    assert (2 * a) * (2 * b + 1) == (2 * a) * (2 * b) + 2 * a;
    assert (2 * a + 1) * (2 * b) == (2 * a) * (2 * b) + 2 * b;
    assert (2 * a + 1) * (2 * b + 1) == (2 * a + 1) * (2 * b) + (2 * a + 1);
  }

  lemma TimesTurned(a: nat, b: nat)
    ensures Times(a, b) == Times(b, a)
  {
  }

  // ---------------------------------------------------------------------------------------
  // Frames.

  datatype Format = Yuv420 | Rgb565 | Rgb565Be | OtherFormat

  function ImageSize(f: Format, width: nat, height: nat): nat {
    match f
    case Yuv420 => Times(width, height) * 3 / 2
    case Rgb565 => Times(width, height) * 2
    case Rgb565Be => Times(width, height) * 2
    case OtherFormat => 0
  }

  function At(src: seq<byte>, k: int): byte {
    if 0 <= k < |src| then src[k] else 0
  }

  // Offsets of the luma of pixel (i, j), and of the chroma of its block of four within a chroma plane.
  function LumaIndex(width: nat, i: nat, j: nat): nat {
    Times(i, width) + j
  }

  function ChromaIndex(width: nat, i: nat, j: nat): nat {
    Times(i / 2, width / 2) + j / 2
  }

  /** Pixel (i, j) of a frame of YUV420: its own luma, and the chroma of its block of four. */
  function Pixel(big: bool, src: seq<byte>, width: nat, height: nat, i: nat, j: nat): word {
    var size, chroma := Times(width, height), ChromaIndex(width, i, j);
    Entry(big, At(src, LumaIndex(width, i, j)) / 4, At(src, size + chroma) / 8, At(src, size + size / 4 + chroma) / 8)
  }

  /** The sizes for which the loops stay within their buffers. */
  predicate Fits(width: nat, height: nat) {
    width == 0 || height == 0 || (width % 2 == 0 && (height % 2 == 0 || width == 2))
  }

  /** Such a size, and as many bytes as it takes. */
  predicate Frame(src: seq<byte>, width: nat, height: nat) {
    Fits(width, height) && |src| == ImageSize(Yuv420, width, height)
  }

  lemma Rows(i: nat, j: nat, width: nat, height: nat)
    requires i < height && j < width
    ensures Times(i, width) + j < Times(width, height)
  {
    hide Times;
    TimesMono(height, i + 1, width);
    TimesNext(i, width);
    TimesTurned(width, height);
  }

  /** All three planes are read within the frame, and they do not overlap if both sizes are even. */
  lemma InFrame(src: seq<byte>, width: nat, height: nat, i: nat, j: nat)
    requires Frame(src, width, height) && i < height && j < width
    ensures var size, chroma := Times(width, height), ChromaIndex(width, i, j);
      && LumaIndex(width, i, j) < size <= |src|
      && size + size / 4 + chroma < |src|
      && size * 5 / 4 == size + size / 4
      && (height % 2 == 0 ==> chroma < size / 4 && |src| == size + size / 4 + size / 4)
  {
    hide Times;
    Rows(i, j, width, height);
    TimesTwice(width / 2, height / 2);
    if height % 2 == 0 {
      Rows(i / 2, j / 2, width / 2, height / 2);
    } else {
      TimesTurned(i / 2, 1);
      TimesNext(0, i / 2);
      TimesTurned(1, height / 2);
      TimesNext(0, height / 2);
    }
  }

  /** The planes of a frame come in the order luma, U, V; the chroma of pixel (i, j) is that of its block of four. */
  lemma PlanesRead(big: bool, ys: seq<byte>, us: seq<byte>, vs: seq<byte>, width: nat, height: nat, i: nat, j: nat)
    requires width % 2 == 0 && height % 2 == 0 && i < height && j < width
    requires |ys| == width * height && |us| == |vs| == (width / 2) * (height / 2)
    ensures i * width + j < |ys| && (i / 2) * (width / 2) + j / 2 < |us|
    ensures Pixel(big, ys + us + vs, width, height, i, j) ==
      Entry(big, ys[i * width + j] / 4, us[(i / 2) * (width / 2) + j / 2] / 8, vs[(i / 2) * (width / 2) + j / 2] / 8)
  {
    hide Entry;
    PlaneSizes(ys, us, vs, width, height);
    InFrame(ys + us + vs, width, height, i, j);
  }

  lemma PlaneSizes(ys: seq<byte>, us: seq<byte>, vs: seq<byte>, width: nat, height: nat)
    requires width % 2 == 0 && height % 2 == 0
    requires |ys| == width * height && |us| == |vs| == (width / 2) * (height / 2)
    ensures |ys| == Times(width, height) && |us| == Times(width, height) / 4 && Frame(ys + us + vs, width, height)
  {
    TimesTwice(width / 2, height / 2);
  }

  // ---------------------------------------------------------------------------------------
  // Rows and columns of an index.

  lemma DivModOf(width: nat, i: nat, j: nat)
    requires j < width
    ensures LumaIndex(width, i, j) / width == i && LumaIndex(width, i, j) % width == j
  {
    var k := LumaIndex(width, i, j);
    DivTimes(k, width);
    hide Times;
    var q := k / width;
    TimesMono(i, q + 1, width);
    TimesMono(q, i + 1, width);
    TimesNext(i, width);
    TimesNext(q, width);
  }

  lemma DivTimes(k: nat, w: nat)
    requires w > 0
    ensures k == Times(k / w, w) + k % w
  {
  }

  // ---------------------------------------------------------------------------------------
  // The positions of the loops for any size; convert_color does not ask for even ones.

  /** The pixels that a row writes: two for every pair begun. */
  function Stride(width: nat): nat {
    2 * ((width + 1) / 2)
  }

  /** rgb_idx and y_pos in front of the pair at (i, j). */
  function PairIndex(width: nat, i: nat, j: nat): nat {
    Times(i, Stride(width)) + j
  }

  /** u_pos at the start of row i. */
  function RowStart(width: nat, i: nat): nat {
    Times(i / 2, Stride(width) - width / 2) + (if i % 2 == 0 then 0 else (width + 1) / 2 - width / 2)
  }

  /** The offset of the last V that is read. */
  function LastV(width: nat, height: nat): int {
    Times(width, height) * 5 / 4 + (if height > 0 then RowStart(width, height - 1) else 0) + (width + 1) / 2 - 1
  }

  lemma RowStartNext(width: nat, i: nat)
    ensures RowStart(width, 0) == PairIndex(width, 0, 0) == 0
    ensures RowStart(width, i + 1) == RowStart(width, i) + (width + 1) / 2 - (if i % 2 == 0 then width / 2 else 0)
    ensures PairIndex(width, i + 1, 0) == PairIndex(width, i, Stride(width))
  {
    hide RowStart, PairIndex, Stride;
    RowStartAt(width, i / 2);
    assert i == 2 * (i / 2) + i % 2;
    RowStartAt(width, 0);
    PairIndexNext(width, i);
  }

  lemma PairIndexNext(width: nat, i: nat)
    ensures PairIndex(width, 0, 0) == 0 && PairIndex(width, i + 1, 0) == PairIndex(width, i, Stride(width))
  {
    hide Times, Stride;
    TimesNext(i, Stride(width));
    TimesNext(0, Stride(width));
  }

  /** The two rows that share their chroma. */
  lemma RowStartAt(width: nat, h: nat)
    ensures RowStart(width, 2 * h + 1) == RowStart(width, 2 * h) + (width + 1) / 2 - width / 2
    ensures RowStart(width, 2 * h + 2) == RowStart(width, 2 * h + 1) + (width + 1) / 2
    ensures h == 0 ==> RowStart(width, 2 * h) == 0
  {
    hide Times;
    assert (2 * h + 1) / 2 == h && (2 * h + 2) / 2 == h + 1;
    TimesNext(h, Stride(width) - width / 2);
    TimesNext(0, Stride(width) - width / 2);
  }

  /** For an even width these are the positions of the pixels. */
  lemma EvenPositions(width: nat, i: nat, j: nat)
    requires width % 2 == 0 && j % 2 == 0
    ensures PairIndex(width, i, j) == LumaIndex(width, i, j) && RowStart(width, i) + j / 2 == ChromaIndex(width, i, j)
  {
    hide Times;
  }

  /** The last V lies within the source exactly for the sizes that fit. */
  lemma LastVWithin(width: nat, height: nat)
    requires width > 0 && height > 0
    ensures LastV(width, height) < ImageSize(Yuv420, width, height) <==> Fits(width, height)
  {
    hide LastV, ImageSize;
    var a, b := width / 2, height / 2;
    if height % 2 == 0 {
      LastVEven(a, b);
    } else {
      LastVOdd(a, b);
    }
  }

  /** For an even height, of either width. */
  lemma LastVEven(a: nat, b: nat)
    requires b > 0
    ensures LastV(2 * a, 2 * b) < ImageSize(Yuv420, 2 * a, 2 * b)
    ensures LastV(2 * a + 1, 2 * b) >= ImageSize(Yuv420, 2 * a + 1, 2 * b)
  {
    hide Times, RowStart;
    var p, q := Times(a, b), Times(a, b - 1);
    TimesTwice(a, b);
    RowStartOf(a, b - 1);
    assert p == q + a by {
      TimesTurned(a, b);
      TimesNext(b - 1, a);
      TimesTurned(a, b - 1);
    }
    Shares(p, 0, 0);
    assert LastV(2 * a, 2 * b) == 5 * p + q + a - 1;
    Shares(p, 2 * b, 5 * b / 2);
    assert LastV(2 * a + 1, 2 * b) == 5 * p + 5 * b / 2 + q + 2 * (b - 1) + 1 + a;
  }

  lemma LastVOdd(a: nat, b: nat)
    ensures a > 0 ==> (LastV(2 * a, 2 * b + 1) < ImageSize(Yuv420, 2 * a, 2 * b + 1) <==> a == 1)
    ensures LastV(2 * a + 1, 2 * b + 1) >= ImageSize(Yuv420, 2 * a + 1, 2 * b + 1)
  {
    hide Times, RowStart;
    var p := Times(a, b);
    TimesTwice(a, b);
    RowStartOf(a, b);
    Shares(p, 2 * a, 5 * a / 2);
    assert LastV(2 * a, 2 * b + 1) == 5 * p + 5 * a / 2 + p + a - 1;
    var r := 2 * a + 2 * b + 1;
    Shares(p, r, 5 * r / 4);
    assert LastV(2 * a + 1, 2 * b + 1) == 5 * p + 5 * r / 4 + p + 2 * b + a;
  }

  /** The planes of a frame of 4p + r pixels. */
  lemma Shares(p: nat, r: nat, v: nat)
    requires v == r * 5 / 4
    ensures (4 * p + r) * 5 / 4 == 5 * p + v && (4 * p + r) * 3 / 2 == 6 * p + r * 3 / 2
  {
  }

  lemma RowStartOf(a: nat, b: nat)
    ensures RowStart(2 * a, 2 * b) == RowStart(2 * a, 2 * b + 1) == Times(a, b)
    ensures RowStart(2 * a + 1, 2 * b) == Times(a, b) + 2 * b
    ensures RowStart(2 * a + 1, 2 * b + 1) == Times(a, b) + 2 * b + 1
  {
    hide Times;
    TimesTurned(a, b);
    TimesTurned(b, a + 2);
    TimesNext(a, b);
    TimesNext(a + 1, b);
  }

  /** Three by three: thirteen bytes, and V is read at fifteen. */
  lemma ThreeByThree()
    ensures LastV(3, 3) == 15 && ImageSize(Yuv420, 3, 3) == 13 && !Fits(3, 3)
  {
    assert RowStart(3, 2) == 3;
  }
}
