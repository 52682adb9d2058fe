// color_convert_t and the loops of components/av_render/src/color_convert.c that fill the table and
// convert a frame. The destination is an array of 16-bit pixels.
module ColorConvertObject {
  import opened Bytes
  import opened ColorConvert

  /** The nested loops over u0, v0 and y0 have been at index k by the time they stand at (u, v, y). */
  predicate Visited(k: word, u: int, v: int, y: int) {
    UAt(k) < u || (UAt(k) == u && (VAt(k) < v || (VAt(k) == v && YAt(k) < y)))
  }

  datatype Outcome = Converted | Refused | OutOfBounds | Trap

  class Converter {
    const from: Format
    const to: Format
    const width: nat
    const height: nat
    const table: array<word>

    predicate HasTable() {
      from == Yuv420 && (to == Rgb565 || to == Rgb565Be)
    }

    ghost predicate Valid()
      reads table
    {
      HasTable() ==> table.Length == 0x1_0000 && forall k: word :: table[k] == EntryAt(to == Rgb565Be, k)
    }

    constructor (from: Format, to: Format, width: nat, height: nat)
      ensures Valid() && fresh(table)
      ensures this.from == from && this.to == to && this.width == width && this.height == height
    {
      this.from, this.to, this.width, this.height := from, to, width, height;
      var has := from == Yuv420 && (to == Rgb565 || to == Rgb565Be);
      table := new word[if has then 0x1_0000 else 0];
      new;
      if has {
        InitTable();
      }
    }

    /** init_table; both byte orders are filled by the same loops, the big one by a swap in place. */
    method InitTable()
      requires HasTable() && table.Length == 0x1_0000
      modifies table
      ensures Valid()
    {
      hide Colour, Pack, Swap, UAt, VAt, YAt;
      var big := to == Rgb565Be;
      for u0 := 0 to 32
        invariant forall k: word | Visited(k, u0, 0, 0) :: table[k] == EntryAt(big, k)
      {
        for v0 := 0 to 32
          invariant forall k: word | Visited(k, u0, v0, 0) :: table[k] == EntryAt(big, k)
        {
          for y0 := 0 to 64
            invariant forall k: word | Visited(k, u0, v0, y0) :: table[k] == EntryAt(big, k)
          {
            var idx := Index(y0, u0, v0);
            IndexBijective(idx, y0, u0, v0);
            forall k: word | Visited(k, u0, v0, y0 + 1) && k != idx ensures Visited(k, u0, v0, y0) {
              IndexBijective(k, y0, u0, v0);
            }
            assert !Visited(idx, u0, v0, y0);
            table[idx] := Pack(Colour(y0, u0, v0));
            if big {
              table[idx] := Swap(table[idx]);
            }
          }
        }
      }
      forall k: word ensures Visited(k, 32, 0, 0) {
      }
    }

    /** Pixel number k in row order. */
    ghost function PixelAt(src: seq<byte>, k: nat): word {
      if width == 0 then 0 else Pixel(to == Rgb565Be, src, width, height, k / width, k % width)
    }

    /** The first n pixels are done, and nothing behind the frame is touched. */
    ghost predicate Done(n: nat, src: seq<byte>, dst: seq<word>, was: seq<word>) {
      && n <= Times(width, height) <= |dst| == |was|
      && (forall k | 0 <= k < n :: dst[k] == PixelAt(src, k))
      && dst[Times(width, height)..] == was[Times(width, height)..]
    }

    /**
     * yuv420_to_rgb565, for any size. It stops short of the first access beyond a buffer, and comes to
     * its end exactly for the sizes that fit.
     */
    method Yuv420ToRgb565(src: array<byte>, dst: array<word>) returns (ok: bool)
      requires Valid() && HasTable() && dst != table
      requires src.Length == ImageSize(Yuv420, width, height) && dst.Length >= Times(width, height)
      modifies dst
      ensures ok <==> Fits(width, height)
      ensures ok ==> Done(Times(width, height), src[..], dst[..], old(dst[..]))
    {
      hide Times, Fits, Done, Stride, RowStart, PairIndex, PixelAt, Valid, ImageSize;
      ghost var vPlane := Times(width, height) * 5 / 4;
      ghost var s, was := src[..], dst[..];
      var yPos, uPos, rgbIdx := 0, 0, 0;
      RowStartNext(width, 0);
      NothingDone(s, was);
      ghost var lastV := -1;
      for i := 0 to height
        invariant Valid() && yPos == rgbIdx == PairIndex(width, i, 0) && uPos == RowStart(width, i)
        invariant Fits(width, height) ==> Done(rgbIdx, s, dst[..], was)
        invariant lastV < src.Length
        invariant i > 0 && width > 0 ==> lastV == vPlane + RowStart(width, i - 1) + (width + 1) / 2 - 1
      {
        var j := 0;
        while j < width
          invariant j < width + 2 && j % 2 == 0
          invariant Valid() && yPos == rgbIdx == PairIndex(width, i, j) && uPos == RowStart(width, i) + j / 2
          invariant Fits(width, height) ==> Done(rgbIdx, s, dst[..], was)
          invariant lastV < src.Length
          invariant j > 0 ==> lastV == vPlane + RowStart(width, i) + j / 2 - 1
        {
          ok := ConvertPair(src, dst, yPos, uPos, rgbIdx, i, j, was);
          if !ok {
            return;
          }
          lastV := vPlane + uPos;
          PairNext(i, j);
          rgbIdx := rgbIdx + 2;
          yPos := yPos + 2;
          uPos := uPos + 1;
          j := j + 2;
        }
        RowEnd(j);
        RowStartNext(width, i);
        if i % 2 == 0 {
          uPos := uPos - width / 2;
        }
      }
      Complete(lastV);
      ok := true;
    }

    lemma PairNext(i: nat, j: nat)
      ensures PairIndex(width, i, j + 2) == PairIndex(width, i, j) + 2
    {
    }

    lemma RowEnd(j: nat)
      requires width <= j < width + 2 && j % 2 == 0
      ensures j == Stride(width) && j / 2 == (width + 1) / 2 >= width / 2
    {
    }

    /** Behind the last row: the size fits, and its pixels are all there are. */
    lemma Complete(lastV: int)
      requires lastV < ImageSize(Yuv420, width, height)
      requires height > 0 && width > 0 ==> lastV == LastV(width, height)
      ensures Fits(width, height) && PairIndex(width, height, 0) == Times(width, height)
    {
      if height > 0 && width > 0 {
        LastVWithin(width, height);
      }
    }

    /** The body of the inner loop; false in front of an access beyond the source or the destination. */
    method ConvertPair(src: array<byte>, dst: array<word>, yPos: nat, uPos: nat, rgbIdx: nat,
                       ghost i: nat, ghost j: nat, ghost was: seq<word>) returns (ok: bool)
      requires Valid() && HasTable() && dst != table
      requires src.Length == ImageSize(Yuv420, width, height) && dst.Length >= Times(width, height)
      requires i < height && j < width && j % 2 == 0
      requires yPos == rgbIdx == PairIndex(width, i, j) && uPos == RowStart(width, i) + j / 2
      requires Fits(width, height) ==> Done(rgbIdx, src[..], dst[..], was)
      modifies dst
      ensures Valid() && (Fits(width, height) ==> ok && Done(rgbIdx + 2, src[..], dst[..], was))
      ensures ok ==> Times(width, height) * 5 / 4 + uPos < src.Length
    {
      hide Times, PixelAt, Done, Fits, Frame, Entry, EntryAt, LumaIndex, ChromaIndex, Stride, RowStart;
      ghost var s, fits := src[..], Fits(width, height);
      if fits {
        FrameIs(s);
        EvenSize();
        EvenPositions(width, i, j);
        PairInFrame(s, i, j);
      }
      var uPlane, vPlane := Times(width, height), Times(width, height) * 5 / 4;
      if yPos + 1 >= src.Length || vPlane + uPos >= src.Length || rgbIdx + 1 >= dst.Length {
        return false;
      }
      var u, v := src[uPlane + uPos], src[vPlane + uPos];
      var p := Lookup(src[yPos], u, v);
      Put(dst, rgbIdx, p, s, was);
      p := Lookup(src[yPos + 1], u, v);
      Put(dst, rgbIdx + 1, p, s, was);
      ok := true;
    }

    lemma FrameIs(src: seq<byte>)
      ensures Frame(src, width, height) <==> Fits(width, height) && |src| == ImageSize(Yuv420, width, height)
    {
    }

    lemma EvenSize()
      requires Fits(width, height) && width > 0 && height > 0
      ensures width % 2 == 0
    {
    }

    /** rgb565[at] = p */
    method Put(dst: array<word>, at: nat, p: word, ghost src: seq<byte>, ghost was: seq<word>)
      requires at < dst.Length
      modifies dst
      ensures old(Done(at, src, dst[..], was)) && at < Times(width, height) && p == PixelAt(src, at) ==>
        Done(at + 1, src, dst[..], was)
    {
      hide PixelAt;
      ghost var before := dst[..];
      dst[at] := p;
      assert dst[..] == before[at := p];
      ghost var n := Times(width, height);
      assert at < n <= |before| ==> dst[..][n..] == before[n..];
    }

    lemma NothingDone(src: seq<byte>, dst: seq<word>)
      requires Times(width, height) <= |dst|
      ensures Done(0, src, dst, dst)
    {
    }

    /** Two neighbours share their chroma, and all that the loop reads for them lies in the frame. */
    lemma PairInFrame(src: seq<byte>, i: nat, j: nat)
      requires Frame(src, width, height) && i < height && j < width && j % 2 == 0
      ensures var k, c, size := LumaIndex(width, i, j), ChromaIndex(width, i, j), Times(width, height);
        && k + 1 < size && size + c < |src| && size * 5 / 4 + c < |src| && size <= |src|
        && LumaIndex(width, i, j + 2) == k + 2 && ChromaIndex(width, i, j + 2) == c + 1
        && PixelAt(src, k) == Entry(to == Rgb565Be, src[k] / 4, src[size + c] / 8, src[size * 5 / 4 + c] / 8)
        && PixelAt(src, k + 1) == Entry(to == Rgb565Be, src[k + 1] / 4, src[size + c] / 8, src[size * 5 / 4 + c] / 8)
    {
      hide Times, Entry, ImageSize, Frame, Fits;
      FrameIs(src);
      EvenSize();
      InFrame(src, width, height, i, j);
      InFrame(src, width, height, i, j + 1);
      DivModOf(width, i, j);
      DivModOf(width, i, j + 1);
      assert (j + 1) / 2 == j / 2 && (j + 2) / 2 == j / 2 + 1;
    }

    /** What the pixels in row order are in rows and columns. */
    lemma DoneMeans(src: seq<byte>, dst: seq<word>, was: seq<word>, i: nat, j: nat)
      requires Done(Times(width, height), src, dst, was) && i < height && j < width
      ensures LumaIndex(width, i, j) < Times(width, height)
      ensures dst[LumaIndex(width, i, j)] == Pixel(to == Rgb565Be, src, width, height, i, j)
    {
      hide Pixel;
      Rows(i, j, width, height);
      DivModOf(width, i, j);
    }

    /** The table at the index that the loop computes from its three bytes. */
    method Lookup(y: byte, u: byte, v: byte) returns (p: word)
      requires Valid() && HasTable()
      ensures p == Entry(to == Rgb565Be, y / 4, u / 8, v / 8)
    {
      hide Entry;
      var idx := y / 4 * 1024 + u / 8 * 32 + v / 8;
      IndexBijective(idx, y / 4, u / 8, v / 8);
      p := table[idx];
    }

    /** convert_color; OutOfBounds where the loops go beyond a buffer. */
    method Convert(src: array<byte>, dst: array<word>) returns (r: Outcome)
      requires Valid() && dst != table
      modifies dst
      ensures r == if from != Yuv420 then Trap
                   else if src.Length != ImageSize(Yuv420, width, height) || dst.Length < Times(width, height)
                           || !HasTable() then Refused else if Fits(width, height) then Converted else OutOfBounds
      ensures r == Trap || r == Refused ==> dst[..] == old(dst[..])
      ensures r == Converted ==> Done(Times(width, height), src[..], dst[..], old(dst[..]))
    {
      hide Fits, Done, Valid;
      if from != Yuv420 {
        return Trap;
      }
      if src.Length != Times(width, height) * 3 / 2 || 2 * dst.Length < Times(width, height) * 2 {
        return Refused;
      }
      if to != Rgb565 && to != Rgb565Be {
        return Refused;
      }
      var ok := Yuv420ToRgb565(src, dst);
      r := if ok then Converted else OutOfBounds;
    }
  }
}
