// The queue of body data between the TCP receiver and the reader of a response: DataChunk and the
// loop of Read in components/esp-ml307.
module BodyQueue {
  import opened Bytes

  const MAX_BODY_CHUNKS_SIZE: nat := 8192

  datatype Chunk = Chunk(data: seq<byte>, offset: nat)

  /** A chunk is put in with data and taken out with its last byte. */
  predicate Live(chunks: seq<Chunk>) {
    forall i | 0 <= i < |chunks| :: chunks[i].offset < |chunks[i].data|
  }

  function Available(c: Chunk): nat {
    if c.offset < |c.data| then |c.data| - c.offset else 0
  }

  /** The bytes still to be read. */
  function Unread(chunks: seq<Chunk>): seq<byte> {
    if chunks == [] then []
    else (if chunks[0].offset <= |chunks[0].data| then chunks[0].data[chunks[0].offset..] else []) + Unread(chunks[1..])
  }

  /** The size the receiver waits on: whole chunks, read or not. */
  function Total(chunks: seq<Chunk>): nat {
    if chunks == [] then 0 else |chunks[0].data| + Total(chunks[1..])
  }

  /** Read's loop: the bytes delivered, and the chunks that are left. */
  function TakenFrom(chunks: seq<Chunk>, size: nat): (seq<byte>, seq<Chunk>) {
    if chunks == [] then ([], [])
    else
      var c := chunks[0];
      var n := if size < Available(c) then size else Available(c);
      if n == 0 then TakenFrom(chunks[1..], size)
      else if n == Available(c) then (c.data[c.offset..], chunks[1..])
      else (c.data[c.offset..c.offset + n], [Chunk(c.data, c.offset + n)] + chunks[1..])
  }

  lemma {:induction false} AppendChunk(chunks: seq<Chunk>, data: seq<byte>)
    ensures Unread(chunks + [Chunk(data, 0)]) == Unread(chunks) + data
    ensures Total(chunks + [Chunk(data, 0)]) == Total(chunks) + |data|
    decreases |chunks|
  {
    var all := chunks + [Chunk(data, 0)];
    if chunks == [] {
      assert all[1..] == [];
      assert all[0].data[0..] == data;
      assert data + [] == [] + data == data;
    } else {
      assert all[0] == chunks[0] && all[1..] == chunks[1..] + [Chunk(data, 0)];
      AppendChunk(chunks[1..], data);
    }
  }

  function DataOf(chunks: seq<Chunk>): seq<seq<byte>> {
    if chunks == [] then [] else [chunks[0].data] + DataOf(chunks[1..])
  }

  /** Chunks count whole, however much of them has been read. */
  lemma {:induction false} WholeChunksCount(chunks: seq<Chunk>)
    ensures Total(chunks) == |Flatten(DataOf(chunks))|
  {
    if chunks != [] {
      WholeChunksCount(chunks[1..]);
      assert DataOf(chunks)[1..] == DataOf(chunks[1..]);
    }
  }

  /** A buffer of no bytes throws the whole queue away. */
  lemma {:induction false} TakenNothing(chunks: seq<Chunk>)
    ensures TakenFrom(chunks, 0) == ([], [])
  {
    if chunks != [] {
      TakenNothing(chunks[1..]);
    }
  }

  /**
   * A read serves the oldest unread bytes, at least one if there are any, never more than asked for,
   * and loses nothing; unless the buffer has no room at all. It stops at the end of the oldest chunk.
   */
  lemma {:induction false} TakenServes(chunks: seq<Chunk>, size: nat)
    requires Live(chunks)
    ensures var (r, rest) := TakenFrom(chunks, size);
      && Live(rest) && |r| <= size && Total(rest) <= Total(chunks)
      && (r + Unread(rest) == Unread(chunks) <==> size > 0 || chunks == [])
      && (r == [] <==> size == 0 || chunks == [])
      && (chunks != [] ==> |r| == if size < Available(chunks[0]) then size else Available(chunks[0]))
      && (r == [] ==> rest == [])
  {
    if chunks != [] {
      if size == 0 {
        TakenNothing(chunks);
        assert Unread(chunks) != [];
        assert [] + Unread([]) == [];
      } else {
        var c := chunks[0];
        var (r, rest) := TakenFrom(chunks, size);
        if rest != chunks[1..] {
          assert rest[1..] == chunks[1..];
          assert r + c.data[c.offset + |r|..] == c.data[c.offset..];
          assert r + (c.data[c.offset + |r|..] + Unread(chunks[1..])) == c.data[c.offset..] + Unread(chunks[1..]);
        }
      }
    }
  }

  lemma {:induction false} UnreadNonempty(chunks: seq<Chunk>)
    requires Live(chunks)
    ensures Unread(chunks) == [] <==> chunks == []
    ensures |Unread(chunks)| <= Total(chunks)
  {
    if chunks != [] {
      UnreadNonempty(chunks[1..]);
    }
  }
}
