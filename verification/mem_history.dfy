// The records of the allocation history of components/media_lib_sal/mem_trace/media_lib_mem_his.c, and
// how a file of them is read back.
module MemHistory {
  import opened Bytes
  import opened Common

  const SAVE_SLICE_NUM: nat := 4
  const MAX_WRITE_RETRY: nat := 5
  const PLUS: byte := 43
  const MINUS: byte := 45

  // ---------------------------------------------------------------------------------------
  // Records.

  type Word = w: seq<byte> | |w| == 4 witness [0, 0, 0, 0]

  datatype Record =
    | Malloc(flag: byte, addr: Word, size: Word, frames: seq<Word>)
    | Free(addr: Word)

  /** A record, with what its uninitialised byte happens to hold. */
  datatype Event = Event(record: Record, reserved: byte)

  /** trace_num is one byte. */
  predicate Fits(r: Record) {
    r.Malloc? ==> |r.frames| < 256
  }

  /** The packed struct that the first his_write of a record takes. */
  function Detail(e: Event): seq<byte> {
    match e.record
    case Malloc(flag, addr, size, frames) => [PLUS, |frames| % 256, flag, e.reserved] + addr + size
    case Free(addr) => [MINUS, e.reserved] + addr
  }

  function Words(ws: seq<Word>): (s: seq<byte>)
    ensures |s| == 4 * |ws|
  {
    if ws == [] then [] else ws[0] + Words(ws[1..])
  }

  /** What the second his_write takes. */
  function Frames(e: Event): seq<byte> {
    if e.record.Malloc? then Words(e.record.frames) else []
  }

  function Encode(e: Event): seq<byte> {
    Detail(e) + Frames(e)
  }

  function EncodeAll(es: seq<Event>): seq<byte> {
    if es == [] then [] else Encode(es[0]) + EncodeAll(es[1..])
  }

  function Records(es: seq<Event>): seq<Record> {
    seq(|es|, i requires 0 <= i < |es| => es[i].record)
  }

  function Unwords(s: seq<byte>): (ws: seq<Word>)
    ensures 4 * |ws| <= |s|
  {
    if |s| < 4 then [] else [s[..4]] + Unwords(s[4..])
  }

  /** The size of a '+' record by its trace_num. */
  function MallocSize(traceNum: int): int {
    12 + 4 * traceNum
  }

  /** The first record of a history, and its size. */
  function DecodeOne(s: seq<byte>): (r: Option<(Record, nat)>)
    ensures r.Some? ==> 0 < r.value.1 <= |s|
  {
    if |s| >= 12 && s[0] == PLUS && |s| >= MallocSize(s[1]) then
      Some((Malloc(s[2], s[4..8], s[8..12], Unwords(s[12..MallocSize(s[1])])), MallocSize(s[1])))
    else if |s| >= 6 && s[0] == MINUS then Some((Free(s[2..6]), 6))
    else None
  }

  function Decode(s: seq<byte>): Option<seq<Record>>
    decreases |s|
  {
    if s == [] then Some([])
    else
      var first := DecodeOne(s);
      if first.None? then None
      else
        var rest := Decode(s[first.value.1..]);
        if rest.None? then None else Some([first.value.0] + rest.value)
  }

  lemma {:induction false} UnwordsOfWords(ws: seq<Word>)
    ensures Unwords(Words(ws)) == ws
    decreases |ws|
  {
    if ws != [] {
      var s := Words(ws);
      assert s[..4] == ws[0] && s[4..] == Words(ws[1..]);
      UnwordsOfWords(ws[1..]);
    }
  }

  lemma MallocLayout(n: byte, flag: byte, reserved: byte, addr: Word, size: Word, rest: seq<byte>)
    ensures var s := [PLUS, n, flag, reserved] + addr + size + rest;
      && s[0] == PLUS && s[1] == n && s[2] == flag && s[4..8] == addr && s[8..12] == size
      && |s| == 12 + |rest| && s[12..] == rest
  {
  }

  lemma DecodeMalloc(e: Event, rest: seq<byte>)
    requires e.record.Malloc? && Fits(e.record)
    ensures DecodeOne(Encode(e) + rest) == Some((e.record, |Encode(e)|))
  {
    hide Words, Unwords;
    var r := e.record;
    var tail := Words(r.frames) + rest;
    var s := [PLUS, |r.frames| % 256, r.flag, e.reserved] + r.addr + r.size + tail;
    MallocLayout(|r.frames|, r.flag, e.reserved, r.addr, r.size, tail);
    UnwordsOfWords(r.frames);
    assert Encode(e) + rest == s;
    assert s[12..MallocSize(|r.frames|)] == s[12..][..4 * |r.frames|] == Words(r.frames);
  }

  lemma DecodeOneOfEncode(e: Event, rest: seq<byte>)
    requires Fits(e.record)
    ensures DecodeOne(Encode(e) + rest) == Some((e.record, |Encode(e)|))
  {
    if e.record.Malloc? {
      DecodeMalloc(e, rest);
    } else {
      var s := [MINUS, e.reserved] + e.record.addr + rest;
      assert Encode(e) + rest == s;
      assert s[2..6] == e.record.addr;
    }
  }

  /** A history decodes to its records, whatever the reserved bytes hold. */
  lemma {:induction false} DecodeOfEncode(es: seq<Event>)
    requires forall e | e in es :: Fits(e.record)
    ensures Decode(EncodeAll(es)) == Some(Records(es))
    decreases |es|
  {
    hide DecodeOne, Encode;
    if es != [] {
      var s := EncodeAll(es);
      DecodeOneOfEncode(es[0], EncodeAll(es[1..]));
      assert s[|Encode(es[0])|..] == EncodeAll(es[1..]);
      DecodeOfEncode(es[1..]);
      assert Records(es) == [es[0].record] + Records(es[1..]);
    }
  }

  function SizeOf(r: Record): nat {
    if r.Malloc? then 12 + 4 * |r.frames| else 6
  }

  function SizeOfAll(rs: seq<Record>): nat {
    if rs == [] then 0 else SizeOf(rs[0]) + SizeOfAll(rs[1..])
  }

  lemma {:induction false} UnwordsLength(s: seq<byte>, n: nat)
    requires |s| == 4 * n
    ensures |Unwords(s)| == n
    decreases n
  {
    if n > 0 {
      UnwordsLength(s[4..], n - 1);
    }
  }

  lemma {:induction false} DecodedSize(s: seq<byte>)
    requires Decode(s).Some?
    ensures SizeOfAll(Decode(s).value) == |s|
    decreases |s|
  {
    if s != [] {
      var first := DecodeOne(s).value;
      if s[0] == PLUS {
        UnwordsLength(s[12..MallocSize(s[1])], s[1]);
      }
      DecodedSize(s[first.1..]);
      assert Decode(s).value[1..] == Decode(s[first.1..]).value;
    }
  }

  lemma {:induction false} WordAt(ws: seq<Word>, i: nat)
    requires i < |ws|
    ensures Words(ws)[4 * i..4 * i + 4] == ws[i]
    decreases i
  {
    if i > 0 {
      WordAt(ws[1..], i - 1);
      assert Words(ws)[4 * i..4 * i + 4] == Words(ws[1..])[4 * (i - 1)..4 * (i - 1) + 4];
    }
  }

  /** Where each field of a record lies: the layout of the packed structs malloc_detail_t and free_detail_t. */
  lemma RecordLayout(e: Event)
    requires Fits(e.record)
    ensures var s := Encode(e);
      match e.record
      case Malloc(flag, addr, size, frames) =>
        && |s| == 12 + 4 * |frames| && s[0] == '+' as int && s[1] == |frames| && s[2] == flag
        && s[4..8] == addr && s[8..12] == size
        && forall i | 0 <= i < |frames| :: s[12 + 4 * i..16 + 4 * i] == frames[i]
      case Free(addr) => |s| == 6 && s[0] == '-' as int && s[2..6] == addr
  {
    hide Words;
    if e.record.Malloc? {
      var r := e.record;
      MallocLayout(|r.frames|, r.flag, e.reserved, r.addr, r.size, Words(r.frames));
      forall i | 0 <= i < |r.frames| ensures Encode(e)[12 + 4 * i..16 + 4 * i] == r.frames[i] {
        WordAt(r.frames, i);
        assert Encode(e)[12 + 4 * i..16 + 4 * i] == Encode(e)[12..][4 * i..4 * i + 4];
      }
    }
  }

  /** Nothing shorter or longer than a history decodes to the same records. */
  lemma DecodeOnlyWhole(s: seq<byte>, es: seq<Event>)
    requires (forall e | e in es :: Fits(e.record)) && Decode(s) == Some(Records(es))
    ensures |s| == |EncodeAll(es)|
  {
    DecodeOfEncode(es);
    DecodedSize(s);
    DecodedSize(EncodeAll(es));
  }
}
