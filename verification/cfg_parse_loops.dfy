// The loops of components/codec_board/cfg_parse.c over the characters of one memory `m`, in which
// pointers are offsets; each is proved to compute the function of the same purpose in CfgParse.
module CfgParseLoops {
  import opened Common
  import opened CfgFill
  import opened CfgParse

  /** A string in memory ends with a zero byte. */
  predicate Terminated(m: string) {
    m != "" && m[|m| - 1] == '\0'
  }

  method StrLen(m: string, p: nat) returns (len: nat)
    requires Terminated(m) && p < |m|
    ensures len <= |m| - p && m[p..p + len] == Word(m[p..])
  {
    hide Word;
    len := 0;
    while IsWord(m[p + len])
      invariant p + len < |m| && forall k | p <= k < p + len :: IsWord(m[k])
      decreases |m| - len
    {
      len := len + 1;
    }
    WordIs(m, p, len);
  }

  lemma {:induction false} WordIs(m: string, p: nat, len: nat)
    requires p + len < |m| && (forall k | p <= k < p + len :: IsWord(m[k])) && !IsWord(m[p + len])
    ensures Word(m[p..]) == m[p..p + len]
    decreases len
  {
    hide Word;
    WordStep(m, p);
    if len > 0 {
      WordIs(m, p + 1, len - 1);
      assert [m[p]] + m[p + 1..p + len] == m[p..p + len];
    }
  }

  lemma WordStep(m: string, p: nat)
    requires p < |m|
    ensures Word(m[p..]) == if IsWord(m[p]) then [m[p]] + Word(m[p + 1..]) else []
  {
    assert m[p..][1..] == m[p + 1..];
  }

  method StrSameAt(m: string, p: nat, b: string) returns (same: bool)
    requires Terminated(m) && p < |m| && '\0' !in b
    ensures same <==> StrSame(m[p..], b)
  {
    var i := 0;
    while i < |b| && m[p + i] == b[i]
      invariant i <= |b| && p + i < |m|
      invariant StrSame(m[p..], b) <==> StrSame(m[p + i..], b[i..])
      decreases |b| - i
    {
      assert b[i] in b;
      assert m[p + i..][1..] == m[p + i + 1..] && b[i..][1..] == b[i + 1..];
      i := i + 1;
    }
    if i == |b| {
      return !IsWord(m[p + i]);
    }
    return false;
  }

  /** print_cfg_line */
  method PrintCfgLine(line: Line) returns (out: string)
    ensures out == PrintLine(line)
  {
    out := line.kind + ": {";
    var i := 0;
    while i < |line.attrs|
      invariant i <= |line.attrs|
      invariant line.kind + ": {" + PrintAttrs(line.attrs) == out + PrintAttrs(line.attrs[i..])
    {
      ghost var was, rest := out, line.attrs[i..];
      out := out + (line.attrs[i].name + ": " + line.attrs[i].value);
      if i + 1 < |line.attrs| {
        out := out + ", ";
      }
      PrintAttrsFirst(rest);
      assert rest[1..] == line.attrs[i + 1..];
      PrintOn(was, rest);
      i := i + 1;
    }
    out := out + "}\n";
  }

  lemma PrintOn(out: string, attrs: seq<Attr>)
    requires attrs != []
    ensures var a := attrs[0].name + ": " + attrs[0].value;
      out + PrintAttrs(attrs) ==
        (if |attrs| > 1 then out + a + ", " else out + a) + PrintAttrs(attrs[1..])
  {
    hide PrintAttrs;
    PrintAttrsFirst(attrs);
    var a, sep, more := attrs[0].name + ": " + attrs[0].value, if |attrs| > 1 then ", " else "", PrintAttrs(attrs[1..]);
    Assoc(out, a + sep, more);
    Assoc(out, a, sep);
  }

  /** The loop in front of the name: its offset, or none. */
  method FindName(m: string, p: nat, size: nat) returns (name: nat, left: nat)
    requires p + size < |m|
    ensures p <= name && left == size - (name - p)
    ensures NameFrom(m[p..], size, false) == if left == 0 then None else Some((m[name..], left))
  {
    name, left := p, size;
    var comment := false;
    while left > 0
      invariant p <= name && name - p <= size && left == size - (name - p)
      invariant NameFrom(m[p..], size, false) == NameFrom(m[name..], left, comment)
    {
      if m[name] == '#' {
        comment := true;
      }
      if comment {
        if m[name] == '\n' {
          comment := false;
        }
      } else if IsWord(m[name]) {
        break;
      }
      assert m[name..][1..] == m[name + 1..];
      name := name + 1;
      left := left - 1;
    }
  }

  /** The braced part from `start` to `end`; pointers to attributes are offsets. */
  method ParseBody(m: string, start: nat, end: nat) returns (attrs: seq<Attr>, close: int)
    requires Terminated(m) && start <= |m| && end < |m|
    ensures var b := Body(m[start..], Left(start, end), false, None);
      attrs == b.attrs && close == if b.used.Some? then b.used.value + start else -1
  {
    hide Word, Body, Grow;
    var s := start;
    var wordLen := 0;
    var attr := -1;
    attrs, close := [], -1;
    ghost var whole := Body(m[start..], Left(start, end), false, None);
    Grown(whole);
    while s < end
      invariant start <= s <= |m| && -1 <= attr < |m|
      invariant whole == Grow(attrs, s - start, Body(m[s..], Left(s, end), wordLen > 0, NameAt(m, attr)))
      decreases end - s
    {
      GrowStep(attrs, s - start, m[s..], end - s, wordLen > 0, NameAt(m, attr));
      assert m[s..][1..] == m[s + 1..];
      if m[s] == '}' {
        close := s + 1;
        return;
      }
      if IsWord(m[s]) {
        if wordLen == 0 {
          if attr == -1 {
            attr := s;
          } else {
            var nameLen := StrLen(m, attr);
            var valueLen := StrLen(m, s);
            attrs := attrs + [Attr(m[attr..attr + nameLen], m[s..s + valueLen])];
            attr := -1;
          }
        }
        wordLen := wordLen + 1;
      } else {
        wordLen := 0;
      }
      s := s + 1;
    }
    GrowEnds(attrs, s - start, m[s..], wordLen > 0, NameAt(m, attr));
  }

  function Left(s: nat, end: nat): nat {
    if s < end then end - s else 0
  }

  function NameAt(m: string, attr: int): Option<string>
    requires attr < |m|
  {
    if attr < 0 then None else Some(Word(m[attr..]))
  }

  /** What was read in k characters before `b`, and `b`. */
  function Grow(attrs: seq<Attr>, k: nat, b: Braced): Braced {
    Braced(attrs + b.attrs, if b.used.Some? then Some(b.used.value + k) else None)
  }

  lemma Grown(b: Braced)
    ensures Grow([], 0, b) == b
  {
  }

  lemma GrowEnds(attrs: seq<Attr>, k: nat, s: string, inWord: bool, name: Option<string>)
    ensures Grow(attrs, k, Body(s, 0, inWord, name)) == Braced(attrs, None)
  {
    assert attrs + [] == attrs;
  }

  lemma GrowStep(attrs: seq<Attr>, k: nat, s: string, left: nat, inWord: bool, name: Option<string>)
    requires left > 0 && s != []
    ensures Grow(attrs, k, Body(s, left, inWord, name)) ==
      if s[0] == '}' then Braced(attrs, Some(1 + k))
      else if !IsWord(s[0]) then Grow(attrs, k + 1, Body(s[1..], left - 1, false, name))
      else if inWord then Grow(attrs, k + 1, Body(s[1..], left - 1, true, name))
      else if name == None then Grow(attrs, k + 1, Body(s[1..], left - 1, true, Some(Word(s))))
      else Grow(attrs + [Attr(name.value, Word(s))], k + 1, Body(s[1..], left - 1, true, None))
  {
    hide Word;
    assert attrs + [] == attrs;
    if name.Some? {
      var a, b := [Attr(name.value, Word(s))], Body(s[1..], left - 1, true, None).attrs;
      assert attrs + (a + b) == attrs + a + b;
    }
  }

  /** parse_section at offset p; *consume changes only if the line is closed. */
  method ParseSectionAt(m: string, p: nat, size: nat, consume: nat) returns (r: Section, consumed: nat)
    requires Terminated(m) && p + size < |m|
    ensures r == ParseSection(m[p..], size)
    ensures consumed == if r.Parsed? && r.used.Some? then r.used.value else consume
  {
    hide Word, Body, NameFrom, StrSame, AfterBrace;
    consumed := consume;
    var name, left := FindName(m, p, size);
    if left == 0 {
      return NoLine, consumed;
    }
    var head := StrSameAt(m, name, BOARD_SECTION);
    if head {
      return NoLine, consumed;
    }
    var s := name;
    while s < |m| && m[s] != '{'
      invariant name <= s <= |m|
      invariant AfterBrace(m[name..]) == AfterBrace(m[s..])
    {
      BraceStep(m, s);
      s := s + 1;
    }
    BraceStep(m, s);
    if s == |m| {
      return OutOfBounds, consumed;
    }
    s := s + 1;
    assert |m[p..]| - |m[s..]| == s - p;
    var kindLen := StrLen(m, name);
    var attrs, close := ParseBody(m, s, p + size);
    r := Parsed(Line(m[name..name + kindLen], attrs), if close >= 0 then Some(close - p) else None);
    if close >= 0 {
      consumed := close - p;
    }
  }

  lemma BraceStep(m: string, s: nat)
    requires s <= |m|
    ensures AfterBrace(m[s..]) ==
      if s == |m| then None else if m[s] == '{' then Some(m[s + 1..]) else AfterBrace(m[s + 1..])
  {
    if s < |m| {
      assert m[s..][1..] == m[s + 1..];
    }
  }

  /** The part of codec_section that decides what is refused. */
  class CodecSection {
    var i2cNum: nat
    var i2sNum: nat
    var codecNum: nat
    var sdcardNum: nat
    var lcdNum: nat
    var cameraNum: nat

    function Counts(): Counters
      reads this
    {
      Counters(i2cNum, i2sNum, codecNum, sdcardNum, lcdNum, cameraNum)
    }

    constructor ()
      ensures Counts() == NO_COUNT
    {
      i2cNum, i2sNum, codecNum, sdcardNum, lcdNum, cameraNum := 0, 0, 0, 0, 0, 0;
    }

    /** fill_codec_cfg */
    method FillCodec(attrs: seq<Attr>) returns (ok: bool)
      modifies this`codecNum
      ensures ok <==> !(old(codecNum) >= MAX_CODEC_NUM || AttrsRefused(old(Counts()), attrs))
      ensures codecNum == old(codecNum) + if ok then 1 else 0
    {
      if codecNum >= MAX_CODEC_NUM {
        return false;
      }
      var i := 0;
      while i < |attrs|
        invariant i <= |attrs|
        invariant AttrsRefused(Counts(), attrs) <==> AttrsRefused(Counts(), attrs[i..])
      {
        var a := attrs[i];
        if a.name == "i2c_port" {
          if Int8(Atoi(a.value)) >= i2cNum {
            return false;
          }
        } else if a.name == "i2s_port" {
          if Int8(Atoi(a.value)) >= i2sNum {
            return false;
          }
        } else if a.name == "codec" {
          if a.value !in CODEC_NAMES {
            return false;
          }
        }
        assert attrs[i..][1..] == attrs[i + 1..];
        i := i + 1;
      }
      codecNum := codecNum + 1;
      return true;
    }

    /** fill_cfg: false for a refused line, which leaves the counters alone. */
    method FillCfg(line: Line) returns (ok: bool)
      modifies this
      ensures ok <==> Fill(old(Counts()), line).Some?
      ensures Counts() == if ok then Fill(old(Counts()), line).value else old(Counts())
    {
      hide AttrsRefused;
      ok := true;
      if line.kind == "i2c" {
        ok := i2cNum < MAX_I2C_NUM;
        i2cNum := i2cNum + if ok then 1 else 0;
      } else if line.kind == "i2s" {
        ok := i2sNum < MAX_I2C_NUM;
        i2sNum := i2sNum + if ok then 1 else 0;
      } else if line.kind == "sdcard" {
        ok := sdcardNum < 1;
        sdcardNum := sdcardNum + if ok then 1 else 0;
      } else if line.kind == "in_out" || line.kind == "out" || line.kind == "in" {
        ok := FillCodec(line.attrs);
      } else if line.kind == "lcd" {
        ok := lcdNum < 1;
        lcdNum := lcdNum + if ok then 1 else 0;
      } else if line.kind == "camera" {
        ok := cameraNum < 1;
        cameraNum := cameraNum + if ok then 1 else 0;
      }
    }
  }

  /** parse_cfg, its ways of not returning told apart from its two regular ends. */
  method ParseCfgAt(m: string, p: nat, size: nat, filled: CodecSection)
      returns (lines: seq<Line>, end: End, printed: string)
    requires Terminated(m) && p + size < |m|
    modifies filled
    ensures Parse(lines, end) == ParseCfg(m[p..], size, 0, old(filled.Counts()))
    ensures end == Ended || end == Refused ==> printed == PrintAll(lines)
  {
    hide ParseSection, PrintLine, Fill, Vacant, ParseCfg;
    var section: nat, left: nat, consume: nat := p, size, 0;
    lines, printed := [], "";
    ghost var whole := ParseCfg(m[p..], size, 0, filled.Counts());
    while true
      invariant section + left < |m|
      invariant whole == Before(lines, ParseCfg(m[section..], left, consume, filled.Counts()))
      invariant printed == PrintAll(lines)
      decreases left, Vacant(filled.Counts())
    {
      var before := filled.Counts();
      var r, consumed := ParseSectionAt(m, section, left, consume);
      CfgStep(lines, m[section..], left, consume, before);
      consume := consumed;
      match r {
        case NoLine => return lines, Ended, printed;
        case OutOfBounds => return lines, Fault, printed;
        case Parsed(line, _) =>
          PrintSnoc(lines, line);
          lines := lines + [line];
          var out := PrintCfgLine(line);
          printed := printed + out;
          var ok := filled.FillCfg(line);
          if !ok {
            return lines, Refused, printed;
          }
          if consume == 0 && filled.Counts() == before {
            return lines, Stuck, printed;
          }
          if consume > left {
            return lines, Overrun, printed;
          }
          SameKind(before, line);
          assert m[section..][consume..] == m[section + consume..];
          left := left - consume;
          section := section + consume;
      }
    }
  }

  lemma SameKind(c: Counters, line: Line)
    requires Fill(c, line).Some?
    ensures Fill(c, line).value == c || Vacant(Fill(c, line).value) < Vacant(c)
  {
    FillCounts(c, line);
  }

  function Before(lines: seq<Line>, p: Parse): Parse {
    Parse(lines + p.lines, p.end)
  }

  lemma BeforeCons(lines: seq<Line>, line: Line, p: Parse)
    ensures Before(lines, Cons(line, p)) == Before(lines + [line], p)
    ensures Before(lines, Parse([line], p.end)) == Parse(lines + [line], p.end)
    ensures Before(lines, Parse([], p.end)) == Parse(lines, p.end)
  {
    assert lines + ([line] + p.lines) == lines + [line] + p.lines;
    assert lines + [] == lines;
  }

  lemma CfgStep(lines: seq<Line>, s: string, size: nat, consume: nat, c: Counters)
    ensures Before(lines, ParseCfg(s, size, consume, c)) ==
      match ParseSection(s, size)
      case NoLine => Parse(lines, Ended)
      case OutOfBounds => Parse(lines, Fault)
      case Parsed(line, used) =>
        var step := if used.Some? then used.value else consume;
        var filled := Fill(c, line);
        if filled == None then Parse(lines + [line], Refused)
        else if step == 0 then
          if filled.value == c then Parse(lines + [line], Stuck)
          else Before(lines + [line], ParseCfg(s, size, 0, filled.value))
        else if step > size || step > |s| then Parse(lines + [line], Overrun)
        else Before(lines + [line], ParseCfg(s[step..], size - step, step, filled.value))
  {
    hide ParseSection, Fill, ParseCfg;
    ParseCfgOnce(s, size, consume, c);
    assert lines + [] == lines;
    match ParseSection(s, size)
    case Parsed(line, used) =>
      var step := if used.Some? then used.value else consume;
      if Fill(c, line).Some? {
        var d := Fill(c, line).value;
        BeforeCons(lines, line, ParseCfg(s, size, 0, d));
        if step <= size && step <= |s| {
          BeforeCons(lines, line, ParseCfg(s[step..], size - step, step, d));
        }
      }
    case _ =>
  }

  lemma {:induction false} PrintSnoc(lines: seq<Line>, line: Line)
    ensures PrintAll(lines + [line]) == PrintAll(lines) + PrintLine(line)
    decreases |lines|
  {
    hide PrintLine;
    var all := lines + [line];
    if lines == [] {
      assert all[1..] == [];
    } else {
      assert all[1..] == lines[1..] + [line];
      PrintSnoc(lines[1..], line);
      Assoc(PrintLine(lines[0]), PrintAll(lines[1..]), PrintLine(line));
    }
  }
}
