// The board configuration of components/codec_board/cfg_parse.c: printing lines and parsing them back.
//
// A pointer into the configuration is the string from there to the end of its memory, which ends with
// a zero byte; so every text below carries that byte as its last character.
module CfgParse {
  import opened Common
  import opened CfgFill

  const BOARD_SECTION: string := "Board:"

  predicate IsWord(c: char) {
    'A' <= c <= 'Z' || 'a' <= c <= 'z' || '0' <= c <= '9' || c == '_' || c == '-' || c == '.'
  }

  /** str_same */
  predicate StrSame(a: string, b: string)
    decreases |b|
  {
    if b == [] then a == [] || !IsWord(a[0]) else a != [] && a[0] == b[0] && StrSame(a[1..], b[1..])
  }

  /** The word that a pointer stands at: str_len characters of it. */
  function Word(s: string): (w: string)
    ensures w <= s
  {
    if s != [] && IsWord(s[0]) then [s[0]] + Word(s[1..]) else []
  }

  // ---------------------------------------------------------------------------------------
  // print_cfg_line

  function PrintAttrs(attrs: seq<Attr>): string {
    if attrs == [] then ""
    else attrs[0].name + ": " + attrs[0].value + (if |attrs| > 1 then ", " else "") + PrintAttrs(attrs[1..])
  }

  function PrintLine(line: Line): string {
    line.kind + ": {" + PrintAttrs(line.attrs) + "}\n"
  }

  lemma PrintedLooksSo()
    ensures PrintLine(Line("i2c", [Attr("sda", "17"), Attr("scl", "18")])) == "i2c: {sda: 17, scl: 18}\n"
    ensures PrintLine(Line("sdcard", [])) == "sdcard: {}\n"
  {
    var attrs := [Attr("sda", "17"), Attr("scl", "18")];
    assert attrs[1..] == [Attr("scl", "18")] && attrs[1..][1..] == [];
    assert PrintAttrs(attrs[1..]) == "scl: 18" + "" + PrintAttrs([]);
    assert PrintAttrs(attrs) == "sda: 17" + ", " + "scl: 18";
  }

  function PrintAll(lines: seq<Line>): string {
    if lines == [] then "" else PrintLine(lines[0]) + PrintAll(lines[1..])
  }

  // ---------------------------------------------------------------------------------------
  // parse_section and parse_cfg

  /** The first word character outside comments within `size` characters, and what is left of the size. */
  function NameFrom(s: string, size: nat, comment: bool): (r: Option<(string, nat)>)
    ensures r.Some? ==> 0 < r.value.1 <= size && |s| - |r.value.0| == size - r.value.1
    ensures r.Some? ==> r.value.0 != [] && IsWord(r.value.0[0])
    decreases |s|
  {
    if size == 0 || s == [] then None
    else if comment || s[0] == '#' then NameFrom(s[1..], size - 1, s[0] != '\n')
    else if IsWord(s[0]) then Some((s, size))
    else NameFrom(s[1..], size - 1, false)
  }

  /** The unbounded search for the opening brace. */
  function AfterBrace(s: string): (r: Option<string>)
    ensures r.Some? ==> |r.value| < |s|
  {
    if s == [] then None else if s[0] == '{' then Some(s[1..]) else AfterBrace(s[1..])
  }

  /** The attributes within `left` characters, and how many characters there are up to the closing brace. */
  datatype Braced = Braced(attrs: seq<Attr>, used: Option<nat>)

  function Later(k: nat, b: Braced): Braced {
    Braced(b.attrs, if b.used.Some? then Some(b.used.value + k) else None)
  }

  /** parse_section's last loop; `name` is the attribute that still lacks its value. */
  function Body(s: string, left: nat, inWord: bool, name: Option<string>): (b: Braced)
    ensures b.used.Some? ==> 0 < b.used.value <= left && b.used.value <= |s|
    decreases |s|
  {
    if left == 0 || s == [] then Braced([], None)
    else if s[0] == '}' then Braced([], Some(1))
    else if !IsWord(s[0]) then Later(1, Body(s[1..], left - 1, false, name))
    else if inWord then Later(1, Body(s[1..], left - 1, true, name))
    else if name == None then Later(1, Body(s[1..], left - 1, true, Some(Word(s))))
    else
      var b := Body(s[1..], left - 1, true, None);
      Later(1, Braced([Attr(name.value, Word(s))] + b.attrs, b.used))
  }

  /** No further line; a line and, if it is closed, its size; or a read beyond the memory. */
  datatype Section = NoLine | Parsed(line: Line, used: Option<nat>) | OutOfBounds

  function ParseSection(s: string, size: nat): (r: Section)
    ensures r.Parsed? && r.used.Some? ==> 0 < r.used.value <= size && r.used.value <= |s|
  {
    match NameFrom(s, size, false)
    case None => NoLine
    case Some((name, _)) =>
      if StrSame(name, BOARD_SECTION) then NoLine
      else match AfterBrace(name)
        case None => OutOfBounds
        case Some(rest) =>
          var before := |s| - |rest|;
          var b := Body(rest, if before < size then size - before else 0, false, None);
          Parsed(Line(Word(name), b.attrs), if b.used.Some? then Some(before + b.used.value) else None)
  }

  /**
   * How parse_cfg ends: with no further line; with a line that fill_cfg refuses; with a read beyond
   * the memory; in front of a first line that is not closed and changes nothing, which it parses for
   * ever; or with a line not closed and less left than the line before it took.
   */
  datatype End = Ended | Refused | Fault | Stuck | Overrun

  /** The lines that are parsed and printed, a refused one included. */
  datatype Parse = Parse(lines: seq<Line>, end: End)

  /** A line in front of what is parsed behind it. */
  function Cons(line: Line, p: Parse): Parse {
    Parse([line] + p.lines, p.end)
  }

  /** parse_cfg; `consume` is what the last closed line has left there, c what the lines before have filled. */
  function ParseCfg(s: string, size: nat, consume: nat, c: Counters): Parse
    decreases size, Vacant(c)
  {
    match ParseSection(s, size)
    case NoLine => Parse([], Ended)
    case OutOfBounds => Parse([], Fault)
    case Parsed(line, used) =>
      FillCounts(c, line);
      var step := if used.Some? then used.value else consume;
      var filled := Fill(c, line);
      if filled == None then Parse([line], Refused)
      else if step == 0 then
        if filled.value == c then Parse([line], Stuck) else Cons(line, ParseCfg(s, size, 0, filled.value))
      else if step > size || step > |s| then Parse([line], Overrun)
      else Cons(line, ParseCfg(s[step..], size - step, step, filled.value))
  }

  /** One pass of it. */
  lemma ParseCfgOnce(s: string, size: nat, consume: nat, c: Counters)
    ensures ParseCfg(s, size, consume, c) == match ParseSection(s, size)
      case NoLine => Parse([], Ended)
      case OutOfBounds => Parse([], Fault)
      case Parsed(line, used) =>
        var step := if used.Some? then used.value else consume;
        var filled := Fill(c, line);
        if filled == None then Parse([line], Refused)
        else if step == 0 then
          if filled.value == c then Parse([line], Stuck) else Cons(line, ParseCfg(s, size, 0, filled.value))
        else if step > size || step > |s| then Parse([line], Overrun)
        else Cons(line, ParseCfg(s[step..], size - step, step, filled.value))
  {
    hide ParseSection, Fill;
  }

  // ---------------------------------------------------------------------------------------
  // Words.

  predicate Wordy(w: string) {
    w != [] && forall i | 0 <= i < |w| :: IsWord(w[i])
  }

  predicate WordyAttrs(attrs: seq<Attr>) {
    forall i | 0 <= i < |attrs| :: Wordy(attrs[i].name) && Wordy(attrs[i].value)
  }

  predicate WordyLine(line: Line) {
    Wordy(line.kind) && WordyAttrs(line.attrs)
  }

  predicate WordyLines(lines: seq<Line>) {
    forall i | 0 <= i < |lines| :: WordyLine(lines[i])
  }

  /** No word goes on at the start of s. */
  predicate Apart(s: string) {
    s == [] || !IsWord(s[0])
  }

  lemma {:induction false} WordOf(w: string, rest: string)
    requires (w == [] || Wordy(w)) && Apart(rest)
    ensures Word(w + rest) == w
    decreases |w|
  {
    if w == [] {
      assert w + rest == rest;
    } else {
      assert (w + rest)[1..] == w[1..] + rest;
      WordOf(w[1..], rest);
    }
  }

  /** str_same compares the whole word at a pointer, so that fill_cfg may be asked about words. */
  lemma {:induction false} SameIsWord(s: string, b: string)
    requires b == [] || Wordy(b)
    ensures StrSame(s, b) <==> Word(s) == b
    decreases |b|
  {
    if b != [] && s != [] && IsWord(s[0]) {
      assert IsWord(b[0]) && b == [b[0]] + b[1..] && Word(s)[1..] == Word(s[1..]);
      SameIsWord(s[1..], b[1..]);
    }
  }

  /** Of a word only the first character matters. */
  lemma {:induction false} BodyInWord(w: string, rest: string, left: nat, name: Option<string>)
    requires (w == [] || Wordy(w)) && left >= |w|
    ensures Body(w + rest, left, true, name) == Later(|w|, Body(rest, left - |w|, true, name))
    decreases |w|
  {
    hide Body;
    if w == [] {
      assert w + rest == rest;
      LaterNothing(Body(rest, left, true, name));
    } else {
      assert (w + rest)[1..] == w[1..] + rest;
      BodyGoesOn(w + rest, left, name);
      BodyInWord(w[1..], rest, left - 1, name);
    }
  }

  lemma LaterNothing(b: Braced)
    ensures Later(0, b) == b
  {
  }

  lemma BodyGoesOn(s: string, left: nat, name: Option<string>)
    requires s != [] && IsWord(s[0]) && left > 0
    ensures Body(s, left, true, name) == Later(1, Body(s[1..], left - 1, true, name))
  {
    hide Word;
  }

  lemma {:induction false} BodyWord(w: string, rest: string, left: nat, name: Option<string>)
    requires Wordy(w) && Apart(rest) && left >= |w|
    ensures Body(w + rest, left, false, name) ==
      if name == None then Later(|w|, Body(rest, left - |w|, true, Some(w)))
      else
        var b := Body(rest, left - |w|, true, None);
        Later(|w|, Braced([Attr(name.value, w)] + b.attrs, b.used))
  {
    hide Body;
    WordOf(w, rest);
    assert (w + rest)[1..] == w[1..] + rest;
    BodyFirst(w + rest, left, name);
    BodyInWord(w[1..], rest, left - 1, if name == None then Some(w) else None);
  }

  lemma BodyFirst(s: string, left: nat, name: Option<string>)
    requires s != [] && IsWord(s[0]) && left > 0
    ensures Body(s, left, false, name) ==
      if name == None then Later(1, Body(s[1..], left - 1, true, Some(Word(s))))
      else
        var b := Body(s[1..], left - 1, true, None);
        Later(1, Braced([Attr(name.value, Word(s))] + b.attrs, b.used))
  {
  }

  /** Separators are skipped. */
  lemma BodySeparator(sep: string, rest: string, left: nat, inWord: bool, name: Option<string>)
    requires |sep| == 2 && left >= 2
    requires forall c | c in sep :: !IsWord(c) && c != '}'
    ensures Body(sep + rest, left, inWord, name) == Later(2, Body(rest, left - 2, false, name))
  {
    var s := sep + rest;
    assert s[0] in sep && s[1] in sep;
    assert s[1..][1..] == rest;
  }

  /** The printed attributes are read back, in their order. */
  lemma {:induction false} BodyOfAttrs(attrs: seq<Attr>, rest: string, left: nat, inWord: bool)
    requires WordyAttrs(attrs) && left > |PrintAttrs(attrs)|
    requires inWord ==> attrs == []
    ensures Body(PrintAttrs(attrs) + "}" + rest, left, inWord, None) == Braced(attrs, Some(|PrintAttrs(attrs)| + 1))
    decreases |attrs|
  {
    hide Body, Apart, Wordy;
    if attrs == [] {
      BodyCloses(PrintAttrs(attrs) + "}" + rest, left, inWord);
    } else {
      var a := attrs[0];
      var sep := if |attrs| > 1 then ", " else "";
      var tail := PrintAttrs(attrs[1..]) + "}" + rest;
      var l1 := left - |a.name|;
      var l2 := l1 - 2;
      var l3 := l2 - |a.value|;
      assert Apart(": " + (a.value + (sep + tail))) && Apart(sep + tail) by {
        Aparts(a, sep, attrs[1..], rest);
      }
      PrintFirst(attrs, rest);
      BodyWord(a.name, ": " + (a.value + (sep + tail)), left, None);
      BodySeparator(": ", a.value + (sep + tail), l1, true, Some(a.name));
      BodyWord(a.value, sep + tail, l2, Some(a.name));
      if |attrs| > 1 {
        BodySeparator(", ", tail, l3, true, None);
        BodyOfAttrs(attrs[1..], rest, l3 - 2, false);
      } else {
        assert sep + tail == tail;
        BodyOfAttrs(attrs[1..], rest, l3, true);
      }
      assert [a] + attrs[1..] == attrs;
    }
  }

  lemma PrintFirst(attrs: seq<Attr>, rest: string)
    requires attrs != []
    ensures var a, sep := attrs[0], if |attrs| > 1 then ", " else "";
      PrintAttrs(attrs) + "}" + rest == a.name + (": " + (a.value + (sep + (PrintAttrs(attrs[1..]) + "}" + rest))))
  {
    hide PrintAttrs;
    var a, sep, more := attrs[0], if |attrs| > 1 then ", " else "", PrintAttrs(attrs[1..]);
    PrintAttrsFirst(attrs);
    var s := a.name + ": " + a.value + sep;
    Assoc(s, more, "}");
    Assoc(s, more + "}", rest);
    Assoc(a.name + ": " + a.value, sep, more + "}" + rest);
    Assoc(a.name + ": ", a.value, sep + (more + "}" + rest));
    Assoc(a.name, ": ", a.value + (sep + (more + "}" + rest)));
  }

  lemma PrintAttrsFirst(attrs: seq<Attr>)
    requires attrs != []
    ensures PrintAttrs(attrs) ==
      attrs[0].name + ": " + attrs[0].value + (if |attrs| > 1 then ", " else "") + PrintAttrs(attrs[1..])
  {
  }

  lemma Assoc(x: string, y: string, z: string)
    ensures x + y + z == x + (y + z)
  {
    assert x + y + z == x + (y + z);
  }

  lemma Aparts(a: Attr, sep: string, more: seq<Attr>, rest: string)
    requires sep == ", " || (sep == "" && more == [])
    ensures Apart(": " + (a.value + (sep + (PrintAttrs(more) + "}" + rest))))
    ensures Apart(sep + (PrintAttrs(more) + "}" + rest))
  {
  }

  lemma BodyCloses(s: string, left: nat, inWord: bool)
    requires s != [] && s[0] == '}' && left > 0
    ensures Body(s, left, inWord, None) == Braced([], Some(1))
  {
  }

  // ---------------------------------------------------------------------------------------
  // A printed line.

  lemma {:induction false} BraceBehind(w: string, rest: string)
    requires '{' !in w
    ensures AfterBrace(w + "{" + rest) == Some(rest)
    decreases |w|
  {
    var s := w + "{" + rest;
    if w == [] {
      assert s[1..] == rest;
    } else {
      assert w[0] in w && s[0] == w[0];
      assert s[1..] == w[1..] + "{" + rest;
      BraceBehind(w[1..], rest);
    }
  }

  /** Only the type "Board" is taken for the head of a section. */
  lemma BoardOnly(w: string, rest: string)
    requires Wordy(w)
    ensures StrSame(w + ": {" + rest, BOARD_SECTION) <==> w == "Board"
  {
    SameWord(w, "Board", " {" + rest);
    assert w + ": {" + rest == w + ":" + (" {" + rest);
    assert "Board" + ":" == BOARD_SECTION;
  }

  lemma {:induction false} SameWord(w: string, b: string, rest: string)
    requires (w == [] || Wordy(w)) && (b == [] || Wordy(b)) && Apart(rest)
    ensures StrSame(w + ":" + rest, b + ":") <==> w == b
    decreases |w|
  {
    var s, t := w + ":" + rest, b + ":";
    if w == [] && b == [] {
      assert s[1..] == rest && t[1..] == [];
    } else if w != [] && b != [] {
      assert s[1..] == w[1..] + ":" + rest && t[1..] == b[1..] + ":";
      SameWord(w[1..], b[1..], rest);
      assert w == [w[0]] + w[1..] && b == [b[0]] + b[1..];
    }
  }

  /** parse_section on a printed line, with or without the end of the line before it. */
  lemma ParsePrinted(before: string, line: Line, rest: string, size: nat)
    requires (before == "" || before == "\n") && WordyLine(line) && line.kind != "Board"
    requires size >= |before| + |PrintLine(line)|
    ensures ParseSection(before + PrintLine(line) + rest, size)
      == Parsed(line, Some(|before| + |PrintLine(line)| - 1))
  {
    hide Body, AfterBrace, StrSame, Word, NameFrom, PrintAttrs;
    var attrs := PrintAttrs(line.attrs);
    var s := before + PrintLine(line) + rest;
    var tail := attrs + "}" + ("\n" + rest);
    var name := line.kind + ": {" + tail;
    assert s == before + name;
    NameBehind(before, name, size);
    BoardOnly(line.kind, tail);
    assert name == line.kind + (": {" + tail);
    WordOf(line.kind, ": {" + tail);
    assert name == (line.kind + ": ") + "{" + tail;
    BraceBehind(line.kind + ": ", tail);
    BodyOfAttrs(line.attrs, "\n" + rest, size - (|s| - |tail|), false);
  }

  lemma NameBehind(before: string, name: string, size: nat)
    requires before == "" || before == "\n"
    requires name != [] && IsWord(name[0]) && size > |before|
    ensures NameFrom(before + name, size, false) == Some((name, size - |before|))
  {
    if before == "" {
      assert before + name == name;
    } else {
      assert (before + name)[1..] == name;
    }
  }

  lemma ParsePrintedBoard(before: string, line: Line, rest: string, size: nat)
    requires (before == "" || before == "\n") && WordyLine(line) && line.kind == "Board"
    requires size >= |before| + |PrintLine(line)|
    ensures ParseSection(before + PrintLine(line) + rest, size) == NoLine
  {
    hide StrSame, NameFrom, PrintAttrs;
    var tail := PrintAttrs(line.attrs) + "}\n" + rest;
    var name := line.kind + ": {" + tail;
    assert before + PrintLine(line) + rest == before + name;
    NameBehind(before, name, size);
    BoardOnly(line.kind, tail);
  }

  // ---------------------------------------------------------------------------------------
  // The result.

  function UpToBoard(lines: seq<Line>): seq<Line> {
    if lines == [] || lines[0].kind == "Board" then [] else [lines[0]] + UpToBoard(lines[1..])
  }

  predicate NoBoard(lines: seq<Line>) {
    forall i | 0 <= i < |lines| :: lines[i].kind != "Board"
  }

  lemma {:induction false} UpToBoardAll(lines: seq<Line>)
    ensures UpToBoard(lines) == lines <==> NoBoard(lines)
    ensures |UpToBoard(lines)| <= |lines|
  {
    if lines != [] {
      UpToBoardAll(lines[1..]);
      if lines[0].kind != "Board" {
        assert lines == [lines[0]] + lines[1..];
      }
    }
  }

  /** What becomes of lines that are all closed: they are taken up to a "Board", or through the first refused one. */
  function Taken(lines: seq<Line>, c: Counters): Parse {
    if lines == [] || lines[0].kind == "Board" then Parse([], Ended)
    else
      var filled := Fill(c, lines[0]);
      if filled == None then Parse([lines[0]], Refused) else Cons(lines[0], Taken(lines[1..], filled.value))
  }

  /** fill_cfg accepts them all, one after the other. */
  predicate FillsAll(lines: seq<Line>, c: Counters) {
    lines == [] || (Fill(c, lines[0]).Some? && FillsAll(lines[1..], Fill(c, lines[0]).value))
  }

  lemma {:induction false} TakenAll(lines: seq<Line>, c: Counters)
    ensures Taken(lines, c) == Parse(lines, Ended) <==> NoBoard(lines) && FillsAll(lines, c)
    decreases |lines|
  {
    hide Fill;
    if lines != [] {
      assert lines == [lines[0]] + lines[1..];
      assert NoBoard(lines) <==> lines[0].kind != "Board" && NoBoard(lines[1..]);
      var filled := Fill(c, lines[0]);
      if filled.Some? {
        TakenAll(lines[1..], filled.value);
        ConsIs(lines[0], Taken(lines[1..], filled.value), lines);
      }
    }
  }

  lemma ConsIs(line: Line, p: Parse, lines: seq<Line>)
    requires lines != [] && lines[0] == line
    ensures Cons(line, p).lines == lines <==> p.lines == lines[1..]
  {
    assert lines == [line] + lines[1..];
    assert ([line] + p.lines)[1..] == p.lines;
  }

  lemma {:induction false} ParseFrom(before: string, lines: seq<Line>, rest: string, consume: nat, c: Counters)
    requires (before == "" || before == "\n") && WordyLines(lines)
    ensures ParseCfg(before + PrintAll(lines) + rest, |before| + |PrintAll(lines)|, consume, c) == Taken(lines, c)
    decreases |lines|
  {
    hide PrintLine, WordyLine, ParseSection, ParseCfg, Fill;
    var s := before + PrintAll(lines) + rest;
    var size := |before| + |PrintAll(lines)|;
    ParseCfgOnce(s, size, consume, c);
    if lines == [] {
      assert s == before + rest;
      NothingLeft(before, rest);
    } else {
      var line, more := lines[0], PrintAll(lines[1..]) + rest;
      assert WordyLine(line);
      Assoc(PrintLine(line), PrintAll(lines[1..]), rest);
      Assoc(before, PrintAll(lines), rest);
      Assoc(before, PrintLine(line), more);
      if line.kind == "Board" {
        ParsePrintedBoard(before, line, more, size);
      } else {
        ParsePrinted(before, line, more, size);
        var used := |before| + |PrintLine(line)| - 1;
        LineEnd(line);
        assert (before + PrintLine(line))[used..] == "\n";
        assert s[used..] == "\n" + more;
        Assoc("\n", PrintAll(lines[1..]), rest);
        if Fill(c, line).Some? {
          ParseFrom("\n", lines[1..], rest, used, Fill(c, line).value);
        }
      }
    }
  }

  lemma LineEnd(line: Line)
    ensures |PrintLine(line)| > 1 && PrintLine(line)[|PrintLine(line)| - 1] == '\n'
  {
  }

  lemma NothingLeft(before: string, rest: string)
    requires before == "" || before == "\n"
    ensures ParseSection(before + rest, |before|) == NoLine
  {
    assert NameFrom(before + rest, |before|, false) == None by {
      if before == "\n" {
        assert (before + rest)[1..] == rest;
      }
    }
  }

  /**
   * Parsing what was printed gives the lines up to the first "Board", or through the first line that
   * fill_cfg refuses; hence all of them exactly if there is neither.
   */
  lemma ParseOfPrint(lines: seq<Line>, c: Counters)
    requires WordyLines(lines)
    ensures var text := PrintAll(lines);
      var p := ParseCfg(text + "\0", |text|, 0, c);
      && p == Taken(lines, c)
      && (p == Parse(lines, Ended) <==> NoBoard(lines) && FillsAll(lines, c))
  {
    hide ParseCfg, PrintAll, Taken, FillsAll;
    ParseFrom("", lines, "\0", 0, c);
    assert "" + PrintAll(lines) + "\0" == PrintAll(lines) + "\0";
    TakenAll(lines, c);
  }

  // ---------------------------------------------------------------------------------------
  // Arbitrary text.

  lemma {:induction false} WordIsWordy(s: string)
    requires s != [] && IsWord(s[0])
    ensures Wordy(Word(s))
    decreases |s|
  {
    if |s| > 1 && IsWord(s[1]) {
      WordIsWordy(s[1..]);
    } else {
      assert Word(s[1..]) == [];
    }
  }

  lemma {:induction false} BodyIsWordy(s: string, left: nat, inWord: bool, name: Option<string>)
    requires name.Some? ==> Wordy(name.value)
    ensures WordyAttrs(Body(s, left, inWord, name).attrs)
    decreases |s|
  {
    hide Word, Wordy;
    if left > 0 && s != [] && s[0] != '}' {
      if IsWord(s[0]) && !inWord {
        WordIsWordy(s);
        BodyIsWordy(s[1..], left - 1, true, if name == None then Some(Word(s)) else None);
      } else {
        BodyIsWordy(s[1..], left - 1, IsWord(s[0]), name);
      }
    }
  }

  lemma SectionIsWordy(s: string, size: nat)
    requires ParseSection(s, size).Parsed?
    ensures WordyLine(ParseSection(s, size).line)
  {
    hide Body, AfterBrace, StrSame, Word, Wordy, WordyAttrs;
    var name := NameFrom(s, size, false).value.0;
    WordIsWordy(name);
    var rest := AfterBrace(name).value;
    var before := |s| - |rest|;
    BodyIsWordy(rest, if before < size then size - before else 0, false, None);
  }

  lemma {:induction false} ParseIsWordy(s: string, size: nat, consume: nat, c: Counters)
    ensures WordyLines(ParseCfg(s, size, consume, c).lines)
    decreases size, Vacant(c)
  {
    hide ParseSection, WordyLine, ParseCfg, Fill, Vacant;
    ParseCfgOnce(s, size, consume, c);
    match ParseSection(s, size)
    case NoLine =>
    case OutOfBounds =>
    case Parsed(line, used) =>
      SectionIsWordy(s, size);
      FillCounts(c, line);
      var step := if used.Some? then used.value else consume;
      if Fill(c, line).Some? {
        var d := Fill(c, line).value;
        if step == 0 && d != c {
          ParseIsWordy(s, size, 0, d);
        } else if 0 < step <= size && step <= |s| {
          ParseIsWordy(s[step..], size - step, step, d);
        }
      }
  }

  /** Lines that have been accepted in order, but for a last one that was refused, if `end` says so. */
  predicate Accepts(lines: seq<Line>, c: Counters, end: End) {
    if lines == [] then end != Refused
    else
      var filled := Fill(c, lines[0]);
      if filled == None then |lines| == 1 && end == Refused else Accepts(lines[1..], filled.value, end)
  }

  lemma AcceptsCons(line: Line, p: Parse, c: Counters)
    requires Fill(c, line).Some? && Accepts(p.lines, Fill(c, line).value, p.end)
    ensures Accepts(Cons(line, p).lines, c, p.end)
  {
    hide Fill;
    assert ([line] + p.lines)[1..] == p.lines;
  }

  lemma {:induction false} ParseIsAccepted(s: string, size: nat, consume: nat, c: Counters)
    ensures var p := ParseCfg(s, size, consume, c); Accepts(p.lines, c, p.end)
    decreases size, Vacant(c)
  {
    hide ParseSection, ParseCfg, Fill, Vacant;
    ParseCfgOnce(s, size, consume, c);
    match ParseSection(s, size)
    case NoLine =>
    case OutOfBounds =>
    case Parsed(line, used) =>
      FillCounts(c, line);
      var step := if used.Some? then used.value else consume;
      if Fill(c, line).Some? {
        var d := Fill(c, line).value;
        if step == 0 && d != c {
          ParseIsAccepted(s, size, 0, d);
          AcceptsCons(line, ParseCfg(s, size, 0, d), c);
        } else if 0 < step <= size && step <= |s| {
          ParseIsAccepted(s[step..], size - step, step, d);
          AcceptsCons(line, ParseCfg(s[step..], size - step, step, d), c);
        } else {
          assert [line][1..] == [];
        }
      }
  }

  lemma {:induction false} TakenAgain(lines: seq<Line>, c: Counters, end: End)
    requires Accepts(lines, c, end)
    ensures Taken(lines, c) == Parse(UpToBoard(lines), if end == Refused && NoBoard(lines) then Refused else Ended)
    decreases |lines|
  {
    hide Fill;
    if lines != [] {
      assert NoBoard(lines) <==> lines[0].kind != "Board" && NoBoard(lines[1..]);
      if Fill(c, lines[0]).Some? {
        TakenAgain(lines[1..], Fill(c, lines[0]).value, end);
      }
    }
  }

  /**
   * What parse_cfg prints of any text, parses to what it has parsed, up to a type "Board"; it is
   * refused if the text was, unless a "Board" comes first.
   */
  lemma PrintingIsStable(s: string, size: nat, c: Counters)
    ensures var p := ParseCfg(s, size, 0, c);
      var text := PrintAll(p.lines);
      ParseCfg(text + "\0", |text|, 0, c)
        == Parse(UpToBoard(p.lines), if p.end == Refused && NoBoard(p.lines) then Refused else Ended)
  {
    hide ParseCfg, PrintAll, Taken, Accepts;
    var p := ParseCfg(s, size, 0, c);
    ParseIsWordy(s, size, 0, c);
    ParseIsAccepted(s, size, 0, c);
    ParseOfPrint(p.lines, c);
    TakenAgain(p.lines, c, p.end);
  }
}
