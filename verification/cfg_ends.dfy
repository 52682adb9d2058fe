// How parse_cfg of components/codec_board/cfg_parse.c ends, said of the characters of its text.
module CfgEnds {
  import opened Common
  import opened CfgFill
  import opened CfgParse

  // ---------------------------------------------------------------------------------------
  // Places in a text.

  /** A '#' at h opens a comment that goes on to character i. */
  ghost predicate OpenFrom(s: string, h: nat, i: nat) {
    h <= i < |s| && s[h] == '#' && forall k | h <= k < i :: s[k] != '\n'
  }

  ghost predicate Commented(s: string, i: nat) {
    exists h: nat :: OpenFrom(s, h, i)
  }

  /** A word character outside comments. */
  ghost predicate NameAt(s: string, i: nat) {
    i < |s| && IsWord(s[i]) && !Commented(s, i)
  }

  ghost predicate FirstName(s: string, size: nat, i: nat) {
    i < size && NameAt(s, i) && forall j: nat | j < i :: !NameAt(s, j)
  }

  /** "Board:" at the end of a word. */
  ghost predicate BoardAt(s: string, i: nat) {
    && i + |BOARD_SECTION| <= |s| && s[i..i + |BOARD_SECTION|] == BOARD_SECTION
    && (i + |BOARD_SECTION| == |s| || !IsWord(s[i + |BOARD_SECTION|]))
  }

  /** No name, or the head of the next section. */
  ghost predicate Nothing(s: string, size: nat) {
    (forall i: nat | i < size :: !NameAt(s, i)) || exists i: nat :: FirstName(s, size, i) && BoardAt(s, i)
  }

  /** A line begins at i. */
  ghost predicate Headed(s: string, size: nat, i: nat) {
    FirstName(s, size, i) && !BoardAt(s, i)
  }

  /** Character x does not come from b up to e. */
  ghost predicate Lacks(s: string, x: char, b: nat, e: nat) {
    forall k | b <= k < e && k < |s| :: s[k] != x
  }

  /** A line begins and there is no '{' behind it in the whole memory. */
  ghost predicate MissesBrace(s: string, size: nat) {
    exists i: nat :: Headed(s, size, i) && Lacks(s, '{', i, |s|)
  }

  /** A line begins at i, and b is the first '{' behind it. */
  ghost predicate Opens(s: string, size: nat, i: nat, b: nat) {
    Headed(s, size, i) && i <= b < |s| && s[b] == '{' && Lacks(s, '{', i, b)
  }

  ghost predicate Unclosed(s: string, size: nat) {
    exists i: nat, b: nat :: Opens(s, size, i, b) && Lacks(s, '}', b, size)
  }

  ghost predicate ClosedAt(s: string, size: nat, c: nat) {
    c < size && c < |s| && s[c] == '}' && exists i: nat, b: nat :: Opens(s, size, i, b) && b < c && Lacks(s, '}', b, c)
  }

  // ---------------------------------------------------------------------------------------
  // The name.

  /** Character i is in a comment, one that was open at the start included. */
  ghost predicate InComment(s: string, open: bool, i: nat) {
    Commented(s, i) || (open && forall k | 0 <= k < i && k < |s| :: s[k] != '\n')
  }

  lemma InCommentFirst(s: string, open: bool)
    requires s != []
    ensures InComment(s, open, 0) <==> open || s[0] == '#'
  {
    if s[0] == '#' {
      assert OpenFrom(s, 0, 0);
    }
  }

  lemma InCommentNext(s: string, open: bool, i: nat)
    requires 0 < i < |s|
    ensures InComment(s, open, i) <==> InComment(s[1..], (open || s[0] == '#') && s[0] != '\n', i - 1)
  {
    var t := s[1..];
    if Commented(s, i) {
      var h: nat :| OpenFrom(s, h, i);
      if h > 0 {
        assert OpenFrom(t, h - 1, i - 1);
      } else {
        assert forall k | 0 <= k < i - 1 :: t[k] == s[k + 1];
      }
    }
    if Commented(t, i - 1) {
      var h: nat :| OpenFrom(t, h, i - 1);
      assert forall k | h + 1 <= k < i :: s[k] == t[k - 1];
      assert OpenFrom(s, h + 1, i);
    }
    if forall k | 0 <= k < i - 1 :: t[k] != '\n' {
      assert forall k | 1 <= k < i :: s[k] == t[k - 1];
      if s[0] == '#' {
        assert OpenFrom(s, 0, i);
      }
    }
  }

  ghost predicate NameIn(s: string, open: bool, i: nat) {
    i < |s| && IsWord(s[i]) && !InComment(s, open, i)
  }

  lemma {:induction false} NameFromPlace(s: string, size: nat, open: bool)
    ensures var r := NameFrom(s, size, open);
      if r == None then forall i: nat | i < size :: !NameIn(s, open, i)
      else
        var i := size - r.value.1;
        r.value.0 == s[i..] && i < size && NameIn(s, open, i) && forall j: nat | j < i :: !NameIn(s, open, j)
    decreases |s|
  {
    hide InComment;
    if size > 0 && s != [] {
      InCommentFirst(s, open);
      if open || s[0] == '#' || !IsWord(s[0]) {
        var next := (open || s[0] == '#') && s[0] != '\n';
        NameFromPlace(s[1..], size - 1, next);
        forall i: nat | 0 < i < |s| ensures NameIn(s, open, i) <==> NameIn(s[1..], next, i - 1) {
          InCommentNext(s, open, i);
        }
        NameFromStep(s, size, open);
      }
    }
  }

  lemma NameFromStep(s: string, size: nat, open: bool)
    requires size > 0 && s != [] && (open || s[0] == '#' || !IsWord(s[0]))
    ensures NameFrom(s, size, open) == NameFrom(s[1..], size - 1, (open || s[0] == '#') && s[0] != '\n')
  {
  }

  lemma NameOf(s: string, size: nat) returns (i: nat)
    ensures NameFrom(s, size, false) == None <==> forall j: nat | j < size :: !NameAt(s, j)
    ensures NameFrom(s, size, false) != None ==>
      FirstName(s, size, i) && NameFrom(s, size, false) == Some((s[i..], size - i))
  {
    NameFromPlace(s, size, false);
    var r := NameFrom(s, size, false);
    i := if r == None then 0 else size - r.value.1;
    assert forall j: nat :: NameAt(s, j) <==> NameIn(s, false, j);
  }

  lemma {:induction false} StrSameIs(a: string, b: string)
    ensures StrSame(a, b) <==> b <= a && (|a| == |b| || !IsWord(a[|b|]))
    decreases |b|
  {
    if b == [] {
      assert a == [] || |a| > 0;
    } else if a != [] && a[0] == b[0] {
      StrSameIs(a[1..], b[1..]);
      if b[1..] <= a[1..] {
        assert forall k | 0 < k < |b| :: a[k] == a[1..][k - 1] == b[1..][k - 1] == b[k];
      }
    }
  }

  lemma BoardIs(s: string, i: nat)
    requires i < |s|
    ensures StrSame(s[i..], BOARD_SECTION) <==> BoardAt(s, i)
  {
    hide StrSame;
    StrSameIs(s[i..], BOARD_SECTION);
    if i + |BOARD_SECTION| <= |s| {
      assert s[i..][..|BOARD_SECTION|] == s[i..i + |BOARD_SECTION|];
    }
  }

  // ---------------------------------------------------------------------------------------
  // The braces.

  lemma {:induction false} BracePlace(s: string, i: nat) returns (b: nat)
    requires i <= |s|
    ensures AfterBrace(s[i..]) == None <==> Lacks(s, '{', i, |s|)
    ensures AfterBrace(s[i..]) != None ==>
      i <= b < |s| && s[b] == '{' && Lacks(s, '{', i, b) && AfterBrace(s[i..]) == Some(s[b + 1..])
    decreases |s| - i
  {
    b := i;
    if i < |s| {
      assert s[i..][1..] == s[i + 1..] && s[i..] == [s[i]] + s[i + 1..];
      if s[i] != '{' {
        b := BracePlace(s, i + 1);
      }
    }
  }

  /** The body is closed by the first '}' within its bounds, whatever else it holds. */
  lemma {:induction false} BodyCloses(s: string, left: nat, inWord: bool, name: Option<string>)
    requires left <= |s|
    ensures var used := Body(s, left, inWord, name).used;
      && (used == None <==> '}' !in s[..left])
      && (used.Some? ==> s[used.value - 1] == '}' && '}' !in s[..used.value - 1])
    decreases |s|
  {
    hide Word, Body;
    if left == 0 || s[0] == '}' {
      BodyStops(s, left, inWord, name);
    } else {
      assert s[..left] == [s[0]] + s[1..][..left - 1];
      var named := IsWord(s[0]) && !inWord;
      var next := if !named then name else if name == None then Some(Word(s)) else None;
      BodyCloses(s[1..], left - 1, IsWord(s[0]), next);
      BodyOn(s, left, inWord, name);
      var used := Body(s, left, inWord, name).used;
      if used.Some? {
        assert s[..used.value - 1] == [s[0]] + s[1..][..used.value - 2];
      }
    }
  }

  lemma BodyStops(s: string, left: nat, inWord: bool, name: Option<string>)
    requires left <= |s| && (left == 0 || s[0] == '}')
    ensures Body(s, left, inWord, name).used == if left == 0 then None else Some(1)
  {
  }

  lemma BodyOn(s: string, left: nat, inWord: bool, name: Option<string>)
    requires 0 < left <= |s| && s[0] != '}'
    ensures var named := IsWord(s[0]) && !inWord;
      var next := if !named then name else if name == None then Some(Word(s)) else None;
      var used := Body(s[1..], left - 1, IsWord(s[0]), next).used;
      Body(s, left, inWord, name).used == if used.Some? then Some(used.value + 1) else None
  {
    hide Word;
  }

  // ---------------------------------------------------------------------------------------
  // One line.

  /** parse_section by the characters of its text. */
  lemma SectionIs(s: string, size: nat)
    requires size <= |s|
    ensures var r := ParseSection(s, size);
      && (r == NoLine <==> Nothing(s, size))
      && (r == OutOfBounds <==> MissesBrace(s, size))
      && (r.Parsed? && r.used == None <==> Unclosed(s, size))
      && forall c: nat :: (r.Parsed? && r.used == Some(c + 1) <==> ClosedAt(s, size, c))
  {
    hide NameFrom, StrSame, AfterBrace, Body, Word, NameAt, BoardAt;
    var i := NameOf(s, size);
    if NameFrom(s, size, false) != None {
      BoardIs(s, i);
      HeadIs(s, size, i);
      if !BoardAt(s, i) {
        var b := BracePlace(s, i);
        if AfterBrace(s[i..]) != None {
          LineIs(s, size, i, b);
        } else {
          NoBraceIs(s, size, i);
        }
      }
    } else {
      NoNameIs(s, size);
    }
  }

  lemma NoNameIs(s: string, size: nat)
    requires forall j: nat | j < size :: !NameAt(s, j)
    ensures Nothing(s, size) && !MissesBrace(s, size) && !Unclosed(s, size)
    ensures forall c: nat :: !ClosedAt(s, size, c)
  {
    hide NameAt;
  }

  /** There is only one first name. */
  lemma HeadIs(s: string, size: nat, i: nat)
    requires FirstName(s, size, i)
    ensures forall j: nat :: FirstName(s, size, j) <==> j == i
    ensures Nothing(s, size) <==> BoardAt(s, i)
    ensures BoardAt(s, i) ==> !MissesBrace(s, size) && !Unclosed(s, size) && forall c: nat :: !ClosedAt(s, size, c)
  {
    hide NameAt, BoardAt;
  }

  lemma NoBraceIs(s: string, size: nat, i: nat)
    requires Headed(s, size, i) && Lacks(s, '{', i, |s|)
    requires forall j: nat :: FirstName(s, size, j) <==> j == i
    ensures MissesBrace(s, size) && !Unclosed(s, size)
    ensures forall c: nat :: !ClosedAt(s, size, c)
  {
    hide FirstName, BoardAt;
  }

  lemma LineIs(s: string, size: nat, i: nat, b: nat)
    requires size <= |s| && Opens(s, size, i, b)
    requires forall j: nat :: FirstName(s, size, j) <==> j == i
    ensures !MissesBrace(s, size)
    ensures var before := b + 1;
      var used := Body(s[before..], if before < size then size - before else 0, false, None).used;
      && (used == None <==> Unclosed(s, size))
      && forall c: nat :: (used != None && before + used.value == c + 1 <==> ClosedAt(s, size, c))
  {
    hide FirstName, BoardAt, Body;
    assert forall j: nat, d: nat :: Opens(s, size, j, d) <==> j == i && d == b;
    var before := b + 1;
    var left := if before < size then size - before else 0;
    BodyCloses(s[before..], left, false, None);
    var used := Body(s[before..], left, false, None).used;
    var t := s[before..][..left];
    assert forall k | before <= k < before + left :: s[k] == t[k - before];
    if used == None {
      assert Lacks(s, '}', b, size);
    } else {
      var c := before + used.value - 1;
      assert s[c] == s[before..][used.value - 1];
      assert forall k | before <= k < c :: s[k] == s[before..][..used.value - 1][k - before];
      assert Lacks(s, '}', b, c);
      assert forall e: nat | ClosedAt(s, size, e) :: e == c;
    }
  }

  // ---------------------------------------------------------------------------------------
  // What a line says.

  /** The words that begin within `left` characters; `inWord`: s goes on with one that has begun before. */
  function WordsIn(s: string, left: nat, inWord: bool): seq<string>
    decreases |s|
  {
    if left == 0 || s == [] then []
    else if IsWord(s[0]) && !inWord then [Word(s)] + WordsIn(s[1..], left - 1, true)
    else WordsIn(s[1..], left - 1, IsWord(s[0]))
  }

  /** Words taken in pairs; a last one without a partner is dropped. */
  function Pairs(words: seq<string>): seq<Attr> {
    if |words| < 2 then [] else [Attr(words[0], words[1])] + Pairs(words[2..])
  }

  /** The characters in front of the first '}', of `left` at most. */
  function UpToClose(s: string, left: nat): nat
    decreases |s|
  {
    if left == 0 || s == [] || s[0] == '}' then 0 else 1 + UpToClose(s[1..], left - 1)
  }

  /** The line whose type begins at i and whose first brace is at b. */
  function TextLine(s: string, size: nat, i: nat, b: nat): Line
    requires i <= b < |s|
  {
    var inside, left := s[b + 1..], if b + 1 < size then size - (b + 1) else 0;
    Line(Word(s[i..]), Pairs(WordsIn(inside, UpToClose(inside, left), false)))
  }

  /** This line is the first in the text. */
  ghost predicate Begins(s: string, size: nat, line: Line) {
    exists i: nat, b: nat :: Opens(s, size, i, b) && line == TextLine(s, size, i, b)
  }

  /** The attributes are the words in the braces, in pairs. */
  lemma {:induction false} BodyAttrs(s: string, left: nat, inWord: bool, name: Option<string>)
    ensures Body(s, left, inWord, name).attrs ==
      Pairs((if name.Some? then [name.value] else []) + WordsIn(s, UpToClose(s, left), inWord))
    decreases |s|
  {
    hide Word, Body, Pairs;
    BodyPass(s, left, inWord, name);
    PairsFew(if name.Some? then [name.value] else []);
    if left > 0 && s != [] && s[0] != '}' {
      var words := WordsIn(s[1..], UpToClose(s[1..], left - 1), IsWord(s[0]));
      if IsWord(s[0]) && !inWord {
        if name == None {
          BodyAttrs(s[1..], left - 1, true, Some(Word(s)));
          assert [] + ([Word(s)] + words) == [Word(s)] + words;
        } else {
          BodyAttrs(s[1..], left - 1, true, None);
          var all := [name.value] + ([Word(s)] + words);
          assert all[2..] == words == [] + words;
          PairsMore(all);
        }
      } else {
        BodyAttrs(s[1..], left - 1, IsWord(s[0]), name);
      }
    }
  }

  lemma PairsFew(words: seq<string>)
    requires |words| < 2
    ensures Pairs(words) == [] && words + [] == words
  {
  }

  lemma PairsMore(words: seq<string>)
    requires |words| >= 2
    ensures Pairs(words) == [Attr(words[0], words[1])] + Pairs(words[2..])
  {
  }

  lemma BodyPass(s: string, left: nat, inWord: bool, name: Option<string>)
    ensures Body(s, left, inWord, name).attrs ==
      if left == 0 || s == [] || s[0] == '}' then []
      else if IsWord(s[0]) && !inWord then
        if name == None then Body(s[1..], left - 1, true, Some(Word(s))).attrs
        else [Attr(name.value, Word(s))] + Body(s[1..], left - 1, true, None).attrs
      else Body(s[1..], left - 1, IsWord(s[0]), name).attrs
  {
    hide Word;
  }

  /** The line that parse_section finds is the one that the text begins with. */
  lemma LineText(s: string, size: nat, line: Line)
    requires size <= |s|
    ensures Begins(s, size, line) <==> ParseSection(s, size).Parsed? && ParseSection(s, size).line == line
  {
    hide NameFrom, StrSame, AfterBrace, Body, Word, NameAt, BoardAt, WordsIn, Pairs, UpToClose;
    var i := NameOf(s, size);
    if NameFrom(s, size, false) != None {
      BoardIs(s, i);
      HeadIs(s, size, i);
      if !BoardAt(s, i) {
        var b := BracePlace(s, i);
        if AfterBrace(s[i..]) != None {
          OneOpens(s, size, i, b);
          var left := if b + 1 < size then size - (b + 1) else 0;
          BodyAttrs(s[b + 1..], left, false, None);
          var words := WordsIn(s[b + 1..], UpToClose(s[b + 1..], left), false);
          assert [] + words == words;
        }
      }
    }
  }

  lemma OneOpens(s: string, size: nat, i: nat, b: nat)
    requires Opens(s, size, i, b)
    requires forall j: nat :: FirstName(s, size, j) <==> j == i
    ensures forall j: nat, d: nat :: Opens(s, size, j, d) <==> j == i && d == b
  {
    hide FirstName, BoardAt;
  }

  // ---------------------------------------------------------------------------------------
  // The whole text.

  /**
   * A pass of parse_cfg that fill_cfg accepts takes n characters, a closed line or those of the line
   * before, and fills e; or it takes none, because there is no line before, and still fills something.
   */
  ghost predicate Takes(s: string, size: nat, consume: nat, c: Counters, n: nat, e: Counters) {
    && n <= size && (n == 0 ==> Vacant(e) < Vacant(c))
    && ((n > 0 && ClosedAt(s, size, n - 1)) || (Unclosed(s, size) && n == consume))
    && exists line: Line :: Begins(s, size, line) && Fill(c, line) == Some(e)
  }

  /** Some pass begins at offset p, behind one that has taken `last` characters, with d filled. */
  ghost predicate Reaches(s: string, size: nat, consume: nat, c: Counters, p: nat, last: nat, d: Counters)
    requires size <= |s|
    decreases size, Vacant(c)
  {
    || (p == 0 && last == consume && d == c)
    || exists n: nat, e: Counters ::
         Takes(s, size, consume, c, n, e) && n <= p && Reaches(s[n..], size - n, n, e, p - n, last, d)
  }

  /**
   * Some pass of parse_cfg begins at p where it finds nothing more; or a line that fill_cfg refuses;
   * or a line with no '{' behind it in the memory; or a line that is not closed and accepted, with
   * nothing parsed before that it could skip and nothing that it fills, or with less text left than
   * the line before has taken.
   */
  ghost predicate StopsAt(e: End, s: string, size: nat, consume: nat, c: Counters, p: nat, last: nat, d: Counters)
    requires size <= |s|
  {
    Reaches(s, size, consume, c, p, last, d) && p <= size && Stops(e, s[p..], size - p, last, d)
  }

  /** A pass that begins here is the last. */
  ghost predicate Stops(e: End, s: string, size: nat, consume: nat, c: Counters) {
    match e
    case Ended => Nothing(s, size)
    case Fault => MissesBrace(s, size)
    case Refused => exists line: Line :: Begins(s, size, line) && Fill(c, line) == None
    case Stuck =>
      Unclosed(s, size) && consume == 0 && exists line: Line :: Begins(s, size, line) && Fill(c, line) == Some(c)
    case Overrun =>
      Unclosed(s, size) && consume > size && exists line: Line :: Begins(s, size, line) && Fill(c, line) != None
  }

  /** What ParseCfg does with one line, by the characters of the text. */
  lemma PassIs(e: End, s: string, size: nat, consume: nat, c: Counters)
    requires size <= |s|
    ensures var r := ParseSection(s, size);
      var filled := if r.Parsed? then Fill(c, r.line) else None;
      var step := if r.Parsed? && r.used.Some? then r.used.value else consume;
      && (forall n: nat, d: Counters ::
            Takes(s, size, consume, c, n, d) <==> filled == Some(d) && n == step <= size && (n > 0 || d != c))
      && (Stops(e, s, size, consume, c) <==> match e
            case Ended => r == NoLine
            case Fault => r == OutOfBounds
            case Refused => r.Parsed? && filled == None
            case Stuck => r.Parsed? && step == 0 && filled == Some(c)
            case Overrun => r.Parsed? && filled != None && r.used == None && step > size)
  {
    hide ParseSection, Nothing, MissesBrace, Unclosed, ClosedAt, Begins, Fill, Vacant;
    SectionIs(s, size);
    var r := ParseSection(s, size);
    forall line: Line ensures Begins(s, size, line) <==> r.Parsed? && r.line == line {
      LineText(s, size, line);
    }
    forall n: nat ensures n > 0 ==> (ClosedAt(s, size, n - 1) <==> r.Parsed? && r.used == Some(n)) {
      if n > 0 {
        var k: nat := n - 1;
        assert ClosedAt(s, size, k) <==> r.Parsed? && r.used == Some(k + 1);
      }
    }
    if r.Parsed? {
      FillCounts(c, r.line);
    }
  }

  lemma StopsHere(e: End, s: string, size: nat, consume: nat, c: Counters)
    requires size <= |s|
    ensures StopsAt(e, s, size, consume, c, 0, consume, c) <==> Stops(e, s, size, consume, c)
  {
    hide Stops;
    assert s[0..] == s;
  }

  lemma StopsLater(e: End, s: string, size: nat, consume: nat, c: Counters, n: nat, f: Counters,
                   p: nat, last: nat, d: Counters)
    requires size <= |s| && n <= size && Takes(s, size, consume, c, n, f)
    requires StopsAt(e, s[n..], size - n, n, f, p, last, d)
    ensures StopsAt(e, s, size, consume, c, n + p, last, d)
  {
    hide Stops, Takes;
    assert s[n..][p..] == s[n + p..];
    assert n <= n + p && Reaches(s[n..], size - n, n, f, n + p - n, last, d);
  }

  /** A stop is here, or one behind the next pass. */
  lemma StopsWhere(e: End, s: string, size: nat, consume: nat, c: Counters, p: nat, last: nat, d: Counters)
      returns (n: nat, f: Counters)
    requires size <= |s| && StopsAt(e, s, size, consume, c, p, last, d)
    ensures (p == 0 && last == consume && d == c)
      || (Takes(s, size, consume, c, n, f) && n <= size && n <= p && StopsAt(e, s[n..], size - n, n, f, p - n, last, d))
  {
    hide Stops, ClosedAt, Unclosed, Begins, Fill, Vacant;
    n, f := 0, c;
    if !(p == 0 && last == consume && d == c) {
      n, f :| Takes(s, size, consume, c, n, f) && n <= p && Reaches(s[n..], size - n, n, f, p - n, last, d);
      assert s[n..][p - n..] == s[p..];
    }
  }

  /** How parse_cfg ends, exactly, by the characters of the text that its passes come to. */
  lemma {:induction false} EndsExactly(e: End, s: string, size: nat, consume: nat, c: Counters)
    requires size <= |s|
    ensures ParseCfg(s, size, consume, c).end == e <==>
      exists p: nat, last: nat, d: Counters :: StopsAt(e, s, size, consume, c, p, last, d)
    decreases size, Vacant(c)
  {
    hide ParseSection, ParseCfg, StopsAt, Stops, Takes, Fill, Vacant;
    ParseCfgOnce(s, size, consume, c);
    PassIs(e, s, size, consume, c);
    StopsHere(e, s, size, consume, c);
    var r := ParseSection(s, size);
    if r.Parsed? && Fill(c, r.line).Some? {
      var f := Fill(c, r.line).value;
      var step := if r.used.Some? then r.used.value else consume;
      if step <= size && (step > 0 || f != c) {
        FillCounts(c, r.line);
        var t, left := s[step..], size - step;
        assert step == 0 ==> t == s;
        EndsExactly(e, t, left, step, f);
        if p: nat, last: nat, d: Counters :| StopsAt(e, t, left, step, f, p, last, d) {
          StopsLater(e, s, size, consume, c, step, f, p, last, d);
        }
      }
    }
    if p: nat, last: nat, d: Counters :| StopsAt(e, s, size, consume, c, p, last, d) {
      var n, f := StopsWhere(e, s, size, consume, c, p, last, d);
    }
  }

  /** Every line that a pass comes to is closed. */
  ghost predicate AllClosed(s: string, size: nat, c: Counters)
    requires size <= |s|
  {
    forall p: nat, last: nat, d: Counters | Reaches(s, size, 0, c, p, last, d) && p <= size :: Settled(s[p..], size - p)
  }

  /** No line that a pass comes to is refused. */
  ghost predicate NoneRefused(s: string, size: nat, c: Counters)
    requires size <= |s|
  {
    forall p: nat, last: nat, d: Counters :: !StopsAt(Refused, s, size, 0, c, p, last, d)
  }

  ghost predicate Settled(s: string, size: nat) {
    Nothing(s, size) || exists k: nat :: ClosedAt(s, size, k)
  }

  lemma SettledIs(s: string, size: nat)
    requires size <= |s|
    ensures Settled(s, size) <==> !MissesBrace(s, size) && !Unclosed(s, size)
  {
    hide ParseSection, Nothing, MissesBrace, Unclosed, ClosedAt;
    SectionIs(s, size);
    var r := ParseSection(s, size);
    if r.Parsed? && r.used != None {
      var k: nat := r.used.value - 1;
      assert r.used == Some(k + 1);
      assert ClosedAt(s, size, k);
    }
  }

  /**
   * parse_cfg comes to an end if every line that it comes to is closed: to its regular end exactly if
   * none of them is refused.
   */
  lemma ClosedEnds(s: string, size: nat, c: Counters)
    requires size <= |s| && AllClosed(s, size, c)
    ensures ParseCfg(s, size, 0, c).end == if NoneRefused(s, size, c) then Ended else Refused
  {
    hide Reaches, Settled, MissesBrace, Unclosed, Nothing, ParseCfg, Begins, Fill;
    var e := ParseCfg(s, size, 0, c).end;
    EndsExactly(e, s, size, 0, c);
    EndsExactly(Refused, s, size, 0, c);
    var p: nat, last: nat, d: Counters :| StopsAt(e, s, size, 0, c, p, last, d);
    SettledIs(s[p..], size - p);
  }

  /** The first line of the text is of this type. */
  ghost predicate FirstKind(s: string, size: nat, kind: string) {
    exists i: nat :: Headed(s, size, i) && kind == Word(s[i..])
  }

  lemma BeginsKind(s: string, size: nat, line: Line)
    requires Begins(s, size, line)
    ensures forall kind: string :: FirstKind(s, size, kind) <==> kind == line.kind
  {
    hide NameAt, BoardAt, WordsIn, Pairs, UpToClose, Word;
    var i: nat, b: nat :| Opens(s, size, i, b) && line == TextLine(s, size, i, b);
    HeadIs(s, size, i);
  }

  /** Its first line is parsed for ever exactly if it is not closed and of a type that fill_cfg does not know. */
  lemma HangsExactly(s: string, size: nat, c: Counters)
    requires size <= |s|
    ensures ParseCfg(s, size, 0, c).end == Stuck <==>
      Unclosed(s, size) && exists kind: string :: FirstKind(s, size, kind) && !Known(kind)
  {
    hide ParseSection, ParseCfg, Unclosed, MissesBrace, Nothing, Begins, Fill, FirstKind, Known, ClosedAt;
    SectionIs(s, size);
    var r := ParseSection(s, size);
    if Unclosed(s, size) {
      LineText(s, size, r.line);
      BeginsKind(s, size, r.line);
      if Known(r.line.kind) {
        KnownEnds(s, size, c);
      } else {
        ParseCfgOnce(s, size, 0, c);
        FillCounts(c, r.line);
      }
    } else {
      ClosedFirst(s, size, c);
    }
  }

  /**
   * An unclosed first line of a type that fill_cfg knows is parsed again until it is refused, for the
   * third time at the latest.
   */
  lemma KnownEnds(s: string, size: nat, c: Counters)
    requires ParseSection(s, size).Parsed? && ParseSection(s, size).used == None
    requires Known(ParseSection(s, size).line.kind)
    ensures ParseCfg(s, size, 0, c).end == Refused && |ParseCfg(s, size, 0, c).lines| <= 3
  {
    hide ParseSection, ParseCfg, Fill, FillTimes, Vacant;
    var line := ParseSection(s, size).line;
    ThirdRefused(c, line);
    AgainUntil(s, size, c, 3);
  }

  lemma {:induction false} AgainUntil(s: string, size: nat, c: Counters, n: nat)
    requires ParseSection(s, size).Parsed? && ParseSection(s, size).used == None
    requires Known(ParseSection(s, size).line.kind) && FillTimes(c, ParseSection(s, size).line, n) == None
    ensures ParseCfg(s, size, 0, c).end == Refused && |ParseCfg(s, size, 0, c).lines| <= n
    decreases n
  {
    hide ParseSection, ParseCfg, Fill, Vacant;
    var line := ParseSection(s, size).line;
    ParseCfgOnce(s, size, 0, c);
    FillCounts(c, line);
    if Fill(c, line).Some? {
      AgainUntil(s, size, Fill(c, line).value, n - 1);
    }
  }

  /** Behind a closed first line no pass is ever stuck. */
  lemma ClosedFirst(s: string, size: nat, c: Counters)
    requires !(ParseSection(s, size).Parsed? && ParseSection(s, size).used == None)
    ensures ParseCfg(s, size, 0, c).end != Stuck
  {
    hide ParseSection, ParseCfg, Fill;
    ParseCfgOnce(s, size, 0, c);
    var r := ParseSection(s, size);
    if r.Parsed? && Fill(c, r.line).Some? {
      NeverStuck(s[r.used.value..], size - r.used.value, r.used.value, Fill(c, r.line).value);
    }
  }

  lemma {:induction false} NeverStuck(s: string, size: nat, consume: nat, c: Counters)
    requires consume > 0
    ensures ParseCfg(s, size, consume, c).end != Stuck
    decreases size
  {
    hide ParseSection, ParseCfg, Fill;
    ParseCfgOnce(s, size, consume, c);
    match ParseSection(s, size)
    case NoLine =>
    case OutOfBounds =>
    case Parsed(line, used) =>
      var step := if used.Some? then used.value else consume;
      if Fill(c, line).Some? && step <= size && step <= |s| {
        NeverStuck(s[step..], size - step, step, Fill(c, line).value);
      }
  }

  // ---------------------------------------------------------------------------------------
  // Each bad end has its texts.

  lemma WordAtStart(w: string, rest: string)
    requires Wordy(w)
    ensures forall size: nat | size > 0 :: FirstName(w + rest, size, 0)
  {
    var s := w + rest;
    assert s[0] == w[0] && IsWord(w[0]) && !IsWord('#');
    forall h: nat ensures !OpenFrom(s, h, 0) {
    }
  }

  lemma NotBoard(w: string, rest: string)
    requires Wordy(w) && w != "Board" && Apart(rest)
    ensures !BoardAt(w + rest, 0)
  {
    var s, n := w + rest, |BOARD_SECTION|;
    assert forall k | 0 <= k < n :: IsWord(BOARD_SECTION[k]) <==> k < n - 1;
    assert forall k | 0 <= k < |w| :: s[k] == w[k] && IsWord(w[k]);
    assert |s| > |w| ==> s[|w|] == rest[0];
    assert n <= |s| ==> s[..n][n - 1] == s[n - 1] && (|w| < n ==> s[..n][|w|] == s[|w|]);
    assert n <= |s| && s[..n] == BOARD_SECTION ==> |w| == n - 1;
    assert n <= |s| && |w| == n - 1 ==> w == s[..n][..n - 1];
  }

  /**
   * A first line that is never closed, of any type but "Board" and with any text without '}': it hangs
   * parse_cfg exactly if fill_cfg does not know its type, and otherwise is refused at last.
   */
  lemma UnclosedHangs(w: string, rest: string, c: Counters)
    requires Wordy(w) && w != "Board" && '}' !in rest
    ensures var text := w + ": {" + rest;
      var p := ParseCfg(text + "\0", |text|, 0, c);
      if Known(w) then p.end == Refused && |p.lines| <= 3 else p.end == Stuck
  {
    hide ParseCfg, ParseSection, BoardAt, FirstName, Known, Begins;
    var text := w + ": {" + rest;
    var s := text + "\0";
    var tail := ": {" + rest + "\0";
    assert s == w + tail;
    WordAtStart(w, tail);
    NotBoard(w, tail);
    var b := |w| + 2;
    assert forall k | 0 <= k < |w| :: s[k] == w[k] && IsWord(w[k]);
    assert s[|w|] == ':' && s[|w| + 1] == ' ' && s[b] == '{';
    assert Opens(s, |text|, 0, b);
    assert forall k | b < k < |text| :: s[k] == rest[k - b - 1];
    assert Unclosed(s, |text|);
    WordOf(w, tail);
    assert s[0..] == s && FirstKind(s, |text|, w);
    SectionIs(s, |text|);
    var line := ParseSection(s, |text|).line;
    LineText(s, |text|, line);
    BeginsKind(s, |text|, line);
    HangsExactly(s, |text|, c);
    if Known(w) {
      KnownEnds(s, |text|, c);
    }
  }

  /** A word without a '{' behind it sends it beyond the memory. */
  lemma MissingBraceFaults(w: string, rest: string, c: Counters)
    requires Wordy(w) && w != "Board" && Apart(rest) && '{' !in rest
    ensures var text := w + rest;
      ParseCfg(text + "\0", |text|, 0, c) == Parse([], Fault)
  {
    hide ParseCfg, ParseSection, BoardAt, FirstName, Unclosed, ClosedAt, Nothing;
    var text := w + rest;
    var s := text + "\0";
    assert s == w + (rest + "\0");
    WordAtStart(w, rest + "\0");
    NotBoard(w, rest + "\0");
    assert forall k | 0 <= k < |w| :: s[k] == w[k] && IsWord(w[k]);
    assert forall k | |w| <= k < |text| :: s[k] == rest[k - |w|];
    assert Headed(s, |text|, 0) && Lacks(s, '{', 0, |s|);
    SectionIs(s, |text|);
    ParseCfgOnce(s, |text|, 0, c);
  }

  /** Behind a longer line an unclosed one is skipped beyond the end, exactly if fill_cfg accepts both. */
  lemma UnclosedOverruns(line: Line, w: string, c: Counters)
    requires WordyLine(line) && line.kind != "Board" && Wordy(w) && w != "Board"
    requires |PrintLine(line)| > |w| + 5
    ensures var text := PrintLine(line) + w + ": {";
      var filled := Fill(c, line);
      ParseCfg(text + "\0", |text|, 0, c) ==
        if filled == None then Parse([line], Refused)
        else Parse([line, Line(w, [])], if Fill(filled.value, Line(w, [])) == None then Refused else Overrun)
  {
    hide ParseCfg, ParseSection, PrintLine, WordyLine, Fill;
    var text := PrintLine(line) + w + ": {";
    var s := text + "\0";
    assert s == "" + PrintLine(line) + (w + ": {" + "\0");
    ParsePrinted("", line, w + ": {" + "\0", |text|);
    LineEnd(line);
    var used := |PrintLine(line)| - 1;
    var t := "\n" + (w + ": {" + "\0");
    assert s[used..] == t;
    UnclosedSection(w);
    ParseCfgOnce(s, |text|, 0, c);
    if Fill(c, line).Some? {
      ParseCfgOnce(t, |text| - used, used, Fill(c, line).value);
    }
  }

  lemma UnclosedSection(w: string)
    requires Wordy(w) && w != "Board"
    ensures ParseSection("\n" + (w + ": {" + "\0"), |w| + 4) == Parsed(Line(w, []), None)
  {
    hide StrSame, Body, NameFrom, AfterBrace, Word;
    var tail := ": {" + "\0";
    assert w + ": {" + "\0" == w + tail;
    NameBehind("\n", w + tail, |w| + 4);
    BoardOnly(w, "\0");
    WordOf(w, tail);
    assert w + tail == (w + ": ") + "{" + "\0";
    BraceBehind(w + ": ", "\0");
    NoBody("\0");
  }

  lemma NoBody(s: string)
    ensures Body(s, 0, false, None) == Braced([], None)
  {
  }
}
