// fill_cfg of components/codec_board/cfg_parse.c, as far as it decides whether a line is refused: the
// counters of the section that is filled, and the attributes of codecs.
module CfgFill {
  import opened Common

  datatype Attr = Attr(name: string, value: string)
  datatype Line = Line(kind: string, attrs: seq<Attr>)

  // The limits of codec_board.h.
  const MAX_I2C_NUM: nat := 2
  const MAX_CODEC_NUM: nat := 2

  /** board_section_t's counters */
  datatype Counters = Counters(i2c: nat, i2s: nat, codec: nat, sdcard: nat, lcd: nat, camera: nat)

  const NO_COUNT: Counters := Counters(0, 0, 0, 0, 0, 0)

  const CODEC_KINDS: set<string> := {"in_out", "out", "in"}
  const OTHER_KINDS: set<string> := {"i2c", "i2s", "sdcard", "lcd", "camera"}

  /** The types that fill_cfg knows. */
  predicate Known(kind: string) {
    kind in CODEC_KINDS || kind in OTHER_KINDS
  }

  const CODEC_NAMES: set<string> := {"ES8311", "ES8388", "ES7243", "ES7210", "DUMMY"}

  predicate IsDigit(c: char) {
    '0' <= c <= '9'
  }

  /** The number that the digits at the start of s make up behind `high`. */
  function Digits(s: string, high: nat): nat {
    if s == [] || !IsDigit(s[0]) then high else Digits(s[1..], 10 * high + (s[0] as int - '0' as int))
  }

  /** atoi on a word, which starts with no blank and no plus sign. */
  function Atoi(s: string): int {
    if s != [] && s[0] == '-' then 0 - Digits(s[1..], 0) else Digits(s, 0)
  }

  /** Assignment to an int8_t. */
  function Int8(v: int): int {
    (v + 128) % 256 - 128
  }

  predicate AttrRefused(c: Counters, a: Attr) {
    if a.name == "i2c_port" then Int8(Atoi(a.value)) >= c.i2c
    else if a.name == "i2s_port" then Int8(Atoi(a.value)) >= c.i2s
    else a.name == "codec" && a.value !in CODEC_NAMES
  }

  /** fill_codec_cfg's loop comes to an attribute that it refuses. */
  predicate AttrsRefused(c: Counters, attrs: seq<Attr>) {
    attrs != [] && (AttrRefused(c, attrs[0]) || AttrsRefused(c, attrs[1..]))
  }

  /** fill_cfg: the counters behind a line, or a refusal. */
  function Fill(c: Counters, line: Line): (r: Option<Counters>) {
    if line.kind == "i2c" then (if c.i2c >= MAX_I2C_NUM then None else Some(c.(i2c := c.i2c + 1)))
    // Not MAX_I2S_NUM, which has the same value.
    else if line.kind == "i2s" then (if c.i2s >= MAX_I2C_NUM then None else Some(c.(i2s := c.i2s + 1)))
    else if line.kind == "sdcard" then (if c.sdcard >= 1 then None else Some(c.(sdcard := c.sdcard + 1)))
    else if line.kind in CODEC_KINDS then
      (if c.codec >= MAX_CODEC_NUM || AttrsRefused(c, line.attrs) then None else Some(c.(codec := c.codec + 1)))
    else if line.kind == "lcd" then (if c.lcd >= 1 then None else Some(c.(lcd := c.lcd + 1)))
    else if line.kind == "camera" then (if c.camera >= 1 then None else Some(c.(camera := c.camera + 1)))
    else Some(c)
  }

  // ---------------------------------------------------------------------------------------
  // Which codec lines are accepted.

  /** n in decimal. */
  function Numeral(n: nat): (s: string)
    ensures s != [] && IsDigit(s[0])
  {
    if n < 10 then [('0' as int + n) as char] else Numeral(n / 10) + [('0' as int + n % 10) as char]
  }

  predicate AllDigits(s: string) {
    forall c | c in s :: IsDigit(c)
  }

  lemma {:induction false} DigitsSnoc(s: string, c: char, high: nat)
    requires AllDigits(s) && IsDigit(c)
    ensures Digits(s + [c], high) == 10 * Digits(s, high) + (c as int - '0' as int)
    decreases |s|
  {
    if s == [] {
      assert s + [c] == [c] && [c][1..] == [];
      assert Digits([], 10 * high + (c as int - '0' as int)) == 10 * high + (c as int - '0' as int);
    } else {
      assert s[0] in s && (s + [c])[1..] == s[1..] + [c];
      DigitsSnoc(s[1..], c, 10 * high + (s[0] as int - '0' as int));
    }
  }

  lemma {:induction false} NumeralValue(n: nat)
    ensures Digits(Numeral(n), 0) == n && AllDigits(Numeral(n))
    decreases n
  {
    if n < 10 {
      assert Numeral(n)[1..] == [];
      assert Digits(Numeral(n), 0) == Digits([], n);
    } else {
      NumeralValue(n / 10);
      DigitsSnoc(Numeral(n / 10), ('0' as int + n % 10) as char, 0);
    }
  }

  /** An attribute of a codec line, by what it says. */
  datatype Setting = I2cPort(n: nat) | I2sPort(n: nat) | Codec(name: string) | Other(attr: Attr)

  function AttrOf(s: Setting): Attr {
    match s
    case I2cPort(n) => Attr("i2c_port", Numeral(n))
    case I2sPort(n) => Attr("i2s_port", Numeral(n))
    case Codec(name) => Attr("codec", name)
    case Other(a) => a
  }

  predicate IsOther(s: Setting) {
    s.Other? ==> s.attr.name != "i2c_port" && s.attr.name != "i2s_port" && s.attr.name != "codec"
  }

  /** A port must be one of those already filled; but from 128 to 255 it counts as negative, and so on in turn. */
  predicate Acceptable(c: Counters, s: Setting) {
    match s
    case I2cPort(n) => !(c.i2c <= n % 256 < 128)
    case I2sPort(n) => !(c.i2s <= n % 256 < 128)
    case Codec(name) => name in ["ES8311", "ES8388", "ES7243", "ES7210", "DUMMY"]
    case Other(_) => true
  }

  lemma PortValue(n: nat)
    ensures Atoi(Numeral(n)) == n && Int8(n) == if n % 256 < 128 then n % 256 else n % 256 - 256
  {
    hide Numeral;
    NumeralValue(n);
  }

  lemma AttrAccepted(c: Counters, s: Setting)
    requires IsOther(s)
    ensures AttrRefused(c, AttrOf(s)) <==> !Acceptable(c, s)
  {
    hide Numeral, Atoi, Int8;
    if s.I2cPort? || s.I2sPort? {
      PortValue(s.n);
    }
  }

  function AttrsOf(settings: seq<Setting>): seq<Attr> {
    if settings == [] then [] else [AttrOf(settings[0])] + AttrsOf(settings[1..])
  }

  lemma {:induction false} AttrsAccepted(c: Counters, settings: seq<Setting>)
    requires forall s | s in settings :: IsOther(s)
    ensures AttrsRefused(c, AttrsOf(settings)) <==> exists s | s in settings :: !Acceptable(c, s)
    decreases |settings|
  {
    hide AttrRefused, AttrOf, Acceptable, IsOther;
    if settings != [] {
      assert settings[0] in settings;
      AttrAccepted(c, settings[0]);
      AttrsAccepted(c, settings[1..]);
      assert settings == [settings[0]] + settings[1..];
      assert AttrsOf(settings)[1..] == AttrsOf(settings[1..]);
    }
  }

  /**
   * A codec line is accepted exactly if there is room for one more codec, its ports are filled already, as
   * far as an int8_t can tell, and its codecs are among the five known ones.
   */
  lemma CodecLineAccepted(c: Counters, kind: string, settings: seq<Setting>)
    requires kind in ["in_out", "out", "in"] && forall s | s in settings :: IsOther(s)
    ensures Fill(c, Line(kind, AttrsOf(settings))) ==
      if c.codec < 2 && forall s | s in settings :: Acceptable(c, s) then Some(c.(codec := c.codec + 1)) else None
  {
    hide AttrsRefused, AttrsOf, Acceptable, IsOther;
    AttrsAccepted(c, settings);
  }

  // ---------------------------------------------------------------------------------------
  // How often a line is accepted.

  function Short(n: nat, max: nat): nat {
    if n < max then max - n else 0
  }

  /** How many lines of known types may still be accepted. */
  function Vacant(c: Counters): nat {
    Short(c.i2c, MAX_I2C_NUM) + Short(c.i2s, MAX_I2C_NUM) + Short(c.codec, MAX_CODEC_NUM) + Short(c.sdcard, 1)
    + Short(c.lcd, 1) + Short(c.camera, 1)
  }

  /** A line of a known type takes up a place if it is accepted; any other line is accepted and takes none. */
  lemma FillCounts(c: Counters, line: Line)
    ensures !Known(line.kind) ==> Fill(c, line) == Some(c)
    ensures Known(line.kind) && Fill(c, line).Some? ==> Vacant(Fill(c, line).value) < Vacant(c)
  {
    hide AttrsRefused, Short;
    ShortNext(c.i2c, MAX_I2C_NUM);
    ShortNext(c.i2s, MAX_I2C_NUM);
    ShortNext(c.codec, MAX_CODEC_NUM);
    ShortNext(c.sdcard, 1);
    ShortNext(c.lcd, 1);
    ShortNext(c.camera, 1);
  }

  lemma ShortNext(n: nat, max: nat)
    ensures n < max ==> Short(n + 1, max) < Short(n, max)
  {
  }

  /** The same line again and again. */
  function FillTimes(c: Counters, line: Line, n: nat): Option<Counters>
    decreases n
  {
    if n == 0 then Some(c)
    else
      var r := Fill(c, line);
      if r.None? then None else FillTimes(r.value, line, n - 1)
  }

  /** A line of a known type is refused the third time at the latest, whatever its attributes. */
  lemma ThirdRefused(c: Counters, line: Line)
    requires Known(line.kind)
    ensures FillTimes(c, line, 3) == None
  {
    hide AttrsRefused;
    var a := Fill(c, line);
    if a.Some? {
      var b := Fill(a.value, line);
      if b.Some? {
        assert Fill(b.value, line) == None;
        assert FillTimes(b.value, line, 1) == None;
      }
      assert FillTimes(a.value, line, 2) == None;
    }
  }

  /** How many lines of a type are accepted. */
  function Limit(kind: string): nat {
    if kind in ["i2c", "i2s", "in_out", "out", "in"] then 2 else 1
  }

  /** What the line's type has been counted so far. */
  function CountOf(c: Counters, kind: string): nat {
    if kind == "i2c" then c.i2c else if kind == "i2s" then c.i2s else if kind == "sdcard" then c.sdcard
    else if kind == "lcd" then c.lcd else if kind == "camera" then c.camera else c.codec
  }

  lemma FillOnce(c: Counters, line: Line)
    requires Known(line.kind) && (line.kind in CODEC_KINDS ==> !AttrsRefused(c, line.attrs))
    ensures Fill(c, line).Some? <==> CountOf(c, line.kind) < Limit(line.kind)
    ensures Fill(c, line).Some? ==> var d := Fill(c, line).value;
      && CountOf(d, line.kind) == CountOf(c, line.kind) + 1
      && (line.kind in CODEC_KINDS ==> d.i2c == c.i2c && d.i2s == c.i2s)
  {
    hide AttrsRefused;
  }

  lemma {:induction false} PortsOnly(c: Counters, d: Counters, attrs: seq<Attr>)
    requires c.i2c == d.i2c && c.i2s == d.i2s
    ensures AttrsRefused(c, attrs) == AttrsRefused(d, attrs)
    decreases |attrs|
  {
    if attrs != [] {
      PortsOnly(c, d, attrs[1..]);
    }
  }

  /** From an empty section on, a line of a known type is accepted exactly as often as there are places for it. */
  lemma {:induction false} AcceptedTimes(c: Counters, line: Line, n: nat)
    requires Known(line.kind) && (line.kind in CODEC_KINDS ==> !AttrsRefused(c, line.attrs))
    ensures FillTimes(c, line, n).Some? <==> n == 0 || CountOf(c, line.kind) + n <= Limit(line.kind)
    decreases n
  {
    hide AttrsRefused, CountOf, Limit, Known, Fill;
    if n > 0 {
      FillOnce(c, line);
      var r := Fill(c, line);
      if r.Some? {
        if line.kind in CODEC_KINDS {
          PortsOnly(c, r.value, line.attrs);
        }
        AcceptedTimes(r.value, line, n - 1);
      }
    }
  }
}
