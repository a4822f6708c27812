/**
 Durations in configuration files: "30s", "5m", "2h", "7d" or "permanent". The number is a
 64-bit unsigned integer, and its product with the unit wraps in optimised builds.
 */
module Durations {
  import opened Options
  import opened Arith

  const U64: nat := 0x1_0000_0000_0000_0000

  /** Whole seconds below 2^64, or no expiry at all. */
  type Seconds = s: nat | s < U64
  type HumanDuration = Option<Seconds>

  datatype Parsed = Ok(duration: HumanDuration) | Empty | InvalidNumber | UnknownSuffix | Panic

  const PERMANENT: string := "permanent"

  // ----- numbers ---------------------------------------------------------------------------

  predicate IsDigit(c: char) {
    '0' <= c <= '9'
  }

  function Digit(c: char): (d: nat)
    requires IsDigit(c)
    ensures d < 10
  {
    c as int - '0' as int
  }

  /** A number in decimal, without leading zeros. */
  function Decimal(n: nat): (s: string)
    ensures s != []
    ensures AllDigits(s)
  {
    var last := ('0' as int + n % 10) as char;
    if n < 10 then [last] else Decimal(n / 10) + [last]
  }

  function Number(s: string): (n: nat)
    requires AllDigits(s)
  {
    if s == [] then 0 else 10 * Number(s[..|s| - 1]) + Digit(s[|s| - 1])
  }

  predicate AllDigits(s: string) {
    forall i :: 0 <= i < |s| ==> IsDigit(s[i])
  }

  function Unsigned(s: string): (r: string) {
    if s != [] && s[0] == '+' then s[1..] else s
  }

  /** A 64-bit number: digits with an optional plus sign, and no overflow. */
  function ParseU64(s: string): (r: Option<Seconds>) {
    var digits := Unsigned(s);
    if digits == [] || !AllDigits(digits) then None
    else if Number(digits) < U64 then Some(Number(digits)) else None
  }

  // ----- parsing and printing ------------------------------------------------------------------

  /** The characters `trim` removes: Unicode white space. */
  predicate IsSpace(c: char) {
    var v := c as int;
    0x09 <= v <= 0x0d || v == 0x20 || v == 0x85 || v == 0xa0 || v == 0x1680 || 0x2000 <= v <= 0x200a
    || v == 0x2028 || v == 0x2029 || v == 0x202f || v == 0x205f || v == 0x3000
  }

  function TrimStart(s: string): (r: string) {
    if s != [] && IsSpace(s[0]) then TrimStart(s[1..]) else s
  }

  function TrimEnd(s: string): (r: string) {
    if s != [] && IsSpace(s[|s| - 1]) then TrimEnd(s[..|s| - 1]) else s
  }

  function Unit(suffix: char): (u: Option<nat>) {
    match suffix
    case 's' => Some(1)
    case 'm' => Some(60)
    case 'h' => Some(3600)
    case 'd' => Some(86400)
    case _ => None
  }

  /** The last byte is split off as the suffix; a longer last character cannot be split. */
  function ParseTrimmed(s: string): (r: Parsed) {
    if s == PERMANENT then Ok(None)
    else if s == [] then Empty
    else if s[|s| - 1] as int >= 0x80 then Panic
    else
      var number := ParseU64(s[..|s| - 1]);
      var unit := Unit(s[|s| - 1]);
      if number.None? then InvalidNumber
      else if unit.None? then UnknownSuffix
      else Ok(Some(number.value * unit.value % U64))
  }

  function Parse(s: string): (r: Parsed) {
    ParseTrimmed(TrimEnd(TrimStart(s)))
  }

  function Display(d: HumanDuration): (s: string) {
    match d
    case None => PERMANENT
    case Some(secs) =>
      if secs % 86400 == 0 && secs > 0 then Decimal(secs / 86400) + "d"
      else if secs % 3600 == 0 && secs > 0 then Decimal(secs / 3600) + "h"
      else if secs % 60 == 0 && secs > 0 then Decimal(secs / 60) + "m"
      else Decimal(secs) + "s"
  }

  // ----- what parses, and to what ------------------------------------------------------------------

  predicate AllSpace(s: string, lo: nat, hi: nat)
    requires lo <= hi <= |s|
  {
    forall i :: lo <= i < hi ==> IsSpace(s[i])
  }

  lemma {:induction false} TrimsStart(s: string) returns (a: nat)
    ensures a <= |s| && TrimStart(s) == s[a..] && AllSpace(s, 0, a) && (a < |s| ==> !IsSpace(s[a]))
  {
    hide IsSpace;
    if s != [] && IsSpace(s[0]) {
      var rest := s[1..];
      var k := TrimsStart(rest);
      a := k + 1;
      assert forall i :: 1 <= i < |s| ==> s[i] == rest[i - 1];
      assert rest[k..] == s[a..];
    } else {
      a := 0;
      assert s[0..] == s;
    }
  }

  lemma {:induction false} TrimsEnd(s: string) returns (b: nat)
    ensures b <= |s| && TrimEnd(s) == s[..b] && AllSpace(s, b, |s|) && (b > 0 ==> !IsSpace(s[b - 1]))
  {
    hide IsSpace;
    if s != [] && IsSpace(s[|s| - 1]) {
      var init := s[..|s| - 1];
      b := TrimsEnd(init);
      assert forall i :: 0 <= i < |init| ==> s[i] == init[i];
      assert init[..b] == s[..b];
    } else {
      b := |s|;
      assert s[..b] == s;
    }
  }

  /** Trimming cuts off white space at both ends and nothing else. */
  lemma Trims(s: string) returns (a: nat, b: nat)
    ensures a <= b <= |s| && TrimEnd(TrimStart(s)) == s[a..b]
    ensures AllSpace(s, 0, a) && AllSpace(s, b, |s|)
    ensures a < b ==> !IsSpace(s[a]) && !IsSpace(s[b - 1])
  {
    hide TrimStart, TrimEnd, IsSpace;
    a := TrimsStart(s);
    var rest := s[a..];
    var k := TrimsEnd(rest);
    b := a + k;
    assert forall i :: a <= i < |s| ==> s[i] == rest[i - a];
    assert rest[..k] == s[a..b];
  }

  /** The last character that is not white space. */
  predicate LastVisible(s: string, i: nat) {
    i < |s| && !IsSpace(s[i]) && AllSpace(s, i + 1, |s|)
  }

  lemma TrimIs(s: string, lo: nat, hi: nat)
    requires lo < hi <= |s| && AllSpace(s, 0, lo) && AllSpace(s, hi, |s|) && !IsSpace(s[lo]) && !IsSpace(s[hi - 1])
    ensures TrimEnd(TrimStart(s)) == s[lo..hi]
  {
    hide TrimStart, TrimEnd, IsSpace;
    var a, b := Trims(s);
  }

  /** The parser panics exactly when the last visible character is not an ASCII one. */
  lemma PanicsIff(s: string)
    ensures Parse(s).Panic? <==> exists i: nat :: LastVisible(s, i) && s[i] as int >= 0x80
  {
    hide TrimStart, TrimEnd, IsSpace, ParseU64;
    var a, b := Trims(s);
    if a < b {
      assert s[a..b][b - a - 1] == s[b - 1] && LastVisible(s, b - 1);
      PanicsAtLast(s[a..b]);
    }
  }

  lemma PanicsAtLast(t: string)
    requires t != []
    ensures ParseTrimmed(t).Panic? <==> t[|t| - 1] as int >= 0x80
  {
    hide ParseU64;
    assert PERMANENT[|PERMANENT| - 1] == 't';
  }

  /** Such a text: five, with a small e that has an accent. */
  lemma AccentPanics()
    ensures Parse("5\U{00e9}") == Panic
  {
    var s := "5\U{00e9}";
    assert s[0] == '5' && s[1] as int == 0xe9;
    NothingToTrim(s);
    assert s != PERMANENT;
  }

  /** A text that is a number and a unit: spaces around it, a plus sign or none, at least one
      digit with any leading zeros. */
  ghost predicate IsNumberText(s: string, before: string, sign: string, digits: string, suffix: char, after: string) {
    && s == before + (sign + digits + [suffix]) + after
    && AllSpace(before, 0, |before|) && AllSpace(after, 0, |after|) && (sign == "" || sign == "+")
    && digits != [] && AllDigits(digits)
    && suffix in {'s', 'm', 'h', 'd'}
  }

  /** Every such text parses to the number times the unit modulo 2^64 if the number fits 64 bits,
      and not at all otherwise. */
  lemma ParseNumberAndUnit(s: string, before: string, sign: string, digits: string, suffix: char, after: string)
    requires IsNumberText(s, before, sign, digits, suffix, after)
    ensures Parse(s) == if Number(digits) < U64 then Ok(Some(Number(digits) * Unit(suffix).value % U64)) else InvalidNumber
  {
    hide Number, TrimStart, TrimEnd;
    var t := sign + digits + [suffix];
    assert t[..|t| - 1] == sign + digits && t[|t| - 1] == suffix;
    assert t[0] == if sign == "" then digits[0] else '+';
    TrimAround(before, t, after);
    ParseSigned(sign, digits);
    NotKeyword(t);
  }

  /** The product is the exact one if and only if it fits 64 bits, too. */
  lemma ProductIsExactIff(s: string, before: string, sign: string, digits: string, suffix: char, after: string)
    requires IsNumberText(s, before, sign, digits, suffix, after) && Number(digits) < U64
    ensures var product := Number(digits) * Unit(suffix).value;
      Parse(s).Ok? && Parse(s).duration.Some? && (Parse(s).duration.value == product <==> product < U64)
  {
    hide Number, Parse;
    ParseNumberAndUnit(s, before, sign, digits, suffix, after);
    ModExact(Number(digits) * Unit(suffix).value, U64);
  }

  lemma TrimAround(before: string, t: string, after: string)
    requires AllSpace(before, 0, |before|) && AllSpace(after, 0, |after|)
    requires t != [] && !IsSpace(t[0]) && !IsSpace(t[|t| - 1])
    ensures TrimEnd(TrimStart(before + t + after)) == t
  {
    hide TrimStart, TrimEnd, IsSpace;
    var s, lo, hi := before + t + after, |before|, |before| + |t|;
    assert forall i :: 0 <= i < |s| ==>
      s[i] == if i < lo then before[i] else if i < hi then t[i - lo] else after[i - hi];
    TrimIs(s, lo, hi);
    assert s[lo..hi] == t;
  }

  lemma ParseSigned(sign: string, digits: string)
    requires sign == "" || sign == "+"
    requires digits != [] && AllDigits(digits)
    ensures ParseU64(sign + digits) == if Number(digits) < U64 then Some(Number(digits)) else None
  {
    hide Number;
    if sign == "" {
      assert sign + digits == digits && IsDigit(digits[0]);
    } else {
      assert (sign + digits)[1..] == digits;
    }
  }

  /** And nothing else parses to a finite duration. */
  lemma OnlyNumberTexts(s: string) returns (before: string, sign: string, digits: string, suffix: char, after: string)
    requires Parse(s).Ok? && Parse(s).duration.Some?
    ensures IsNumberText(s, before, sign, digits, suffix, after) && Number(digits) < U64
  {
    hide Number, TrimStart, TrimEnd, IsSpace, ParseU64;
    var a, b := Trims(s);
    var t := s[a..b];
    before, after, suffix := s[..a], s[b..], t[|t| - 1];
    sign, digits := SignAndDigits(t[..|t| - 1]);
    assert sign + digits + [suffix] == t;
    assert s == before + t + after;
    assert forall i :: 0 <= i < |after| ==> after[i] == s[b + i];
  }

  lemma SignAndDigits(number: string) returns (sign: string, digits: string)
    requires ParseU64(number).Some?
    ensures number == sign + digits && (sign == "" || sign == "+")
    ensures digits != [] && AllDigits(digits) && Number(digits) < U64
  {
    hide Number;
    digits := Unsigned(number);
    sign := if number[0] == '+' then "+" else "";
  }

  /** Only the keyword means no end, with white space around it or not. */
  lemma PermanentIff(s: string)
    ensures Parse(s) == Ok(None) <==> exists a: nat, b: nat ::
      a <= b <= |s| && AllSpace(s, 0, a) && AllSpace(s, b, |s|) && s[a..b] == "permanent"
  {
    hide TrimStart, TrimEnd, IsSpace, ParseU64;
    var a, b := Trims(s);
    assert Parse(s) == Ok(None) <==> s[a..b] == PERMANENT;
    if x: nat, y: nat :| x <= y <= |s| && AllSpace(s, 0, x) && AllSpace(s, y, |s|) && s[x..y] == PERMANENT {
      KeywordIsVisible();
      assert s[x] == PERMANENT[0] && s[y - 1] == PERMANENT[8];
      TrimIs(s, x, y);
    }
  }

  lemma KeywordIsVisible()
    ensures |PERMANENT| == 9 && !IsSpace(PERMANENT[0]) && !IsSpace(PERMANENT[8])
  {
  }

  /** A text is reported as empty exactly if there is nothing but white space in it. */
  lemma EmptyIff(s: string)
    ensures Parse(s).Empty? <==> AllSpace(s, 0, |s|)
  {
    hide TrimStart, TrimEnd, IsSpace, ParseU64;
    var a, b := Trims(s);
  }

  /** A number before any other ASCII character is reported as an unknown suffix, and the suffix is
      not looked at unless what is before it is a number. */
  lemma UnknownSuffixIff(s: string)
    ensures Parse(s).UnknownSuffix? <==>
      var t := TrimEnd(TrimStart(s));
      && t != [] && t != "permanent" && t[|t| - 1] as int < 0x80 && t[|t| - 1] !in {'s', 'm', 'h', 'd'}
      && ParseU64(t[..|t| - 1]).Some?
  {
    hide TrimStart, TrimEnd, ParseU64;
  }

  /** The documented examples, and the white space of a text file. */
  lemma Examples()
    ensures IsSpace('\t') && IsSpace('\n') && IsSpace('\r') && IsSpace(' ') && !IsSpace('s') && !IsSpace('0')
    ensures Parse("30s") == Ok(Some(30)) && Parse("5m") == Ok(Some(300)) && Parse("2h") == Ok(Some(7200))
    ensures Parse("7d") == Ok(Some(604_800)) && Parse("permanent") == Ok(None)
  {
    hide Parse;
    ParsePermanent();
    assert Decimal(30) == "30" && Decimal(5) == "5" && Decimal(2) == "2" && Decimal(7) == "7";
    ParsePrinted(30, 's');
    ParsePrinted(5, 'm');
    ParsePrinted(2, 'h');
    ParsePrinted(7, 'd');
    assert "30" + ['s'] == "30s" && "5" + ['m'] == "5m" && "2" + ['h'] == "2h" && "7" + ['d'] == "7d";
  }

  // ----- the round trip ---------------------------------------------------------------------------

  lemma {:induction false} NumberOfDecimal(n: nat)
    ensures Number(Decimal(n)) == n
  {
    if n >= 10 {
      NumberOfDecimal(n / 10);
      var s := Decimal(n);
      assert s[..|s| - 1] == Decimal(n / 10);
    }
  }

  /** A printed number and unit parses back. */
  lemma ParsePrinted(n: Seconds, suffix: char)
    requires suffix in {'s', 'm', 'h', 'd'}
    ensures Parse(Decimal(n) + [suffix]) == Ok(Some(n * Unit(suffix).value % U64))
  {
    hide Decimal, Parse, Number;
    NumberOfDecimal(n);
    var s := Decimal(n) + [suffix];
    assert s == "" + ("" + Decimal(n) + [suffix]) + "";
    ParseNumberAndUnit(s, "", "", Decimal(n), suffix, "");
  }

  lemma NotKeyword(s: string)
    requires s != [] && (IsDigit(s[0]) || s[0] == '+')
    ensures s != PERMANENT
  {
    assert PERMANENT[0] == 'p';
  }

  lemma NothingToTrim(s: string)
    requires s != [] && !IsSpace(s[0]) && !IsSpace(s[|s| - 1])
    ensures TrimEnd(TrimStart(s)) == s
  {
  }

  /** For every duration, parsing what is displayed gives the duration back; the product with
      the unit does not wrap. */
  lemma RoundTrip(d: HumanDuration)
    ensures Parse(Display(d)) == Ok(d)
  {
    hide Decimal, Parse;
    match d
    case None =>
      ParsePermanent();
    case Some(secs) =>
      ModExact(secs, U64);
      if secs % 86400 == 0 && secs > 0 {
        ParsePrinted(secs / 86400, 'd');
      } else if secs % 3600 == 0 && secs > 0 {
        ParsePrinted(secs / 3600, 'h');
      } else if secs % 60 == 0 && secs > 0 {
        ParsePrinted(secs / 60, 'm');
      } else {
        ParsePrinted(secs, 's');
      }
  }

  lemma ParsePermanent()
    ensures Parse(PERMANENT) == Ok(None)
  {
    NothingToTrim(PERMANENT);
  }

  /** The text is a count of the largest unit that divides the duration; seconds for none. */
  lemma DisplayUsesLargestUnit(secs: Seconds, other: char)
    requires other in {'s', 'm', 'h', 'd'}
    ensures var s := Display(Some(secs));
      var suffix := s[|s| - 1];
      && suffix in {'s', 'm', 'h', 'd'}
      && (exists n: nat :: s[..|s| - 1] == Decimal(n) && n * Unit(suffix).value == secs)
      && (secs > 0 && Unit(other).value > Unit(suffix).value ==> secs % Unit(other).value != 0)
      && (secs == 0 ==> suffix == 's')
  {
    hide Decimal;
    var s := Display(Some(secs));
    var n := secs / Unit(s[|s| - 1]).value;
    assert s[..|s| - 1] == Decimal(n);
    assert n * Unit(s[|s| - 1]).value == secs;
  }

  /** Display after parse is a normal form: whatever text parses, its duration's own text means
      the same, and two texts mean the same exactly when they have the same normal form. */
  lemma NormalForm(a: string, b: string)
    requires Parse(a).Ok? && Parse(b).Ok?
    ensures Parse(Display(Parse(a).duration)) == Parse(a)
    ensures Display(Parse(a).duration) == Display(Parse(b).duration) <==> Parse(a) == Parse(b)
  {
    hide Display, Parse;
    RoundTrip(Parse(a).duration);
    RoundTrip(Parse(b).duration);
  }

  /** The product can wrap: this many days wrap to less than a day. */
  lemma DaysCanWrap()
    ensures Parse(Decimal(213_503_982_334_602) + "d") == Ok(Some(61_184))
  {
    hide Decimal, Parse;
    ParsePrinted(213_503_982_334_602, 'd');
  }
}
