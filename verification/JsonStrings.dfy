/** JSON string tokens: the two strict rules, the loose one, and how their languages relate. */
module JsonStrings {
  import opened Wrappers
  import opened Regex

  // ---- the rules, as written --------------------------------------------------------

  const QUOTE := Class(false, [('"', '"')])
  const BACKSLASH := Class(false, [('\\', '\\')])
  const LETTER_U := Class(false, [('u', 'u')])
  const BARE := Class(true, [('"', '"'), ('\\', '\\'), ('\0', '\U{1F}')])
  const SIMPLE := Class(false, [('"', '"'), ('\\', '\\'), ('b', 'b'), ('n', 'n'), ('f', 'f'), ('r', 'r'), ('t', 't'), ('/', '/')])
  const HEX := Class(false, [('0', '9'), ('a', 'f'), ('A', 'F')])
  const HEX_NOT_D := Class(false, [('0', '9'), ('a', 'c'), ('A', 'C'), ('e', 'f'), ('E', 'F')])
  const LETTER_D := Class(false, [('D', 'D'), ('d', 'd')])
  const LOW_OCTAL := Class(false, [('0', '7')])
  const HIGH_NIBBLE := Class(false, [('8', '8'), ('9', '9'), ('a', 'a'), ('b', 'b'), ('A', 'A'), ('B', 'B')])
  const LOW_NIBBLE := Class(false, [('c', 'f'), ('C', 'F')])

  const NOT_D_UNIT := Chain([HEX_NOT_D, HEX, HEX, HEX])
  const BELOW_SURROGATES := Chain([LETTER_D, LOW_OCTAL, HEX, HEX])
  const SURROGATE_PAIR := Chain([LETTER_D, HIGH_NIBBLE, HEX, HEX, BACKSLASH, LETTER_U, LETTER_D, LOW_NIBBLE, HEX, HEX])

  /** `\\(?:["\\bnfrt/]|u(?:nonsurrogate|high \\u low))`. */
  const ESCAPE := Cat(One(BACKSLASH), Alt(One(SIMPLE), Cat(One(LETTER_U), Alt(NOT_D_UNIT, Alt(BELOW_SURROGATES, SURROGATE_PAIR)))))
  const ELEMENT := Alt(One(BARE), ESCAPE)

  /** `String`: quotes around characters that need no unescaping. */
  const STRING := Cat(One(QUOTE), Cat(Star(One(BARE)), One(QUOTE)))

  /** `EscapedString`: quotes around at least one escape. */
  const ESCAPED_STRING := Cat(One(QUOTE), Cat(Cat(Star(One(BARE)), Cat(ESCAPE, Star(ELEMENT))), One(QUOTE)))

  const LOOSE_ELEMENT :=
    Alt(One(BARE), Cat(One(BACKSLASH), Alt(One(SIMPLE), Cat(One(LETTER_U), Chain([HEX, HEX, HEX, HEX])))))

  /** The one rule of the lossless twin: any code unit after `\u`. */
  const LOOSE_STRING := Cat(One(QUOTE), Cat(Star(LOOSE_ELEMENT), One(QUOTE)))

  // ---- decoding ---------------------------------------------------------------------

  predicate IsBare(c: char) { c != '"' && c != '\\' && c > '\U{1F}' }

  predicate IsSimple(c: char) { c in "\"\\bnfrt/" }

  predicate IsHex(c: char) { '0' <= c <= '9' || 'a' <= c <= 'f' || 'A' <= c <= 'F' }

  function HexValue(c: char): (v: nat)
    requires IsHex(c)
    ensures v < 16
  {
    if c <= '9' then c as nat - '0' as nat
    else if c <= 'F' then c as nat - 'A' as nat + 10
    else c as nat - 'a' as nat + 10
  }

  /** Four hex digits at `i` of `s`. */
  predicate HexAt(s: string, i: nat) {
    i + 4 <= |s| && IsHex(s[i]) && IsHex(s[i + 1]) && IsHex(s[i + 2]) && IsHex(s[i + 3])
  }

  function UnitAt(s: string, i: nat): (u: nat)
    requires HexAt(s, i)
    ensures u < 0x10000
  {
    HexValue(s[i]) * 4096 + HexValue(s[i + 1]) * 256 + HexValue(s[i + 2]) * 16 + HexValue(s[i + 3])
  }

  /** UTF-16 of a character of the source text: one unit, or a surrogate pair above U+FFFF. */
  function BareUnits(c: char): seq<nat> {
    var p := c as nat;
    if p < 0x10000 then [p] else [0xD800 + (p - 0x10000) / 0x400, 0xDC00 + (p - 0x10000) % 0x400]
  }

  function SimpleUnit(c: char): nat
    requires IsSimple(c)
  {
    match c
    case 'b' => 0x08
    case 'f' => 0x0C
    case 'n' => 0x0A
    case 'r' => 0x0D
    case 't' => 0x09
    case _ => c as nat
  }

  /** What the head of a string body stands for: how much text, and which code units. */
  datatype Head = Head(length: nat, units: seq<nat>)

  function HeadOf(b: string): (h: Option<Head>)
    ensures h.Some? ==> 0 < h.value.length <= |b|
  {
    if b == [] then None
    else if IsBare(b[0]) then Some(Head(1, BareUnits(b[0])))
    else if b[0] != '\\' || |b| < 2 then None
    else if IsSimple(b[1]) then Some(Head(2, [SimpleUnit(b[1])]))
    else if b[1] == 'u' && HexAt(b, 2) then Some(Head(6, [UnitAt(b, 2)]))
    else None
  }

  const HEX_LOWER := "0123456789abcdef"
  const HEX_UPPER := "0123456789ABCDEF"

  lemma HexIff(c: char)
    ensures IsHex(c) <==> c in HEX_LOWER || c in HEX_UPPER
    ensures IsHex(c) ==> c == HEX_LOWER[HexValue(c)] || c == HEX_UPPER[HexValue(c)]
  {
    if IsHex(c) { assert c == HEX_LOWER[HexValue(c)] || c == HEX_UPPER[HexValue(c)]; }
  }

  /** The two-character escapes of RFC 8259, section 7, and what each stands for. */
  lemma SimpleEscapesAre(c: char)
    ensures IsSimple(c) <==> c == '"' || c == '\\' || c == '/' || c == 'b' || c == 'f' || c == 'n' || c == 'r' || c == 't'
    ensures IsSimple(c) ==> ((c, SimpleUnit(c)) in
      {('b', 8), ('t', 9), ('n', 10), ('f', 12), ('r', 13), ('"', 0x22), ('/', 0x2F), ('\\', 0x5C)})
  {
  }

  /** A character beyond the basic plane is a high and a low half that together say its number. */
  lemma BareUnitsAre(c: char)
    ensures (c as int) < 0x10000 ==> BareUnits(c) == [c as nat]
    ensures (c as int) >= 0x10000 ==> var u := BareUnits(c);
      |u| == 2 && IsHigh(u[0]) && IsLow(u[1]) && 0x10000 + (u[0] - 0xD800) * 0x400 + (u[1] - 0xDC00) == c as int
  {
  }

  /** The decoded UTF-16 code units of a string body, if it is one. */
  function Decode(b: string): Option<seq<nat>>
    decreases |b|
  {
    if b == [] then Some([])
    else
      match HeadOf(b)
      case None => None
      case Some(h) =>
        match Decode(b[h.length..])
        case None => None
        case Some(rest) => Some(h.units + rest)
  }

  predicate IsHigh(u: nat) { 0xD800 <= u < 0xDC00 }
  predicate IsLow(u: nat) { 0xDC00 <= u < 0xE000 }

  /** Well-formed UTF-16: every surrogate is half of a pair (definition D91, section 3.9 of the
      Unicode Standard). */
  predicate WellFormed(units: seq<nat>) {
    if units == [] then true
    else if IsHigh(units[0]) then |units| >= 2 && IsLow(units[1]) && WellFormed(units[2..])
    else !IsLow(units[0]) && WellFormed(units[1..])
  }

  // ---- the classes ------------------------------------------------------------------

  lemma RangeHas(c: Class, x: char, i: nat)
    requires i < |c.ranges| && c.ranges[i].0 <= x <= c.ranges[i].1
    ensures c.Has(x) <==> !c.negated
  {
    assert c.ranges[i] in c.ranges;
  }

  lemma SingleClasses(x: char)
    ensures QUOTE.Has(x) <==> x == '"'
    ensures BACKSLASH.Has(x) <==> x == '\\'
    ensures LETTER_U.Has(x) <==> x == 'u'
    ensures LETTER_D.Has(x) <==> x == 'D' || x == 'd'
    ensures LOW_OCTAL.Has(x) <==> '0' <= x <= '7'
  {
    if x == '"' { RangeHas(QUOTE, x, 0); }
    if x == '\\' { RangeHas(BACKSLASH, x, 0); }
    if x == 'u' { RangeHas(LETTER_U, x, 0); }
    if x == 'D' { RangeHas(LETTER_D, x, 0); }
    if x == 'd' { RangeHas(LETTER_D, x, 1); }
    if '0' <= x <= '7' { RangeHas(LOW_OCTAL, x, 0); }
  }

  lemma BareClass(x: char)
    ensures BARE.Has(x) <==> IsBare(x)
  {
    if x == '"' { RangeHas(BARE, x, 0); }
    if x == '\\' { RangeHas(BARE, x, 1); }
    if x <= '\U{1F}' { RangeHas(BARE, x, 2); }
  }

  lemma SimpleClass(x: char)
    ensures SIMPLE.Has(x) <==> IsSimple(x)
  {
    if IsSimple(x) {
      var i :| 0 <= i < 8 && "\"\\bnfrt/"[i] == x;
      RangeHas(SIMPLE, x, i);
    }
  }

  lemma HexClass(x: char)
    ensures HEX.Has(x) <==> IsHex(x)
  {
    if '0' <= x <= '9' { RangeHas(HEX, x, 0); }
    if 'a' <= x <= 'f' { RangeHas(HEX, x, 1); }
    if 'A' <= x <= 'F' { RangeHas(HEX, x, 2); }
  }

  lemma HexNotDClass(x: char)
    ensures HEX_NOT_D.Has(x) <==> IsHex(x) && HexValue(x) != 13
  {
    if '0' <= x <= '9' { RangeHas(HEX_NOT_D, x, 0); }
    if 'a' <= x <= 'c' { RangeHas(HEX_NOT_D, x, 1); }
    if 'A' <= x <= 'C' { RangeHas(HEX_NOT_D, x, 2); }
    if 'e' <= x <= 'f' { RangeHas(HEX_NOT_D, x, 3); }
    if 'E' <= x <= 'F' { RangeHas(HEX_NOT_D, x, 4); }
  }

  lemma HighNibbleClass(x: char)
    ensures HIGH_NIBBLE.Has(x) <==> IsHex(x) && 8 <= HexValue(x) < 12
  {
    if x == '8' { RangeHas(HIGH_NIBBLE, x, 0); }
    if x == '9' { RangeHas(HIGH_NIBBLE, x, 1); }
    if x == 'a' { RangeHas(HIGH_NIBBLE, x, 2); }
    if x == 'b' { RangeHas(HIGH_NIBBLE, x, 3); }
    if x == 'A' { RangeHas(HIGH_NIBBLE, x, 4); }
    if x == 'B' { RangeHas(HIGH_NIBBLE, x, 5); }
  }

  lemma LowNibbleClass(x: char)
    ensures LOW_NIBBLE.Has(x) <==> IsHex(x) && 12 <= HexValue(x)
  {
    if 'c' <= x <= 'f' { RangeHas(LOW_NIBBLE, x, 0); }
    if 'C' <= x <= 'F' { RangeHas(LOW_NIBBLE, x, 1); }
  }

  // ---- single elements --------------------------------------------------------------

  lemma FourHex(s: string)
    ensures Matches(Chain([HEX, HEX, HEX, HEX]), s) <==> |s| == 4 && HexAt(s, 0)
  {
    hide Matches, Class.Has, HexValue, UnitAt;
    ChainMatches([HEX, HEX, HEX, HEX], s);
    if |s| == 4 { HexClass(s[0]); HexClass(s[1]); HexClass(s[2]); HexClass(s[3]); }
  }

  lemma NotDUnit(s: string)
    ensures Matches(NOT_D_UNIT, s) <==> |s| == 4 && HexAt(s, 0) && HexValue(s[0]) != 13
  {
    hide Matches, Class.Has, HexValue, UnitAt;
    ChainMatches([HEX_NOT_D, HEX, HEX, HEX], s);
    if |s| == 4 { HexNotDClass(s[0]); HexClass(s[1]); HexClass(s[2]); HexClass(s[3]); }
  }

  lemma BelowSurrogates(s: string)
    ensures Matches(BELOW_SURROGATES, s) <==> |s| == 4 && HexAt(s, 0) && HexValue(s[0]) == 13 && HexValue(s[1]) < 8
  {
    hide Matches, Class.Has, UnitAt;
    ChainMatches([LETTER_D, LOW_OCTAL, HEX, HEX], s);
    if |s| == 4 { SingleClasses(s[0]); SingleClasses(s[1]); HexClass(s[2]); HexClass(s[3]); }
  }

  /** `XXXX\\uYYYY` with a high half first and a low half second. */
  predicate PairText(s: string) {
    |s| == 10 && s[4] == '\\' && s[5] == 'u' && HexAt(s, 0) && HexAt(s, 6) && IsHigh(UnitAt(s, 0)) && IsLow(UnitAt(s, 6))
  }

  lemma UnitRanges(s: string, i: nat)
    requires HexAt(s, i)
    ensures IsHigh(UnitAt(s, i)) <==> HexValue(s[i]) == 13 && 8 <= HexValue(s[i + 1]) < 12
    ensures IsLow(UnitAt(s, i)) <==> HexValue(s[i]) == 13 && 12 <= HexValue(s[i + 1])
  {
  }

  lemma HighHalf(s: string)
    ensures Matches(Chain([LETTER_D, HIGH_NIBBLE, HEX, HEX]), s) <==> |s| == 4 && HexAt(s, 0) && IsHigh(UnitAt(s, 0))
  {
    hide Matches, Class.Has, UnitAt;
    ChainMatches([LETTER_D, HIGH_NIBBLE, HEX, HEX], s);
    if |s| == 4 {
      SingleClasses(s[0]); HighNibbleClass(s[1]); HexClass(s[2]); HexClass(s[3]);
      if HexAt(s, 0) { UnitRanges(s, 0); }
    }
  }

  lemma LowHalf(s: string)
    ensures Matches(Chain([LETTER_D, LOW_NIBBLE, HEX, HEX]), s) <==> |s| == 4 && HexAt(s, 0) && IsLow(UnitAt(s, 0))
  {
    hide Matches, Class.Has, UnitAt;
    ChainMatches([LETTER_D, LOW_NIBBLE, HEX, HEX], s);
    if |s| == 4 {
      SingleClasses(s[0]); LowNibbleClass(s[1]); HexClass(s[2]); HexClass(s[3]);
      if HexAt(s, 0) { UnitRanges(s, 0); }
    }
  }

  const HIGH_CHAIN := [LETTER_D, HIGH_NIBBLE, HEX, HEX]
  const MIDDLE_CHAIN := [BACKSLASH, LETTER_U]
  const LOW_CHAIN := [LETTER_D, LOW_NIBBLE, HEX, HEX]

  lemma PairChains(s: string)
    requires |s| >= 6
    ensures Matches(SURROGATE_PAIR, s) <==>
      Matches(Chain(HIGH_CHAIN), s[..4]) && Matches(Chain(MIDDLE_CHAIN), s[4..][..2]) && Matches(Chain(LOW_CHAIN), s[4..][2..])
  {
    hide Matches, Chain;
    assert HIGH_CHAIN + (MIDDLE_CHAIN + LOW_CHAIN) ==
      [LETTER_D, HIGH_NIBBLE, HEX, HEX, BACKSLASH, LETTER_U, LETTER_D, LOW_NIBBLE, HEX, HEX];
    ChainSplit(HIGH_CHAIN, MIDDLE_CHAIN + LOW_CHAIN, s);
    ChainSplit(MIDDLE_CHAIN, LOW_CHAIN, s[4..]);
  }

  lemma Middle(s: string)
    ensures Matches(Chain(MIDDLE_CHAIN), s) <==> |s| == 2 && s[0] == '\\' && s[1] == 'u'
  {
    hide Matches, Chain, Class.Has;
    ChainMatches(MIDDLE_CHAIN, s);
    if |s| == 2 {
      SingleClasses(s[0]);
      SingleClasses(s[1]);
    }
  }

  lemma SurrogatePair(s: string)
    ensures Matches(SURROGATE_PAIR, s) <==> PairText(s)
  {
    hide Matches, Class.Has, UnitAt, Chain, HexAt;
    if |s| >= 6 {
      PairChains(s);
      HighHalf(s[..4]);
      Middle(s[4..][..2]);
      LowHalf(s[4..][2..]);
      PairHalves(s);
    } else {
      ChainMatches([LETTER_D, HIGH_NIBBLE, HEX, HEX, BACKSLASH, LETTER_U, LETTER_D, LOW_NIBBLE, HEX, HEX], s);
    }
  }

  lemma PairHalves(s: string)
    requires |s| >= 6
    ensures var low := s[4..][2..];
      PairText(s) <==> (
        && s[4] == '\\' && s[5] == 'u'
        && HexAt(s[..4], 0) && IsHigh(UnitAt(s[..4], 0))
        && |low| == 4 && HexAt(low, 0) && IsLow(UnitAt(low, 0)))
  {
    var low := s[4..][2..];
    assert low == s[6..];
    if |s| == 10 {
      assert HexAt(s, 0) <==> HexAt(s[..4], 0);
      assert HexAt(s, 6) <==> HexAt(low, 0);
    }
  }

  /** The element the strict rules read at the head of a body: a lone half is none, a high half
      must take its low half along. */
  function StrictHead(b: string): (k: Option<nat>)
    ensures k.Some? ==> 0 < k.value <= |b|
  {
    match HeadOf(b)
    case None => None
    case Some(h) =>
      if h.length != 6 then Some(h.length)
      else if IsLow(h.units[0]) then None
      else if IsHigh(h.units[0]) then
        match HeadOf(b[6..])
        case Some(l) => if l.length == 6 && IsLow(l.units[0]) then Some(12) else None
        case None => None
      else Some(6)
  }

  lemma OneMatches(c: Class, s: string)
    ensures Matches(One(c), s) <==> |s| == 1 && c.Has(s[0])
  {
  }

  lemma AltMatches(a: Re, b: Re, s: string)
    ensures Matches(Alt(a, b), s) <==> Matches(a, s) || Matches(b, s)
  {
  }

  lemma LooseElement(s: string)
    ensures Matches(LOOSE_ELEMENT, s) <==> HeadOf(s).Some? && HeadOf(s).value.length == |s|
  {
    hide Matches, Class.Has, Chain;
    var four := Chain([HEX, HEX, HEX, HEX]);
    var afterBackslash := Alt(One(SIMPLE), Cat(One(LETTER_U), four));
    AltMatches(One(BARE), Cat(One(BACKSLASH), afterBackslash), s);
    OneMatches(BARE, s);
    CatOne(BACKSLASH, afterBackslash, s);
    if s != [] {
      BareClass(s[0]);
      SingleClasses(s[0]);
      var t := s[1..];
      AltMatches(One(SIMPLE), Cat(One(LETTER_U), four), t);
      OneMatches(SIMPLE, t);
      CatOne(LETTER_U, four, t);
      if t != [] {
        SimpleClass(t[0]);
        SingleClasses(t[0]);
        FourHex(t[1..]);
      }
    }
  }

  lemma StrictElement(s: string)
    ensures Matches(ELEMENT, s) <==> StrictHead(s) == Some(|s|)
  {
    hide Matches, Class.Has, Chain, UnitAt;
    var unit := Alt(NOT_D_UNIT, Alt(BELOW_SURROGATES, SURROGATE_PAIR));
    var afterBackslash := Alt(One(SIMPLE), Cat(One(LETTER_U), unit));
    AltMatches(One(BARE), ESCAPE, s);
    OneMatches(BARE, s);
    CatOne(BACKSLASH, afterBackslash, s);
    if s != [] {
      BareClass(s[0]);
      SingleClasses(s[0]);
      var t := s[1..];
      AltMatches(One(SIMPLE), Cat(One(LETTER_U), unit), t);
      OneMatches(SIMPLE, t);
      CatOne(LETTER_U, unit, t);
      if t != [] {
        SimpleClass(t[0]);
        SingleClasses(t[0]);
        StrictUnit(t[1..]);
        if s[0] == '\\' && t[0] == 'u' { UnitElement(s); }
      }
    }
  }

  /** What may follow `\\u` under the strict rules. */
  lemma StrictUnit(v: string)
    ensures Matches(Alt(NOT_D_UNIT, Alt(BELOW_SURROGATES, SURROGATE_PAIR)), v) <==>
      (|v| == 4 && HexAt(v, 0) && !IsHigh(UnitAt(v, 0)) && !IsLow(UnitAt(v, 0))) || PairText(v)
  {
    hide Matches, Chain, UnitAt;
    AltMatches(NOT_D_UNIT, Alt(BELOW_SURROGATES, SURROGATE_PAIR), v);
    AltMatches(BELOW_SURROGATES, SURROGATE_PAIR, v);
    NotDUnit(v);
    BelowSurrogates(v);
    SurrogatePair(v);
    if HexAt(v, 0) { UnitRanges(v, 0); }
  }

  lemma UnitElement(s: string)
    requires |s| >= 2 && s[0] == '\\' && s[1] == 'u'
    ensures var v := s[1..][1..];
      StrictHead(s) == Some(|s|) <==>
        (|v| == 4 && HexAt(v, 0) && !IsHigh(UnitAt(v, 0)) && !IsLow(UnitAt(v, 0))) || PairText(v)
  {
    var v := s[1..][1..];
    assert v == s[2..];
    assert HexAt(s, 2) <==> HexAt(v, 0);
    if |s| == 12 {
      assert s[6..][0] == v[4] && s[6..][1] == v[5];
      assert HexAt(s[6..], 2) <==> HexAt(v, 6);
    }
  }

  // ---- bodies -----------------------------------------------------------------------

  /** A head read off a prefix is the head of the whole. */
  lemma HeadLocal(b: string, k: nat)
    requires k <= |b| && HeadOf(b[..k]).Some? && HeadOf(b[..k]).value.length == k
    ensures HeadOf(b) == HeadOf(b[..k])
  {
    var p := b[..k];
    assert forall i :: 0 <= i < k ==> p[i] == b[i];
    assert HexAt(p, 2) ==> HexAt(b, 2) && UnitAt(p, 2) == UnitAt(b, 2);
  }

  lemma StrictHeadLocal(b: string, k: nat)
    requires k <= |b| && StrictHead(b[..k]) == Some(k)
    ensures StrictHead(b) == Some(k)
  {
    var p := b[..k];
    var h := HeadOf(p).value;
    assert forall i :: 0 <= i < k ==> p[i] == b[i];
    if k == 12 {
      assert HexAt(p, 2) && UnitAt(p, 2) == UnitAt(b, 2);
      assert p[6..] == b[6..][..6];
      HeadLocal(b[6..], 6);
    } else {
      HeadLocal(b, k);
    }
  }

  /** The loose body is what decodes. */
  lemma {:induction false} LooseBody(b: string)
    ensures Matches(Star(LOOSE_ELEMENT), b) <==> Decode(b).Some?
    decreases |b|
  {
    hide HeadOf;
    if b != [] {
      if Matches(Star(LOOSE_ELEMENT), b) {
        var k := StarHead(LOOSE_ELEMENT, b);
        LooseElement(b[..k]);
        HeadLocal(b, k);
        LooseBody(b[k..]);
      }
      if Decode(b).Some? {
        var k := HeadOf(b).value.length;
        HeadPrefix(b);
        LooseElement(b[..k]);
        LooseBody(b[k..]);
        StarCons(LOOSE_ELEMENT, b[..k], b[k..]);
        assert b[..k] + b[k..] == b;
      }
    }
  }

  lemma HeadPrefix(b: string)
    requires HeadOf(b).Some?
    ensures var k := HeadOf(b).value.length; HeadOf(b[..k]) == HeadOf(b)
  {
    var k := HeadOf(b).value.length;
    assert forall i :: 0 <= i < k ==> b[..k][i] == b[i];
    assert k == 6 ==> UnitAt(b[..k], 2) == UnitAt(b, 2);
  }

  lemma StrictHeadPrefix(b: string)
    requires StrictHead(b).Some?
    ensures var k := StrictHead(b).value; StrictHead(b[..k]) == Some(k)
  {
    var k := StrictHead(b).value;
    HeadPrefix(b);
    if k == 12 {
      HeadPrefix(b[6..]);
      assert b[..12][..6] == b[..6] && b[..12][6..] == b[6..][..6];
      HeadLocal(b[..12], 6);
    }
  }

  /** A strict body, read element by element. */
  predicate StrictOk(b: string)
    decreases |b|
  {
    b == [] || (StrictHead(b).Some? && StrictOk(b[StrictHead(b).value..]))
  }

  lemma {:induction false} StrictBody(b: string)
    ensures Matches(Star(ELEMENT), b) <==> StrictOk(b)
    decreases |b|
  {
    hide StrictHead;
    if b != [] {
      if Matches(Star(ELEMENT), b) {
        var k := StarHead(ELEMENT, b);
        StrictElement(b[..k]);
        StrictHeadLocal(b, k);
        StrictBody(b[k..]);
      }
      if StrictOk(b) {
        var k := StrictHead(b).value;
        StrictHeadPrefix(b);
        StrictElement(b[..k]);
        StrictBody(b[k..]);
        StarCons(ELEMENT, b[..k], b[k..]);
        assert b[..k] + b[k..] == b;
      }
    }
  }

  // ---- decoding and well-formedness -------------------------------------------------

  /** The units of a head: one ordinary unit, a whole pair, or, from `\\u` alone, a lone half. */
  lemma HeadUnits(b: string)
    requires HeadOf(b).Some?
    ensures var h := HeadOf(b).value;
      && h.units != [] && !(IsLow(h.units[0]) && h.length != 6)
      && (h.length == 6 ==> |h.units| == 1)
      && (h.length != 6 && IsHigh(h.units[0]) ==> |h.units| == 2 && IsLow(h.units[1]))
      && (h.length != 6 && !IsHigh(h.units[0]) ==> |h.units| == 1)
  {
    if IsBare(b[0]) { BareUnitsRange(b[0]); }
  }

  lemma BareUnitsRange(c: char)
    ensures var u := BareUnits(c);
      (|u| == 1 && !IsHigh(u[0]) && !IsLow(u[0])) || (|u| == 2 && IsHigh(u[0]) && IsLow(u[1]))
  {
  }

  /** The strict rules accept a body exactly when its decoded units pair up. */
  lemma {:induction false} StrictIsWellFormed(b: string)
    ensures StrictOk(b) <==> Decode(b).Some? && WellFormed(Decode(b).value)
    decreases |b|
  {
    hide HeadOf;
    if b != [] && HeadOf(b).Some? {
      var h := HeadOf(b).value;
      HeadUnits(b);
      var rest := b[h.length..];
      StrictIsWellFormed(rest);
      if h.length != 6 || !IsHigh(h.units[0]) {
        if Decode(rest).Some? { UnitsThenRest(h.units, Decode(rest).value); }
      } else if rest != [] && HeadOf(rest).Some? {
        var l := HeadOf(rest).value;
        HeadUnits(rest);
        var after := rest[l.length..];
        StrictIsWellFormed(after);
        if l.length == 6 { assert after == b[12..]; }
        if Decode(after).Some? {
          assert Decode(rest) == Some(l.units + Decode(after).value);
          HighThen(h.units, l.units, Decode(after).value);
          if |l.units| == 1 { assert l.units[1..] + Decode(after).value == Decode(after).value; }
        }
      }
    }
  }

  /** A complete head in front changes nothing; a lone low half spoils everything. */
  lemma UnitsThenRest(u: seq<nat>, rest: seq<nat>)
    requires (|u| == 1 && !IsHigh(u[0])) || (|u| == 2 && IsHigh(u[0]) && IsLow(u[1]))
    ensures WellFormed(u + rest) <==> !IsLow(u[0]) && WellFormed(rest)
  {
    assert (u + rest)[|u|..] == rest;
  }

  /** A lone high half needs a lone low half right after it. */
  lemma HighThen(h: seq<nat>, l: seq<nat>, rest: seq<nat>)
    requires |h| == 1 && IsHigh(h[0]) && l != []
    ensures WellFormed(h + (l + rest)) <==> IsLow(l[0]) && WellFormed(l[1..] + rest)
  {
    assert (h + (l + rest))[2..] == l[1..] + rest;
  }

  // ---- whole tokens -----------------------------------------------------------------

  /** The text between the quotes of a string token. */
  function Body(s: string): string
    requires |s| >= 2
  {
    s[1..|s| - 1]
  }

  predicate Enclosed(s: string) {
    |s| >= 2 && s[0] == '"' && s[|s| - 1] == '"'
  }

  lemma InQuotes(body: Re, s: string)
    ensures Matches(Cat(One(QUOTE), Cat(body, One(QUOTE))), s) <==> Enclosed(s) && Matches(body, Body(s))
  {
    hide Matches;
    Delimited(QUOTE, body, QUOTE, s);
    if |s| >= 2 {
      SingleClasses(s[0]);
      SingleClasses(s[|s| - 1]);
    }
  }

  lemma {:induction false} BareBody(b: string)
    ensures Matches(Star(One(BARE)), b) <==> forall i :: 0 <= i < |b| ==> IsBare(b[i])
    decreases |b|
  {
    if b != [] {
      if Matches(Star(One(BARE)), b) {
        var k := StarHead(One(BARE), b);
        BareClass(b[0]);
        BareBody(b[1..]);
        forall i | 0 <= i < |b| ensures IsBare(b[i]) {
          if i > 0 { assert b[1..][i - 1] == b[i]; }
        }
      }
      if forall i :: 0 <= i < |b| ==> IsBare(b[i]) {
        BareClass(b[0]);
        BareBody(b[1..]);
        StarCons(One(BARE), b[..1], b[1..]);
        assert b[..1] + b[1..] == b;
      }
    }
  }

  /** A body of bare characters is a strict body. */
  lemma {:induction false} BareIsStrict(b: string)
    requires forall i :: 0 <= i < |b| ==> IsBare(b[i])
    ensures StrictOk(b)
    decreases |b|
  {
    if b != [] { BareIsStrict(b[1..]); }
  }

  const ESCAPED_BODY := Cat(Star(One(BARE)), Cat(ESCAPE, Star(ELEMENT)))

  /** `char* esc (char|esc)*` is a strict body with a backslash in it. */
  lemma {:induction false} EscapedBody(b: string)
    ensures Matches(ESCAPED_BODY, b) <==> StrictOk(b) && '\\' in b
    decreases |b|
  {
    if Matches(ESCAPED_BODY, b) {
      var k :| 0 <= k <= |b| && Matches(Star(One(BARE)), b[..k]) && Matches(Cat(ESCAPE, Star(ELEMENT)), b[k..]);
      EscapeTail(b[k..]);
      BareBody(b[..k]);
      forall i | 0 <= i < k ensures IsBare(b[i]) { assert IsBare(b[..k][i]); }
      BareThenStrict(b, k);
      assert b[k..][0] in b;
    }
    if StrictOk(b) && '\\' in b {
      if IsBare(b[0]) {
        assert b == [b[0]] + b[1..];
        EscapedBody(b[1..]);
        PrependBare(b);
      } else {
        EscapeTail(b);
        BareBody(b[..0]);
        assert b[0..] == b;
      }
    }
  }

  /** An escape and what may follow it: a strict body that starts with a backslash. */
  lemma EscapeTail(b: string)
    ensures Matches(Cat(ESCAPE, Star(ELEMENT)), b) <==> StrictOk(b) && b != [] && b[0] == '\\'
  {
    hide StrictHead;
    if Matches(Cat(ESCAPE, Star(ELEMENT)), b) {
      var k :| 0 <= k <= |b| && Matches(ESCAPE, b[..k]) && Matches(Star(ELEMENT), b[k..]);
      EscapeStarts(b[..k]);
      StrictElement(b[..k]);
      StrictHeadLocal(b, k);
      StrictBody(b[k..]);
    }
    if StrictOk(b) && b != [] && b[0] == '\\' {
      var k := StrictHead(b).value;
      StrictHeadPrefix(b);
      StrictElement(b[..k]);
      EscapeStarts(b[..k]);
      StrictBody(b[k..]);
    }
  }

  lemma EscapeStarts(s: string)
    ensures Matches(ESCAPE, s) ==> s != [] && s[0] == '\\' && Matches(ELEMENT, s)
    ensures s != [] && s[0] == '\\' && Matches(ELEMENT, s) ==> Matches(ESCAPE, s)
  {
    CatOne(BACKSLASH, ESCAPE.second, s);
    AltMatches(One(BARE), ESCAPE, s);
    OneMatches(BARE, s);
    if s != [] {
      SingleClasses(s[0]);
      BareClass(s[0]);
    }
  }

  lemma {:induction false} BareThenStrict(b: string, k: nat)
    requires k <= |b| && StrictOk(b[k..]) && forall i :: 0 <= i < k ==> IsBare(b[i])
    ensures StrictOk(b)
    decreases k
  {
    if k == 0 {
      assert b[0..] == b;
    } else {
      hide HeadOf, StrictHead, IsBare;
      var t := b[1..];
      assert t[k - 1..] == b[k..];
      assert forall i :: 0 <= i < |t| ==> t[i] == b[i + 1];
      BareThenStrict(t, k - 1);
      BareHead(b);
    }
  }

  lemma BareHead(b: string)
    requires b != [] && IsBare(b[0])
    ensures StrictHead(b) == Some(1)
  {
  }

  lemma PrependBare(b: string)
    requires b != [] && IsBare(b[0]) && Matches(ESCAPED_BODY, b[1..])
    ensures Matches(ESCAPED_BODY, b)
  {
    hide Matches, Class.Has;
    var t := b[1..];
    var k := CatParts(Star(One(BARE)), Cat(ESCAPE, Star(ELEMENT)), t);
    assert b[..k + 1] == [b[0]] + t[..k] && b[k + 1..] == t[k..];
    OneMatches(BARE, [b[0]]);
    BareClass(b[0]);
    StarCons(One(BARE), [b[0]], t[..k]);
    CatSplit(Star(One(BARE)), Cat(ESCAPE, Star(ELEMENT)), b, k + 1);
  }

  lemma CatParts(first: Re, second: Re, s: string) returns (k: nat)
    requires Matches(Cat(first, second), s)
    ensures k <= |s| && Matches(first, s[..k]) && Matches(second, s[k..])
  {
    k :| 0 <= k <= |s| && Matches(first, s[..k]) && Matches(second, s[k..]);
  }

  lemma CatSplit(first: Re, second: Re, s: string, k: nat)
    requires k <= |s| && Matches(first, s[..k]) && Matches(second, s[k..])
    ensures Matches(Cat(first, second), s)
  {
  }

  /** A string token with no escape in it needs no unescaping; one of the other kind does. */
  lemma KindsByBackslash(s: string)
    ensures Matches(STRING, s) <==> Enclosed(s) && forall i :: 0 <= i < |Body(s)| ==> IsBare(Body(s)[i])
    ensures Matches(ESCAPED_STRING, s) <==> Enclosed(s) && StrictOk(Body(s)) && '\\' in Body(s)
  {
    hide Matches;
    InQuotes(Star(One(BARE)), s);
    InQuotes(ESCAPED_BODY, s);
    if Enclosed(s) {
      BareBody(Body(s));
      EscapedBody(Body(s));
    }
  }

  /** The two rules never compete for a token. */
  lemma KindsDisjoint(s: string)
    ensures !(Matches(STRING, s) && Matches(ESCAPED_STRING, s))
  {
    hide Matches;
    KindsByBackslash(s);
  }

  lemma LooseTokens(s: string)
    ensures Matches(LOOSE_STRING, s) <==> Enclosed(s) && Decode(Body(s)).Some?
  {
    hide Matches;
    InQuotes(Star(LOOSE_ELEMENT), s);
    if Enclosed(s) { LooseBody(Body(s)); }
  }

  lemma {:induction false} StrictWithoutBackslash(b: string)
    requires StrictOk(b) && '\\' !in b
    ensures forall i :: 0 <= i < |b| ==> IsBare(b[i])
    decreases |b|
  {
    if b != [] {
      assert b[0] in b;
      assert '\\' !in b[1..];
      StrictWithoutBackslash(b[1..]);
      forall i | 0 <= i < |b| ensures IsBare(b[i]) {
        if i > 0 { assert b[1..][i - 1] == b[i]; }
      }
    }
  }

  /** A quoted text that decodes to well-formed UTF-16. */
  ghost predicate DecodesWellFormed(s: string) {
    Enclosed(s) && Decode(Body(s)).Some? && WellFormed(Decode(Body(s)).value)
  }

  /** Together the two rules take exactly the loose strings whose decoded code units are
      well-formed UTF-16. */
  lemma StrictIsLooseAndWellFormed(s: string)
    ensures Matches(STRING, s) || Matches(ESCAPED_STRING, s) <==>
      Matches(LOOSE_STRING, s) && DecodesWellFormed(s)
  {
    hide Matches, StrictOk, Decode;
    KindsByBackslash(s);
    LooseTokens(s);
    if Enclosed(s) {
      var b := Body(s);
      StrictIsWellFormed(b);
      if forall i :: 0 <= i < |b| ==> IsBare(b[i]) { BareIsStrict(b); }
      if StrictOk(b) && '\\' !in b { StrictWithoutBackslash(b); }
    }
  }

  /** The twin is strictly looser: a lone high half between quotes is one of its tokens only. */
  lemma LoneHalfIsLooseOnly()
    ensures var s := "\"\\uD800\"";
      Matches(LOOSE_STRING, s) && !Matches(STRING, s) && !Matches(ESCAPED_STRING, s)
  {
    var s := "\"\\uD800\"";
    hide Matches;
    LooseTokens(s);
    StrictIsLooseAndWellFormed(s);
    assert Body(s) == "\\uD800";
    LoneHalfDecodes(Body(s));
  }

  lemma LoneHalfDecodes(b: string)
    requires b == "\\uD800"
    ensures Decode(b) == Some([0xD800]) && !WellFormed([0xD800])
  {
    assert b[0] == '\\' && b[1] == 'u' && b[2] == 'D' && b[3] == '8' && b[4] == '0' && b[5] == '0';
    assert HeadOf(b) == Some(Head(6, [0xD800]));
    assert b[6..] == [];
    assert [0xD800] + [] == [0xD800];
  }
}
