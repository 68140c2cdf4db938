/** Where the spans of the source lexer end, by what is spelled there, and the cut of a text into them. */
module CfgSpans {
  import opened Sequences
  import opened CfgLexer

  // ---- block comments ---------------------------------------------------------------

  /** What stands in a block comment: a character, or a comment with what stands in it. */
  datatype Bit = Other(c: char) | Inner(bits: seq<Bit>)

  function SpelledBits(bits: seq<Bit>): string {
    if bits == [] then [] else SpelledBit(bits[0]) + SpelledBits(bits[1..])
  }

  function SpelledBit(bit: Bit): string {
    match bit
    case Other(c) => [c]
    case Inner(bits) => ['/', '*'] + (SpelledBits(bits) + ['*', '/'])
  }

  /** No character makes a comment mark with the one that is spelled after it. */
  predicate Clean(bits: seq<Bit>, after: string) {
    bits != [] ==>
      && Clean(bits[1..], after)
      && match bits[0]
         case Other(c) => !Marks(c, SpelledBits(bits[1..]) + after)
         case Inner(inner) => Clean(inner, ['*', '/'])
  }

  predicate Marks(c: char, after: string) {
    after != [] && ((c == '/' && after[0] == '*') || (c == '*' && after[0] == '/'))
  }

  /** From `i` to `r` one whole comment is spelled, the comments in it closed. */
  ghost predicate CommentSpelled(text: string, i: nat, r: nat) {
    exists bits :: SpelledHere(text, i, r, bits)
  }

  ghost predicate SpelledHere(text: string, i: nat, r: nat, bits: seq<Bit>) {
    Clean(bits, ['*', '/']) && At(text, i, SpelledBit(Inner(bits))) && r == i + |SpelledBit(Inner(bits))|
  }

  /** A comment opened at `i` runs to `r`: it is spelled there, or nowhere and runs to the end. */
  ghost predicate CommentTo(text: string, i: nat, r: nat) {
    CommentSpelled(text, i, r) || (r == |text| && forall e :: !CommentSpelled(text, i, e))
  }

  lemma AtTwo(text: string, j: nat, a: char, b: char)
    ensures Two(text, j, a, b) <==> At(text, j, [a, b])
  {
    if At(text, j, [a, b]) {
      assert [a, b][0] == a && [a, b][1] == b;
    }
  }

  /** The scan passes the bits of a comment, and then its closing mark. */
  lemma {:induction false} BitsArePassed(text: string, j: nat, depth: nat, bits: seq<Bit>)
    requires depth >= 1 && Clean(bits, ['*', '/']) && At(text, j, SpelledBits(bits) + ['*', '/'])
    ensures var e := j + |SpelledBits(bits)| + 2;
      e <= |text| && BlockEnd(text, j, depth) == if depth == 1 then e else BlockEnd(text, e, depth - 1)
    decreases bits
  {
    hide BlockEnd, At, Two;
    var mark := ['*', '/'];
    if bits == [] {
      assert [] + mark == mark;
      ClosesHere(text, j, depth);
    } else {
      var first, rest := SpelledBit(bits[0]), SpelledBits(bits[1..]);
      ConcatThree(first, rest, mark);
      AtParts(text, j, first, rest + mark);
      if bits[0].Other? {
        OtherHere(text, j, depth, bits[0].c, rest + mark);
        BitsArePassed(text, j + 1, depth, bits[1..]);
      } else {
        InnerIsPassed(text, j, depth, bits[0]);
        BitsArePassed(text, j + |first|, depth, bits[1..]);
      }
    }
  }

  lemma {:induction false} InnerIsPassed(text: string, j: nat, depth: nat, bit: Bit)
    requires depth >= 1 && bit.Inner? && Clean(bit.bits, ['*', '/']) && At(text, j, SpelledBit(bit))
    ensures var e := j + |SpelledBit(bit)|; e <= |text| && BlockEnd(text, j, depth) == BlockEnd(text, e, depth)
    decreases bit
  {
    hide BlockEnd, At, Two;
    AtParts(text, j, ['/', '*'], SpelledBits(bit.bits) + ['*', '/']);
    OpensHere(text, j, depth);
    BitsArePassed(text, j + 2, depth + 1, bit.bits);
  }

  lemma ClosesHere(text: string, j: nat, depth: nat)
    requires depth >= 1 && At(text, j, ['*', '/'])
    ensures j + 2 <= |text| && BlockEnd(text, j, depth) == if depth == 1 then j + 2 else BlockEnd(text, j + 2, depth - 1)
  {
    AtTwo(text, j, '*', '/');
  }

  lemma OpensHere(text: string, j: nat, depth: nat)
    requires At(text, j, ['/', '*'])
    ensures j + 2 <= |text| && BlockEnd(text, j, depth) == BlockEnd(text, j + 2, depth + 1)
  {
    AtTwo(text, j, '/', '*');
  }

  lemma OtherHere(text: string, j: nat, depth: nat, c: char, after: string)
    requires depth >= 1 && At(text, j, [c]) && At(text, j + 1, after) && after != [] && !Marks(c, after)
    ensures j + 1 <= |text| && BlockEnd(text, j, depth) == BlockEnd(text, j + 1, depth)
  {
    AtOne(text, j, c);
    AtHead(text, j + 1, after);
  }

  /** From inside a comment: the bits up to its closing mark, or there is none. */
  lemma {:induction false} BitsAreFound(text: string, j: nat) returns (closed: bool, bits: seq<Bit>)
    requires j <= |text|
    ensures if closed then Clean(bits, ['*', '/']) && At(text, j, SpelledBits(bits) + ['*', '/'])
            else forall depth: nat :: depth >= 1 ==> BlockEnd(text, j, depth) == |text|
    decreases |text| - j
  {
    hide At;
    var mark := ['*', '/'];
    closed, bits := false, [];
    if j < |text| {
      AtTwo(text, j, '/', '*');
      AtTwo(text, j, '*', '/');
      if Two(text, j, '/', '*') {
        var shut, inner := BitsAreFound(text, j + 2);
        if shut {
          AtLength(text, j + 2, SpelledBits(inner) + mark);
          var e := j + 2 + |SpelledBits(inner)| + 2;
          AtParts(text, j, ['/', '*'], SpelledBits(inner) + mark);
          closed, bits := BitsAreFound(text, e);
          if closed {
            bits := OneBitMore(text, j, Inner(inner), bits);
          } else {
            forall depth: nat | depth >= 1 ensures BlockEnd(text, j, depth) == |text| {
              BitsArePassed(text, j + 2, depth + 1, inner);
            }
          }
        }
      } else if Two(text, j, '*', '/') {
        closed := true;
        assert [] + mark == mark;
      } else {
        AtOne(text, j, text[j]);
        closed, bits := BitsAreFound(text, j + 1);
        if closed {
          NoMark(text, j, SpelledBits(bits) + mark);
          bits := OneBitMore(text, j, Other(text[j]), bits);
        }
      }
    }
  }

  lemma AtLength(text: string, j: nat, piece: string)
    requires At(text, j, piece)
    ensures j + |piece| <= |text|
  {
  }

  lemma NoMark(text: string, j: nat, after: string)
    requires j < |text| && At(text, j + 1, after) && !Two(text, j, '/', '*') && !Two(text, j, '*', '/')
    ensures !Marks(text[j], after)
  {
    if after != [] { AtHead(text, j + 1, after); }
  }

  lemma OneBitMore(text: string, j: nat, bit: Bit, bits: seq<Bit>) returns (more: seq<Bit>)
    requires Clean(bits, ['*', '/']) && At(text, j, SpelledBit(bit))
    requires At(text, j + |SpelledBit(bit)|, SpelledBits(bits) + ['*', '/'])
    requires if bit.Other? then !Marks(bit.c, SpelledBits(bits) + ['*', '/']) else Clean(bit.bits, ['*', '/'])
    ensures Clean(more, ['*', '/']) && At(text, j, SpelledBits(more) + ['*', '/'])
  {
    hide At;
    more := [bit] + bits;
    assert more[0] == bit && more[1..] == bits;
    AtParts(text, j, SpelledBit(bit), SpelledBits(bits) + ['*', '/']);
    ConcatThree(SpelledBit(bit), SpelledBits(bits), ['*', '/']);
  }

  /** A comment ends where its spelling does, the comments in it closed; one that is spelled
      nowhere runs to the end. */
  lemma CommentEndsIff(text: string, i: nat, r: nat)
    requires Two(text, i, '/', '*')
    ensures BlockEnd(text, i, 0) == r <==> CommentTo(text, i, r)
  {
    hide At, SpelledBits, Clean;
    AtTwo(text, i, '/', '*');
    forall bits, e | SpelledHere(text, i, e, bits) ensures BlockEnd(text, i, 0) == e {
      AtParts(text, i, ['/', '*'], SpelledBits(bits) + ['*', '/']);
      BitsArePassed(text, i + 2, 1, bits);
    }
    var closed, bits := BitsAreFound(text, i + 2);
    if closed {
      AtParts(text, i, ['/', '*'], SpelledBits(bits) + ['*', '/']);
      assert SpelledHere(text, i, i + |SpelledBit(Inner(bits))|, bits);
      assert CommentSpelled(text, i, i + |SpelledBit(Inner(bits))|);
    } else {
      assert BlockEnd(text, i, 0) == |text|;
    }
  }

  // ---- strings ----------------------------------------------------------------------

  /** What stands in a quoted body: a backslash with the character it takes, or one that is
      neither a backslash nor a quote. */
  datatype Unit = Pair(c: char) | Single(c: char)

  function SpelledUnits(units: seq<Unit>): string {
    if units == [] then []
    else (match units[0] case Pair(c) => ['\\', c] case Single(c) => [c]) + SpelledUnits(units[1..])
  }

  predicate Proper(units: seq<Unit>) {
    forall u <- units :: u.Single? ==> u.c != '\\' && u.c != '"'
  }

  ghost predicate BodySpelled(text: string, i: nat, j: nat, units: seq<Unit>) {
    Proper(units) && At(text, i, SpelledUnits(units) + ['"']) && j == i + |SpelledUnits(units)| + 1
  }

  /** A quoted body from `i` runs to `j`: behind its closing quote, or to the end if it has none. */
  ghost predicate QuotedTo(text: string, i: nat, j: nat) {
    (exists units :: BodySpelled(text, i, j, units)) || (j == |text| && forall e, units :: !BodySpelled(text, i, e, units))
  }

  lemma {:induction false} UnitsArePassed(text: string, i: nat, units: seq<Unit>)
    requires Proper(units) && At(text, i, SpelledUnits(units) + ['"'])
    ensures EndOfQuoted(text, i) == i + |SpelledUnits(units)| + 1
    decreases |units|
  {
    hide At;
    if units == [] {
      assert [] + ['"'] == ['"'];
      AtOne(text, i, '"');
    } else {
      var rest := SpelledUnits(units[1..]) + ['"'];
      assert units[0] in units && forall u <- units[1..] :: u in units;
      if units[0].Pair? {
        ConcatThree(['\\', units[0].c], SpelledUnits(units[1..]), ['"']);
        AtParts(text, i, ['\\', units[0].c], rest);
        AtHead(text, i, ['\\', units[0].c]);
      } else {
        ConcatThree([units[0].c], SpelledUnits(units[1..]), ['"']);
        AtParts(text, i, [units[0].c], rest);
        AtOne(text, i, units[0].c);
      }
      UnitsArePassed(text, i + (if units[0].Pair? then 2 else 1), units[1..]);
    }
  }

  lemma {:induction false} UnitsAreFound(text: string, i: nat) returns (closed: bool, units: seq<Unit>)
    requires i <= |text|
    ensures if closed then BodySpelled(text, i, i + |SpelledUnits(units)| + 1, units) else EndOfQuoted(text, i) == |text|
    decreases |text| - i
  {
    hide At;
    closed, units := false, [];
    if i < |text| {
      AtOne(text, i, text[i]);
      if text[i] == '"' {
        closed := true;
        assert [] + ['"'] == ['"'];
      } else if text[i] != '\\' {
        closed, units := UnitsAreFound(text, i + 1);
        if closed { units := OneUnitMore(text, i, Single(text[i]), units); }
      } else if i + 1 < |text| {
        TwoAt(text, i);
        closed, units := UnitsAreFound(text, i + 2);
        if closed { units := OneUnitMore(text, i, Pair(text[i + 1]), units); }
      }
    }
  }

  lemma TwoAt(text: string, i: nat)
    requires i + 1 < |text|
    ensures At(text, i, [text[i], text[i + 1]])
  {
  }

  lemma OneUnitMore(text: string, i: nat, unit: Unit, units: seq<Unit>) returns (more: seq<Unit>)
    requires unit.Single? ==> unit.c != '\\' && unit.c != '"'
    requires At(text, i, if unit.Pair? then ['\\', unit.c] else [unit.c])
    requires var e := i + (if unit.Pair? then 2 else 1);
      BodySpelled(text, e, e + |SpelledUnits(units)| + 1, units)
    ensures BodySpelled(text, i, i + |SpelledUnits(more)| + 1, more)
  {
    hide At;
    more := [unit] + units;
    var first := if unit.Pair? then ['\\', unit.c] else [unit.c];
    assert more[0] == unit && more[1..] == units;
    AtParts(text, i, first, SpelledUnits(units) + ['"']);
    ConcatThree(first, SpelledUnits(units), ['"']);
  }

  lemma QuotedEndsIff(text: string, i: nat, j: nat)
    requires i <= |text|
    ensures EndOfQuoted(text, i) == j <==> QuotedTo(text, i, j)
  {
    hide At, SpelledUnits, EndOfQuoted;
    forall e, units | BodySpelled(text, i, e, units) ensures EndOfQuoted(text, i) == e { UnitsArePassed(text, i, units); }
    var closed, units := UnitsAreFound(text, i);
    if closed { assert BodySpelled(text, i, i + |SpelledUnits(units)| + 1, units); }
  }

  function HashRun(h: nat): string {
    seq(h, _ => '#')
  }

  /** A raw string with `h` hashes closes at `q`. */
  ghost predicate RawCloses(text: string, q: nat, h: nat) {
    At(text, q, ['"'] + HashRun(h))
  }

  /** A raw body from `p` runs to `j`: behind the first quote with as many hashes, or to the end. */
  ghost predicate RawTo(text: string, p: nat, h: nat, j: nat) {
    || (exists q: nat :: p <= q && RawCloses(text, q, h) && j == q + 1 + h && forall k: nat :: p <= k < q ==> !RawCloses(text, k, h))
    || (j == |text| && forall k: nat :: p <= k ==> !RawCloses(text, k, h))
  }

  lemma CloseAtIff(text: string, q: nat, h: nat)
    ensures CloseAt(text, q, h) <==> RawCloses(text, q, h)
  {
    AtParts(text, q, ['"'], HashRun(h));
    if RawCloses(text, q, h) {
      AtOne(text, q, '"');
      forall k | q < k <= q + h ensures text[k] == '#' { assert text[q + 1 + (k - q - 1)] == HashRun(h)[k - q - 1]; }
    }
    if CloseAt(text, q, h) {
      AtOne(text, q, '"');
      assert At(text, q + 1, HashRun(h));
    }
  }

  lemma {:induction false} RawEndsIff(text: string, p: nat, h: nat, j: nat)
    requires p <= |text|
    ensures RawEnd(text, p, h) == j <==> RawTo(text, p, h, j)
    decreases |text| - p
  {
    hide RawCloses, CloseAt;
    CloseAtIff(text, p, h);
    if p == |text| {
      forall k: nat | p <= k ensures !RawCloses(text, k, h) { NoCloseBehind(text, k, h); }
    } else if !CloseAt(text, p, h) {
      RawEndsIff(text, p + 1, h, j);
      RawOneOn(text, p, h, j);
    }
  }

  lemma RawOneOn(text: string, p: nat, h: nat, j: nat)
    requires !RawCloses(text, p, h)
    ensures RawTo(text, p, h, j) <==> RawTo(text, p + 1, h, j)
  {
    hide RawCloses;
  }

  lemma NoCloseBehind(text: string, k: nat, h: nat)
    requires k >= |text|
    ensures !RawCloses(text, k, h)
  {
    if RawCloses(text, k, h) { AtHead(text, k, ['"'] + HashRun(h)); }
  }

  /** A prefixed string opens at `i`: `r`, `b`, `br` or `rb`, `h` hashes and a quote. */
  ghost predicate StringOpens(text: string, i: nat, prefix: string, h: nat) {
    && (prefix == ['r'] || prefix == ['b'] || prefix == ['b', 'r'] || prefix == ['r', 'b'])
    && At(text, i, prefix + (HashRun(h) + ['"']))
  }

  ghost predicate StringTo(text: string, i: nat, prefix: string, h: nat, j: nat) {
    if h > 0 then RawTo(text, i + |prefix| + h + 1, h, j) else QuotedTo(text, i + |prefix| + 1, j)
  }

  lemma HashesAt(text: string, p: nat, h: nat)
    requires p <= |text|
    ensures At(text, p, HashRun(h) + ['"']) <==> Hashes(text, p) == h && p + h < |text| && text[p + h] == '"'
  {
    AtParts(text, p, HashRun(h), ['"']);
    AtOne(text, p + h, '"');
    if At(text, p, HashRun(h) + ['"']) {
      forall k | p <= k < p + h ensures text[k] == '#' { assert text[p + (k - p)] == HashRun(h)[k - p]; }
    }
  }

  lemma PrefixAt(text: string, i: nat, prefix: string)
    requires prefix == ['r'] || prefix == ['b'] || prefix == ['b', 'r'] || prefix == ['r', 'b']
    ensures At(text, i, prefix) <==>
      if |prefix| == 1 then i < |text| && text[i] == prefix[0] else Two(text, i, prefix[0], prefix[1])
  {
    if |prefix| == 1 { AtOne(text, i, prefix[0]); } else { AtTwo(text, i, prefix[0], prefix[1]); }
  }

  lemma StringOpensIff(text: string, i: nat, prefix: string, h: nat)
    ensures StringOpens(text, i, prefix, h) <==>
      && PrefixedString(text, i) && |prefix| == PrefixLen(text, i) && prefix == text[i..i + |prefix|]
      && h == Hashes(text, i + |prefix|)
  {
    hide Hashes;
    if StringOpens(text, i, prefix, h) {
      AtParts(text, i, prefix, HashRun(h) + ['"']);
      PrefixAt(text, i, prefix);
      AtLength(text, i, prefix);
      HashesAt(text, i + |prefix|, h);
      AtHead(text, i + |prefix|, HashRun(h) + ['"']);
      assert text[i + |prefix|] == '#' || text[i + |prefix|] == '"';
      assert text[i..i + |prefix|] == prefix;
    } else if PrefixedString(text, i) && |prefix| == PrefixLen(text, i) && prefix == text[i..i + |prefix|] && h == Hashes(text, i + |prefix|) {
      PrefixAt(text, i, prefix);
      HashesAt(text, i + |prefix|, h);
      AtParts(text, i, prefix, HashRun(h) + ['"']);
    }
  }

  // ---- char literals and line comments ----------------------------------------------

  ghost predicate CharTo(text: string, i: nat, j: nat) {
    exists c: char :: CharSpelled(text, i, j, c)
  }

  ghost predicate CharSpelled(text: string, i: nat, j: nat, c: char) {
    || (c != '\n' && At(text, i, ['\'', '\\', c, '\'']) && j == i + 4)
    || (c != '\\' && c != '\'' && At(text, i, ['\'', c, '\'']) && j == i + 3)
  }

  lemma CharLiteralIff(text: string, i: nat, j: nat)
    requires i < |text|
    ensures CharTo(text, i, j) <==> CharLiteral(text, i) > 0 && j == i + CharLiteral(text, i)
  {
    if c: char :| CharSpelled(text, i, j, c) {
      FourAt(text, i, ['\'', '\\', c, '\'']);
      ThreeAt(text, i, ['\'', c, '\'']);
    }
    if CharLiteral(text, i) > 0 && j == i + CharLiteral(text, i) {
      if CharLiteral(text, i) == 4 {
        FourAt(text, i, ['\'', '\\', text[i + 2], '\'']);
        assert CharSpelled(text, i, j, text[i + 2]);
      } else {
        ThreeAt(text, i, ['\'', text[i + 1], '\'']);
        assert CharSpelled(text, i, j, text[i + 1]);
      }
    }
  }

  lemma FourAt(text: string, i: nat, p: string)
    requires |p| == 4
    ensures At(text, i, p) <==> i + 4 <= |text| && text[i] == p[0] && text[i + 1] == p[1] && text[i + 2] == p[2] && text[i + 3] == p[3]
  {
  }

  lemma ThreeAt(text: string, i: nat, p: string)
    requires |p| == 3
    ensures At(text, i, p) <==> i + 3 <= |text| && text[i] == p[0] && text[i + 1] == p[1] && text[i + 2] == p[2]
  {
  }

  /** A line comment runs to the next newline, or to the end. */
  ghost predicate LineTo(text: string, i: nat, j: nat) {
    i <= j <= |text| && (j < |text| ==> text[j] == '\n') && forall k :: i <= k < j ==> text[k] != '\n'
  }

  // ---- the cut into spans -----------------------------------------------------------

  /** The span that begins at `i`: what it is, and where it ends. */
  ghost predicate SpanTo(text: string, i: nat, w: char -> bool, kind: Kind, j: nat)
    requires i < |text|
  {
    if At(text, i, ['/', '/']) then kind == Blanked && LineTo(text, i, j)
    else if At(text, i, ['/', '*']) then kind == Blanked && CommentTo(text, i, j)
    else if (exists prefix, h :: StringOpens(text, i, prefix, h)) && !(i > 0 && w(text[i - 1])) then
      kind == Masked && exists prefix, h :: StringOpens(text, i, prefix, h) && StringTo(text, i, prefix, h, j)
    else if text[i] == '"' then kind == Masked && QuotedTo(text, i + 1, j)
    else if exists e :: CharTo(text, i, e) then kind == Blanked && CharTo(text, i, j)
    else kind == Plain && j == i + 1
  }

  lemma LineEndsIff(text: string, i: nat, j: nat)
    requires i <= |text|
    ensures LineEnd(text, i) == j <==> LineTo(text, i, j)
  {
  }

  lemma StringEndsIff(text: string, i: nat, j: nat)
    requires PrefixedString(text, i)
    ensures StringEnd(text, i) == j <==> exists prefix, h :: StringOpens(text, i, prefix, h) && StringTo(text, i, prefix, h, j)
  {
    hide StringOpens, RawTo, QuotedTo, RawEnd, EndOfQuoted, Hashes, PrefixLen;
    var n := PrefixLen(text, i);
    var prefix, h := text[i..i + n], Hashes(text, i + n);
    forall p, k ensures StringOpens(text, i, p, k) <==> p == prefix && k == h { StringOpensIff(text, i, p, k); }
    if h > 0 { RawEndsIff(text, i + n + h + 1, h, j); } else { QuotedEndsIff(text, i + n + 1, j); }
    assert StringOpens(text, i, prefix, h);
  }

  lemma SomeStringOpens(text: string, i: nat)
    ensures PrefixedString(text, i) <==> exists prefix, h :: StringOpens(text, i, prefix, h)
  {
    hide StringOpens, Hashes;
    forall p, k ensures StringOpens(text, i, p, k) ==> PrefixedString(text, i) { StringOpensIff(text, i, p, k); }
    if PrefixedString(text, i) {
      var n := PrefixLen(text, i);
      StringOpensIff(text, i, text[i..i + n], Hashes(text, i + n));
    }
  }

  /** One step of the lexer takes exactly the span spelled there. */
  lemma StepIff(text: string, i: nat, w: char -> bool, kind: Kind, j: nat)
    requires i < |text|
    ensures Step(text, i, w) == (kind, j) <==> SpanTo(text, i, w, kind, j)
  {
    hide At, LineTo, CommentTo, StringOpens, StringTo, QuotedTo, CharTo;
    hide LineEnd, BlockEnd, PrefixedString, StringEnd, EndOfQuoted, CharLiteral, Two;
    AtTwo(text, i, '/', '/');
    AtTwo(text, i, '/', '*');
    SomeStringOpens(text, i);
    CharLiteralIff(text, i, j);
    CharLiteralIff(text, i, i + CharLiteral(text, i));
    forall e: nat ensures CharTo(text, i, e) ==> CharLiteral(text, i) > 0 { CharLiteralIff(text, i, e); }
    LineEndsIff(text, i, j);
    if Two(text, i, '/', '*') { CommentEndsIff(text, i, j); }
    if PrefixedString(text, i) { StringEndsIff(text, i, j); }
    QuotedEndsIff(text, i + 1, j);
  }

  datatype Span = Span(kind: Kind, from: nat, to: nat)

  /** From `i` on the text is cut into the spans; what is blanked becomes spaces, newlines aside,
      and what is masked is masked. */
  ghost predicate CutFrom(text: string, i: nat, w: char -> bool, spans: seq<Span>, code: string, mask: seq<bool>)
    requires i <= |text| == |code| == |mask|
    decreases |spans|
  {
    if i == |text| then spans == []
    else
      && spans != [] && spans[0].from == i < spans[0].to <= |text|
      && SpanTo(text, i, w, spans[0].kind, spans[0].to)
      && (forall k :: i <= k < spans[0].to ==>
            code[k] == (if spans[0].kind.Blanked? && text[k] != '\n' then ' ' else text[k]) && (mask[k] <==> spans[0].kind.Masked?))
      && CutFrom(text, spans[0].to, w, spans[1..], code, mask)
  }

  lemma StepSplits(text: string, i: nat, w: char -> bool, kind: Kind, j: nat, code: string, mask: seq<bool>)
    requires i < j <= |text| == |code| == |mask| && Step(text, i, w) == (kind, j)
    ensures code[i..] == Code(text, i, w) && mask[i..] == Mask(text, i, w) <==>
      && code[j..] == Code(text, j, w) && mask[j..] == Mask(text, j, w)
      && (forall k :: i <= k < j ==>
            code[k] == (if kind.Blanked? && text[k] != '\n' then ' ' else text[k]) && (mask[k] <==> kind.Masked?))
  {
    hide Step, Code, Mask, Emit, Fill;
    Unroll(text, i, w);
    var span, fill := Emit(kind, text[i..j]), Fill(kind == Masked, j - i);
    EmitIs(text, i, j, kind, code);
    FillIs(i, j, kind, mask);
    assert code[i..] == code[i..j] + code[j..] && mask[i..] == mask[i..j] + mask[j..];
    assert |fill| == j - i by { FillLength(kind == Masked, j - i); }
    ConcatSame(code[i..j], code[j..], span, Code(text, j, w));
    ConcatSame(mask[i..j], mask[j..], fill, Mask(text, j, w));
  }

  lemma FillLength(masked: bool, n: nat)
    ensures |Fill(masked, n)| == n
  {
  }

  lemma EmitIs(text: string, i: nat, j: nat, kind: Kind, code: string)
    requires i < j <= |text| == |code|
    ensures code[i..j] == Emit(kind, text[i..j]) <==>
      forall k :: i <= k < j ==> code[k] == (if kind.Blanked? && text[k] != '\n' then ' ' else text[k])
  {
    var span := Emit(kind, text[i..j]);
    assert forall k :: i <= k < j ==> span[k - i] == (if kind.Blanked? && text[k] != '\n' then ' ' else text[k]);
    assert forall k :: i <= k < j ==> code[i..j][k - i] == code[k];
  }

  lemma FillIs(i: nat, j: nat, kind: Kind, mask: seq<bool>)
    requires i < j <= |mask|
    ensures mask[i..j] == Fill(kind == Masked, j - i) <==> forall k :: i <= k < j ==> (mask[k] <==> kind.Masked?)
  {
    assert forall k :: i <= k < j ==> mask[i..j][k - i] == mask[k];
  }

  lemma ConcatSame<T>(a: seq<T>, b: seq<T>, c: seq<T>, d: seq<T>)
    requires |a| == |c|
    ensures a + b == c + d <==> a == c && b == d
  {
    if a + b == c + d {
      assert a == (a + b)[..|a|] && c == (c + d)[..|c|];
      assert b == (a + b)[|a|..] && d == (c + d)[|c|..];
    }
  }

  lemma {:induction false} CutIsLexed(text: string, i: nat, w: char -> bool, spans: seq<Span>, code: string,
      mask: seq<bool>)
    requires i <= |text| == |code| == |mask| && CutFrom(text, i, w, spans, code, mask)
    ensures code[i..] == Code(text, i, w) && mask[i..] == Mask(text, i, w)
    decreases |spans|
  {
    hide SpanTo, Step;
    if i < |text| {
      CutIsLexed(text, spans[0].to, w, spans[1..], code, mask);
      StepIff(text, i, w, spans[0].kind, spans[0].to);
      StepSplits(text, i, w, spans[0].kind, spans[0].to, code, mask);
    }
  }

  lemma {:induction false} LexedIsCut(text: string, i: nat, w: char -> bool, code: string,
      mask: seq<bool>) returns (spans: seq<Span>)
    requires i <= |text| == |code| == |mask| && code[i..] == Code(text, i, w) && mask[i..] == Mask(text, i, w)
    ensures CutFrom(text, i, w, spans, code, mask)
    decreases |text| - i
  {
    hide SpanTo, Step;
    spans := [];
    if i < |text| {
      var (kind, j) := Step(text, i, w);
      StepIff(text, i, w, kind, j);
      StepSplits(text, i, w, kind, j, code, mask);
      var rest := LexedIsCut(text, j, w, code, mask);
      spans := [Span(kind, i, j)] + rest;
      assert spans[1..] == rest;
    }
  }

  /** The lexed text and its mask are exactly those of the one cut of the text into spans. */
  lemma LexedIff(text: string, w: char -> bool, code: string, mask: seq<bool>)
    requires |code| == |mask| == |text|
    ensures code == Code(text, 0, w) && mask == Mask(text, 0, w) <==> exists spans :: CutFrom(text, 0, w, spans, code, mask)
  {
    hide CutFrom, Code, Mask;
    assert code[0..] == code && mask[0..] == mask;
    if code == Code(text, 0, w) && mask == Mask(text, 0, w) {
      var spans := LexedIsCut(text, 0, w, code, mask);
    }
    if spans :| CutFrom(text, 0, w, spans, code, mask) {
      CutIsLexed(text, 0, w, spans, code, mask);
    }
  }
}
