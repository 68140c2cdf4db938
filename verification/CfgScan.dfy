/** The two scanners of the coverage gate that read lexed text under its string mask: the
    attribute scanner and the top-level comma splitter.  Both follow the nesting of brackets outside
    strings.  The splitter cuts at the commas no parenthesis is open at, and its pieces joined again
    are the text; the attribute scanner goes from one opening to the bracket that closes it, and an
    opening that is never closed ends it. */
module CfgScan {
  import opened Sequences
  import opened CfgLexer

  type Span = (nat, nat)

  // ---- brackets under the mask ------------------------------------------------------

  /** What one unmasked character adds to the nesting of a bracket pair. */
  function Turn(c: char, masked: bool, open: char, close: char): int {
    if masked then 0 else if c == open then 1 else if c == close then -1 else 0
  }

  /** The nesting over `[a, b)`: opening brackets less closing ones, masked ones aside. */
  function Nesting(text: string, mask: seq<bool>, a: nat, b: nat, open: char, close: char): int
    requires a <= b <= |text| == |mask|
    decreases b - a
  {
    if a == b then 0
    else Nesting(text, mask, a, b - 1, open, close) + Turn(text[b - 1], mask[b - 1], open, close)
  }

  /** The unmasked places of a character in `[a, b)`. */
  ghost function PlacesOf(text: string, mask: seq<bool>, a: nat, b: nat, c: char): set<nat>
    requires a <= b <= |text| == |mask|
  {
    set i | a <= i < b && text[i] == c && !mask[i]
  }

  lemma {:induction false} NestingCounts(text: string, mask: seq<bool>, a: nat, b: nat, open: char, close: char)
    requires a <= b <= |text| == |mask| && open != close
    ensures Nesting(text, mask, a, b, open, close)
         == |PlacesOf(text, mask, a, b, open)| - |PlacesOf(text, mask, a, b, close)|
    decreases b - a
  {
    if a == b {
      assert PlacesOf(text, mask, a, b, open) == {} == PlacesOf(text, mask, a, b, close);
    } else {
      NestingCounts(text, mask, a, b - 1, open, close);
      OneMorePlace(text, mask, a, b, open);
      OneMorePlace(text, mask, a, b, close);
    }
  }

  lemma OneMorePlace(text: string, mask: seq<bool>, a: nat, b: nat, c: char)
    requires a < b <= |text| == |mask|
    ensures |PlacesOf(text, mask, a, b, c)|
         == |PlacesOf(text, mask, a, b - 1, c)| + if text[b - 1] == c && !mask[b - 1] then 1 else 0
  {
    var before, after := PlacesOf(text, mask, a, b - 1, c), PlacesOf(text, mask, a, b, c);
    assert after == if text[b - 1] == c && !mask[b - 1] then before + {b - 1} else before;
  }

  // ---- `split_top` ------------------------------------------------------------------

  /** A comma outside strings and outside every parenthesis opened since `a`. */
  ghost predicate Separates(code: string, mask: seq<bool>, a: nat, p: nat)
    requires a <= p < |code| == |mask|
  {
    code[p] == ',' && !mask[p] && Nesting(code, mask, a, p, '(', ')') == 0
  }

  /** The spans between the commas, from a piece begun at `start` and read up to `idx`. */
  function SpansFrom(code: string, mask: seq<bool>, start: nat, idx: nat, depth: int): (r: seq<Span>)
    requires start <= idx <= |code| == |mask|
    ensures r != []
    decreases |code| - idx
  {
    if idx == |code| then [(start, idx)]
    else if code[idx] == ',' && !mask[idx] && depth == 0 then [(start, idx)] + SpansFrom(code, mask, idx + 1, idx + 1, 0)
    else SpansFrom(code, mask, start, idx + 1, depth + Turn(code[idx], mask[idx], '(', ')'))
  }

  function Spans(code: string, mask: seq<bool>): seq<Span>
    requires |code| == |mask|
  {
    SpansFrom(code, mask, 0, 0, 0)
  }

  /** No separating comma in `[a, b)`. */
  ghost predicate Whole(code: string, mask: seq<bool>, a: nat, b: nat)
    requires a <= b <= |code| == |mask|
  {
    forall p :: a <= p < b ==> !Separates(code, mask, a, p)
  }

  /** The spans run from `start` to the end, each whole, one separating comma between each two. */
  ghost predicate Tiles(code: string, mask: seq<bool>, start: nat, spans: seq<Span>)
    requires start <= |code| == |mask|
    decreases |spans|
  {
    && spans != [] && spans[0].0 == start && start <= spans[0].1 <= |code|
    && Whole(code, mask, start, spans[0].1)
    && if |spans| == 1 then spans[0].1 == |code|
       else spans[0].1 < |code| && Separates(code, mask, start, spans[0].1) && Tiles(code, mask, spans[0].1 + 1, spans[1..])
  }

  lemma {:induction false} SpansTile(code: string, mask: seq<bool>, start: nat, idx: nat, depth: int)
    requires start <= idx <= |code| == |mask|
    requires depth == Nesting(code, mask, start, idx, '(', ')') && Whole(code, mask, start, idx)
    ensures Tiles(code, mask, start, SpansFrom(code, mask, start, idx, depth))
    decreases |code| - idx
  {
    if idx < |code| {
      if code[idx] == ',' && !mask[idx] && depth == 0 {
        SpansTile(code, mask, idx + 1, idx + 1, 0);
      } else {
        SpansTile(code, mask, start, idx + 1, depth + Turn(code[idx], mask[idx], '(', ')'));
      }
    }
  }

  lemma {:induction false} TilingIsUnique(code: string, mask: seq<bool>, start: nat, s: seq<Span>, t: seq<Span>)
    requires start <= |code| == |mask| && Tiles(code, mask, start, s) && Tiles(code, mask, start, t)
    ensures s == t
    decreases |s|
  {
    hide Separates;
    assert s[0].1 == t[0].1;
    if |s| > 1 { TilingIsUnique(code, mask, s[0].1 + 1, s[1..], t[1..]); }
    HeadThenRest(s);
    HeadThenRest(t);
  }

  /** The cuts are exactly at the separating commas. */
  lemma SplitsExactlyAtSeparators(code: string, mask: seq<bool>, spans: seq<Span>)
    requires |code| == |mask|
    ensures spans == Spans(code, mask) <==> Tiles(code, mask, 0, spans)
  {
    SpansTile(code, mask, 0, 0, 0);
    if Tiles(code, mask, 0, spans) { TilingIsUnique(code, mask, 0, spans, Spans(code, mask)); }
  }

  /** The spans' texts, a comma between each two. */
  function Rejoined(code: string, spans: seq<Span>): string
    requires spans != [] && forall s <- spans :: s.0 <= s.1 <= |code|
  {
    code[spans[0].0..spans[0].1] + if |spans| == 1 then [] else [','] + Rejoined(code, spans[1..])
  }

  lemma {:induction false} TilesAreSpans(code: string, mask: seq<bool>, start: nat, spans: seq<Span>)
    requires start <= |code| == |mask| && Tiles(code, mask, start, spans)
    ensures forall s <- spans :: start <= s.0 <= s.1 <= |code|
    decreases |spans|
  {
    if |spans| > 1 {
      TilesAreSpans(code, mask, spans[0].1 + 1, spans[1..]);
      HeadThenRest(spans);
    }
  }

  /** Nothing but the commas is lost: the pieces joined again are the text. */
  lemma {:induction false} PiecesRejoin(code: string, mask: seq<bool>, start: nat, spans: seq<Span>)
    requires start <= |code| == |mask| && Tiles(code, mask, start, spans)
    requires forall s <- spans :: s.0 <= s.1 <= |code|
    ensures Rejoined(code, spans) == code[start..]
    decreases |spans|
  {
    if |spans| > 1 {
      var b := spans[0].1;
      PiecesRejoin(code, mask, b + 1, spans[1..]);
      assert code[start..] == code[start..b] + ([','] + code[b + 1..]);
    } else {
      assert code[start..spans[0].1] + [] == code[start..];
    }
  }

  /** Where a span lies: behind a separating comma or at the start, before one or at the end. */
  lemma {:induction false} SpanEnds(code: string, mask: seq<bool>, start: nat, spans: seq<Span>, k: nat)
    requires start <= |code| == |mask| && Tiles(code, mask, start, spans) && k < |spans|
    ensures var (a, b) := spans[k];
      && start <= a <= b <= |code| && Whole(code, mask, a, b)
      && (a > start ==> code[a - 1] == ',' && !mask[a - 1])
      && (b < |code| ==> code[b] == ',' && !mask[b])
    decreases |spans|
  {
    if k > 0 { SpanEnds(code, mask, spans[0].1 + 1, spans[1..], k - 1); }
  }

  lemma {:induction false} NestingOfPiece(code: string, mask: seq<bool>, a: nat, b: nat, p: nat, open: char,
      close: char)
    requires a <= b <= |code| == |mask| && a + p <= b
    ensures Nesting(code[a..b], mask[a..b], 0, p, open, close) == Nesting(code, mask, a, a + p, open, close)
    decreases p
  {
    if p > 0 { NestingOfPiece(code, mask, a, b, p - 1, open, close); }
  }

  lemma WholePieceIsOneSpan(code: string, mask: seq<bool>, a: nat, b: nat)
    requires a <= b <= |code| == |mask| && Whole(code, mask, a, b)
    ensures Spans(code[a..b], mask[a..b]) == [(0, b - a)]
  {
    hide Nesting;
    var piece, pieceMask := code[a..b], mask[a..b];
    forall p | 0 <= p < b - a ensures !Separates(piece, pieceMask, 0, p) {
      NestingOfPiece(code, mask, a, b, p, '(', ')');
      assert !Separates(code, mask, a, a + p);
    }
    SplitsExactlyAtSeparators(piece, pieceMask, [(0, b - a)]);
  }

  /** Splitting lexes its input again.  On a piece it was cut into itself that changes nothing:
      the piece lexes to itself, and it is not split further. */
  lemma SplittingAgainIsIdle(text: string, w: char -> bool, k: nat)
    requires OrdinaryWordChars(w) && !w(',')
    requires k < |Spans(Code(text, 0, w), Mask(text, 0, w))|
    ensures var code, mask := Code(text, 0, w), Mask(text, 0, w);
      var (a, b) := Spans(code, mask)[k];
      && a <= b <= |code|
      && Code(code[a..b], 0, w) == code[a..b]
      && Spans(Code(code[a..b], 0, w), Mask(code[a..b], 0, w)) == [(0, b - a)]
  {
    hide Code, Mask, SpansFrom;
    var code, mask := Code(text, 0, w), Mask(text, 0, w);
    var (a, b) := Spans(code, mask)[k];
    SplitsExactlyAtSeparators(code, mask, Spans(code, mask));
    SpanEnds(code, mask, 0, Spans(code, mask), k);
    PieceLexesToItself(text, a, b, w);
    WholePieceIsOneSpan(code, mask, a, b);
  }

  /** The stripped pieces that are not blank. */
  function Kept(code: string, spans: seq<Span>, blank: char -> bool): seq<string>
    requires forall s <- spans :: s.0 <= s.1 <= |code|
  {
    if spans == [] then []
    else
      var piece := Strip(code[spans[0].0..spans[0].1], blank);
      (if piece == [] then [] else [piece]) + Kept(code, spans[1..], blank)
  }

  /** One span more gives its text without the white space at its ends, if anything is left. */
  lemma {:induction false} KeptSnoc(code: string, spans: seq<Span>, blank: char -> bool, a: nat, b: nat)
    requires (forall s <- spans :: s.0 <= s.1 <= |code|) && a <= b <= |code|
    ensures Kept(code, [], blank) == []
    ensures Kept(code, spans + [(a, b)], blank)
         == Kept(code, spans, blank) + if forall i :: a <= i < b ==> blank(code[i]) then [] else [Strip(code[a..b], blank)]
  {
    hide Strip;
    if spans == [] {
      var i, j := StripIs(code[a..b], blank);
      assert forall k :: a <= k < b ==> code[k] == code[a..b][k - a];
      assert ([] + [(a, b)])[1..] == [];
    } else {
      KeptSnoc(code, spans[1..], blank, a, b);
      assert (spans + [(a, b)])[0] == spans[0] && (spans + [(a, b)])[1..] == spans[1..] + [(a, b)];
    }
  }

  /** The parts of a text: cut where its own lexing separates it, stripped, blank ones left out. */
  function Parts(s: string, w: char -> bool, blank: char -> bool): seq<string> {
    var code, mask := Code(s, 0, w), Mask(s, 0, w);
    SplitsExactlyAtSeparators(code, mask, Spans(code, mask));
    TilesAreSpans(code, mask, 0, Spans(code, mask));
    Kept(code, Spans(code, mask), blank)
  }

  method SplitTop(s: string, w: char -> bool, blank: char -> bool) returns (parts: seq<string>)
    ensures parts == Parts(s, w, blank)
  {
    hide Code, Mask, SpansFrom;
    var code, mask := Lex(s, w);
    SplitsExactlyAtSeparators(code, mask, Spans(code, mask));
    TilesAreSpans(code, mask, 0, Spans(code, mask));
    var spans := CutSpans(code, mask);
    parts := [];
    var i := 0;
    while i < |spans|
      invariant 0 <= i <= |spans|
      invariant parts + Kept(code, spans[i..], blank) == Kept(code, spans, blank)
    {
      var piece := Strip(code[spans[i].0..spans[i].1], blank);
      assert spans[i..][0] == spans[i] && spans[i..][1..] == spans[i + 1..];
      var kept := if piece == [] then [] else [piece];
      ConcatThree(parts, kept, Kept(code, spans[i + 1..], blank));
      parts := parts + kept;
      i := i + 1;
    }
    assert parts + [] == parts;
  }

  /** The loop of `split_top`: one pass with a depth counter. */
  method CutSpans(code: string, mask: seq<bool>) returns (spans: seq<Span>)
    requires |code| == |mask|
    ensures spans == Spans(code, mask)
  {
    spans := [];
    var start, depth := 0, 0;
    for idx := 0 to |code|
      invariant start <= idx
      invariant spans + SpansFrom(code, mask, start, idx, depth) == Spans(code, mask)
    {
      if mask[idx] {
      } else if code[idx] == '(' {
        depth := depth + 1;
      } else if code[idx] == ')' {
        depth := depth - 1;
      } else if code[idx] == ',' && depth == 0 {
        ConcatThree(spans, [(start, idx)], SpansFrom(code, mask, idx + 1, idx + 1, 0));
        spans := spans + [(start, idx)];
        start := idx + 1;
      }
    }
    spans := spans + [(start, |code|)];
  }

  // ---- `attributes` -----------------------------------------------------------------

  /** An attribute: its `#`, its opening and its closing bracket. */
  datatype Attribute = Attribute(offset: nat, open: nat, close: nat)

  /** Where the bracket of an attribute that starts at `i` would stand. */
  function BracketOf(text: string, i: nat): nat {
    if i + 1 < |text| && text[i + 1] == '!' then i + 2 else i + 1
  }

  /** `#[` or `#![`, the `#` outside strings. */
  predicate Opens(text: string, mask: seq<bool>, i: nat)
    requires |text| == |mask|
  {
    i < |text| && text[i] == '#' && !mask[i] && BracketOf(text, i) < |text| && text[BracketOf(text, i)] == '['
  }

  lemma OpensIff(text: string, mask: seq<bool>, i: nat)
    requires |text| == |mask|
    ensures Opens(text, mask, i) <==> (At(text, i, ['#', '[']) || At(text, i, ['#', '!', '['])) && !mask[i]
    ensures Opens(text, mask, i) ==> BracketOf(text, i) == if At(text, i, ['#', '[']) then i + 1 else i + 2
  {
    assert ['#', '['] == ['#'] + ['['] && ['#', '!', '['] == ['#'] + (['!'] + ['[']);
    AtParts(text, i, ['#'], ['[']);
    AtParts(text, i, ['#'], ['!'] + ['[']);
    AtParts(text, i + 1, ['!'], ['[']);
    AtOne(text, i, '#');
    AtOne(text, i + 1, '[');
    AtOne(text, i + 1, '!');
    AtOne(text, i + 2, '[');
  }

  /** From `k` on at some depth, the bracket that brings the depth to zero, or the end. */
  function CloserFrom(text: string, mask: seq<bool>, k: nat, depth: int): (r: nat)
    requires k <= |text| == |mask|
    ensures k <= r <= |text|
    decreases |text| - k
  {
    if k == |text| then k
    else if text[k] == ']' && !mask[k] && depth == 1 then k
    else CloserFrom(text, mask, k + 1, depth + Turn(text[k], mask[k], '[', ']'))
  }

  /** The bracket at `k` closes the one at `j`: the nesting from `j` first returns to zero there. */
  ghost predicate Closes(text: string, mask: seq<bool>, j: nat, k: nat)
    requires j <= k < |text| == |mask|
  {
    && text[k] == ']' && !mask[k] && Nesting(text, mask, j, k + 1, '[', ']') == 0
    && forall p :: j < p <= k ==> Nesting(text, mask, j, p, '[', ']') > 0
  }

  ghost predicate NeverCloses(text: string, mask: seq<bool>, j: nat)
    requires j < |text| == |mask|
  {
    forall k :: j <= k < |text| ==> !Closes(text, mask, j, k)
  }

  lemma {:induction false} CloserMeans(text: string, mask: seq<bool>, j: nat, k: nat, depth: int)
    requires j < k <= |text| == |mask| && depth == Nesting(text, mask, j, k, '[', ']')
    requires forall p :: j < p <= k ==> Nesting(text, mask, j, p, '[', ']') > 0
    ensures var r := CloserFrom(text, mask, k, depth);
      if r < |text| then Closes(text, mask, j, r) else forall q :: k <= q < |text| ==> !Closes(text, mask, j, q)
    decreases |text| - k
  {
    if k < |text| && !(text[k] == ']' && !mask[k] && depth == 1) {
      CloserMeans(text, mask, j, k + 1, depth + Turn(text[k], mask[k], '[', ']'));
    }
  }

  /** The bracket found is the one that closes the attribute, if any does. */
  lemma CloserIsExact(text: string, mask: seq<bool>, j: nat)
    requires j < |text| == |mask| && text[j] == '[' && !mask[j]
    ensures var r := CloserFrom(text, mask, j, 0);
      if r < |text| then Closes(text, mask, j, r) && r > j else NeverCloses(text, mask, j)
  {
    assert Nesting(text, mask, j, j, '[', ']') == 0;
    assert Nesting(text, mask, j, j + 1, '[', ']') == 1;
    CloserMeans(text, mask, j, j + 1, 1);
  }

  /** The attributes from `i` on; an opening bracket that is never closed ends the scan. */
  function AttributesFrom(text: string, mask: seq<bool>, i: nat): seq<Attribute>
    requires i <= |text| == |mask|
    decreases |text| - i
  {
    if i == |text| then []
    else if !Opens(text, mask, i) then AttributesFrom(text, mask, i + 1)
    else
      var j := BracketOf(text, i);
      var k := CloserFrom(text, mask, j, 0);
      if k == |text| then [] else [Attribute(i, j, k)] + AttributesFrom(text, mask, k + 1)
  }

  method Attributes(text: string, mask: seq<bool>) returns (attrs: seq<Attribute>)
    requires |text| == |mask|
    ensures attrs == AttributesFrom(text, mask, 0)
  {
    hide Opens;
    attrs := [];
    var i := 0;
    while i < |text|
      invariant i <= |text|
      invariant attrs + AttributesFrom(text, mask, i) == AttributesFrom(text, mask, 0)
    {
      if !Opens(text, mask, i) {
        i := i + 1;
      } else {
        var j := BracketOf(text, i);
        var k := FindCloser(text, mask, j);
        if k == |text| {
          assert attrs + [] == attrs;
          return;
        }
        ConcatThree(attrs, [Attribute(i, j, k)], AttributesFrom(text, mask, k + 1));
        attrs := attrs + [Attribute(i, j, k)];
        i := k + 1;
      }
    }
    assert attrs + [] == attrs;
  }

  method FindCloser(text: string, mask: seq<bool>, j: nat) returns (k: nat)
    requires j <= |text| == |mask|
    ensures k == CloserFrom(text, mask, j, 0)
  {
    var depth := 0;
    k := j;
    while k < |text|
      invariant j <= k <= |text|
      invariant CloserFrom(text, mask, k, depth) == CloserFrom(text, mask, j, 0)
    {
      if !mask[k] {
        if text[k] == '[' {
          depth := depth + 1;
        } else if text[k] == ']' {
          depth := depth - 1;
          if depth == 0 { return; }
        }
      }
      k := k + 1;
    }
  }

  /** The attributes in order, apart, each opened and closed as it should be, none earlier than
      `i`. */
  ghost predicate InOrder(text: string, mask: seq<bool>, i: nat, attrs: seq<Attribute>)
    requires |text| == |mask|
    decreases |attrs|
  {
    attrs == [] ||
    (var a := attrs[0];
     && i <= a.offset && Opens(text, mask, a.offset) && a.open == BracketOf(text, a.offset) < a.close < |text|
     && Closes(text, mask, a.open, a.close)
     && InOrder(text, mask, a.close + 1, attrs[1..]))
  }

  /** The brackets of attributes are never masked, as in lexed text. */
  ghost predicate BracketsBare(text: string, mask: seq<bool>)
    requires |text| == |mask|
  {
    forall i :: 0 <= i < |text| && Opens(text, mask, i) ==> !mask[BracketOf(text, i)]
  }

  lemma {:induction false} AttributesInOrder(text: string, mask: seq<bool>, i: nat)
    requires i <= |text| == |mask| && BracketsBare(text, mask)
    ensures InOrder(text, mask, i, AttributesFrom(text, mask, i))
    decreases |text| - i
  {
    hide Closes, CloserFrom;
    if i < |text| {
      if !Opens(text, mask, i) {
        AttributesInOrder(text, mask, i + 1);
        EarlierStart(text, mask, i, i + 1, AttributesFrom(text, mask, i + 1));
      } else {
        CloserIsExact(text, mask, BracketOf(text, i));
        var k := CloserFrom(text, mask, BracketOf(text, i), 0);
        if k < |text| { AttributesInOrder(text, mask, k + 1); }
      }
    }
  }

  lemma EarlierStart(text: string, mask: seq<bool>, i: nat, j: nat, attrs: seq<Attribute>)
    requires |text| == |mask| && i <= j && InOrder(text, mask, j, attrs)
    ensures InOrder(text, mask, i, attrs)
  {
  }

  /** Within one of the attributes, brackets included. */
  ghost predicate Inside(attrs: seq<Attribute>, p: nat) {
    exists a :: a in attrs && a.offset <= p <= a.close
  }

  /** Nothing is missed: an opening stands inside some attribute found, unless an opening before
      it, outside them all, is never closed. */
  lemma {:induction false} NothingIsMissed(text: string, mask: seq<bool>, i: nat, p: nat) returns (stop: nat)
    requires i <= p < |text| == |mask| && BracketsBare(text, mask) && Opens(text, mask, p)
    requires !Inside(AttributesFrom(text, mask, i), p)
    ensures i <= stop <= p && Opens(text, mask, stop) && NeverCloses(text, mask, BracketOf(text, stop))
    decreases p - i
  {
    hide CloserFrom, NeverCloses;
    if !Opens(text, mask, i) {
      stop := NothingIsMissed(text, mask, i + 1, p);
    } else {
      var k := CloserFrom(text, mask, BracketOf(text, i), 0);
      CloserIsExact(text, mask, BracketOf(text, i));
      if k == |text| {
        stop := i;
      } else {
        var attrs := AttributesFrom(text, mask, i);
        assert attrs[0] in attrs;
        assert forall a :: a in attrs[1..] ==> a in attrs;
        stop := NothingIsMissed(text, mask, k + 1, p);
      }
    }
  }

  // ---- attributes of lexed text -----------------------------------------------------

  lemma PlainStart(t: string, p: nat, w: char -> bool)
    requires p < |t| && (t[p] == '!' || t[p] == '[')
    ensures Step(t, p, w) == (Plain, p + 1)
  {
  }

  /** Behind an unmasked character of lexed text, `!` and `[` are unmasked too. */
  lemma BareAfter(t: string, p: nat, w: char -> bool)
    requires 0 < p < |t| && Code(t, 0, w) == t[0..] && !Mask(t, 0, w)[p - 1]
    requires t[p] == '!' || t[p] == '['
    ensures !Mask(t, 0, w)[p]
  {
    hide Step, Code, Mask, Reaches;
    UnmaskedIsStep(t, 0, p - 1, w);
    CleanAt(t, 0, p, w);
    PlainHead(t, p, w);
  }

  lemma PlainHead(t: string, p: nat, w: char -> bool)
    requires p < |t| && (t[p] == '!' || t[p] == '[')
    ensures !Mask(t, p, w)[0]
  {
    PlainStart(t, p, w);
    hide Step, Code;
  }

  lemma LexedBracketsAreBare(t: string, w: char -> bool)
    requires Code(t, 0, w) == t[0..]
    ensures BracketsBare(t, Mask(t, 0, w))
  {
    hide Code, Mask;
    forall i | 0 <= i < |t| && Opens(t, Mask(t, 0, w), i) ensures !Mask(t, 0, w)[BracketOf(t, i)] {
      BareAfter(t, i + 1, w);
      if t[i + 1] == '!' { BareAfter(t, i + 2, w); }
    }
  }

  /** The attributes of a lexed file: in order and apart, each from a `#` outside strings to the
      bracket that closes it, and the body of each lexes to itself under its part of the mask,
      so what reads a body later reads it as the file does. */
  lemma AttributesOfLexedText(text: string, w: char -> bool, k: nat)
    requires OrdinaryWordChars(w) && !w('[')
    requires k < |AttributesFrom(Code(text, 0, w), Mask(text, 0, w), 0)|
    ensures var code, mask := Code(text, 0, w), Mask(text, 0, w);
      var attrs := AttributesFrom(code, mask, 0);
      var a := attrs[k];
      && InOrder(code, mask, 0, attrs) && a.open + 1 <= a.close < |code|
      && var body := code[a.open + 1..a.close];
         Code(body, 0, w) == body && Mask(body, 0, w) == mask[a.open + 1..a.close]
  {
    hide Code, Mask, AttributesFrom, Closes;
    var code, mask := Code(text, 0, w), Mask(text, 0, w);
    var attrs := AttributesFrom(code, mask, 0);
    LexIdempotent(text, w);
    assert code[0..] == code;
    LexedBracketsAreBare(code, w);
    AttributesInOrder(code, mask, 0);
    KthInOrder(code, mask, 0, attrs, k);
    PieceLexesToItself(text, attrs[k].open + 1, attrs[k].close, w);
  }

  lemma {:induction false} KthInOrder(text: string, mask: seq<bool>, i: nat, attrs: seq<Attribute>, k: nat)
    requires |text| == |mask| && InOrder(text, mask, i, attrs) && k < |attrs| && BracketsBare(text, mask)
    ensures var a := attrs[k];
      && i <= a.offset < a.open < a.close < |text|
      && text[a.open] == '[' && !mask[a.open] && text[a.close] == ']' && !mask[a.close]
    decreases |attrs|
  {
    if k > 0 { KthInOrder(text, mask, attrs[0].close + 1, attrs[1..], k - 1); }
  }

  lemma {:induction false} Apart(text: string, mask: seq<bool>, i: nat, attrs: seq<Attribute>, k: nat)
    requires |text| == |mask| && InOrder(text, mask, i, attrs) && 0 < k < |attrs|
    ensures attrs[k - 1].close < attrs[k].offset
    decreases |attrs|
  {
    if k > 1 { Apart(text, mask, attrs[0].close + 1, attrs[1..], k - 1); }
  }
}
