/** The Rust-source lexer of the coverage gate: comments and char literals blanked in place,
    string literals kept and masked. `w` is Python's `c.isalnum() or c == "_"`. */
module CfgLexer {

  /** What one scanning step does with the span it covers. */
  datatype Kind = Blanked | Masked | Plain

  predicate Two(text: string, i: nat, a: char, b: char) {
    i + 1 < |text| && text[i] == a && text[i + 1] == b
  }

  /** The index of the next newline, or the end. */
  function LineEnd(text: string, i: nat): (j: nat)
    requires i <= |text|
    ensures i <= j <= |text| && (j < |text| ==> text[j] == '\n')
    ensures forall k :: i <= k < j ==> text[k] != '\n'
    decreases |text| - i
  {
    if i == |text| || text[i] == '\n' then i else LineEnd(text, i + 1)
  }

  /** The end of a block comment scanned from `j` at nesting `depth`; block comments nest. */
  function BlockEnd(text: string, j: nat, depth: nat): (r: nat)
    requires j <= |text|
    ensures j <= r <= |text|
    ensures r < |text| ==> r > 0 && text[r - 1] == '/'
    decreases |text| - j
  {
    if j == |text| then j
    else if Two(text, j, '/', '*') then BlockEnd(text, j + 2, depth + 1)
    else if Two(text, j, '*', '/') then
      if depth <= 1 then j + 2 else BlockEnd(text, j + 2, depth - 1)
    else BlockEnd(text, j + 1, depth)
  }

  /** Just past the closing quote of a string whose body starts at `i`; a backslash takes the
      next character with it. */
  function EndOfQuoted(text: string, i: nat): (j: nat)
    ensures j <= |text| && (i < |text| ==> i < j) && (i == |text| ==> i == j)
    decreases |text| - i
  {
    if i >= |text| then |text|
    else if text[i] == '\\' then EndOfQuoted(text, i + 2)
    else if text[i] == '"' then i + 1
    else EndOfQuoted(text, i + 1)
  }

  function Hashes(text: string, i: nat): (h: nat)
    requires i <= |text|
    ensures i + h <= |text|
    ensures forall k :: i <= k < i + h ==> text[k] == '#'
    ensures i + h < |text| ==> text[i + h] != '#'
    decreases |text| - i
  {
    if i == |text| || text[i] != '#' then 0 else 1 + Hashes(text, i + 1)
  }

  /** `r`, `b`, `br` or `rb`. */
  function PrefixLen(text: string, i: nat): nat {
    if Two(text, i, 'b', 'r') || Two(text, i, 'r', 'b') then 2 else 1
  }

  /** A prefixed string literal opens at `i`. */
  predicate PrefixedString(text: string, i: nat) {
    && i < |text| && (text[i] == 'r' || text[i] == 'b')
    && var p := i + PrefixLen(text, i);
       p <= |text| && var q := p + Hashes(text, p); q < |text| && text[q] == '"'
  }

  predicate CloseAt(text: string, p: nat, h: nat) {
    p + 1 + h <= |text| && text[p] == '"' && forall k :: p < k <= p + h ==> text[k] == '#'
  }

  /** Just past the first `"` followed by `h` hashes, or the end. */
  function RawEnd(text: string, p: nat, h: nat): (j: nat)
    requires p <= |text|
    ensures p <= j <= |text|
    decreases |text| - p
  {
    if p == |text| then p
    else if CloseAt(text, p, h) then p + 1 + h
    else RawEnd(text, p + 1, h)
  }

  function StringEnd(text: string, i: nat): (j: nat)
    requires PrefixedString(text, i)
    ensures i < j <= |text|
  {
    var p := i + PrefixLen(text, i);
    var h := Hashes(text, p);
    if h > 0 then RawEnd(text, p + h + 1, h) else EndOfQuoted(text, p + 1)
  }

  predicate WordBefore(text: string, i: nat, w: char -> bool) {
    0 < i <= |text| && w(text[i - 1])
  }

  /** The length of a char literal at `i`, or 0: `'\x'` is four characters, `'x'` three. */
  function CharLiteral(text: string, i: nat): (n: nat)
    requires i < |text|
    ensures n == 0 || n == 3 || n == 4
    ensures i + n <= |text|
  {
    if text[i] != '\'' then 0
    else if i + 3 < |text| && text[i + 1] == '\\' && text[i + 2] != '\n' && text[i + 3] == '\'' then 4
    else if i + 2 < |text| && text[i + 1] != '\\' && text[i + 1] != '\'' && text[i + 2] == '\'' then 3
    else 0
  }

  /** One step of the scan: what happens at `i`, and where the next step starts. */
  function Step(text: string, i: nat, w: char -> bool): (r: (Kind, nat))
    requires i < |text|
    ensures i < r.1 <= |text|
    ensures r.0 == Plain ==> r.1 == i + 1
  {
    if Two(text, i, '/', '/') then (Blanked, LineEnd(text, i))
    else if Two(text, i, '/', '*') then (Blanked, BlockEnd(text, i, 0))
    else if PrefixedString(text, i) && !WordBefore(text, i, w) then (Masked, StringEnd(text, i))
    else if text[i] == '"' then (Masked, EndOfQuoted(text, i + 1))
    else if CharLiteral(text, i) > 0 then (Blanked, i + CharLiteral(text, i))
    else (Plain, i + 1)
  }

  function BlankChar(c: char): char { if c == '\n' then c else ' ' }

  function Blank(s: string): (r: string)
    ensures |r| == |s| && forall k :: 0 <= k < |s| ==> r[k] == BlankChar(s[k])
  {
    seq(|s|, k requires 0 <= k < |s| => BlankChar(s[k]))
  }

  function Emit(kind: Kind, span: string): (r: string)
    ensures |r| == |span|
  {
    if kind == Blanked then Blank(span) else span
  }

  /** The lexed text from `i` on. */
  function Code(text: string, i: nat, w: char -> bool): (r: string)
    requires i <= |text|
    ensures |r| == |text| - i
    decreases |text| - i
  {
    if i == |text| then ""
    else
      var (kind, j) := Step(text, i, w);
      Emit(kind, text[i..j]) + Code(text, j, w)
  }

  function Fill(masked: bool, n: nat): seq<bool> { seq(n, _ => masked) }

  /** The string mask from `i` on. */
  function Mask(text: string, i: nat, w: char -> bool): (r: seq<bool>)
    requires i <= |text|
    ensures |r| == |text| - i
    decreases |text| - i
  {
    if i == |text| then []
    else
      var (kind, j) := Step(text, i, w);
      Fill(kind == Masked, j - i) + Mask(text, j, w)
  }

  method QuotedEnd(text: string, start: nat) returns (j: nat)
    requires start <= |text|
    ensures j == EndOfQuoted(text, start)
  {
    var i := start;
    while i < |text|
      invariant EndOfQuoted(text, i) == EndOfQuoted(text, start)
    {
      if text[i] == '\\' {
        i := i + 2;
      } else if text[i] == '"' {
        return i + 1;
      } else {
        i := i + 1;
      }
    }
    j := |text|;
  }

  method CommentEnd(text: string, start: nat) returns (j: nat)
    requires start <= |text|
    ensures j == BlockEnd(text, start, 0)
  {
    var depth := 0;
    j := start;
    while j < |text|
      invariant start <= j <= |text|
      invariant BlockEnd(text, j, depth) == BlockEnd(text, start, 0)
    {
      if Two(text, j, '/', '*') {
        depth, j := depth + 1, j + 2;
      } else if Two(text, j, '*', '/') {
        j := j + 2;
        if depth <= 1 {
          break;
        }
        depth := depth - 1;
      } else {
        j := j + 1;
      }
    }
  }

  method NextStep(text: string, i: nat, w: char -> bool) returns (kind: Kind, j: nat)
    requires i < |text|
    ensures (kind, j) == Step(text, i, w)
  {
    if Two(text, i, '/', '/') {
      kind, j := Blanked, LineEnd(text, i);
    } else if Two(text, i, '/', '*') {
      kind := Blanked;
      j := CommentEnd(text, i);
    } else if PrefixedString(text, i) && !WordBefore(text, i, w) {
      kind, j := Masked, StringEnd(text, i);
    } else if text[i] == '"' {
      kind := Masked;
      j := QuotedEnd(text, i + 1);
    } else if CharLiteral(text, i) > 0 {
      kind, j := Blanked, i + CharLiteral(text, i);
    } else {
      kind, j := Plain, i + 1;
    }
  }

  /** The state of the scan at `i`: what has been emitted is what comes before the rest. */
  ghost predicate Scanned(text: string, i: nat, w: char -> bool, code: string, mask: seq<bool>) {
    && i <= |text|
    && code + Code(text, i, w) == Code(text, 0, w)
    && mask + Mask(text, i, w) == Mask(text, 0, w)
  }

  lemma ScannedNext(text: string, i: nat, w: char -> bool, code: string, mask: seq<bool>)
    requires i < |text| && Scanned(text, i, w, code, mask)
    ensures var (kind, j) := Step(text, i, w);
      Scanned(text, j, w, code + Emit(kind, text[i..j]), mask + Fill(kind == Masked, j - i))
  {
    hide Step;
    var (kind, j) := Step(text, i, w);
    var span, spanMask := Emit(kind, text[i..j]), Fill(kind == Masked, j - i);
    assert code + (span + Code(text, j, w)) == (code + span) + Code(text, j, w);
    assert mask + (spanMask + Mask(text, j, w)) == (mask + spanMask) + Mask(text, j, w);
  }

  lemma ScannedAll(text: string, w: char -> bool, code: string, mask: seq<bool>)
    requires Scanned(text, |text|, w, code, mask)
    ensures code == Code(text, 0, w) && mask == Mask(text, 0, w)
  {
    assert code + "" == code && mask + [] == mask;
  }

  lemma ScannedNothing(text: string, w: char -> bool)
    ensures Scanned(text, 0, w, "", [])
  {
    assert "" + Code(text, 0, w) == Code(text, 0, w);
    assert [] + Mask(text, 0, w) == Mask(text, 0, w);
  }

  method Lex(text: string, w: char -> bool) returns (code: string, mask: seq<bool>)
    ensures code == Code(text, 0, w) && mask == Mask(text, 0, w)
  {
    hide Scanned, Step, Code, Mask, Fill, Emit;
    code, mask := "", [];
    var i := 0;
    ScannedNothing(text, w);
    while i < |text|
      invariant i <= |text| && Scanned(text, i, w, code, mask)
    {
      var kind, j := NextStep(text, i, w);
      ScannedNext(text, i, w, code, mask);
      code, mask := code + Emit(kind, text[i..j]), mask + Fill(kind == Masked, j - i);
      i := j;
    }
    ScannedAll(text, w, code, mask);
  }

  lemma Unroll(text: string, i: nat, w: char -> bool)
    requires i < |text|
    ensures var (kind, j) := Step(text, i, w);
      && Code(text, i, w) == Emit(kind, text[i..j]) + Code(text, j, w)
      && Mask(text, i, w) == Fill(kind == Masked, j - i) + Mask(text, j, w)
  {
  }

  lemma Finished(text: string, w: char -> bool)
    ensures Code(text, |text|, w) == "" && Mask(text, |text|, w) == []
  {
  }

  // ---- what the lexed text keeps ----------------------------------------------------

  /** Offset by offset: a character is kept or becomes a space, never a newline either way,
      and nothing under the mask changes. */
  lemma {:induction false} CodeKeeps(text: string, i: nat, w: char -> bool)
    requires i <= |text|
    ensures forall k :: 0 <= k < |text| - i ==>
      var c, d := text[i + k], Code(text, i, w)[k];
      && (c == d || d == ' ') && (c == '\n' <==> d == '\n')
      && (Mask(text, i, w)[k] ==> c == d)
    decreases |text| - i
  {
    if i < |text| {
      var (kind, j) := Step(text, i, w);
      CodeKeeps(text, j, w);
      forall k | 0 <= k < |text| - i
        ensures
          var c, d := text[i + k], Code(text, i, w)[k];
          && (c == d || d == ' ') && (c == '\n' <==> d == '\n')
          && (Mask(text, i, w)[k] ==> c == d)
      {
        if k < j - i {
          assert Code(text, i, w)[k] == Emit(kind, text[i..j])[k];
        } else {
          assert Code(text, i, w)[k] == Code(text, j, w)[k - (j - i)];
          assert Mask(text, i, w)[k] == Mask(text, j, w)[k - (j - i)];
          assert text[i + k] == text[j + (k - (j - i))];
        }
      }
    }
  }

  /** The scan started at `i` comes to a step boundary at `p`. */
  ghost predicate Reaches(t: string, i: nat, p: nat, w: char -> bool)
    requires i <= |t|
    decreases |t| - i
  {
    i == p || (i < p && i < |t| && Reaches(t, Step(t, i, w).1, p, w))
  }

  /** A changed character lies in the span of a step that blanks: a comment or a char literal. */
  lemma {:induction false} ChangedOnlyWhenBlanked(text: string, i: nat, k: nat, w: char -> bool) returns (p: nat)
    requires i <= k < |text| && Code(text, i, w)[k - i] != text[k]
    ensures p < |text| && Reaches(text, i, p, w) && Step(text, p, w).0 == Blanked && p <= k < Step(text, p, w).1
    decreases |text| - i
  {
    var (kind, j) := Step(text, i, w);
    if k < j {
      assert Code(text, i, w)[k - i] == Emit(kind, text[i..j])[k - i];
      p := i;
    } else {
      assert Code(text, i, w)[k - i] == Code(text, j, w)[k - j];
      p := ChangedOnlyWhenBlanked(text, j, k, w);
    }
  }

  // ---- lexing again -----------------------------------------------------------------

  /** The facts about a character class the scan relies on. */
  ghost predicate OrdinaryWordChars(w: char -> bool) {
    !w('/') && !w('\'') && !w(' ') && !w('\n')
  }

  ghost predicate SameSpan(x: string, i: nat, y: string, q: nat, n: nat) {
    i + n <= |x| && q + n <= |y| && forall k {:trigger x[k]} :: i <= k < i + n ==> y[q + (k - i)] == x[k]
  }

  lemma SubSpan(x: string, i: nat, y: string, q: nat, n: nat, d: nat)
    requires SameSpan(x, i, y, q, n) && d <= n
    ensures SameSpan(x, i, y, q, d) && SameSpan(x, i + d, y, q + d, n - d)
  {
    forall k | i + d <= k < i + n ensures y[(q + d) + (k - (i + d))] == x[k] {
      assert y[q + (k - i)] == x[k];
    }
  }

  /** A quoted body ends at the same distance in a text that agrees up to there. */
  lemma {:induction false} QuotedSame(x: string, p: nat, y: string, q: nat)
    requires p <= |x| && SameSpan(x, p, y, q, EndOfQuoted(x, p) - p)
    requires EndOfQuoted(x, p) == |x| ==> |y| - q == |x| - p
    ensures EndOfQuoted(y, q) - q == EndOfQuoted(x, p) - p
    decreases |x| - p
  {
    if p < |x| {
      var n := EndOfQuoted(x, p) - p;
      assert x[p] == y[q + (p - p)];
      if x[p] == '\\' {
        if p + 2 <= |x| {
          SubSpan(x, p, y, q, n, 2);
          QuotedSame(x, p + 2, y, q + 2);
        }
      } else if x[p] != '"' {
        SubSpan(x, p, y, q, n, 1);
        QuotedSame(x, p + 1, y, q + 1);
      }
    }
  }

  lemma CloseSame(x: string, p: nat, y: string, q: nat, h: nat, n: nat)
    requires SameSpan(x, p, y, q, n) && p < |x|
    requires n >= 1 + h || n == |x| - p == |y| - q
    ensures CloseAt(x, p, h) <==> CloseAt(y, q, h)
  {
    if p + 1 + h <= |x| {
      assert x[p] == y[q + (p - p)];
      assert forall k :: p < k <= p + h ==> y[q + (k - p)] == x[k];
      forall k | q < k <= q + h ensures x[p + (k - q)] == y[k] {
        assert x[p + (k - q)] == y[q + ((p + (k - q)) - p)];
      }
    }
  }

  /** So does a raw body. */
  lemma {:induction false} RawSame(x: string, p: nat, y: string, q: nat, h: nat)
    requires p <= |x| && SameSpan(x, p, y, q, RawEnd(x, p, h) - p)
    requires RawEnd(x, p, h) == |x| ==> |y| - q == |x| - p
    ensures RawEnd(y, q, h) - q == RawEnd(x, p, h) - p
    decreases |x| - p
  {
    if p < |x| {
      var e := RawEnd(x, p, h);
      RawEndPast(x, p, h);
      CloseSame(x, p, y, q, h, e - p);
      if !CloseAt(x, p, h) {
        SubSpan(x, p, y, q, e - p, 1);
        RawSame(x, p + 1, y, q + 1, h);
      }
    }
  }

  /** A raw body runs to the end or past where the first closing could be. */
  lemma {:induction false} RawEndPast(x: string, p: nat, h: nat)
    requires p <= |x|
    ensures RawEnd(x, p, h) == |x| || RawEnd(x, p, h) >= p + 1 + h
    decreases |x| - p
  {
    if p < |x| && !CloseAt(x, p, h) { RawEndPast(x, p + 1, h); }
  }

  lemma {:induction false} HashesAre(text: string, i: nat, h: nat)
    requires i + h < |text| && text[i + h] != '#'
    requires forall k :: i <= k < i + h ==> text[k] == '#'
    ensures Hashes(text, i) == h
    decreases h
  {
    if h > 0 { HashesAre(text, i + 1, h - 1); }
  }

  /** The opening of a prefixed string, up to and including its quote. */
  function OpeningLen(x: string, i: nat): (n: nat)
    requires PrefixedString(x, i)
    ensures i + n <= |x| && n >= 2
  {
    PrefixLen(x, i) + Hashes(x, i + PrefixLen(x, i)) + 1
  }

  lemma OpeningSame(x: string, i: nat, y: string, q: nat)
    requires PrefixedString(x, i) && SameSpan(x, i, y, q, OpeningLen(x, i))
    ensures PrefixedString(y, q) && PrefixLen(y, q) == PrefixLen(x, i) && OpeningLen(y, q) == OpeningLen(x, i)
  {
    var p := PrefixLen(x, i);
    var h := Hashes(x, i + p);
    assert forall k :: i <= k < i + p + h + 1 ==> y[q + (k - i)] == x[k];
    assert x[i] == y[q] && x[i + 1] == y[q + 1];
    assert PrefixLen(y, q) == p;
    forall k | q + p <= k < q + p + h ensures y[k] == '#' {
      assert x[i + (k - q)] == y[q + ((i + (k - q)) - i)];
    }
    assert x[i + p + h] == y[q + ((i + p + h) - i)];
    HashesAre(y, q + p, h);
  }

  lemma PrefixedEndSame(x: string, i: nat, y: string, q: nat)
    requires PrefixedString(x, i)
    requires var n := StringEnd(x, i) - i;
      SameSpan(x, i, y, q, n) && (i + n == |x| ==> |y| - q == |x| - i)
    ensures PrefixedString(y, q) && StringEnd(y, q) - q == StringEnd(x, i) - i
  {
    hide SameSpan, PrefixLen, Hashes;
    var n := OpeningLen(x, i);
    var h := n - 1 - PrefixLen(x, i);
    SubSpan(x, i, y, q, StringEnd(x, i) - i, n);
    OpeningSame(x, i, y, q);
    if h > 0 {
      RawSame(x, i + n, y, q + n, h);
    } else {
      QuotedSame(x, i + n, y, q + n);
    }
  }

  lemma SpanBounds(x: string, i: nat, y: string, q: nat, n: nat)
    requires SameSpan(x, i, y, q, n) && n > 0
    ensures i + n <= |x| && q + n <= |y| && y[q] == x[i]
    ensures n > 1 ==> y[q + 1] == x[i + 1]
  {
    assert x[i] == y[q + (i - i)];
    if n > 1 { assert x[i + 1] == y[q + (i + 1 - i)]; }
  }

  /** A string literal lexes the same in a text that agrees over its span. */
  lemma StringStepSame(x: string, i: nat, y: string, q: nat, w: char -> bool)
    requires i < |x| && Step(x, i, w).0 == Masked && q < |y|
    requires var n := Step(x, i, w).1 - i;
      SameSpan(x, i, y, q, n) && (i + n == |x| ==> |y| - q == |x| - i)
    requires x[i] != '"' ==> !WordBefore(y, q, w)
    ensures Step(y, q, w) == (Masked, q + (Step(x, i, w).1 - i))
  {
    hide SameSpan, PrefixedString, StringEnd, EndOfQuoted, BlockEnd, LineEnd, WordBefore;
    var n := Step(x, i, w).1 - i;
    SpanBounds(x, i, y, q, n);
    if PrefixedString(x, i) && !WordBefore(x, i, w) {
      PrefixedHead(x, i);
      PrefixedEndSame(x, i, y, q);
    } else {
      SubSpan(x, i, y, q, n, 1);
      QuotedSame(x, i + 1, y, q + 1);
      QuoteIsNoPrefix(y, q);
    }
  }

  lemma PrefixedHead(x: string, i: nat)
    requires PrefixedString(x, i)
    ensures i < |x| && (x[i] == 'r' || x[i] == 'b')
  {
  }

  lemma QuoteIsNoPrefix(y: string, q: nat)
    requires q < |y| && y[q] == '"'
    ensures !PrefixedString(y, q)
  {
  }

  /** What a lexed copy may do to what lies ahead of a position: keep it, or space it out. */
  ghost predicate Tame(x: string, i: nat, y: string, q: nat) {
    && q < |y| && i < |x| && y[q] == x[i]
    && forall k {:trigger y[k]} :: q < k < |y| ==>
         i + (k - q) < |x| && (y[k] == x[i + (k - q)] || (y[k] == ' ' && x[i + (k - q)] != '\n'))
  }

  /** A plain character stays plain in such a copy, unless blanking made a char literal of it. */
  lemma PlainStepSame(x: string, i: nat, y: string, q: nat, w: char -> bool)
    requires Tame(x, i, y, q) && Step(x, i, w).0 == Plain
    requires q + 2 < |y| && y[q] == y[q + 2] == '\'' ==> y[q + 1] == x[i + 1]
    requires WordBefore(x, i, w) ==> WordBefore(y, q, w) || x[i] !in "rb"
    ensures Step(y, q, w) == (Plain, q + 1)
  {
    assert !Two(y, q, '/', '/') && !Two(y, q, '/', '*');
    if PrefixedString(y, q) && !WordBefore(y, q, w) {
      var n := OpeningLen(y, q);
      var p := PrefixLen(y, q);
      assert SameSpan(y, q, x, i, n) by {
        forall k | q <= k < q + n ensures i + (k - q) < |x| && x[i + (k - q)] == y[k] {
          assert k == q || (k == q + 1 && p == 2) || y[k] == '#' || y[k] == '"';
        }
        assert y[q + n - 1] == '"';
      }
      OpeningSame(y, q, x, i);
    }
  }

  lemma BlankedSpan(text: string, i: nat, w: char -> bool)
    requires i < |text| && Step(text, i, w).0 == Blanked && OrdinaryWordChars(w)
    ensures var j := Step(text, i, w).1;
      j >= i + 2 && (j == |text| || text[j] == '\n' || !w(text[j - 1]))
  {
    if Two(text, i, '/', '*') && !Two(text, i, '/', '/') {
      assert BlockEnd(text, i, 0) == BlockEnd(text, i + 2, 1);
    }
  }

  lemma BlankStep(y: string, q: nat, w: char -> bool)
    requires q < |y| && (y[q] == ' ' || y[q] == '\n')
    ensures Step(y, q, w) == (Plain, q + 1)
  {
  }

  /** A run of blanks lexes to itself, unmasked. */
  lemma {:induction false} BlankRun(y: string, q: nat, j: nat, w: char -> bool)
    requires q <= j <= |y| && forall k :: q <= k < j ==> y[k] == ' ' || y[k] == '\n'
    ensures Code(y, q, w) == y[q..j] + Code(y, j, w)
    ensures Mask(y, q, w) == Fill(false, j - q) + Mask(y, j, w)
    decreases j - q
  {
    hide Step, Code, Mask;
    if q < j {
      BlankRun(y, q + 1, j, w);
      BlankStep(y, q, w);
      Unroll(y, q, w);
      assert y[q..j] == y[q..q + 1] + y[q + 1..j];
      assert Fill(false, j - q) == Fill(false, 1) + Fill(false, j - (q + 1));
    }
  }

  lemma CodeAhead(text: string, y: string, i: nat, w: char -> bool)
    requires |y| == |text| && i <= |text| && y[i..] == Code(text, i, w)
    ensures forall k :: i <= k < |y| ==> y[k] == text[k] || (y[k] == ' ' && text[k] != '\n')
  {
    CodeKeeps(text, i, w);
    forall k | i <= k < |y| ensures y[k] == text[k] || (y[k] == ' ' && text[k] != '\n') {
      assert y[k] == Code(text, i, w)[k - i] && text[k] == text[i + (k - i)];
    }
  }

  lemma SpanAhead(text: string, y: string, i: nat, w: char -> bool)
    requires |y| == |text| && i < |text| && y[i..] == Code(text, i, w)
    ensures var (kind, j) := Step(text, i, w);
      y[i..j] == Emit(kind, text[i..j]) && y[j..] == Code(text, j, w)
  {
    hide Step, Emit;
    var (kind, j) := Step(text, i, w);
    Unroll(text, i, w);
    assert y[i..j] == y[i..][..j - i] && y[j..] == y[i..][j - i..];
  }

  /** Lexing what `lex` produced, from the same position. */
  lemma {:induction false} Relex(text: string, y: string, i: nat, w: char -> bool)
    requires OrdinaryWordChars(w)
    requires |y| == |text| && i <= |text| && y[i..] == Code(text, i, w)
    requires i < |text| && text[i] in "rb" ==> (WordBefore(text, i, w) <==> WordBefore(y, i, w))
    ensures Code(y, i, w) == Code(text, i, w) && Mask(y, i, w) == Mask(text, i, w)
    decreases |text| - i
  {
    hide Step, Code, Mask, Fill, WordBefore;
    if i < |text| {
      var (kind, j) := Step(text, i, w);
      SpanAhead(text, y, i, w);
      Unroll(text, i, w);
      Unroll(y, i, w);
      RelexLookbehind(text, y, i, w);
      Relex(text, y, j, w);
      match kind {
        case Masked => RelexString(text, y, i, w);
        case Plain => RelexPlain(text, y, i, w);
        case Blanked =>
          assert forall k :: i <= k < j ==> y[k] == y[i..j][k - i];
          BlankRun(y, i, j, w);
      }
    } else {
      Finished(text, w);
      Finished(y, w);
    }
  }

  /** Past a step, the character behind is a word character in both texts or in neither. */
  lemma RelexLookbehind(text: string, y: string, i: nat, w: char -> bool)
    requires OrdinaryWordChars(w) && i < |text| == |y|
    requires var (kind, j) := Step(text, i, w); y[i..j] == Emit(kind, text[i..j])
    ensures var j := Step(text, i, w).1;
      j < |text| && text[j] in "rb" ==> (WordBefore(text, j, w) <==> WordBefore(y, j, w))
  {
    var (kind, j) := Step(text, i, w);
    assert y[j - 1] == y[i..j][j - 1 - i] && text[j - 1] == text[i..j][j - 1 - i];
    if kind == Blanked { BlankedSpan(text, i, w); }
  }

  lemma RelexString(text: string, y: string, i: nat, w: char -> bool)
    requires i < |text| == |y| && Step(text, i, w).0 == Masked
    requires var j := Step(text, i, w).1; y[i..j] == text[i..j]
    requires text[i] in "rb" ==> (WordBefore(text, i, w) <==> WordBefore(y, i, w))
    ensures Step(y, i, w) == Step(text, i, w)
  {
    var j := Step(text, i, w).1;
    forall k | i <= k < j ensures y[i + (k - i)] == text[k] {
      assert y[i..j][k - i] == text[i..j][k - i];
    }
    StringStepSame(text, i, y, i, w);
  }

  /** The second character of a blanked span is no quote; of any other span, the first is kept. */
  lemma NoQuoteInBlanks(text: string, y: string, p: nat, w: char -> bool)
    requires OrdinaryWordChars(w) && p < |text| == |y| && y[p..] == Code(text, p, w)
    ensures if Step(text, p, w).0 == Blanked then p + 1 < |y| && y[p + 1] != '\'' else y[p] == text[p]
  {
    hide Code;
    var (kind, j) := Step(text, p, w);
    SpanAhead(text, y, p, w);
    if kind == Blanked {
      BlankedSpan(text, p, w);
      assert y[p + 1] == y[p..j][1];
    } else {
      assert y[p] == y[p..j][0] && text[p] == text[p..j][0];
    }
  }

  lemma RelexPlain(text: string, y: string, i: nat, w: char -> bool)
    requires OrdinaryWordChars(w) && i < |text| == |y| && Step(text, i, w).0 == Plain
    requires y[i..] == Code(text, i, w)
    requires text[i] in "rb" ==> (WordBefore(text, i, w) <==> WordBefore(y, i, w))
    ensures Step(y, i, w) == (Plain, i + 1) && y[i] == text[i]
  {
    SpanAhead(text, y, i, w);
    assert y[i] == y[i..i + 1][0] == text[i..i + 1][0];
    CodeAhead(text, y, i, w);
    if i + 2 < |y| && y[i + 2] == '\'' {
      NoQuoteInBlanks(text, y, i + 1, w);
    }
    PlainStepSame(text, i, y, i, w);
  }

  /** Lexing is idempotent: its own output lexes to the same text under the same mask. */
  lemma LexIdempotent(text: string, w: char -> bool)
    requires OrdinaryWordChars(w)
    ensures var code := Code(text, 0, w);
      Code(code, 0, w) == code && Mask(code, 0, w) == Mask(text, 0, w)
  {
    var code := Code(text, 0, w);
    assert code[0..] == code;
    Relex(text, code, 0, w);
  }

  // ---- lexing a piece again ---------------------------------------------------------

  lemma {:induction false} ReachesSplit(t: string, i: nat, a: nat, b: nat, w: char -> bool)
    requires i <= |t| && a <= b && a <= |t| && Reaches(t, i, a, w) && Reaches(t, i, b, w)
    ensures Reaches(t, a, b, w)
    decreases |t| - i
  {
    if i < a { ReachesSplit(t, Step(t, i, w).1, a, b, w); }
  }

  lemma {:induction false} ReachesEnd(t: string, i: nat, w: char -> bool)
    requires i <= |t|
    ensures Reaches(t, i, |t|, w)
    decreases |t| - i
  {
    if i < |t| { ReachesEnd(t, Step(t, i, w).1, w); }
  }

  lemma BlankedHead(t: string, i: nat, w: char -> bool)
    requires i < |t| && Step(t, i, w).0 == Blanked
    ensures t[i] == '/' || t[i] == '\''
  {
  }

  lemma BlankedDiffers(t: string, i: nat, j: nat)
    requires i < j <= |t| && (t[i] == '/' || t[i] == '\'')
    ensures Emit(Blanked, t[i..j]) != t[i..j]
  {
    assert Emit(Blanked, t[i..j])[0] == ' ' && t[i..j][0] == t[i];
  }

  /** In lexed text no step blanks anything: a blanking step starts with a `/` or a `'`. */
  lemma CleanStep(t: string, i: nat, w: char -> bool)
    requires i < |t| && Code(t, i, w) == t[i..]
    ensures var (kind, j) := Step(t, i, w); kind != Blanked && Code(t, j, w) == t[j..]
  {
    hide Step, Code;
    var (kind, j) := Step(t, i, w);
    SpanAhead(t, t, i, w);
    assert t[i] == t[i..j][0];
    if kind == Blanked {
      BlankedHead(t, i, w);
      BlankedDiffers(t, i, j);
    }
  }

  lemma {:induction false} CleanAt(t: string, i: nat, p: nat, w: char -> bool)
    requires i <= p <= |t| && Code(t, i, w) == t[i..] && Reaches(t, i, p, w)
    ensures Code(t, p, w) == t[p..] && Mask(t, p, w) == Mask(t, i, w)[p - i..]
    decreases |t| - i
  {
    if i < p {
      var j := Step(t, i, w).1;
      CleanStep(t, i, w);
      ReachesNext(t, i, p, w);
      CleanAt(t, j, p, w);
      Unroll(t, i, w);
    }
  }

  lemma {:induction false} ReachesNext(t: string, i: nat, p: nat, w: char -> bool)
    requires i < p && i < |t| && Reaches(t, i, p, w)
    ensures Step(t, i, w).1 <= p && Reaches(t, Step(t, i, w).1, p, w)
  {
  }

  /** An unmasked position of lexed text is a step of its own. */
  lemma {:induction false} UnmaskedIsStep(t: string, i: nat, p: nat, w: char -> bool)
    requires i <= p < |t| && Code(t, i, w) == t[i..] && !Mask(t, i, w)[p - i]
    ensures Reaches(t, i, p, w) && Reaches(t, i, p + 1, w)
    decreases |t| - i
  {
    hide Step, Code;
    var (kind, j) := Step(t, i, w);
    CleanStep(t, i, w);
    Unroll(t, i, w);
    if p < j {
      assert Fill(kind == Masked, j - i)[p - i] == Mask(t, i, w)[p - i];
      assert j == i + 1;
    } else {
      assert Mask(t, i, w)[p - i] == Mask(t, j, w)[p - j];
      UnmaskedIsStep(t, j, p, w);
    }
  }

  lemma PieceChar(t: string, a: nat, b: nat, k: nat)
    requires a <= k < b <= |t|
    ensures t[a..b][k - a] == t[k]
  {
  }

  lemma PieceBehind(t: string, a: nat, b: nat, i: nat, w: char -> bool)
    requires a <= i < b <= |t| && (a > 0 ==> !w(t[a - 1]))
    ensures WordBefore(t[a..b], i - a, w) <==> WordBefore(t, i, w)
  {
    if i > a { PieceChar(t, a, b, i - 1); }
  }

  lemma PieceSpan(t: string, a: nat, b: nat, i: nat, n: nat)
    requires a <= i && i + n <= b <= |t|
    ensures SameSpan(t, i, t[a..b], i - a, n)
  {
    forall k | i <= k < i + n ensures t[a..b][i - a + (k - i)] == t[k] { PieceChar(t, a, b, k); }
  }

  lemma PieceTame(t: string, a: nat, b: nat, i: nat)
    requires a <= i < b <= |t|
    ensures Tame(t, i, t[a..b], i - a)
  {
    var s, q := t[a..b], i - a;
    PieceChar(t, a, b, i);
    forall k | q < k < |s| ensures i + (k - q) < |t| && s[k] == t[i + (k - q)] {
      PieceChar(t, a, b, a + k);
    }
  }

  /** One step of lexed text is the same step in a piece that contains it. */
  lemma PieceStep(t: string, a: nat, b: nat, i: nat, w: char -> bool)
    requires a <= i < b <= |t| && Step(t, i, w).0 != Blanked && Step(t, i, w).1 <= b
    requires a > 0 ==> !w(t[a - 1])
    ensures Step(t[a..b], i - a, w) == (Step(t, i, w).0, Step(t, i, w).1 - a)
  {
    hide Tame, SameSpan, WordBefore, Step;
    var (kind, j) := Step(t, i, w);
    PieceBehind(t, a, b, i, w);
    if kind == Masked {
      PieceSpan(t, a, b, i, j - i);
      MaskedBehind(t, i, w);
      StringStepSame(t, i, t[a..b], i - a, w);
    } else {
      PieceTame(t, a, b, i);
      if i + 1 < b { PieceChar(t, a, b, i + 1); }
      PlainStepSame(t, i, t[a..b], i - a, w);
    }
  }

  lemma MaskedBehind(t: string, i: nat, w: char -> bool)
    requires i < |t| && Step(t, i, w).0 == Masked
    ensures t[i] != '"' ==> !WordBefore(t, i, w)
  {
  }

  lemma SliceOfSlice<T>(t: seq<T>, a: nat, b: nat, i: nat, j: nat)
    requires a <= i <= j <= b <= |t|
    ensures t[a..b][i - a..j - a] == t[i..j] && t[i..j] + t[j..b] == t[i..b]
  {
    forall k | 0 <= k < j - i ensures t[a..b][i - a..j - a][k] == t[i..j][k] {
      assert t[a..b][i - a + k] == t[a + (i - a + k)];
    }
  }

  lemma PrefixOfSum<T>(x: seq<T>, y: seq<T>, n: nat)
    requires n <= |y|
    ensures (x + y)[..|x| + n] == x + y[..n]
  {
  }

  lemma {:induction false} PieceRelex(t: string, a: nat, b: nat, i: nat, w: char -> bool)
    requires a <= i <= b <= |t| && Code(t, i, w) == t[i..] && Reaches(t, i, b, w)
    requires a > 0 ==> !w(t[a - 1])
    ensures Code(t[a..b], i - a, w) == t[i..b] && Mask(t[a..b], i - a, w) == Mask(t, i, w)[..b - i]
    decreases b - i
  {
    hide Step, Code, Mask, Fill;
    var s := t[a..b];
    if i == b {
      Finished(s, w);
    } else {
      var (kind, j) := Step(t, i, w);
      CleanStep(t, i, w);
      ReachesNext(t, i, b, w);
      PieceStep(t, a, b, i, w);
      PieceRelex(t, a, b, j, w);
      Unroll(s, i - a, w);
      Unroll(t, i, w);
      SliceOfSlice(t, a, b, i, j);
      FillLength(kind == Masked, j - i);
      PrefixOfSum(Fill(kind == Masked, j - i), Mask(t, j, w), b - j);
    }
  }

  lemma FillLength(masked: bool, n: nat)
    ensures |Fill(masked, n)| == n
  {
  }

  lemma UnmaskedBoundaries(t: string, a: nat, b: nat, w: char -> bool)
    requires a <= b <= |t| && Code(t, 0, w) == t[0..]
    requires a > 0 ==> !Mask(t, 0, w)[a - 1]
    requires b < |t| ==> !Mask(t, 0, w)[b]
    ensures Reaches(t, 0, a, w) && Reaches(t, a, b, w)
  {
    hide Step, Code, Mask, Reaches;
    if a > 0 { UnmaskedIsStep(t, 0, a - 1, w); } else { ReachesStart(t, w); }
    if b < |t| { UnmaskedIsStep(t, 0, b, w); } else { ReachesEnd(t, 0, w); }
    ReachesSplit(t, 0, a, b, w);
  }

  lemma DropTake<T>(m: seq<T>, a: nat, b: nat)
    requires a <= b <= |m|
    ensures m[a..][..b - a] == m[a..b]
  {
  }

  /** The same for text already known to be lexed. */
  lemma CleanPiece(t: string, a: nat, b: nat, w: char -> bool)
    requires a <= b <= |t| && Code(t, 0, w) == t[0..]
    requires a > 0 ==> !Mask(t, 0, w)[a - 1] && !w(t[a - 1])
    requires b < |t| ==> !Mask(t, 0, w)[b]
    ensures Code(t[a..b], 0, w) == t[a..b] && Mask(t[a..b], 0, w) == Mask(t, 0, w)[a..b]
  {
    hide Step, Code, Mask, Reaches;
    UnmaskedBoundaries(t, a, b, w);
    CleanAt(t, 0, a, w);
    PieceRelex(t, a, b, a, w);
    DropTake(Mask(t, 0, w), a, b);
  }

  /** What `split_top` relies on: a piece cut out of lexed text between unmasked characters, not
      right behind a word character, lexes again to itself under its part of the mask. */
  lemma PieceLexesToItself(text: string, a: nat, b: nat, w: char -> bool)
    requires OrdinaryWordChars(w) && a <= b <= |text|
    requires a > 0 ==> !Mask(text, 0, w)[a - 1] && !w(Code(text, 0, w)[a - 1])
    requires b < |text| ==> !Mask(text, 0, w)[b]
    ensures var piece := Code(text, 0, w)[a..b];
      Code(piece, 0, w) == piece && Mask(piece, 0, w) == Mask(text, 0, w)[a..b]
  {
    hide Code, Mask;
    LexIdempotent(text, w);
    var t := Code(text, 0, w);
    assert t[0..] == t;
    CleanPiece(Code(text, 0, w), a, b, w);
  }

  lemma ReachesStart(t: string, w: char -> bool)
    ensures Reaches(t, 0, 0, w)
  {
  }
}
