/** The gate of a file on text: predicates as they are printed, laid out, normalised and joined. */
module CfgGate {
  import opened Sequences
  import opened Wrappers
  import opened CfgLexer
  import opened CfgScan
  import opened CfgPredicate
  import opened CfgTokens
  import opened CfgParse

  // ---- the text of a print ----------------------------------------------------------

  function Spell(t: Token): string {
    match t
    case Word(s) => s
    case Quoted(s, _) => s
    case Open => "("
    case Close => ")"
    case Comma => ","
    case Equals => "="
  }

  /** The tokens are what the pattern and the parser make of their own spellings. */
  ghost predicate Spelled(toks: seq<Token>, loads: string -> Option<string>) {
    forall i :: 0 <= i < |toks| ==> Lexeme(Spell(toks[i])) && Classify(Spell(toks[i]), loads) == toks[i]
  }

  lemma SpelledConcat(a: seq<Token>, b: seq<Token>, loads: string -> Option<string>)
    requires Spelled(a, loads) && Spelled(b, loads)
    ensures Spelled(a + b, loads)
  {
    hide Lexeme, Classify;
  }

  /** A quoting that the pattern reads whole and JSON undoes. */
  ghost predicate Quotes(quote: string -> string, loads: string -> Option<string>) {
    forall v :: Lexeme(quote(v)) && quote(v)[0] == '"' && loads(quote(v)) == Some(v)
  }

  /** The leaves are named by identifiers. */
  ghost predicate Named(node: Node)
    decreases node
  {
    match node
    case All(parts) => forall p :: p in parts ==> Named(p)
    case Any(parts) => forall p :: p in parts ==> Named(p)
    case Not(arg) => Named(arg)
    case Leaf(name, _) => name.Word? && Lexeme(name.text) && WordStart(name.text[0])
  }

  lemma {:induction false} NamedIsWellFormed(node: Node)
    requires Named(node)
    ensures WellFormed(node)
    decreases node
  {
    hide Lexeme, WordStart;
    match node
    case All(parts) => forall p | p in parts ensures WellFormed(p) { NamedIsWellFormed(p); }
    case Any(parts) => forall p | p in parts ensures WellFormed(p) { NamedIsWellFormed(p); }
    case Not(arg) => NamedIsWellFormed(arg);
    case Leaf(_, _) =>
  }

  lemma MarksAreSpelled(loads: string -> Option<string>)
    ensures Spelled([Close], loads) && Spelled([Comma], loads)
    ensures forall name :: name == "all" || name == "any" || name == "not" ==> Spelled([Word(name), Open], loads)
  {
    WordsEnd("all");
    WordsEnd("any");
    WordsEnd("not");
  }

  lemma LeafIsSpelled(name: Token, value: Option<string>, quote: string -> string, loads: string -> Option<string>)
    requires Named(Leaf(name, value)) && Quotes(quote, loads)
    ensures Spelled(Print(Leaf(name, value), quote), loads)
  {
    hide BodyEnd, WordEnd;
    assert Classify(name.text, loads) == name;
    if value.Some? {
      var v := quote(value.value);
      assert Lexeme(v) && v[0] == '"' && loads(v) == value;
    }
  }

  lemma {:induction false} PrintIsSpelled(node: Node, quote: string -> string, loads: string -> Option<string>)
    requires Named(node) && Quotes(quote, loads)
    ensures Spelled(Print(node, quote), loads)
    decreases node, 0
  {
    hide Quotes, Spelled, PrintArgs;
    MarksAreSpelled(loads);
    match node
    case All(parts) =>
      PrintArgsAreSpelled(parts, quote, loads);
      SpelledConcat([Word("all"), Open], PrintArgs(parts, quote), loads);
    case Any(parts) =>
      PrintArgsAreSpelled(parts, quote, loads);
      SpelledConcat([Word("any"), Open], PrintArgs(parts, quote), loads);
    case Not(arg) =>
      PrintIsSpelled(arg, quote, loads);
      SpelledConcat([Word("not"), Open], Print(arg, quote), loads);
      SpelledConcat([Word("not"), Open] + Print(arg, quote), [Close], loads);
    case Leaf(name, value) => LeafIsSpelled(name, value, quote, loads);
  }

  lemma {:induction false} PrintArgsAreSpelled(parts: seq<Node>, quote: string -> string,
      loads: string -> Option<string>)
    requires (forall p :: p in parts ==> Named(p)) && Quotes(quote, loads)
    ensures Spelled(PrintArgs(parts, quote), loads)
    decreases parts, 1
  {
    hide Quotes, Spelled, Print, Named;
    MarksAreSpelled(loads);
    if parts != [] {
      PrintIsSpelled(parts[0], quote, loads);
      if |parts| == 1 {
        SpelledConcat(Print(parts[0], quote), [Close], loads);
      } else {
        PrintArgsAreSpelled(parts[1..], quote, loads);
        SpelledConcat(Print(parts[0], quote), [Comma], loads);
        SpelledConcat(Print(parts[0], quote) + [Comma], PrintArgs(parts[1..], quote), loads);
      }
    }
  }

  /** A layout of spelled tokens is read as those tokens. */
  lemma LayoutReads(text: string, toks: seq<Token>, blank: char -> bool, loads: string -> Option<string>)
    requires OrdinaryBlanks(blank) && Spelled(toks, loads) && Laid(text, Map(Spell, toks), blank)
    ensures Tokens(text, blank, loads) == toks
  {
    hide Lexemes, Unread, Laid, OrdinaryBlanks, Classify, Spell, Lexeme;
    ReadsItsLayouts(text, Map(Spell, toks), blank);
  }

  /** On text: however the print of a predicate is laid out, parsing it returns the predicate. */
  lemma TextRoundTrip(node: Node, text: string, quote: string -> string, blank: char -> bool,
      loads: string -> Option<string>)
    requires OrdinaryBlanks(blank) && Named(node) && Quotes(quote, loads)
    requires Laid(text, Map(Spell, Print(node, quote)), blank)
    ensures Parse(Tokens(text, blank, loads)) == Ok(node)
  {
    hide Parse, Print, Tokens, Laid, Spelled, Named, WellFormed, Quotes, OrdinaryBlanks;
    PrintIsSpelled(node, quote, loads);
    LayoutReads(text, Print(node, quote), blank, loads);
    NamedIsWellFormed(node);
    RoundTrip(node, quote);
  }

  // ---- the predicate of an attribute ------------------------------------------------

  predicate Wrapped(body: string, head: string) {
    |body| > |head| && head <= body && Last(body) == ')'
  }

  /** The predicate an attribute body gates by, if any. */
  function PredicateOf(body: string, w: char -> bool, blank: char -> bool): Option<string> {
    if Wrapped(body, "cfg(") then Some(Strip(body[4..|body| - 1], blank))
    else if Wrapped(body, "cfg_attr(") && Parts(body[9..|body| - 1], w, blank) != [] then
      Some(Parts(body[9..|body| - 1], w, blank)[0])
    else None
  }

  /** The body is the head, something, and a parenthesis. */
  lemma WrappedIff(body: string, head: string)
    ensures Wrapped(body, head) <==> exists p :: body == head + (p + [')'])
    ensures Wrapped(body, head) ==> body == head + (body[|head|..|body| - 1] + [')'])
  {
    if Wrapped(body, head) {
      assert body[|head|..] == body[|head|..|body| - 1] + [Last(body)];
    }
  }

  method ReadPredicate(body: string, w: char -> bool, blank: char -> bool) returns (pred: Option<string>)
    ensures pred == PredicateOf(body, w, blank)
  {
    hide Parts;
    if Wrapped(body, "cfg(") {
      return Some(Strip(body[4..|body| - 1], blank));
    }
    if Wrapped(body, "cfg_attr(") {
      var parts := SplitTop(body[9..|body| - 1], w, blank);
      return if parts != [] then Some(parts[0]) else None;
    }
    pred := None;
  }

  /** A comma that could separate, if no parenthesis is open. */
  ghost predicate BareComma(code: string, mask: seq<bool>, i: nat)
    requires i < |code| == |mask|
  {
    code[i] == ',' && !mask[i]
  }

  /** From `start` to `a` there is nothing but white space and bare commas. */
  ghost predicate Nothing(code: string, mask: seq<bool>, blank: char -> bool, start: nat, a: nat)
    requires start <= a <= |code| == |mask|
  {
    forall i :: start <= i < a ==> blank(code[i]) || BareComma(code, mask, i)
  }

  /** `[a, b)` is the first part from `start` on that is not blank: nothing stands before it, it
      begins at the start or behind a comma, and it runs to the first comma that separates, or to
      the end. */
  ghost predicate FirstPart(code: string, mask: seq<bool>, blank: char -> bool, start: nat, a: nat, b: nat)
    requires |code| == |mask|
  {
    && start <= a <= b <= |code| && Nothing(code, mask, blank, start, a)
    && (a > start ==> BareComma(code, mask, a - 1))
    && Whole(code, mask, a, b) && (b < |code| ==> Separates(code, mask, a, b))
    && exists i :: a <= i < b && !blank(code[i])
  }

  /** The first part, stripped. */
  ghost predicate FirstPartIs(code: string, mask: seq<bool>, blank: char -> bool, p: string)
    requires |code| == |mask|
  {
    exists a: nat, b: nat :: FirstPart(code, mask, blank, 0, a, b) && p == Strip(code[a..b], blank)
  }

  lemma {:induction false} StripIsEmptyIff(s: string, blank: char -> bool)
    ensures Strip(s, blank) == [] <==> forall i :: 0 <= i < |s| ==> blank(s[i])
    decreases |s|
  {
    if s != [] {
      if blank(s[0]) {
        StripIsEmptyIff(s[1..], blank);
        assert forall i :: 0 < i < |s| ==> s[i] == s[1..][i - 1];
      } else if blank(Last(s)) {
        StripIsEmptyIff(Front(s), blank);
        assert Front(s)[0] == s[0];
      }
    }
  }

  lemma {:induction false} NothingNests(code: string, mask: seq<bool>, blank: char -> bool, a: nat, b: nat)
    requires a <= b <= |code| == |mask| && OrdinaryBlanks(blank) && Nothing(code, mask, blank, a, b)
    ensures Nesting(code, mask, a, b, '(', ')') == 0
    decreases b - a
  {
    if a < b {
      NothingNests(code, mask, blank, a, b - 1);
      assert blank(code[b - 1]) || BareComma(code, mask, b - 1);
    }
  }

  lemma CommaSeparates(code: string, mask: seq<bool>, blank: char -> bool, a: nat, i: nat)
    requires a <= i < |code| == |mask| && OrdinaryBlanks(blank)
    requires Nothing(code, mask, blank, a, i) && BareComma(code, mask, i)
    ensures Separates(code, mask, a, i)
  {
    NothingNests(code, mask, blank, a, i);
  }

  /** The first span of a tiling is blank, or it is the first part. */
  lemma FirstSpan(code: string, mask: seq<bool>, blank: char -> bool, start: nat, spans: seq<Span>)
    requires start <= |code| == |mask| && OrdinaryBlanks(blank) && Tiles(code, mask, start, spans)
    ensures var e := spans[0].1;
      if Strip(code[start..e], blank) != [] then FirstPart(code, mask, blank, start, start, e)
      else Nothing(code, mask, blank, start, e) && (e < |code| ==> BareComma(code, mask, e))
  {
    hide Nesting, OrdinaryBlanks, Strip;
    var e := spans[0].1;
    StripIsEmptyIff(code[start..e], blank);
    assert forall i :: start <= i < e ==> code[start..e][i - start] == code[i];
    if Strip(code[start..e], blank) != [] {
      var i :| 0 <= i < e - start && !blank(code[start..e][i]);
      assert !blank(code[start + i]);
    }
  }

  lemma NothingTwice(code: string, mask: seq<bool>, blank: char -> bool, start: nat, e: nat, a: nat)
    requires start <= e < a <= |code| == |mask|
    requires Nothing(code, mask, blank, start, e) && BareComma(code, mask, e) && Nothing(code, mask, blank, e + 1, a)
    ensures Nothing(code, mask, blank, start, a)
  {
    hide BareComma;
    forall i | start <= i < a ensures blank(code[i]) || BareComma(code, mask, i) {
      if i == e { assert BareComma(code, mask, i); }
    }
  }

  lemma KeptUnfolds(code: string, spans: seq<Span>, blank: char -> bool)
    requires spans != [] && forall s <- spans :: s.0 <= s.1 <= |code|
    ensures var piece := Strip(code[spans[0].0..spans[0].1], blank);
      Kept(code, spans, blank) == if piece == [] then Kept(code, spans[1..], blank) else [piece] + Kept(code, spans[1..], blank)
  {
    assert [] + Kept(code, spans[1..], blank) == Kept(code, spans[1..], blank);
  }

  /** What is kept first of a tiling is its first part; nothing is kept if there is none. */
  lemma {:induction false} KeptFirst(code: string, mask: seq<bool>, blank: char -> bool, start: nat, spans: seq<Span>)
    returns (a: nat, b: nat)
    requires start <= |code| == |mask| && OrdinaryBlanks(blank) && Tiles(code, mask, start, spans)
    requires forall s <- spans :: s.0 <= s.1 <= |code|
    ensures if Kept(code, spans, blank) == [] then Nothing(code, mask, blank, start, |code|)
            else FirstPart(code, mask, blank, start, a, b) && Kept(code, spans, blank)[0] == Strip(code[a..b], blank)
    decreases |spans|
  {
    hide Separates, Whole, OrdinaryBlanks, Strip, Kept, FirstPart;
    var e := spans[0].1;
    FirstSpan(code, mask, blank, start, spans);
    KeptUnfolds(code, spans, blank);
    a, b := start, e;
    if Strip(code[start..e], blank) == [] {
      if |spans| > 1 {
        a, b := KeptFirst(code, mask, blank, e + 1, spans[1..]);
        PartBehind(code, mask, blank, start, e, a, b);
      } else {
        NothingKept(code, blank);
      }
    }
  }

  lemma NothingKept(code: string, blank: char -> bool)
    ensures Kept(code, [], blank) == []
  {
  }

  lemma PartBehind(code: string, mask: seq<bool>, blank: char -> bool, start: nat, e: nat, a: nat, b: nat)
    requires start <= e < |code| == |mask| && Nothing(code, mask, blank, start, e) && BareComma(code, mask, e)
    ensures FirstPart(code, mask, blank, e + 1, a, b) ==> FirstPart(code, mask, blank, start, a, b)
    ensures Nothing(code, mask, blank, e + 1, |code|) ==> Nothing(code, mask, blank, start, |code|)
  {
    hide Separates, Whole, BareComma, Nothing;
    if FirstPart(code, mask, blank, e + 1, a, b) { NothingTwice(code, mask, blank, start, e, a); }
    if Nothing(code, mask, blank, e + 1, |code|) { NothingTwice(code, mask, blank, start, e, |code|); }
  }

  /** There is at most one first part, and none where there is nothing. */
  lemma FirstPartIsUnique(code: string, mask: seq<bool>, blank: char -> bool, a: nat, b: nat, a': nat, b': nat)
    requires |code| == |mask| && OrdinaryBlanks(blank)
    requires FirstPart(code, mask, blank, 0, a, b) && FirstPart(code, mask, blank, 0, a', b')
    ensures a == a' && b == b'
  {
    if a != a' {
      FirstPartsClash(code, mask, blank, if a < a' then a else a', if a < a' then b else b', if a < a' then a' else a);
    }
  }

  lemma FirstPartsClash(code: string, mask: seq<bool>, blank: char -> bool, a: nat, b: nat, a': nat)
    requires |code| == |mask| && OrdinaryBlanks(blank) && a < a' <= |code| && FirstPart(code, mask, blank, 0, a, b)
    requires BareComma(code, mask, a' - 1)
    ensures !Nothing(code, mask, blank, 0, a')
  {
    hide Nesting;
    if Nothing(code, mask, blank, 0, a') {
      var i :| a <= i < b && !blank(code[i]);
      var end := if i < a' then i else a' - 1;
      CommaSeparates(code, mask, blank, a, end);
    }
  }

  /** The predicate of an attribute body.  `cfg(P)` gives `P`, stripped; `cfg_attr(...)` gives
      what it holds up to the first separating comma, stripped, blank parts passed over, and none
      if there is nothing; any other body gives none. */
  lemma PredicateIs(body: string, w: char -> bool, blank: char -> bool, pred: Option<string>)
    requires OrdinaryBlanks(blank)
    ensures PredicateOf(body, w, blank) == pred <==>
      if Wrapped(body, "cfg(") then pred == Some(Strip(body[4..|body| - 1], blank))
      else if Wrapped(body, "cfg_attr(") then
        var inner := body[9..|body| - 1];
        var code, mask := Code(inner, 0, w), Mask(inner, 0, w);
        if pred.Some? then FirstPartIs(code, mask, blank, pred.value) else Nothing(code, mask, blank, 0, |code|)
      else pred == None
  {
    hide Code, Mask, Kept, OrdinaryBlanks, Strip, Nothing, SpansFrom;
    if !Wrapped(body, "cfg(") && Wrapped(body, "cfg_attr(") {
      var inner := body[9..|body| - 1];
      var code, mask := Code(inner, 0, w), Mask(inner, 0, w);
      var spans := Spans(code, mask);
      SplitsExactlyAtSeparators(code, mask, spans);
      TilesAreSpans(code, mask, 0, spans);
      var a, b := KeptFirst(code, mask, blank, 0, spans);
      if Kept(code, spans, blank) != [] {
        PartIsNotNothing(code, mask, blank, a, b);
        if pred.Some? && FirstPartIs(code, mask, blank, pred.value) {
          var a': nat, b': nat :| FirstPart(code, mask, blank, 0, a', b') && pred.value == Strip(code[a'..b'], blank);
          FirstPartIsUnique(code, mask, blank, a, b, a', b');
        }
      } else {
        forall a': nat, b': nat ensures !FirstPart(code, mask, blank, 0, a', b') {
          NothingIsNoPart(code, mask, blank, a', b');
        }
      }
    }
  }

  lemma PartIsNotNothing(code: string, mask: seq<bool>, blank: char -> bool, a: nat, b: nat)
    requires |code| == |mask| && OrdinaryBlanks(blank) && FirstPart(code, mask, blank, 0, a, b)
    ensures !Nothing(code, mask, blank, 0, |code|)
  {
    hide Nesting;
    if Nothing(code, mask, blank, 0, |code|) {
      var i :| a <= i < b && !blank(code[i]);
      CommaSeparates(code, mask, blank, a, i);
    }
  }

  lemma NothingIsNoPart(code: string, mask: seq<bool>, blank: char -> bool, a: nat, b: nat)
    requires |code| == |mask| && OrdinaryBlanks(blank) && Nothing(code, mask, blank, 0, |code|)
    ensures !FirstPart(code, mask, blank, 0, a, b)
  {
    hide Nothing, FirstPart, OrdinaryBlanks;
    if FirstPart(code, mask, blank, 0, a, b) { PartIsNotNothing(code, mask, blank, a, b); }
  }

  const CFG_ATTR := "cfg_attr("

  /** No string opens before the parenthesis of `cfg_attr(`. */
  lemma {:induction false} PlainHead(body: string, i: nat, w: char -> bool)
    requires CFG_ATTR <= body && i < |CFG_ATTR|
    ensures !Mask(body, i, w)[|CFG_ATTR| - 1 - i]
    decreases |CFG_ATTR| - i
  {
    assert body[i] == CFG_ATTR[i];
    if i + 1 < |CFG_ATTR| { assert body[i + 1] == CFG_ATTR[i + 1]; }
    assert Step(body, i, w) == (Plain, i + 1);
    hide Step, Code;
    Unroll(body, i, w);
    if i + 1 < |CFG_ATTR| { PlainHead(body, i + 1, w); }
  }

  /** In an attribute as a lexed file has it, its last parenthesis outside strings, all this is said
      of the attribute's own text and mask. */
  lemma PredicateOfLexed(body: string, w: char -> bool, blank: char -> bool, pred: Option<string>)
    requires OrdinaryBlanks(blank) && !w('(') && Code(body, 0, w) == body
    requires Wrapped(body, CFG_ATTR) && !Mask(body, 0, w)[|body| - 1]
    ensures var inner, mask := body[|CFG_ATTR|..|body| - 1], Mask(body, 0, w)[|CFG_ATTR|..|body| - 1];
      PredicateOf(body, w, blank) == pred <==>
        if pred.Some? then FirstPartIs(inner, mask, blank, pred.value) else Nothing(inner, mask, blank, 0, |inner|)
  {
    hide Code, Mask, FirstPartIs, Nothing, PredicateOf;
    assert body[0..] == body;
    PlainHead(body, 0, w);
    assert body[3] == CFG_ATTR[3] && body[|CFG_ATTR| - 1] == CFG_ATTR[|CFG_ATTR| - 1];
    CleanPiece(body, |CFG_ATTR|, |body| - 1, w);
    PredicateIs(body, w, blank, pred);
  }

  /** So `cfg_attr(P, ...)` gives `P` stripped, if `P` holds something and the comma behind it is the
      first that separates. */
  lemma PredicateOfCfgAttr(body: string, n: nat, w: char -> bool, blank: char -> bool)
    requires OrdinaryBlanks(blank) && !w('(') && Code(body, 0, w) == body
    requires Wrapped(body, CFG_ATTR) && !Mask(body, 0, w)[|body| - 1] && n <= |body| - 1 - |CFG_ATTR|
    requires var inner, mask := body[|CFG_ATTR|..|body| - 1], Mask(body, 0, w)[|CFG_ATTR|..|body| - 1];
      && Whole(inner, mask, 0, n) && (n < |inner| ==> Separates(inner, mask, 0, n))
      && exists i :: 0 <= i < n && !blank(inner[i])
    ensures PredicateOf(body, w, blank) == Some(Strip(body[|CFG_ATTR|..|CFG_ATTR| + n], blank))
  {
    hide Code, Mask, PredicateOf, Strip, Whole, Separates;
    var inner, mask := body[|CFG_ATTR|..|body| - 1], Mask(body, 0, w)[|CFG_ATTR|..|body| - 1];
    assert FirstPart(inner, mask, blank, 0, 0, n);
    assert inner[0..n] == body[|CFG_ATTR|..|CFG_ATTR| + n];
    PredicateOfLexed(body, w, blank, Some(Strip(inner[0..n], blank)));
  }

  // ---- the gate of a file -----------------------------------------------------------

  /** The attribute is an inner one, with nothing but white space between `pos` and it. */
  ghost predicate Continues(text: string, pos: nat, a: Attribute, blank: char -> bool) {
    && pos <= a.offset && a.offset + 1 < |text| && text[a.offset + 1] == '!'
    && forall k :: pos <= k < a.offset ==> blank(text[k])
  }

  function EndBefore(attrs: seq<Attribute>, k: nat): nat
    requires k <= |attrs|
  {
    if k == 0 then 0 else attrs[k - 1].close + 1
  }

  /** Between the bracket that closes the attribute before it, or the top of the file, and an
      attribute that continues the prologue there is only white space, and a `!` follows its `#`. */
  lemma PrologueIff(text: string, attrs: seq<Attribute>, k: nat, blank: char -> bool)
    requires k < |attrs| && attrs[k].offset < |text|
    ensures Continues(text, EndBefore(attrs, k), attrs[k], blank) <==>
      && (k > 0 ==> attrs[k - 1].close < attrs[k].offset)
      && (forall i :: 0 <= i < attrs[k].offset && (k > 0 ==> i > attrs[k - 1].close) ==> blank(text[i]))
      && attrs[k].offset + 1 < |text| && text[attrs[k].offset + 1] == '!'
  {
  }

  /** The body of an attribute, stripped. */
  function BodyOf(text: string, a: Attribute, blank: char -> bool): string {
    if a.open + 1 <= a.close <= |text| then Strip(text[a.open + 1..a.close], blank) else []
  }

  /** The predicates the attributes gate by, in order. */
  function Predicates(text: string, attrs: seq<Attribute>, w: char -> bool, blank: char -> bool): seq<string> {
    if attrs == [] then []
    else
      Predicates(text, Front(attrs), w, blank)
      + match PredicateOf(BodyOf(text, Last(attrs), blank), w, blank) case Some(p) => [p] case None => []
  }

  function Normalised(text: string, attrs: seq<Attribute>, w: char -> bool, blank: char -> bool): seq<string> {
    Map(p => Normalise(p, blank), Predicates(text, attrs, w, blank))
  }

  lemma OneMorePredicate(text: string, attrs: seq<Attribute>, n: nat, w: char -> bool, blank: char -> bool)
    requires n < |attrs|
    ensures Normalised(text, attrs[..n + 1], w, blank) == Normalised(text, attrs[..n], w, blank)
      + match PredicateOf(BodyOf(text, attrs[n], blank), w, blank) case Some(p) => [Normalise(p, blank)] case None => []
  {
    hide PredicateOf, BodyOf, Normalise;
    assert Front(attrs[..n + 1]) == attrs[..n] && Last(attrs[..n + 1]) == attrs[n];
    var f := p => Normalise(p, blank);
    var found := PredicateOf(BodyOf(text, attrs[n], blank), w, blank);
    MapConcat(f, Predicates(text, attrs[..n], w, blank), match found case Some(p) => [p] case None => []);
    if found.Some? { assert Map(f, [found.value]) == [Normalise(found.value, blank)]; }
  }

  /** `", ".join` from the `k`-th part on, and the closing parenthesis. */
  function JoinText(parts: seq<string>, k: nat): string
    requires k < |parts|
    decreases |parts| - k
  {
    if k == |parts| - 1 then parts[k] + ")" else parts[k] + ("," + (" " + JoinText(parts, k + 1)))
  }

  function GateText(parts: seq<string>): Option<string> {
    if parts == [] then None
    else if |parts| == 1 then Some(parts[0])
    else Some("all(" + JoinText(parts, 0))
  }

  /** The predicates of one more attribute: that of the text between its brackets, stripped. */
  lemma PredicatesSnoc(text: string, attrs: seq<Attribute>, a: Attribute, w: char -> bool, blank: char -> bool)
    requires a.open < a.close < |text|
    ensures Predicates(text, [], w, blank) == []
    ensures var found := PredicateOf(Strip(text[a.open + 1..a.close], blank), w, blank);
      Predicates(text, attrs + [a], w, blank) == Predicates(text, attrs, w, blank) + if found.Some? then [found.value] else []
  {
    hide PredicateOf, Strip;
    assert Front(attrs + [a]) == attrs;
  }

  /** No part has no gate, one part is the gate, and two stand behind `all(` with a comma and a
      space between them and a closing parenthesis behind them. */
  lemma GateTextFirst(a: string, b: string)
    ensures GateText([]) == None && GateText([a]) == Some(a)
    ensures GateText([a, b]) == Some(['a', 'l', 'l', '('] + (a + ([',', ' '] + (b + [')']))))
  {
    assert JoinText([a, b], 1) == b + ")";
    assert JoinText([a, b], 0) == a + ("," + (" " + (b + ")")));
    assert "," + (" " + (b + ")")) == [',', ' '] + (b + [')']);
  }

  /** One part more goes, behind a comma and a space, before that parenthesis. */
  lemma GateTextSnoc(parts: seq<string>, b: string)
    requires |parts| >= 2
    ensures GateText(parts).Some? && GateText(parts).value != []
    ensures GateText(parts + [b]) == Some(Front(GateText(parts).value) + ([',', ' '] + b + [')']))
  {
    JoinTextSnoc(parts, 0, b);
    var all, text, more := "all(", JoinText(parts, 0), [',', ' '] + b + [')'];
    hide JoinText;
    assert Front(all + text) == all + Front(text);
    assert all + (Front(text) + more) == (all + Front(text)) + more;
  }

  lemma {:induction false} JoinTextSnoc(parts: seq<string>, k: nat, b: string)
    requires k < |parts|
    ensures JoinText(parts, k) != []
    ensures JoinText(parts + [b], k) == Front(JoinText(parts, k)) + ([',', ' '] + b + [')'])
    decreases |parts| - k
  {
    var longer := parts + [b];
    assert longer[k] == parts[k];
    if k == |parts| - 1 {
      assert JoinText(longer, k + 1) == b + ")";
      assert Front(parts[k] + ")") == parts[k];
    } else {
      JoinTextSnoc(parts, k + 1, b);
      var more := JoinText(parts, k + 1);
      var last := [',', ' '] + b + [')'];
      assert Front(parts[k] + ("," + (" " + more))) == parts[k] + ("," + (" " + Front(more)));
      assert parts[k] + ("," + (" " + (Front(more) + last))) == parts[k] + ("," + (" " + Front(more))) + last;
    }
  }

  method Follows(text: string, pos: nat, a: Attribute, blank: char -> bool) returns (ok: bool)
    requires pos <= a.offset && a.offset + 1 < |text|
    ensures ok <==> Continues(text, pos, a, blank)
  {
    var k := pos;
    while k < a.offset && blank(text[k])
      invariant pos <= k <= a.offset && forall i :: pos <= i < k ==> blank(text[i])
    {
      k := k + 1;
    }
    ok := k == a.offset && text[k + 1] == '!';
  }

  /** `crate_gate`: the first `n` attributes are the longest run of inner ones from the top of the
      file with nothing but white space before and between them; the gate is the text of their
      predicates, normalised and joined. */
  method CrateGate(text: string, mask: seq<bool>, w: char -> bool, blank: char -> bool)
    returns (gate: Option<string>, attrs: seq<Attribute>, n: nat)
    requires |text| == |mask| && BracketsBare(text, mask)
    ensures attrs == AttributesFrom(text, mask, 0) && n <= |attrs|
    ensures forall k :: 0 <= k < n ==> Continues(text, EndBefore(attrs, k), attrs[k], blank)
    ensures n < |attrs| ==> !Continues(text, EndBefore(attrs, n), attrs[n], blank)
    ensures gate == GateText(Normalised(text, attrs[..n], w, blank))
  {
    hide AttributesFrom, InOrder, BracketsBare, Continues, PredicateOf, Strip, Normalise, Normalised, GateText;
    attrs := Attributes(text, mask);
    AttributesInOrder(text, mask, 0);
    n := 0;
    var parts: seq<string> := [];
    NoPredicates(text, w, blank);
    while n < |attrs|
      invariant n <= |attrs|
      invariant forall k :: 0 <= k < n ==> Continues(text, EndBefore(attrs, k), attrs[k], blank)
      invariant parts == Normalised(text, attrs[..n], w, blank)
      decreases |attrs| - n
    {
      KthInOrder(text, mask, 0, attrs, n);
      if n > 0 { Apart(text, mask, 0, attrs, n); }
      var ok := Follows(text, EndBefore(attrs, n), attrs[n], blank);
      if !ok { break; }
      OneMorePredicate(text, attrs, n, w, blank);
      var pred := ReadPredicate(BodyOf(text, attrs[n], blank), w, blank);
      if pred.Some? {
        parts := parts + [Normalise(pred.value, blank)];
      }
      n := n + 1;
    }
    gate := GateText(parts);
  }

  lemma NoPredicates(text: string, w: char -> bool, blank: char -> bool)
    ensures Normalised(text, [], w, blank) == []
  {
  }

  // ---- what the gate means ----------------------------------------------------------

  /** The pattern reads the text to its end. */
  predicate ReadWhole(s: string, blank: char -> bool) {
    Unread(s, blank) == []
  }

  lemma TokensConcat(s: string, rest: string, blank: char -> bool, loads: string -> Option<string>)
    requires OrdinaryBlanks(blank) && ReadWhole(s, blank) && (rest == [] || !WordChar(rest[0]))
    ensures Tokens(s + rest, blank, loads) == Tokens(s, blank, loads) + Tokens(rest, blank, loads)
  {
    hide Lexemes, Unread, OrdinaryBlanks;
    LexemesConcat(s, rest, blank);
    MapConcat(l => Classify(l, loads), Lexemes(s, blank), Lexemes(rest, blank));
  }

  lemma TokenThenRest(l: string, rest: string, blank: char -> bool, loads: string -> Option<string>)
    requires OrdinaryBlanks(blank) && Lexeme(l) && Parted(l, rest)
    ensures Tokens(l + rest, blank, loads) == [Classify(l, loads)] + Tokens(rest, blank, loads)
  {
    hide Lexemes, Unread, OrdinaryBlanks, Classify;
    LexemeThenRest(l, rest, blank);
    var f := l => Classify(l, loads);
    MapConcat(f, [l], Lexemes(rest, blank));
    assert Map(f, [l]) == [Classify(l, loads)];
  }

  lemma CommaFirst(s: string, blank: char -> bool, loads: string -> Option<string>)
    requires OrdinaryBlanks(blank)
    ensures Tokens("," + (" " + s), blank, loads) == [Comma] + Tokens(s, blank, loads)
  {
    assert Lexeme(",");
    hide Tokens, Lexeme;
    TokenThenRest(",", " " + s, blank, loads);
    SpaceFirst(s, blank, loads);
  }

  lemma AllOpens(s: string, blank: char -> bool, loads: string -> Option<string>)
    requires OrdinaryBlanks(blank)
    ensures Tokens("all(" + s, blank, loads) == [Word("all"), Open] + Tokens(s, blank, loads)
  {
    WordsEnd("all");
    assert Lexeme("(") && Lexeme("all") && Classify("(", loads) == Open && Classify("all", loads) == Word("all");
    assert Parted("all", "(" + s) && Parted("(", s);
    hide Tokens, Lexeme, Classify, Parted;
    assert "all(" + s == "all" + ("(" + s);
    TokenThenRest("all", "(" + s, blank, loads);
    TokenThenRest("(", s, blank, loads);
    assert [Word("all")] + ([Open] + Tokens(s, blank, loads)) == [Word("all"), Open] + Tokens(s, blank, loads);
  }

  /** The joined text is read as the parts' tokens with commas between them. */
  lemma {:induction false} JoinTextReads(parts: seq<string>, k: nat, blank: char -> bool,
      loads: string -> Option<string>)
    requires OrdinaryBlanks(blank) && k < |parts| && forall p <- parts :: ReadWhole(p, blank)
    ensures Tokens(JoinText(parts, k), blank, loads) == JoinRest(Map(p => Tokens(p, blank, loads), parts), k)
    decreases |parts| - k
  {
    assert Lexeme(")");
    assert Trim([], blank) == [] && Tokens([], blank, loads) == [];
    hide Tokens, ReadWhole, Lexeme;
    if k == |parts| - 1 {
      TokensConcat(parts[k], ")", blank, loads);
      TokenThenRest(")", [], blank, loads);
      assert ")" + [] == ")" && [Close] + [] == [Close];
    } else {
      var more := JoinText(parts, k + 1);
      var rest := "," + (" " + more);
      JoinTextReads(parts, k + 1, blank, loads);
      TokensConcat(parts[k], rest, blank, loads);
      CommaFirst(more, blank, loads);
      ConcatThree(Tokens(parts[k], blank, loads), [Comma], Tokens(more, blank, loads));
    }
  }

  lemma SpaceFirst(s: string, blank: char -> bool, loads: string -> Option<string>)
    requires blank(' ')
    ensures Tokens(" " + s, blank, loads) == Tokens(s, blank, loads)
  {
    assert (" " + s)[1..] == s;
    TrimFirst(s, blank);
    TrimFirst(" " + s, blank);
  }

  /** So the gate's text is read as the gates joined token by token. */
  lemma GateReads(parts: seq<string>, blank: char -> bool, loads: string -> Option<string>)
    requires OrdinaryBlanks(blank) && parts != [] && forall p <- parts :: ReadWhole(p, blank)
    ensures GateTokens(Map(p => Tokens(p, blank, loads), parts)) == Some(Tokens(GateText(parts).value, blank, loads))
  {
    hide ReadWhole, Tokens;
    if |parts| > 1 {
      JoinTextReads(parts, 0, blank, loads);
      AllOpens(JoinText(parts, 0), blank, loads);
    }
  }

  /** A predicate read to its end as it is written is so once normalised; and it has the same tokens
      if its quoted text holds no white space but single spaces. */
  lemma NormalisedIsRead(pred: string, blank: char -> bool, loads: string -> Option<string>)
    requires OrdinaryBlanks(blank) && ReadWhole(pred, blank)
    ensures ReadWhole(Normalise(pred, blank), blank)
    ensures (forall l <- Lexemes(pred, blank) :: Collapse(l, blank) == l) ==>
      Tokens(Normalise(pred, blank), blank, loads) == Tokens(pred, blank, loads)
  {
    NormalisedLexemes(pred, blank);
    assert Normalise([], blank) == [];
    CollapseNothing(blank);
    NormalisingIsHarmlessIff(pred, blank);
  }

  /** The conjunction of the predicates of a file. */
  function Conjunction(nodes: seq<Node>): Node
    requires nodes != []
  {
    if |nodes| == 1 then nodes[0] else All(nodes)
  }

  /** The gate's text is read as the tokens of the normalised predicates, joined. */
  lemma GateIsRead(preds: seq<string>, nodes: seq<Node>, blank: char -> bool, loads: string -> Option<string>)
    returns (toks: seq<seq<Token>>)
    requires OrdinaryBlanks(blank) && |preds| == |nodes| > 0
    requires forall k :: 0 <= k < |preds| ==> ReadWhole(Normalise(preds[k], blank), blank)
    requires forall k :: 0 <= k < |preds| ==> Parse(Tokens(Normalise(preds[k], blank), blank, loads)) == Ok(nodes[k])
    ensures Separately(toks, nodes) && forall k :: 0 <= k < |toks| ==> toks[k] == Tokens(Normalise(preds[k], blank), blank, loads)
    ensures GateTokens(toks) == Some(Tokens(GateText(Map(p => Normalise(p, blank), preds)).value, blank, loads))
  {
    hide ReadWhole, Parse, Tokens, Normalise, GateText, GateTokens;
    var parts := Map(p => Normalise(p, blank), preds);
    toks := Map(p => Tokens(p, blank, loads), parts);
    GateReads(parts, blank, loads);
  }

  /** Reading stops before the end, and not at a quote that nothing closes. */
  predicate StopsShort(s: string, blank: char -> bool) {
    Unread(s, blank) != [] && Unread(s, blank)[0] != '"'
  }

  lemma TokensStop(s: string, rest: string, blank: char -> bool, loads: string -> Option<string>)
    requires OrdinaryBlanks(blank) && StopsShort(s, blank) && (rest == [] || !WordChar(rest[0]))
    ensures Tokens(s + rest, blank, loads) == Tokens(s, blank, loads)
  {
    hide Lexemes, Unread, OrdinaryBlanks;
    LexemesStop(s, rest, blank);
  }

  /** A joined text is read up to the part at which reading stops short. */
  lemma {:induction false} JoinTextStops(parts: seq<string>, k: nat, last: nat, blank: char -> bool,
      loads: string -> Option<string>)
    requires OrdinaryBlanks(blank) && k <= last < |parts|
    requires (forall i :: 0 <= i < last ==> ReadWhole(parts[i], blank)) && StopsShort(parts[last], blank)
    ensures Tokens(JoinText(parts, k), blank, loads) == OpenRest(Map(p => Tokens(p, blank, loads), parts[..last + 1]), k)
    decreases |parts| - k
  {
    hide Tokens, ReadWhole, StopsShort, OrdinaryBlanks;
    var toks := Map(p => Tokens(p, blank, loads), parts[..last + 1]);
    assert parts[..last + 1][k] == parts[k];
    assert toks[k] == Tokens(parts[k], blank, loads);
    if k == last {
      TokensStop(parts[k], if k == |parts| - 1 then ")" else "," + (" " + JoinText(parts, k + 1)), blank, loads);
    } else {
      var more := JoinText(parts, k + 1);
      JoinTextStops(parts, k + 1, last, blank, loads);
      TokensConcat(parts[k], "," + (" " + more), blank, loads);
      CommaFirst(more, blank, loads);
      ConcatThree(toks[k], [Comma], Tokens(more, blank, loads));
    }
  }

  lemma {:induction false} FirstShort(parts: seq<string>, n: nat, blank: char -> bool) returns (last: nat)
    requires n <= |parts| && exists k :: 0 <= k < n && !ReadWhole(parts[k], blank)
    ensures last < n && !ReadWhole(parts[last], blank) && forall i :: 0 <= i < last ==> ReadWhole(parts[i], blank)
  {
    if k :| 0 <= k < n - 1 && !ReadWhole(parts[k], blank) {
      last := FirstShort(parts, n - 1, blank);
    } else {
      last := n - 1;
    }
  }

  /** So a gate joined of such parts is not the conjunction. */
  lemma ShortGate(parts: seq<string>, nodes: seq<Node>, last: nat, blank: char -> bool, loads: string -> Option<string>)
    requires OrdinaryBlanks(blank) && last < |parts| == |nodes| && |parts| > 1
    requires (forall i :: 0 <= i < last ==> ReadWhole(parts[i], blank)) && StopsShort(parts[last], blank)
    requires forall k :: 0 <= k < |parts| ==> Parse(Tokens(parts[k], blank, loads)) == Ok(nodes[k])
    ensures Parse(Tokens(GateText(parts).value, blank, loads)) != Ok(All(nodes))
  {
    hide Tokens, Parse, ReadWhole, StopsShort, OrdinaryBlanks, OpenRest, JoinText;
    var toks := Map(p => Tokens(p, blank, loads), parts[..last + 1]);
    JoinTextStops(parts, 0, last, blank, loads);
    AllOpens(JoinText(parts, 0), blank, loads);
    forall i | 0 <= i < |toks| ensures Parse(toks[i]) == Ok(nodes[i]) {
      assert toks[i] == Tokens(parts[i], blank, loads);
    }
    OpenGate(toks, nodes);
  }

  /** From the predicates of a file, none ending in an unclosed quote once normalised: the text of
      the gate parses to their conjunction exactly when there is but one, or all are read to their
      end and none would be misread between commas. */
  lemma GateIsTheConjunction(preds: seq<string>, nodes: seq<Node>, blank: char -> bool, loads: string -> Option<string>)
    requires OrdinaryBlanks(blank) && |preds| == |nodes| > 0
    requires forall k :: 0 <= k < |preds| ==> var p := Normalise(preds[k], blank);
      (ReadWhole(p, blank) || StopsShort(p, blank)) && Parse(Tokens(p, blank, loads)) == Ok(nodes[k])
    ensures var gate := GateText(Map(p => Normalise(p, blank), preds)).value;
      Parse(Tokens(gate, blank, loads)) == Ok(Conjunction(nodes))
      <==> |preds| == 1 || forall k :: 0 <= k < |preds| ==>
        var p := Normalise(preds[k], blank); ReadWhole(p, blank) && !Misread(Tokens(p, blank, loads))
  {
    hide ReadWhole, StopsShort, Parse, Tokens, Normalise, Misread, JoinGates;
    var parts := Map(p => Normalise(p, blank), preds);
    if exists k :: 0 <= k < |parts| && !ReadWhole(parts[k], blank) {
      var last := FirstShort(parts, |parts|, blank);
      if |parts| > 1 { ShortGate(parts, nodes, last, blank, loads); }
    } else {
      assert forall k :: 0 <= k < |preds| ==> ReadWhole(Normalise(preds[k], blank), blank) by {
        forall k | 0 <= k < |preds| ensures ReadWhole(Normalise(preds[k], blank), blank) {
          assert ReadWhole(parts[k], blank);
        }
      }
      var toks := GateIsRead(preds, nodes, blank, loads);
      if |preds| > 1 { JoinedGates(toks, nodes); }
    }
  }

  /** And then it decides a leg as all of them together do. */
  lemma GateDecidesTogether(preds: seq<string>, nodes: seq<Node>, leg: Leg, blank: char -> bool,
      loads: string -> Option<string>)
    requires OrdinaryBlanks(blank) && |preds| == |nodes| > 0
    requires forall k :: 0 <= k < |preds| ==> ReadWhole(Normalise(preds[k], blank), blank)
    requires forall k :: 0 <= k < |preds| ==> Parse(Tokens(Normalise(preds[k], blank), blank, loads)) == Ok(nodes[k])
    requires |preds| == 1 || forall k :: 0 <= k < |preds| ==> !Misread(Tokens(Normalise(preds[k], blank), blank, loads))
    ensures var gate := Parse(Tokens(GateText(Map(p => Normalise(p, blank), preds)).value, blank, loads));
      gate.Ok? && Evaluate(gate.value, leg) == Least(nodes, leg)
  {
    hide ReadWhole, Parse, Tokens, Normalise, Misread, GateTokens;
    var toks := GateIsRead(preds, nodes, blank, loads);
    CrateGateIsConjunction(toks, nodes, leg);
  }
}
