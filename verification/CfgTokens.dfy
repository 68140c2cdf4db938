/** The token pattern of the predicate reader, on text: what it reads, of which layouts, and what
    normalising the white space of a predicate changes. */
module CfgTokens {
  import opened Sequences
  import opened Wrappers
  import opened CfgPredicate
  import S = CfgSpans

  predicate WordStart(c: char) {
    'a' <= c <= 'z' || 'A' <= c <= 'Z' || c == '_'
  }

  predicate WordChar(c: char) {
    WordStart(c) || '0' <= c <= '9' || c == '-'
  }

  predicate Mark(c: char) {
    c == '(' || c == ')' || c == ',' || c == '='
  }

  /** What is assumed of white space: a space is, and nothing the pattern names is. */
  ghost predicate OrdinaryBlanks(blank: char -> bool) {
    blank(' ') && forall c :: WordChar(c) || Mark(c) || c == '"' || c == '\\' ==> !blank(c)
  }

  function WordEnd(s: string): (n: nat)
    ensures n <= |s|
  {
    if s != [] && WordChar(s[0]) then 1 + WordEnd(s[1..]) else 0
  }

  /** Past the closing quote of a body, or 0 if it is not closed; a backslash takes any character
      but a newline with it. */
  function BodyEnd(s: string): (n: nat)
    ensures n <= |s|
  {
    if s == [] then 0
    else if s[0] == '"' then 1
    else
      var k := if s[0] == '\\' then 2 else 1;
      if k > |s| || (k == 2 && s[1] == '\n') || BodyEnd(s[k..]) == 0 then 0 else k + BodyEnd(s[k..])
  }

  /** The length of the word, quoted text or mark that begins the text, or 0. */
  function LexemeEnd(s: string): (n: nat)
    ensures n <= |s|
  {
    if s == [] then 0
    else if WordStart(s[0]) then WordEnd(s)
    else if s[0] == '"' then if BodyEnd(s[1..]) == 0 then 0 else 1 + BodyEnd(s[1..])
    else if Mark(s[0]) then 1
    else 0
  }

  /** The matches of the pattern, one behind the other, up to the first that fails. */
  function Lexemes(s: string, blank: char -> bool): seq<string>
    decreases |s|
  {
    var t := Trim(s, blank);
    var n := LexemeEnd(t);
    if n == 0 then [] else [t[..n]] + Lexemes(t[n..], blank)
  }

  /** What is left where the pattern fails; nothing, if the text is read to its end. */
  function Unread(s: string, blank: char -> bool): string
    decreases |s|
  {
    var t := Trim(s, blank);
    var n := LexemeEnd(t);
    if n == 0 then t else Unread(t[n..], blank)
  }

  /** A lexeme as the parser takes it; `loads` is `json.loads` of a quoted one. */
  function Classify(l: string, loads: string -> Option<string>): Token {
    if l == "(" then Open
    else if l == ")" then Close
    else if l == "," then Comma
    else if l == "=" then Equals
    else if l != [] && l[0] == '"' then Quoted(l, loads(l))
    else Word(l)
  }

  function Tokens(s: string, blank: char -> bool, loads: string -> Option<string>): seq<Token> {
    Map(l => Classify(l, loads), Lexemes(s, blank))
  }

  // ---- the spellings of lexemes -----------------------------------------------------

  ghost predicate WordSpelled(l: string) {
    && l != [] && (l[0] in LOWER || l[0] in UPPER || l[0] == '_')
    && forall c <- l :: c in LOWER || c in UPPER || c in DIGITS || c == '_' || c == '-'
  }

  /** Characters other than `"` and a backslash, and pairs of a backslash and any character but a
      newline, between two quotes. */
  ghost predicate QuotedSpelled(l: string) {
    exists units :: UnitsOf(l, units)
  }

  ghost predicate UnitsOf(l: string, units: seq<S.Unit>) {
    && l == ['"'] + (S.SpelledUnits(units) + ['"'])
    && forall u <- units :: PatternUnit(u)
  }

  predicate PatternUnit(u: S.Unit) {
    match u
    case Pair(c) => c != '\n'
    case Single(c) => c != '"' && c != '\\'
  }

  lemma LettersAre(c: char)
    ensures WordStart(c) <==> c in LOWER || c in UPPER || c == '_'
    ensures WordChar(c) <==> c in LOWER || c in UPPER || c in DIGITS || c == '_' || c == '-'
  {
    LetterIff(c);
  }

  /** What ends in the quote that closes it is a body of units, and the other way round. */
  lemma {:induction false} BodyIsUnits(s: string) returns (units: seq<S.Unit>)
    requires BodyEnd(s) == |s| > 0
    ensures s == S.SpelledUnits(units) + ['"'] && forall u <- units :: PatternUnit(u)
  {
    if s[0] == '"' {
      units := [];
    } else {
      var k := if s[0] == '\\' then 2 else 1;
      var rest := BodyIsUnits(s[k..]);
      var unit := if k == 2 then S.Pair(s[1]) else S.Single(s[0]);
      units := [unit] + rest;
      assert units[1..] == rest;
      assert s == s[..k] + s[k..];
      ConcatThree(s[..k], S.SpelledUnits(rest), ['"']);
    }
  }

  lemma {:induction false} UnitsAreBody(units: seq<S.Unit>)
    requires forall u <- units :: PatternUnit(u)
    ensures var s := S.SpelledUnits(units) + ['"']; BodyEnd(s) == |s|
  {
    if units != [] {
      assert PatternUnit(units[0]) && forall u <- units[1..] :: u in units;
      UnitsAreBody(units[1..]);
      var s, rest := S.SpelledUnits(units) + ['"'], S.SpelledUnits(units[1..]) + ['"'];
      var head := match units[0] case Pair(c) => ['\\', c] case Single(c) => [c];
      assert s == head + rest;
      assert s[|head|..] == rest;
    }
  }

  lemma {:induction false} WordEndIff(s: string)
    ensures WordEnd(s) == |s| <==> forall c <- s :: WordChar(c)
  {
    if s != [] {
      WordEndIff(s[1..]);
      assert s == [s[0]] + s[1..];
    }
  }

  /** A lexeme is a word, a quoted text or one of the four marks. */
  lemma LexemeIff(l: string)
    ensures Lexeme(l) <==> WordSpelled(l) || QuotedSpelled(l) || l == "(" || l == ")" || l == "," || l == "="
  {
    hide BodyEnd, WordEnd;
    forall c ensures WordStart(c) <==> c in LOWER || c in UPPER || c == '_' { LettersAre(c); }
    forall c ensures WordChar(c) <==> c in LOWER || c in UPPER || c in DIGITS || c == '_' || c == '-' { LettersAre(c); }
    WordEndIff(l);
    if l != [] && l[0] == '"' {
      if Lexeme(l) {
        var units := BodyIsUnits(l[1..]);
        assert ['"'] + l[1..] == l;
        assert UnitsOf(l, units);
      }
      if QuotedSpelled(l) {
        var units :| UnitsOf(l, units);
        UnitsAreBody(units);
        assert l[1..] == S.SpelledUnits(units) + ['"'];
      }
    }
  }

  /** And the token it gives tells which, with its text. */
  lemma TokenOfLexeme(l: string, loads: string -> Option<string>)
    requires Lexeme(l)
    ensures Classify(l, loads) == if WordSpelled(l) then Word(l) else if QuotedSpelled(l) then Quoted(l, loads(l))
      else if l == "(" then Open else if l == ")" then Close else if l == "," then Comma else Equals
  {
    LexemeIff(l);
    if QuotedSpelled(l) {
      var units :| UnitsOf(l, units);
      LettersAre('"');
    }
    LettersAre(l[0]);
  }

  // ---- lexemes in place -------------------------------------------------------------

  predicate Lexeme(l: string) {
    l != [] && LexemeEnd(l) == |l|
  }

  /** What follows does not lengthen the lexeme. */
  predicate Parted(l: string, rest: string) {
    l != [] && WordStart(l[0]) && rest != [] ==> !WordChar(rest[0])
  }

  lemma {:induction false} WordEndStands(s: string, rest: string)
    requires s == [] || WordEnd(s) == |s|
    requires rest == [] || !WordChar(rest[0])
    ensures WordEnd(s + rest) == |s|
  {
    if s == [] {
      assert s + rest == rest;
    } else {
      assert (s + rest)[1..] == s[1..] + rest;
      WordEndStands(s[1..], rest);
    }
  }

  lemma {:induction false} BodyEndStands(s: string, rest: string)
    requires BodyEnd(s) > 0
    ensures BodyEnd(s + rest) == BodyEnd(s) == BodyEnd(s[..BodyEnd(s)])
  {
    var n := BodyEnd(s);
    if s[0] != '"' {
      var k := if s[0] == '\\' then 2 else 1;
      assert (s + rest)[k..] == s[k..] + rest;
      assert s[..n][k..] == s[k..][..n - k];
      BodyEndStands(s[k..], rest);
    }
  }

  lemma LexemeStands(l: string, rest: string)
    requires Lexeme(l) && Parted(l, rest)
    ensures LexemeEnd(l + rest) == |l|
  {
    hide BodyEnd, WordEnd;
    if WordStart(l[0]) {
      WordEndStands(l, rest);
    } else if l[0] == '"' {
      assert (l + rest)[1..] == l[1..] + rest;
      BodyEndStands(l[1..], rest);
    }
  }

  lemma {:induction false} WordIsCut(s: string)
    ensures var n := WordEnd(s);
      WordEnd(s[..n]) == n && (n < |s| ==> !WordChar(s[n])) && forall i :: 0 <= i < n ==> WordChar(s[i])
  {
    var n := WordEnd(s);
    if n > 0 {
      assert s[..n][1..] == s[1..][..n - 1];
      WordIsCut(s[1..]);
    }
  }

  lemma {:induction false} WordsEnd(s: string)
    requires forall i :: 0 <= i < |s| ==> WordChar(s[i])
    ensures WordEnd(s) == |s|
  {
    if s != [] { WordsEnd(s[1..]); }
  }

  /** A match is a lexeme, and as long as it can be. */
  lemma LexemeIsCut(s: string)
    requires LexemeEnd(s) > 0
    ensures Lexeme(s[..LexemeEnd(s)]) && Parted(s[..LexemeEnd(s)], s[LexemeEnd(s)..])
  {
    hide BodyEnd;
    var n := LexemeEnd(s);
    if WordStart(s[0]) {
      WordIsCut(s);
    } else if s[0] == '"' {
      BodyEndStands(s[1..], []);
      assert s[..n][1..] == s[1..][..n - 1];
    }
  }

  /** A lexeme ends in a character that is no white space. */
  lemma {:induction false} BodyEndsInQuote(s: string)
    requires BodyEnd(s) > 0
    ensures s[BodyEnd(s) - 1] == '"'
  {
    if s[0] != '"' {
      BodyEndsInQuote(s[if s[0] == '\\' then 2 else 1..]);
    }
  }

  lemma LexemeEnds(l: string, blank: char -> bool)
    requires Lexeme(l) && OrdinaryBlanks(blank)
    ensures !blank(l[0]) && !blank(Last(l))
  {
    hide BodyEnd, WordEnd;
    if WordStart(l[0]) {
      WordIsCut(l);
    } else if l[0] == '"' {
      BodyEndsInQuote(l[1..]);
    }
  }

  /** One lexeme in front of a text. */
  lemma LexemeThenRest(l: string, rest: string, blank: char -> bool)
    requires Lexeme(l) && Parted(l, rest) && OrdinaryBlanks(blank)
    ensures Lexemes(l + rest, blank) == [l] + Lexemes(rest, blank)
    ensures Unread(l + rest, blank) == Unread(rest, blank)
  {
    hide LexemeEnd, OrdinaryBlanks;
    LexemeEnds(l, blank);
    LexemeStands(l, rest);
    assert Trim(l + rest, blank) == l + rest;
    assert (l + rest)[..|l|] == l && (l + rest)[|l|..] == rest;
  }

  /** White space in front of a text. */
  lemma TrimFirst(s: string, blank: char -> bool)
    ensures Lexemes(Trim(s, blank), blank) == Lexemes(s, blank)
    ensures Unread(Trim(s, blank), blank) == Unread(s, blank)
  {
    assert Trim(Trim(s, blank), blank) == Trim(s, blank);
  }

  /** The text is these lexemes in order, each as long as it can be, with white space anywhere
      between them. */
  ghost predicate Laid(s: string, ls: seq<string>, blank: char -> bool)
    decreases |ls|
  {
    var t := Trim(s, blank);
    if ls == [] then t == []
    else Lexeme(ls[0]) && ls[0] <= t && Parted(ls[0], t[|ls[0]|..]) && Laid(t[|ls[0]|..], ls[1..], blank)
  }

  /** The pattern reads a text to its end into these lexemes exactly when the text is a layout of
      them. */
  lemma {:induction false} ReadsItsLayouts(s: string, ls: seq<string>, blank: char -> bool)
    requires OrdinaryBlanks(blank)
    ensures Lexemes(s, blank) == ls && Unread(s, blank) == [] <==> Laid(s, ls, blank)
    decreases |s| + |ls|
  {
    hide LexemeEnd, Trim, OrdinaryBlanks, Parted;
    var t := Trim(s, blank);
    TrimFirst(s, blank);
    if Laid(s, ls, blank) && ls != [] {
      var rest := t[|ls[0]|..];
      assert t == ls[0] + rest;
      LexemeThenRest(ls[0], rest, blank);
      ReadsItsLayouts(rest, ls[1..], blank);
      HeadThenRest(ls);
    }
    if LexemeEnd(t) > 0 {
      var n := LexemeEnd(t);
      LexemeIsCut(t);
      assert t == t[..n] + t[n..];
      LexemeThenRest(t[..n], t[n..], blank);
      if Lexemes(s, blank) == ls && Unread(s, blank) == [] {
        assert ls[0] == t[..n] && ls[1..] == Lexemes(t[n..], blank);
        ReadsItsLayouts(t[n..], ls[1..], blank);
      }
    }
  }

  // ---- texts put together -----------------------------------------------------------

  /** A text whose first lexeme is read, and what follows it. */
  lemma FirstLexeme(s: string, blank: char -> bool) returns (l: string, rest: string)
    requires LexemeEnd(Trim(s, blank)) > 0 || (Unread(s, blank) == [] && Trim(s, blank) != [])
    ensures Trim(s, blank) == l + rest && Lexeme(l) && l != [] && Parted(l, rest)
    ensures Lexemes(s, blank) == [l] + Lexemes(rest, blank) && Unread(s, blank) == Unread(rest, blank)
  {
    hide LexemeEnd;
    var t := Trim(s, blank);
    LexemeIsCut(t);
    l, rest := t[..LexemeEnd(t)], t[LexemeEnd(t)..];
  }

  lemma OnlyBlanks(s: string, blank: char -> bool)
    requires Trim(s, blank) == []
    ensures Lexemes(s, blank) == [] && Unread(s, blank) == []
  {
  }

  /** A text read to its end keeps its lexemes whatever follows, if that lengthens no word. */
  lemma {:induction false} LexemesConcat(s: string, rest: string, blank: char -> bool)
    requires OrdinaryBlanks(blank) && Unread(s, blank) == [] && (rest == [] || !WordChar(rest[0]))
    ensures Lexemes(s + rest, blank) == Lexemes(s, blank) + Lexemes(rest, blank)
    ensures Unread(s + rest, blank) == Unread(rest, blank)
    decreases |s|
  {
    hide Lexemes, Unread, Lexeme, Parted, WordChar, OrdinaryBlanks;
    TrimConcat(s, rest, blank);
    TrimFirst(s + rest, blank);
    TrimFirst(rest, blank);
    if Trim(s, blank) == [] {
      OnlyBlanks(s, blank);
    } else {
      var l, more := FirstLexeme(s, blank);
      LexemesConcat(more, rest, blank);
      PartedMore(l, more, rest);
      LexemeThenRest(l, more + rest, blank);
      ConcatThree(l, more, rest);
      ConcatThree([l], Lexemes(more, blank), Lexemes(rest, blank));
    }
  }

  /** A text at whose end reading stops, other than at an unclosed quote, stops it there whatever
      follows. */
  lemma {:induction false} LexemesStop(s: string, rest: string, blank: char -> bool)
    requires OrdinaryBlanks(blank) && Unread(s, blank) != [] && Unread(s, blank)[0] != '"'
    requires rest == [] || !WordChar(rest[0])
    ensures Lexemes(s + rest, blank) == Lexemes(s, blank) && Unread(s + rest, blank) != []
    decreases |s|
  {
    hide Lexemes, Lexeme, Parted, WordChar, OrdinaryBlanks;
    var t := Trim(s, blank);
    StopOrLexeme(s, blank);
    TrimConcat(s, rest, blank);
    TrimFirst(s + rest, blank);
    if LexemeEnd(t) == 0 {
      assert (t + rest)[0] == t[0];
      StopsAt(t, blank);
      TrimFirst(s, blank);
      TrimTwice(s + rest, blank);
      StopsAt(t + rest, blank);
    } else {
      hide Unread;
      var l, more := FirstLexeme(s, blank);
      LexemesStop(more, rest, blank);
      PartedMore(l, more, rest);
      LexemeThenRest(l, more + rest, blank);
      ConcatThree(l, more, rest);
    }
  }

  lemma StopOrLexeme(s: string, blank: char -> bool)
    ensures LexemeEnd(Trim(s, blank)) == 0 ==> Unread(s, blank) == Trim(s, blank)
  {
  }

  lemma PartedMore(l: string, s: string, rest: string)
    requires Parted(l, s) && (rest == [] || !WordChar(rest[0]))
    ensures Parted(l, s + rest)
  {
  }

  lemma {:induction false} TrimConcat(s: string, rest: string, blank: char -> bool)
    ensures Trim(s + rest, blank) == if Trim(s, blank) == [] then Trim(rest, blank) else Trim(s, blank) + rest
  {
    if s == [] {
      assert s + rest == rest;
    } else {
      assert (s + rest)[1..] == s[1..] + rest;
      if blank(s[0]) { TrimConcat(s[1..], rest, blank); }
    }
  }

  // ---- normalising white space ------------------------------------------------------

  /** `re.sub` of white space runs by a space. */
  function Collapse(s: string, blank: char -> bool): string
    decreases |s|
  {
    if s == [] then []
    else if blank(s[0]) then [' '] + Collapse(Trim(s[1..], blank), blank)
    else [s[0]] + Collapse(s[1..], blank)
  }

  function Normalise(s: string, blank: char -> bool): string {
    Strip(Collapse(s, blank), blank)
  }

  lemma {:induction false} CollapseConcat(a: string, b: string, blank: char -> bool)
    requires a == [] || !blank(Last(a))
    ensures Collapse(a + b, blank) == Collapse(a, blank) + Collapse(b, blank)
    decreases |a|
  {
    if a == [] {
      assert a + b == b;
    } else {
      assert (a + b)[1..] == a[1..] + b;
      if blank(a[0]) {
        TrimConcat(a[1..], b, blank);
        TrimKeepsLast(a[1..], blank);
        CollapseConcat(Trim(a[1..], blank), b, blank);
      } else {
        CollapseConcat(a[1..], b, blank);
      }
    }
  }

  lemma {:induction false} TrimKeepsLast(s: string, blank: char -> bool)
    requires s != [] && !blank(Last(s))
    ensures Trim(s, blank) != [] && Last(Trim(s, blank)) == Last(s)
  {
    if blank(s[0]) { TrimKeepsLast(s[1..], blank); }
  }

  lemma {:induction false} CollapseIsIdle(s: string, blank: char -> bool)
    requires forall i :: 0 <= i < |s| ==> !blank(s[i])
    ensures Collapse(s, blank) == s
  {
    if s != [] {
      CollapseIsIdle(s[1..], blank);
      HeadThenRest(s);
    }
  }

  /** A complete body stays complete without the white space it begins with, and collapsed. */
  lemma {:induction false} BodyTrims(s: string, blank: char -> bool)
    requires OrdinaryBlanks(blank) && BodyEnd(s) == |s| > 0
    ensures BodyEnd(Trim(s, blank)) == |Trim(s, blank)| > 0
  {
    if blank(s[0]) { BodyTrims(s[1..], blank); }
  }

  lemma CollapseOne(s: string, blank: char -> bool)
    requires s != []
    ensures var c := Collapse(s, blank);
      c != [] && c[0] == (if blank(s[0]) then ' ' else s[0])
      && c[1..] == Collapse(if blank(s[0]) then Trim(s[1..], blank) else s[1..], blank)
  {
  }

  lemma CollapseTwo(s: string, blank: char -> bool)
    requires |s| >= 2 && !blank(s[0])
    ensures var c := Collapse(s, blank);
      |c| >= 2 && c[0] == s[0] && c[1] == (if blank(s[1]) then ' ' else s[1])
      && c[2..] == Collapse(if blank(s[1]) then Trim(s[2..], blank) else s[2..], blank)
  {
    hide Collapse, Trim;
    CollapseOne(s, blank);
    CollapseOne(s[1..], blank);
    TailTwice(s);
    TailTwice(Collapse(s, blank));
  }

  lemma TailTwice(s: string)
    requires |s| >= 2
    ensures s[1..][0] == s[1] && s[1..][1..] == s[2..]
  {
  }

  lemma {:induction false} BodyCollapses(s: string, blank: char -> bool)
    requires OrdinaryBlanks(blank) && BodyEnd(s) == |s| > 0
    ensures BodyEnd(Collapse(s, blank)) == |Collapse(s, blank)| > 0
    decreases |s|
  {
    var c := Collapse(s, blank);
    if s[0] == '\\' {
      var u := if blank(s[1]) then Trim(s[2..], blank) else s[2..];
      if blank(s[1]) { BodyTrims(s[2..], blank); }
      BodyCollapses(u, blank);
      CollapseTwo(s, blank);
      assert c[2..] == Collapse(u, blank);
    } else if s[0] != '"' {
      var u := if blank(s[0]) then Trim(s[1..], blank) else s[1..];
      if blank(s[0]) { BodyTrims(s[1..], blank); }
      BodyCollapses(u, blank);
      assert c[1..] == Collapse(u, blank);
    }
  }

  /** A collapsed lexeme is a lexeme; a word or a mark is left as it is. */
  lemma LexemeCollapses(l: string, blank: char -> bool)
    requires OrdinaryBlanks(blank) && Lexeme(l)
    ensures Lexeme(Collapse(l, blank)) && Collapse(l, blank)[0] == l[0]
    ensures l[0] != '"' ==> Collapse(l, blank) == l
  {
    hide BodyEnd, WordEnd;
    if l[0] == '"' {
      BodyCollapses(l[1..], blank);
      assert Collapse(l, blank)[1..] == Collapse(l[1..], blank);
    } else {
      if WordStart(l[0]) { WordIsCut(l); }
      CollapseIsIdle(l, blank);
    }
  }

  lemma CollapseTrims(s: string, blank: char -> bool)
    requires OrdinaryBlanks(blank)
    ensures Trim(Collapse(s, blank), blank) == Collapse(Trim(s, blank), blank)
  {
  }

  lemma PartedCollapsed(l: string, rest: string, blank: char -> bool)
    requires OrdinaryBlanks(blank) && Lexeme(l) && Parted(l, rest)
    ensures Parted(Collapse(l, blank), Collapse(rest, blank))
  {
    LexemeCollapses(l, blank);
  }

  /** Collapsed text is read lexeme by lexeme as the text was, each lexeme collapsed, and read on
      from where the reading of the text stopped. */
  lemma {:induction false} CollapsedLexemes(s: string, blank: char -> bool)
    requires OrdinaryBlanks(blank)
    ensures Lexemes(Collapse(s, blank), blank)
         == Map(l => Collapse(l, blank), Lexemes(s, blank)) + Lexemes(Collapse(Unread(s, blank), blank), blank)
    ensures Unread(Collapse(s, blank), blank) == Unread(Collapse(Unread(s, blank), blank), blank)
    decreases |s|
  {
    var t := Trim(s, blank);
    var f := l => Collapse(l, blank);
    hide LexemeEnd, OrdinaryBlanks, Collapse, Trim, Lexeme, Parted;
    CollapseTrims(s, blank);
    TrimFirst(Collapse(s, blank), blank);
    if LexemeEnd(t) == 0 {
      assert Map(f, []) + Lexemes(Collapse(t, blank), blank) == Lexemes(Collapse(t, blank), blank);
    } else {
      var l, rest := FirstLexeme(s, blank);
      hide Lexemes, Unread;
      CollapsedLexemes(rest, blank);
      LexemeEnds(l, blank);
      CollapseConcat(l, rest, blank);
      LexemeCollapses(l, blank);
      PartedCollapsed(l, rest, blank);
      LexemeThenRest(Collapse(l, blank), Collapse(rest, blank), blank);
      MapConcat(f, [l], Lexemes(rest, blank));
      assert Map(f, [l]) == [Collapse(l, blank)];
      ConcatThree([Collapse(l, blank)], Map(f, Lexemes(rest, blank)), Lexemes(Collapse(Unread(rest, blank), blank), blank));
    }
  }

  // ---- stripping the ends -----------------------------------------------------------

  lemma {:induction false} BodyStaysOpen(s: string, b: char)
    requires BodyEnd(s) == 0 && b != '"' && b != '\\'
    ensures BodyEnd(s + [b]) == 0
  {
    if s == [] {
      assert s + [b] == [b];
    } else {
      var k := if s[0] == '\\' then 2 else 1;
      if k <= |s| {
        assert (s + [b])[k..] == s[k..] + [b];
        if !(k == 2 && s[1] == '\n') { BodyStaysOpen(s[k..], b); }
      }
    }
  }

  lemma NoLexemeStill(t: string, b: char, blank: char -> bool)
    requires OrdinaryBlanks(blank) && blank(b) && t != [] && LexemeEnd(t) == 0
    ensures LexemeEnd(t + [b]) == 0
  {
    hide BodyEnd;
    assert t[0] == '"' || !(WordStart(t[0]) || Mark(t[0]));
    if t[0] == '"' {
      assert (t + [b])[1..] == t[1..] + [b];
      BodyStaysOpen(t[1..], b);
    }
  }

  lemma StopsAt(t: string, blank: char -> bool)
    requires Trim(t, blank) == t && LexemeEnd(t) == 0
    ensures Lexemes(t, blank) == [] && Unread(t, blank) == t
  {
  }

  /** White space at the end changes nothing. */
  lemma {:induction false} BlankAtTheEnd(s: string, b: char, blank: char -> bool)
    requires OrdinaryBlanks(blank) && blank(b)
    ensures Lexemes(s + [b], blank) == Lexemes(s, blank)
    ensures Unread(s + [b], blank) == [] <==> Unread(s, blank) == []
    decreases |s|
  {
    var t := Trim(s, blank);
    assert Trim([b], blank) == [];
    hide LexemeEnd, Lexemes, Unread, Lexeme, Trim;
    TrimConcat(s, [b], blank);
    TrimFirst(s, blank);
    TrimFirst(s + [b], blank);
    if t == [] {
      OnlyBlanks(s, blank);
      OnlyBlanks(s + [b], blank);
    } else if LexemeEnd(t) == 0 {
      NoLexemeStill(t, b, blank);
      TrimTwice(s, blank);
      TrimTwice(s + [b], blank);
      StopsAt(t, blank);
      StopsAt(t + [b], blank);
    } else {
      var l, rest := FirstLexeme(s, blank);
      BlankAtTheEnd(rest, b, blank);
      LexemeThenRest(l, rest + [b], blank);
      ConcatThree(l, rest, [b]);
    }
  }

  lemma TrimTwice(s: string, blank: char -> bool)
    ensures Trim(Trim(s, blank), blank) == Trim(s, blank)
  {
  }

  lemma {:induction false} StripKeeps(s: string, blank: char -> bool)
    requires OrdinaryBlanks(blank)
    ensures Lexemes(Strip(s, blank), blank) == Lexemes(s, blank)
    ensures Unread(Strip(s, blank), blank) == [] <==> Unread(s, blank) == []
    decreases |s|
  {
    hide Lexemes, Unread, OrdinaryBlanks;
    if s != [] {
      if blank(s[0]) {
        TrimFirst(s, blank);
        TrimFirst(s[1..], blank);
        StripKeeps(s[1..], blank);
      } else if blank(Last(s)) {
        assert Front(s) + [Last(s)] == s;
        BlankAtTheEnd(Front(s), Last(s), blank);
        StripKeeps(Front(s), blank);
      }
    }
  }

  /** What normalising white space does to what is read: nothing is read differently but quoted
      lexemes, whose own white space collapses; and reading may get past a place where it stopped. */
  lemma NormalisedLexemes(s: string, blank: char -> bool)
    requires OrdinaryBlanks(blank)
    ensures Lexemes(Normalise(s, blank), blank)
         == Map(l => Collapse(l, blank), Lexemes(s, blank)) + Lexemes(Normalise(Unread(s, blank), blank), blank)
    ensures Unread(s, blank) == [] ==> Unread(Normalise(s, blank), blank) == []
  {
    hide Lexemes, Unread, OrdinaryBlanks, Collapse;
    StripKeeps(Collapse(s, blank), blank);
    StripKeeps(Collapse(Unread(s, blank), blank), blank);
    CollapsedLexemes(s, blank);
    CollapseNothing(blank);
  }

  lemma CollapseNothing(blank: char -> bool)
    ensures Collapse([], blank) == [] && Unread([], blank) == [] && Lexemes([], blank) == []
  {
  }

  /** So the tokens are those of the text as it was written exactly when no quoted one holds white
      space other than single spaces, and reading does not get past the place where it stopped. */
  lemma NormalisingIsHarmlessIff(s: string, blank: char -> bool)
    requires OrdinaryBlanks(blank)
    ensures Lexemes(Normalise(s, blank), blank) == Lexemes(s, blank) <==>
      && (forall l <- Lexemes(s, blank) :: Collapse(l, blank) == l)
      && Lexemes(Normalise(Unread(s, blank), blank), blank) == []
  {
    hide Lexemes, Unread, OrdinaryBlanks, Collapse, Normalise;
    NormalisedLexemes(s, blank);
    var ls, more := Lexemes(s, blank), Lexemes(Normalise(Unread(s, blank), blank), blank);
    var f := l => Collapse(l, blank);
    if Map(f, ls) + more == ls {
      assert |Map(f, ls)| + |more| == |ls|;
      assert more == [];
      assert Map(f, ls) == ls;
      forall l <- ls ensures Collapse(l, blank) == l {
        var i :| 0 <= i < |ls| && ls[i] == l;
        assert Map(f, ls)[i] == f(l);
      }
    }
    if (forall l <- ls :: Collapse(l, blank) == l) && more == [] {
      assert Map(f, ls) == ls;
    }
  }

  // ---- what normalising is, said outright -------------------------------------------

  /** The words with a space between each two. */
  function Spaced(ws: seq<string>): string {
    if ws == [] then [] else if |ws| == 1 then ws[0] else ws[0] + ([' '] + Spaced(ws[1..]))
  }

  predicate IsWord(w: string, blank: char -> bool) {
    w != [] && forall c <- w :: !blank(c)
  }

  /** The text holds these words, with white space before, between and behind them. */
  ghost predicate Worded(s: string, ws: seq<string>, blank: char -> bool)
    decreases |ws|
  {
    if ws == [] then forall c <- s :: blank(c)
    else exists n: nat, m: nat :: FirstWord(s, ws[0], blank, n, m) && Worded(s[m..], ws[1..], blank)
  }

  ghost predicate FirstWord(s: string, w: string, blank: char -> bool, n: nat, m: nat) {
    && n < m <= |s| && (forall i :: 0 <= i < n ==> blank(s[i]))
    && w == s[n..m] && (forall i :: n <= i < m ==> !blank(s[i])) && (m < |s| ==> blank(s[m]))
  }

  lemma {:induction false} WordThenRest(s: string, blank: char -> bool) returns (m: nat)
    ensures m <= |s| && (forall i :: 0 <= i < m ==> !blank(s[i])) && (m < |s| ==> blank(s[m]))
  {
    if s == [] || blank(s[0]) {
      m := 0;
    } else {
      m := WordThenRest(s[1..], blank);
      m := m + 1;
      assert forall i :: 0 < i < |s| ==> s[i] == s[1..][i - 1];
    }
  }

  predicate Begins(s: string, blank: char -> bool) {
    s != [] && blank(s[0])
  }

  predicate Ends(s: string, blank: char -> bool) {
    s != [] && blank(Last(s))
  }

  function SpaceIf(b: bool): string {
    if b then [' '] else []
  }

  lemma CollapseBegins(s: string, blank: char -> bool)
    ensures Collapse(s, blank) == SpaceIf(Begins(s, blank)) + Collapse(Trim(s, blank), blank)
  {
    TrimTwice(s, blank);
    if s == [] || !blank(s[0]) { assert [] + Collapse(s, blank) == Collapse(s, blank); }
    if s != [] && blank(s[0]) { TrimIdle(s[1..], blank); }
  }

  lemma TrimIdle(s: string, blank: char -> bool)
    ensures Trim(Trim(s, blank), blank) == Trim(s, blank)
  {
  }

  /** Collapsed, a text is its words, a space between each two, and one at an end that is white. */
  lemma {:induction false} CollapseIs(s: string, blank: char -> bool) returns (ws: seq<string>)
    ensures Worded(s, ws, blank) && forall w <- ws :: IsWord(w, blank)
    ensures Collapse(s, blank) == SpaceIf(Begins(s, blank)) + (Spaced(ws) + SpaceIf(ws != [] && Ends(s, blank)))
    decreases |s|
  {
    hide Collapse, Trim, Worded, IsWord, Spaced;
    var n := TrimIs(s, blank);
    var t := Trim(s, blank);
    CollapseBegins(s, blank);
    if t == [] {
      ws := [];
      NoWords(s, blank);
      CollapseNothing(blank);
      OneSpaced([]);
    } else {
      var m := WordThenRest(t, blank);
      CutTwice(s, n, m, blank);
      var w, rest := t[..m], t[m..];
      var more := CollapseIs(rest, blank);
      ws := [w] + more;
      WordedMore(s, w, more, blank, n, n + m);
      WordFirst(w, rest, more, blank);
    }
  }

  lemma CutTwice(s: string, n: nat, m: nat, blank: char -> bool)
    requires n <= |s| && (forall i :: 0 <= i < n ==> blank(s[i])) && 0 < m <= |s| - n
    requires var t := s[n..]; (forall i :: 0 <= i < m ==> !blank(t[i])) && (m < |t| ==> blank(t[m]))
    ensures var t := s[n..]; var w := t[..m];
      && t[m..] == s[n + m..] && FirstWord(s, w, blank, n, n + m) && IsWord(w, blank) && Last(t) == Last(s)
      && w + t[m..] == t
  {
    var t := s[n..];
    assert forall i :: n <= i < |s| ==> s[i] == t[i - n];
    assert t[..m] == s[n..n + m];
  }

  /** A word in front of collapsed text. */
  lemma WordFirst(w: string, rest: string, more: seq<string>, blank: char -> bool)
    requires IsWord(w, blank) && (rest != [] ==> blank(rest[0])) && Worded(rest, more, blank)
    requires Collapse(rest, blank)
          == SpaceIf(Begins(rest, blank)) + (Spaced(more) + SpaceIf(more != [] && Ends(rest, blank)))
    ensures Collapse(w + rest, blank) == Spaced([w] + more) + SpaceIf(Ends(w + rest, blank))
  {
    hide Collapse, Worded, Spaced;
    CollapseConcat(w, rest, blank);
    CollapseIsIdle(w, blank);
    if rest == [] {
      NoMoreWords(more, blank);
      CollapseNothing(blank);
      assert w + rest == w && [w] + more == [w] && w + [] == w;
      OneSpaced(w);
    } else {
      if more == [] { assert Ends(rest, blank) by { OnlyBlanksEnd(rest, blank); } }
      SpacedMore(w, more, rest, blank);
    }
  }

  lemma OneSpaced(w: string)
    ensures Spaced([w]) == w && Spaced([]) == []
  {
  }

  lemma OnlyBlanksEnd(s: string, blank: char -> bool)
    requires Worded(s, [], blank) && s != []
    ensures blank(Last(s))
  {
  }

  lemma NoWords(s: string, blank: char -> bool)
    requires forall i :: 0 <= i < |s| ==> blank(s[i])
    ensures Worded(s, [], blank)
  {
  }

  lemma NoMoreWords(ws: seq<string>, blank: char -> bool)
    requires Worded([], ws, blank)
    ensures ws == []
  {
  }

  lemma WordedMore(s: string, w: string, more: seq<string>, blank: char -> bool, n: nat, m: nat)
    requires FirstWord(s, w, blank, n, m) && Worded(s[m..], more, blank)
    ensures Worded(s, [w] + more, blank)
  {
    assert ([w] + more)[0] == w && ([w] + more)[1..] == more;
  }

  lemma SpacedMore(w: string, more: seq<string>, rest: string, blank: char -> bool)
    requires rest != []  && blank(rest[0])
    ensures w + ([' '] + (Spaced(more) + SpaceIf(more != [] && Ends(rest, blank))))
         == Spaced([w] + more) + SpaceIf(more == [] || Ends(rest, blank))
  {
    assert ([w] + more)[0] == w && ([w] + more)[1..] == more;
    if more == [] { assert Spaced(more) == []; }
  }

  /** Normalised, a text is its words with one space between each two. */
  lemma NormaliseIs(s: string, blank: char -> bool) returns (ws: seq<string>)
    requires blank(' ')
    ensures Worded(s, ws, blank) && forall w <- ws :: IsWord(w, blank)
    ensures Normalise(s, blank) == Spaced(ws)
  {
    hide Collapse, Worded, Strip;
    ws := CollapseIs(s, blank);
    if ws != [] { SpacedEnds(ws, blank); }
    StripEnds(SpaceIf(Begins(s, blank)), Spaced(ws), SpaceIf(ws != [] && Ends(s, blank)), blank);
  }

  lemma {:induction false} SpacedEnds(ws: seq<string>, blank: char -> bool)
    requires ws != [] && forall w <- ws :: IsWord(w, blank)
    ensures Spaced(ws) != [] && !blank(Spaced(ws)[0]) && !blank(Last(Spaced(ws)))
  {
    assert IsWord(ws[0], blank);
    if |ws| > 1 {
      assert forall w <- ws[1..] :: w in ws;
      SpacedEnds(ws[1..], blank);
    }
  }

  lemma StripEnds(before: string, s: string, after: string, blank: char -> bool)
    requires |before| <= 1 && |after| <= 1 && (forall c <- before + after :: blank(c))
    requires s != [] ==> !blank(s[0]) && !blank(Last(s))
    ensures Strip(before + (s + after), blank) == s
  {
    var whole := before + (s + after);
    var a, b := StripIs(whole, blank);
    if s == [] {
      assert forall c <- whole :: blank(c);
    } else {
      assert whole[|before|] == s[0] && whole[|before| + |s| - 1] == Last(s);
      assert forall i :: 0 <= i < |before| ==> whole[i] == before[i];
      assert forall i :: |before| + |s| <= i < |whole| ==> whole[i] == after[i - |before| - |s|];
      assert whole[|before|..|before| + |s|] == s;
    }
  }

  // ---- where reading stops ----------------------------------------------------------

  /** No backslash directly before a newline. */
  ghost predicate NoBrokenEscape(s: string) {
    forall i :: 0 <= i < |s| - 1 && s[i] == '\\' ==> s[i + 1] != '\n'
  }

  lemma NoBrokenTail(s: string, k: nat)
    requires NoBrokenEscape(s) && k <= |s|
    ensures NoBrokenEscape(s[k..])
  {
  }

  lemma {:induction false} OpenTrims(s: string, blank: char -> bool)
    requires OrdinaryBlanks(blank) && BodyEnd(s) == 0 && NoBrokenEscape(s)
    ensures BodyEnd(Trim(s, blank)) == 0 && NoBrokenEscape(Trim(s, blank))
  {
    if s != [] && blank(s[0]) {
      NoBrokenTail(s, 1);
      OpenTrims(s[1..], blank);
    }
  }

  /** An unclosed body stays unclosed. */
  lemma {:induction false} OpenCollapses(s: string, blank: char -> bool)
    requires OrdinaryBlanks(blank) && BodyEnd(s) == 0 && NoBrokenEscape(s)
    ensures BodyEnd(Collapse(s, blank)) == 0
    decreases |s|
  {
    if s != [] {
      var k := if s[0] == '\\' then 2 else 1;
      var c := Collapse(s, blank);
      if k <= |s| {
        NoBrokenTail(s, k);
        OpenTrims(s[k..], blank);
        var u := if blank(s[k - 1]) then Trim(s[k..], blank) else s[k..];
        OpenCollapses(u, blank);
        if k == 2 { CollapseTwo(s, blank); }
        assert c[k..] == Collapse(u, blank);
      }
    }
  }

  lemma {:induction false} StopIsTail(s: string, blank: char -> bool)
    requires NoBrokenEscape(s)
    ensures var u := Unread(s, blank); NoBrokenEscape(u) && Trim(u, blank) == u && LexemeEnd(u) == 0
    decreases |s|
  {
    hide LexemeEnd;
    var t := Trim(s, blank);
    TrimIsTail(s, blank);
    NoBrokenTail(s, |s| - |t|);
    if LexemeEnd(t) > 0 {
      NoBrokenTail(t, LexemeEnd(t));
      StopIsTail(t[LexemeEnd(t)..], blank);
    }
  }

  lemma {:induction false} TrimIsTail(s: string, blank: char -> bool)
    ensures Trim(s, blank) == s[|s| - |Trim(s, blank)|..]
  {
    if s != [] && blank(s[0]) { TrimIsTail(s[1..], blank); }
  }

  /** Without a backslash before a newline, reading stops where it stopped. */
  lemma NothingMoreIsRead(s: string, blank: char -> bool)
    requires OrdinaryBlanks(blank) && NoBrokenEscape(s)
    ensures Lexemes(Normalise(Unread(s, blank), blank), blank) == []
  {
    var u := Unread(s, blank);
    StopIsTail(s, blank);
    StripKeeps(Collapse(u, blank), blank);
    CollapseTrims(u, blank);
    if u != [] {
      var c := Collapse(u, blank);
      assert c == [u[0]] + Collapse(u[1..], blank);
      if u[0] == '"' {
        NoBrokenTail(u, 1);
        OpenCollapses(u[1..], blank);
        assert c[1..] == Collapse(u[1..], blank);
      }
    }
  }

  /** The failing case: a backslash before a newline ends the reading of the text as it stands, and
      no longer does once the newline is a space. */
  lemma BrokenEscapeIsRead(blank: char -> bool)
    requires OrdinaryBlanks(blank) && blank('\n')
    ensures Lexemes("\"\\\n\"", blank) == [] && Lexemes(Normalise("\"\\\n\"", blank), blank) == ["\"\\ \""]
  {
    var s, l := "\"\\\n\"", "\"\\ \"";
    assert s[1..] == "\\\n\"" && s[2..] == "\n\"" && s[3..] == "\"";
    assert s[1..][1..] == s[2..] && s[2..][1..] == s[3..] && s[3..][1..] == [];
    assert Collapse(s[3..], blank) == "\"";
    assert Collapse(s[2..], blank) == " \"";
    assert Collapse(s, blank) == l;
    assert l[1..] == "\\ \"" && l[1..][2..] == "\"";
    assert Lexeme(l);
    StripKeeps(l, blank);
    LexemeThenRest(l, [], blank);
    CollapseNothing(blank);
    assert l + [] == l;
  }
}
