/** The fence reader of the API-digest census: which lines carry a fence marker, which of them open
    a fenced block, where each block closes, and which annotation it carries.  Lines come as they
    are written; what counts as white space is a parameter, of which little is assumed. */
module Fences {
  import opened Sequences
  import opened Wrappers

  /** A run of fence characters and the info string after it. */
  datatype Marker = Marker(mark: char, length: nat, info: string)

  /** What the reader takes from a line: its content, the marker it carries if any, and its
      content stripped. */
  datatype Line = Line(text: string, marker: Option<Marker>, trimmed: string) {
    predicate Blank() { trimmed == [] }

    predicate Annotates() { MARK <= trimmed }
  }

  const MARK := "<!-- api-digest:"

  /** A block: the lines of its opener and its closer, its info, its body, and its annotation. */
  datatype Fence = Fence(opener: nat, closer: nat, info: string, body: seq<string>, annotation: Option<string>)

  // ---- the content of a line --------------------------------------------------------

  /** A line without its doc-comment prefix and one space after it. */
  function Undoc(line: string, white: char -> bool): string {
    var t := Trim(line, white);
    if "///" <= t || "//!" <= t then
      if |t| > 3 && t[3] == ' ' then t[4..] else t[3..]
    else line
  }

  /** How many times the text begins with the character. */
  /** A doc comment's prefix, behind white space only. */
  ghost predicate PrefixAt(line: string, n: nat, white: char -> bool) {
    && n <= |line| && (forall i :: 0 <= i < n ==> white(line[i]))
    && (['/', '/', '/'] <= line[n..] || ['/', '/', '!'] <= line[n..])
  }

  /** The content of a line: what stands behind such a prefix and one space, or the whole line. */
  ghost predicate ContentOf(line: string, content: string, white: char -> bool) {
    if exists n: nat :: PrefixAt(line, n, white) then
      exists n: nat :: PrefixAt(line, n, white) &&
        (line[n + 3..] == [' '] + content || (line[n + 3..] == content && !([' '] <= content)))
    else content == line
  }

  lemma UndocIff(line: string, content: string, white: char -> bool)
    requires !white('/')
    ensures Undoc(line, white) == content <==> ContentOf(line, content, white)
  {
    var n := TrimIs(line, white);
    var t := Trim(line, white);
    assert "///" == ['/', '/', '/'] && "//!" == ['/', '/', '!'];
    forall k: nat | PrefixAt(line, k, white) ensures k == n {
      assert line[k..][0] == '/';
    }
    if PrefixAt(line, n, white) {
      assert line[n + 3..] == t[3..];
      assert |t| > 3 ==> t[3] == t[3..][0] && t[4..] == t[3..][1..];
      OneSpaceOff(t[3..], content);
    }
  }

  lemma OneSpaceOff(rest: string, content: string)
    ensures rest == [' '] + content || (rest == content && !([' '] <= content)) <==>
      content == if rest != [] && rest[0] == ' ' then rest[1..] else rest
  {
    if rest != [] && rest[0] == ' ' { HeadThenRest(rest); }
  }

  function Run(s: string, c: char): (n: nat)
    ensures n <= |s|
  {
    if s != [] && s[0] == c then 1 + Run(s[1..], c) else 0
  }

  function FenceMarker(content: string, white: char -> bool): Option<Marker> {
    var t := Trim(content, white);
    if t == [] || (t[0] != '`' && t[0] != '~') then None
    else
      var n := Run(t, t[0]);
      var info := Strip(t[n..], white);
      if n < 3 || (t[0] == '`' && '`' in info) then None else Some(Marker(t[0], n, info))
  }

  function LineOf(line: string, white: char -> bool): Line {
    var content := Undoc(line, white);
    Line(content, FenceMarker(content, white), Strip(content, white))
  }

  lemma AnnotatesIff(line: string, white: char -> bool)
    ensures LineOf(line, white).Annotates() <==> exists rest :: Strip(Undoc(line, white), white) == "<!-- api-digest:" + rest
  {
    var t := LineOf(line, white).trimmed;
    if MARK <= t { assert t == MARK + t[|MARK|..]; }
  }

  function LinesOf(lines: seq<string>, white: char -> bool): (r: seq<Line>)
    ensures |r| == |lines|
  {
    Map(line => LineOf(line, white), lines)
  }

  ghost predicate All(s: string, white: char -> bool) {
    forall i :: 0 <= i < |s| ==> white(s[i])
  }

  /** The content is white space, the run of the marker and its info with white space around it;
      what follows the run does not lengthen it, and holds no backtick if the run is of them. */
  ghost predicate Spells(content: string, white: char -> bool, m: Marker, indent: nat) {
    var rest := indent + m.length;
    && rest <= |content| && All(content[..indent], white)
    && (m.mark == '`' || m.mark == '~') && m.length >= 3
    && (forall i :: indent <= i < rest ==> content[i] == m.mark)
    && (rest < |content| ==> content[rest] != m.mark)
    && m.info == Strip(content[rest..], white) && (m.mark == '`' ==> '`' !in content[rest..])
  }

  lemma {:induction false} TrimPast(s: string, k: nat, white: char -> bool)
    requires k <= |s| && All(s[..k], white) && (k < |s| ==> !white(s[k]))
    ensures Trim(s, white) == s[k..]
  {
    if k > 0 {
      assert s[..k][0] == s[0] && s[1..][..k - 1] == s[..k][1..];
      TrimPast(s[1..], k - 1, white);
    }
  }

  lemma {:induction false} RunIs(s: string, c: char, n: nat)
    ensures Run(s, c) == n <==>
      n <= |s| && (forall i :: 0 <= i < n ==> s[i] == c) && (n < |s| ==> s[n] != c)
  {
    if s != [] && s[0] == c && n > 0 {
      RunIs(s[1..], c, n - 1);
      assert forall i :: 0 < i < n <= |s| ==> s[1..][i - 1] == s[i];
    }
  }

  /** Stripping takes off white space only. */
  lemma {:induction false} StripKeepsOther(s: string, c: char, white: char -> bool)
    requires !white(c)
    ensures c in Strip(s, white) <==> c in s
    decreases |s|
  {
    if s != [] {
      if white(s[0]) {
        StripKeepsOther(s[1..], c, white);
        HeadThenRest(s);
      } else if white(Last(s)) {
        StripKeepsOther(Front(s), c, white);
        assert s == Front(s) + [Last(s)];
      }
    }
  }

  lemma MarkerIsSpelled(content: string, white: char -> bool, m: Marker)
    requires !white('`') && FenceMarker(content, white) == Some(m)
    ensures Spells(content, white, m, |content| - |Trim(content, white)|)
  {
    hide Strip, Run, Trim;
    var indent := TrimIs(content, white);
    var t := content[indent..];
    RunIs(t, m.mark, m.length);
    StripKeepsOther(t[m.length..], '`', white);
    assert t[m.length..] == content[indent + m.length..];
    assert forall i :: indent <= i < indent + m.length ==> t[i - indent] == content[i];
  }

  lemma SpelledIsMarker(content: string, white: char -> bool, m: Marker, indent: nat)
    requires !white('`') && !white('~') && Spells(content, white, m, indent)
    ensures FenceMarker(content, white) == Some(m)
  {
    hide Strip, Run, Trim;
    var t := content[indent..];
    TrimPast(content, indent, white);
    RunIs(t, m.mark, m.length);
    StripKeepsOther(t[m.length..], '`', white);
    assert t[m.length..] == content[indent + m.length..];
  }

  /** A line carries exactly the marker it spells. */
  lemma MarkerIffSpelled(content: string, white: char -> bool, m: Marker)
    requires !white('`') && !white('~')
    ensures FenceMarker(content, white) == Some(m) <==> exists indent: nat :: Spells(content, white, m, indent)
  {
    hide FenceMarker, Spells;
    if FenceMarker(content, white) == Some(m) {
      MarkerIsSpelled(content, white, m);
    }
    if indent: nat :| Spells(content, white, m, indent) {
      SpelledIsMarker(content, white, m, indent);
    }
  }

  // ---- closing ----------------------------------------------------------------------

  /** Line `k` closes a fence opened by `m`: the same character, at least as many, no info. */
  predicate ClosedBy(m: Marker, line: Line) {
    && line.marker.Some? && line.marker.value.mark == m.mark
    && line.marker.value.length >= m.length && line.marker.value.info == []
  }

  /** The first line from `k` on that closes the fence, or the end. */
  function CloserFrom(lines: seq<Line>, m: Marker, k: nat): (r: nat)
    requires k <= |lines|
    ensures k <= r <= |lines| && (r < |lines| ==> ClosedBy(m, lines[r]))
    ensures forall i :: k <= i < r ==> !ClosedBy(m, lines[i])
    decreases |lines| - k
  {
    if k == |lines| || ClosedBy(m, lines[k]) then k else CloserFrom(lines, m, k + 1)
  }

  // ---- body and annotation ----------------------------------------------------------

  function Leading(text: string, limit: nat): (n: nat)
    ensures n <= limit && n <= |text| && (forall i :: 0 <= i < n ==> text[i] == ' ')
    ensures n == limit || n == |text| || text[n] != ' '
  {
    if limit == 0 || text == [] || text[0] != ' ' then 0 else 1 + Leading(text[1..], limit - 1)
  }

  /** The lines between, each without the spaces the opener was indented by. */
  function Body(lines: seq<Line>, from: nat, to: nat, indent: nat): (r: seq<string>)
    requires from <= to <= |lines|
    ensures |r| == to - from
    ensures forall i :: 0 <= i < |r| ==>
      var cut := Leading(lines[from + i].text, indent); lines[from + i].text == lines[from + i].text[..cut] + r[i]
  {
    seq(to - from, i requires 0 <= i < to - from =>
      lines[from + i].text[Leading(lines[from + i].text, indent)..])
  }

  /** The bytes a character takes in UTF-8 (the table of section 3 of RFC 3629). */
  function Width(c: char): (n: nat)
    ensures n == 1 <==> c <= '\U{7F}'
    ensures n == 2 <==> '\U{80}' <= c <= '\U{7FF}'
    ensures n == 3 <==> '\U{800}' <= c <= '\U{FFFF}'
    ensures n == 4 <==> '\U{10000}' <= c
  {
    if c as int < 0x80 then 1 else if c as int < 0x800 then 2 else if c as int < 0x10000 then 3 else 4
  }

  /** The width of the opener's indentation, in bytes. */
  function Indent(text: string, white: char -> bool): nat {
    if text == [] || !white(text[0]) then 0 else Width(text[0]) + Indent(text[1..], white)
  }

  /** The annotation above line `i`: the nearest line that is not blank, if it annotates. */
  function AnnotationAbove(lines: seq<Line>, i: nat): (r: Option<nat>)
    requires i <= |lines|
    ensures r.Some? ==> r.value < i
  {
    if i == 0 then None
    else if lines[i - 1].Blank() then AnnotationAbove(lines, i - 1)
    else if lines[i - 1].Annotates() then Some(i - 1)
    else None
  }

  function Annotation(lines: seq<Line>, i: nat): Option<string>
    requires i <= |lines|
  {
    match AnnotationAbove(lines, i)
    case Some(p) => Some(lines[p].trimmed)
    case None => None
  }

  /** Line `p` annotates what opens at `i`: only blank lines lie between. */
  ghost predicate Annotates(lines: seq<Line>, p: nat, i: nat) {
    p < i <= |lines| && lines[p].Annotates() && forall k :: p < k < i ==> lines[k].Blank()
  }

  lemma {:induction false} AnnotationIsNearest(lines: seq<Line>, i: nat, p: nat)
    requires i <= |lines|
    ensures AnnotationAbove(lines, i) == Some(p) <==> Annotates(lines, p, i)
    decreases i
  {
    if i > 0 && lines[i - 1].Blank() {
      AnnotationIsNearest(lines, i - 1, p);
      assert Annotates(lines, p, i) <==> Annotates(lines, p, i - 1);
    }
  }

  // ---- the reader -------------------------------------------------------------------

  function FenceAt(lines: seq<Line>, i: nat, close: nat, white: char -> bool): Fence
    requires i < close < |lines| && lines[i].marker.Some?
  {
    Fence(i, close, lines[i].marker.value.info, Body(lines, i + 1, close, Indent(lines[i].text, white)), Annotation(lines, i))
  }

  /** The fences from line `i` on; an opener that nothing closes is passed over. */
  function FencesFrom(lines: seq<Line>, i: nat, white: char -> bool): seq<Fence>
    requires i <= |lines|
    decreases |lines| - i
  {
    if i == |lines| then []
    else if lines[i].marker.None? then FencesFrom(lines, i + 1, white)
    else
      var close := CloserFrom(lines, lines[i].marker.value, i + 1);
      if close == |lines| then FencesFrom(lines, i + 1, white)
      else [FenceAt(lines, i, close, white)] + FencesFrom(lines, close + 1, white)
  }

  /** `fences`.  What is taken from a line depends on that line alone. */
  method ReadFences(text: seq<string>, white: char -> bool) returns (out: seq<Fence>)
    ensures out == FencesFrom(LinesOf(text, white), 0, white)
  {
    hide Body, Annotation, CloserFrom, Indent, Leading, LinesOf;
    var lines := LinesOf(text, white);
    out := [];
    var i := 0;
    while i < |lines|
      invariant i <= |lines|
      invariant out + FencesFrom(lines, i, white) == FencesFrom(lines, 0, white)
    {
      if lines[i].marker.None? {
        i := i + 1;
        continue;
      }
      var m := lines[i].marker.value;
      var body, k := ReadBody(lines, m, i + 1, Indent(lines[i].text, white));
      if k == |lines| {
        i := i + 1;
        continue;
      }
      var annotation := FindAnnotation(lines, i);
      var f := Fence(i, k, m.info, body, annotation);
      ConcatThree(out, [f], FencesFrom(lines, k + 1, white));
      out := out + [f];
      i := k + 1;
    }
    assert out + [] == out;
  }

  /** The inner loop: body lines until the closer. */
  method ReadBody(lines: seq<Line>, m: Marker, from: nat, indent: nat) returns (body: seq<string>, k: nat)
    requires from <= |lines|
    ensures k == CloserFrom(lines, m, from) && body == Body(lines, from, k, indent)
  {
    hide Leading;
    body, k := [], from;
    while k < |lines| && !ClosedBy(m, lines[k])
      invariant from <= k <= |lines|
      invariant CloserFrom(lines, m, k) == CloserFrom(lines, m, from)
      invariant body == Body(lines, from, k, indent)
    {
      body := body + [lines[k].text[Leading(lines[k].text, indent)..]];
      k := k + 1;
    }
  }

  /** The upward probe for the annotation. */
  method FindAnnotation(lines: seq<Line>, i: nat) returns (r: Option<string>)
    requires i <= |lines|
    ensures r == Annotation(lines, i)
  {
    var probe: nat := i;
    while probe > 0
      invariant probe <= i && AnnotationAbove(lines, probe) == AnnotationAbove(lines, i)
    {
      probe := probe - 1;
      if lines[probe].Blank() { continue; }
      return if lines[probe].Annotates() then Some(lines[probe].trimmed) else None;
    }
    r := None;
  }

  // ---- what is found ----------------------------------------------------------------

  /** Line `p` lies within the fence, its two marker lines included. */
  predicate Within(f: Fence, p: nat) {
    f.opener <= p <= f.closer
  }

  /** A marker of the same character, at least as long, with nothing behind it. */
  ghost predicate Shuts(m: Marker, other: Option<Marker>) {
    exists n: nat :: n >= m.length && other == Some(Marker(m.mark, n, []))
  }

  lemma ClosedIff(m: Marker, line: Line)
    ensures ClosedBy(m, line) <==> Shuts(m, line.marker)
  {
    if ClosedBy(m, line) {
      assert line.marker == Some(Marker(m.mark, line.marker.value.length, []));
    }
  }

  ghost predicate Genuine(lines: seq<Line>, f: Fence) {
    && f.opener < f.closer < |lines| && lines[f.opener].marker.Some?
    && Shuts(lines[f.opener].marker.value, lines[f.closer].marker)
    && forall k :: f.opener < k < f.closer ==> !Shuts(lines[f.opener].marker.value, lines[k].marker)
  }

  /** What is left of a line is the line without leading spaces, as many as the indentation is
      wide in bytes, or as there are. */
  ghost predicate Unindented(opener: string, line: string, left: string, white: char -> bool) {
    exists n: nat, cut: nat :: IndentedBy(opener, n, white) && LeftOf(line, cut, left) && cut <= BytesOf(opener[..n])
      && (cut == BytesOf(opener[..n]) || left == [] || left[0] != ' ')
  }

  /** The first `n` characters are the white space the text begins with. */
  ghost predicate IndentedBy(text: string, n: nat, white: char -> bool) {
    n <= |text| && All(text[..n], white) && (n < |text| ==> !white(text[n]))
  }

  ghost predicate LeftOf(line: string, cut: nat, left: string) {
    cut <= |line| && left == line[cut..] && forall i :: 0 <= i < cut ==> line[i] == ' '
  }

  ghost function BytesOf(text: string): nat {
    if text == [] then 0 else Width(text[0]) + BytesOf(text[1..])
  }

  lemma {:induction false} IndentIs(text: string, white: char -> bool) returns (n: nat)
    ensures IndentedBy(text, n, white) && Indent(text, white) == BytesOf(text[..n])
  {
    n := 0;
    if text != [] && white(text[0]) {
      n := IndentIs(text[1..], white);
      n := n + 1;
      assert text[..n] == [text[0]] + text[1..][..n - 1];
      assert text[..n][1..] == text[1..][..n - 1];
    }
  }

  /** What a fence holds: the info of its opener, every line between opener and closer without the
      opener's indentation, and the nearest line above that is not blank, if that annotates. */
  ghost predicate Filled(lines: seq<Line>, f: Fence, white: char -> bool) {
    && f.opener < f.closer < |lines| && lines[f.opener].marker.Some? && f.info == lines[f.opener].marker.value.info
    && |f.body| == f.closer - f.opener - 1
    && (forall i :: 0 <= i < |f.body| ==> Unindented(lines[f.opener].text, lines[f.opener + 1 + i].text, f.body[i], white))
    && (forall t :: f.annotation == Some(t) <==> exists p: nat :: Annotates(lines, p, f.opener) && t == lines[p].trimmed)
  }

  lemma FenceIsFilled(lines: seq<Line>, i: nat, close: nat, white: char -> bool)
    requires i < close < |lines| && lines[i].marker.Some?
    ensures Filled(lines, FenceAt(lines, i, close, white), white)
  {
    hide Unindented, Annotates, AnnotationAbove, Leading, Indent;
    var f := FenceAt(lines, i, close, white);
    forall k | 0 <= k < |f.body| ensures Unindented(lines[i].text, lines[i + 1 + k].text, f.body[k], white) {
      LineIsUnindented(lines[i].text, lines[i + 1 + k].text, white);
    }
    AnnotationIs(lines, i);
  }

  lemma LineIsUnindented(opener: string, line: string, white: char -> bool)
    ensures Unindented(opener, line, line[Leading(line, Indent(opener, white))..], white)
  {
    hide IndentedBy, BytesOf;
    var n := IndentIs(opener, white);
    var cut := Leading(line, Indent(opener, white));
    assert LeftOf(line, cut, line[cut..]);
  }

  lemma AnnotationIs(lines: seq<Line>, i: nat)
    requires i <= |lines|
    ensures forall t :: Annotation(lines, i) == Some(t) <==> exists p: nat :: Annotates(lines, p, i) && t == lines[p].trimmed
  {
    hide Annotates, AnnotationAbove;
    forall p: nat ensures AnnotationAbove(lines, i) == Some(p) <==> Annotates(lines, p, i) { AnnotationIsNearest(lines, i, p); }
    forall p: nat ensures Annotates(lines, p, i) ==> p < |lines| { AnnotatesInside(lines, p, i); }
  }

  lemma AnnotatesInside(lines: seq<Line>, p: nat, i: nat)
    ensures Annotates(lines, p, i) ==> p < |lines|
  {
  }

  ghost predicate Unclosed(lines: seq<Line>, p: nat)
    requires p < |lines| && lines[p].marker.Some?
  {
    forall k :: p < k < |lines| ==> !Shuts(lines[p].marker.value, lines[k].marker)
  }

  lemma FenceEnds(lines: seq<Line>, i: nat, close: nat, white: char -> bool)
    requires i < close < |lines| && lines[i].marker.Some?
    ensures FenceAt(lines, i, close, white).opener == i && FenceAt(lines, i, close, white).closer == close
  {
  }

  /** Every fence is genuine and filled, they come in order, and none starts before `i`. */
  lemma {:induction false} FencesAreGenuine(lines: seq<Line>, i: nat, white: char -> bool, k: nat)
    requires i <= |lines| && k < |FencesFrom(lines, i, white)|
    ensures var fs := FencesFrom(lines, i, white);
      Genuine(lines, fs[k]) && Filled(lines, fs[k], white)
      && fs[k].opener >= i && (k > 0 ==> fs[k - 1].closer < fs[k].opener)
    decreases |lines| - i
  {
    hide Filled, FenceAt, Body, Annotation;
    if lines[i].marker.None? || CloserFrom(lines, lines[i].marker.value, i + 1) == |lines| {
      FencesAreGenuine(lines, i + 1, white, k);
    } else {
      var close := CloserFrom(lines, lines[i].marker.value, i + 1);
      FenceIsFilled(lines, i, close, white);
      FenceEnds(lines, i, close, white);
      if k > 0 { FencesAreGenuine(lines, close + 1, white, k - 1); }
    }
  }

  /** Every marker line lies within a fence found, or is an opener that nothing closes. */
  lemma {:induction false} EveryMarkerAccountedFor(lines: seq<Line>, i: nat, white: char -> bool, p: nat)
    requires i <= p < |lines| && lines[p].marker.Some?
    ensures (exists f :: f in FencesFrom(lines, i, white) && Within(f, p)) || Unclosed(lines, p)
    decreases |lines| - i
  {
    var fs := FencesFrom(lines, i, white);
    if lines[i].marker.None? {
      EveryMarkerAccountedFor(lines, i + 1, white, p);
    } else {
      var close := CloserFrom(lines, lines[i].marker.value, i + 1);
      if close == |lines| {
        if p > i { EveryMarkerAccountedFor(lines, i + 1, white, p); }
      } else {
        assert fs[0] in fs && forall f :: f in fs[1..] ==> f in fs;
        if p > close {
          EveryMarkerAccountedFor(lines, close + 1, white, p);
        } else {
          assert Within(fs[0], p);
        }
      }
    }
  }
}
