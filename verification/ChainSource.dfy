/** The fixture generators of the Pratt benchmark and the checks their output is held to.  The
    source of a fixture is a function of its depth, its operator and its number of expressions;
    the generators compute it, the census counts it, and the assertions about bytes, counts and
    the pair of one depth are proved of it for every size. */
module ChainSource {
  import opened Sequences
  import opened Wrappers
  import opened ChainFold

  const BYTES_PER_OPERAND := 7
  const TWO_32 := 0x1_0000_0000

  /** `operand`: 1000 plus a 32-bit wrapping product modulo 9000. */
  function Operand(i: nat): (r: i64)
    requires i < TWO_32
    ensures 1000 <= r <= 9999
  {
    (1000 + (i * 2654435761 % TWO_32) % 9000) as i64
  }

  function Op(assoc: Assoc): char {
    if assoc.Left? then '+' else '^'
  }

  // ---- text -------------------------------------------------------------------------

  predicate IsDigit(c: char) {
    '0' <= c <= '9'
  }

  function Digit(d: nat): (c: char)
    requires d < 10
    ensures IsDigit(c)
  {
    '0' + d as char
  }

  /** The decimal spelling of a number. */
  function Decimal(n: nat): string {
    if n < 10 then [Digit(n)] else Decimal(n / 10) + [Digit(n % 10)]
  }

  predicate FourDigits(text: string) {
    |text| == 4 && forall k :: 0 <= k < 4 ==> IsDigit(text[k])
  }

  lemma DecimalOfOperand(v: nat)
    requires 1000 <= v <= 9999
    ensures FourDigits(Decimal(v))
  {
    var a, b, c := v / 10, v / 10 / 10, v / 10 / 10 / 10;
    assert Decimal(c) == [Digit(c)];
    assert Decimal(b) == Decimal(c) + [Digit(b % 10)];
    assert Decimal(a) == Decimal(b) + [Digit(a % 10)];
    assert Decimal(v) == Decimal(a) + [Digit(v % 10)];
  }

  function Spelled(i: nat): string
    requires i < TWO_32
  {
    Decimal(Operand(i) as nat)
  }

  /** The counter after `k` increments from `i`, wrapping at 32 bits. */
  function After(i: nat, k: nat): (r: nat)
    ensures r < TWO_32
  {
    (i + k) % TWO_32
  }

  lemma AfterOneMore(i: nat, k: nat)
    ensures (After(i, k) + 1) % TWO_32 == After(i, k + 1)
  {
  }

  /** The operands of an expression that starts at counter `i`. */
  function OperandsFrom(i: nat, count: nat): (r: seq<i64>)
    ensures |r| == count
  {
    seq(count, k requires 0 <= k < count => Operand(After(i, k)))
  }

  /** ` OP 1234`, for each of `count` operands after the head. */
  function Links(i: nat, count: nat, op: char): string {
    if count == 0 then [] else Links(i, count - 1, op) + ([' ', op, ' '] + Spelled(After(i, count)))
  }

  const TERMINATOR: string := [' ', ';', '\n']

  /** One expression: the head, the links and the terminator. */
  function Expression(i: nat, depth: nat, op: char): string {
    Spelled(After(i, 0)) + Links(i, depth, op) + TERMINATOR
  }

  function Times(a: nat, b: nat): nat {
    a * b
  }

  function Source(depth: nat, op: char, expressions: nat): string {
    if expressions == 0 then []
    else Source(depth, op, expressions - 1) + Expression(Times(expressions - 1, depth + 1), depth, op)
  }

  /** The sum of the expressions' values over the integers. */
  function Checksum(depth: nat, assoc: Assoc, expressions: nat): int {
    if expressions == 0 then 0
    else
      Checksum(depth, assoc, expressions - 1)
      + ChainValue(Ints(OperandsFrom(Times(expressions - 1, depth + 1), depth + 1)), assoc)
  }

  // ---- counting ---------------------------------------------------------------------

  function Count(p: char -> bool, text: string): nat {
    if text == [] then 0 else Count(p, Front(text)) + (if p(Last(text)) then 1 else 0)
  }

  /** The maximal runs of digits. */
  function Runs(text: string): nat {
    if text == [] then 0
    else Runs(Front(text)) + (if IsDigit(Last(text)) && !EndsInDigit(Front(text)) then 1 else 0)
  }

  predicate EndsInDigit(text: string) {
    text != [] && IsDigit(Last(text))
  }

  predicate IsOperator(c: char) {
    c == '^' || c == '+'
  }

  predicate IsTerminator(c: char) {
    c == ';'
  }

  datatype Census = Census(operands: nat, operators: nat, expressions: nat)

  function CensusOf(text: string): Census {
    Census(Runs(text), Count(IsOperator, text), Count(IsTerminator, text))
  }

  /** `Census::of`: one pass over the bytes. */
  method TakeCensus(text: string) returns (seen: Census)
    ensures seen == CensusOf(text)
  {
    var operands, operators, expressions := 0, 0, 0;
    var inOperand := false;
    var k := 0;
    while k < |text|
      invariant 0 <= k <= |text|
      invariant CensusOf(text[..k]) == Census(operands, operators, expressions)
      invariant inOperand == EndsInDigit(text[..k])
    {
      assert Front(text[..k + 1]) == text[..k];
      var digit := IsDigit(text[k]);
      if digit && !inOperand { operands := operands + 1; }
      inOperand := digit;
      if text[k] == '^' || text[k] == '+' {
        operators := operators + 1;
      } else if text[k] == ';' {
        expressions := expressions + 1;
      }
      k := k + 1;
    }
    assert text[..k] == text;
    seen := Census(operands, operators, expressions);
  }

  lemma {:induction false} CountConcat(p: char -> bool, a: string, b: string)
    ensures Count(p, a + b) == Count(p, a) + Count(p, b)
    decreases |b|
  {
    if b == [] {
      assert a + b == a;
    } else {
      assert Front(a + b) == a + Front(b);
      CountConcat(p, a, Front(b));
    }
  }

  /** Runs add up where two texts do not join a run. */
  lemma {:induction false} RunsConcat(a: string, b: string)
    requires !EndsInDigit(a) || b == [] || !IsDigit(b[0])
    ensures Runs(a + b) == Runs(a) + Runs(b)
    decreases |b|
  {
    if b == [] {
      assert a + b == a;
    } else {
      assert Front(a + b) == a + Front(b);
      RunsConcat(a, Front(b));
    }
  }

  lemma CensusConcat(a: string, b: string)
    requires !EndsInDigit(a) || b == [] || !IsDigit(b[0])
    ensures CensusOf(a + b) == Plus(CensusOf(a), CensusOf(b))
  {
    hide Runs, Count, EndsInDigit, IsDigit, IsOperator, IsTerminator;
    RunsConcat(a, b);
    CountConcat(IsOperator, a, b);
    CountConcat(IsTerminator, a, b);
  }

  function Plus(a: Census, b: Census): Census {
    Census(a.operands + b.operands, a.operators + b.operators, a.expressions + b.expressions)
  }

  /** One character more. */
  lemma CensusSnoc(text: string, c: char)
    ensures CensusOf(text + [c]) == Plus(CensusOf(text), Census(
      if IsDigit(c) && !EndsInDigit(text) then 1 else 0, if IsOperator(c) then 1 else 0, if IsTerminator(c) then 1 else 0))
    ensures EndsInDigit(text + [c]) == IsDigit(c)
  {
    assert Front(text + [c]) == text;
  }

  lemma EmptyCensus()
    ensures CensusOf([]) == Census(0, 0, 0) && !EndsInDigit([])
  {
  }

  lemma DigitSnoc(text: string, c: char)
    requires IsDigit(c)
    ensures CensusOf(text + [c]) == Plus(CensusOf(text), Census(if EndsInDigit(text) then 0 else 1, 0, 0))
    ensures EndsInDigit(text + [c])
  {
    hide CensusOf, EndsInDigit;
    CensusSnoc(text, c);
  }

  lemma CensusOfFour(text: string)
    requires FourDigits(text)
    ensures CensusOf(text) == Census(1, 0, 0)
  {
    hide CensusOf, EndsInDigit, IsDigit;
    var a, b, c := [] + [text[0]], [text[0], text[1]], [text[0], text[1], text[2]];
    assert b == a + [text[1]];
    assert c == b + [text[2]];
    assert text == c + [text[3]];
    EmptyCensus();
    DigitSnoc([], text[0]);
    DigitSnoc(a, text[1]);
    DigitSnoc(b, text[2]);
    DigitSnoc(c, text[3]);
  }

  lemma BlankSnoc(text: string, c: char)
    requires c == ' ' || c == '\n'
    ensures CensusOf(text + [c]) == CensusOf(text)
  {
    hide CensusOf, EndsInDigit;
    CensusSnoc(text, c);
  }

  lemma CensusOfThree(y: char, z: char)
    requires !IsDigit(y) && (z == ' ' || z == '\n')
    ensures CensusOf([' ', y, z]) == Census(0, if IsOperator(y) then 1 else 0, if IsTerminator(y) then 1 else 0)
  {
    hide CensusOf, EndsInDigit, IsOperator, IsTerminator;
    var a, b := [] + [' '], [' ', y];
    assert b == a + [y];
    assert [' ', y, z] == b + [z];
    EmptyCensus();
    BlankSnoc([], ' ');
    CensusSnoc(a, y);
    BlankSnoc(b, z);
  }

  // ---- the shape of the source ------------------------------------------------------

  lemma {:induction false} LinksShape(i: nat, count: nat, op: char)
    requires IsOperator(op)
    ensures |Links(i, count, op)| == 7 * count
    ensures CensusOf(Links(i, count, op)) == Census(count, count, 0)
    ensures count > 0 ==> !IsDigit(Links(i, count, op)[0])
  {
    hide Spelled, CensusOf, After;
    if count == 0 {
      EmptyCensus();
    } else {
      LinksShape(i, count - 1, op);
      LinkShape(After(i, count), op);
      CensusConcat(Links(i, count - 1, op), [' ', op, ' '] + Spelled(After(i, count)));
    }
  }

  lemma LinkShape(i: nat, op: char)
    requires i < TWO_32 && IsOperator(op)
    ensures var link := [' ', op, ' '] + Spelled(i);
      |link| == 7 && !IsDigit(link[0]) && CensusOf(link) == Census(1, 1, 0)
  {
    hide Spelled, CensusOf;
    SpelledIsFourDigits(i);
    CensusOfThree(op, ' ');
    CensusOfFour(Spelled(i));
    CensusConcat([' ', op, ' '], Spelled(i));
  }

  lemma SpelledIsFourDigits(i: nat)
    requires i < TWO_32
    ensures FourDigits(Spelled(i))
  {
    DecimalOfOperand(Operand(i) as nat);
  }

  lemma ExpressionShape(i: nat, depth: nat, op: char)
    requires IsOperator(op)
    ensures |Expression(i, depth, op)| == 7 * (depth + 1)
    ensures CensusOf(Expression(i, depth, op)) == Census(depth + 1, depth, 1)
    ensures !EndsInDigit(Expression(i, depth, op))
  {
    hide Spelled, CensusOf, Links;
    var v, links := Spelled(After(i, 0)), Links(i, depth, op);
    SpelledIsFourDigits(After(i, 0));
    LinksShape(i, depth, op);
    CensusOfFour(v);
    CensusOfThree(';', '\n');
    CensusConcat(v, links);
    CensusConcat(v + links, TERMINATOR);
  }

  /** The byte and count facts of a fixture, for any size. */
  lemma {:induction false} SourceShape(depth: nat, op: char, expressions: nat)
    requires IsOperator(op)
    ensures |Source(depth, op, expressions)| == 7 * Times(expressions, depth + 1)
    ensures CensusOf(Source(depth, op, expressions)) == Census(Times(expressions, depth + 1), Times(expressions, depth), expressions)
    ensures !EndsInDigit(Source(depth, op, expressions))
  {
    hide CensusOf, Expression, Times;
    NoTimes(depth);
    NoTimes(depth + 1);
    if expressions == 0 {
      EmptyCensus();
    } else {
      var e := expressions - 1;
      SourceShape(depth, op, e);
      ExpressionShape(Times(e, depth + 1), depth, op);
      CensusConcat(Source(depth, op, e), Expression(Times(e, depth + 1), depth, op));
      OneMore(e, depth + 1);
      OneMore(e, depth);
    }
  }

  lemma NoTimes(d: nat)
    ensures Times(0, d) == 0
  {
  }

  lemma OneMore(e: nat, d: nat)
    ensures Times(e + 1, d) == Times(e, d) + d
  {
  }

  // ---- the generators ---------------------------------------------------------------

  /** One benchmark cell; no associativity for the operator-free one. */
  datatype Cell = Cell(src: string, expected: i64, depth: nat, expressions: nat, assoc: Option<Assoc>)

  function Operands(cell: Cell): nat {
    Times(cell.expressions, cell.depth + 1)
  }

  function Operators(cell: Cell): nat {
    Times(cell.expressions, cell.depth)
  }

  /** What `check_invariants` asserts of a cell. */
  predicate Sound(cell: Cell, target: nat) {
    && CensusOf(cell.src) == Census(Operands(cell), Operators(cell), cell.expressions)
    && |cell.src| == BYTES_PER_OPERAND * Operands(cell)
    && Operands(cell) + Operators(cell) + cell.expressions == 2 * Operands(cell)
    && target <= |cell.src| < target + BYTES_PER_OPERAND * (cell.depth + 1)
  }

  /** The cell is the fixture of its depth, and its expected value the checksum of the fixture. */
  ghost predicate Faithful(cell: Cell, assoc: Assoc) {
    && cell.src == Source(cell.depth, Op(assoc), cell.expressions)
    && cell.expected == Wrap(Checksum(cell.depth, assoc, cell.expressions))
  }

  /** `chain_source`: expressions of `depth` operators each, until the target is reached. */
  method Chain(target: nat, assoc: Assoc, depth: nat) returns (cell: Cell)
    ensures cell.depth == depth && cell.assoc == Some(assoc)
    ensures Faithful(cell, assoc) && Sound(cell, target)
  {
    hide Source, Expression, Spelled, Links, Operand, After, Times, Wrap, Checksum, ChainValue, CensusOf;
    var op := Op(assoc);
    var s: string := [];
    var i, expected, expressions := 0, 0 as i64, 0;
    Beginning(depth, op, assoc);
    while |s| < target
      invariant s == Source(depth, op, expressions)
      invariant i == After(Times(expressions, depth + 1), 0)
      invariant expected == Wrap(Checksum(depth, assoc, expressions))
      invariant expressions > 0 ==> |Source(depth, op, expressions - 1)| < target
      invariant expressions == 0 ==> s == []
      decreases target - |s|
    {
      ghost var start, before := Times(expressions, depth + 1), s;
      var operands: seq<i64> := [Operand(i)];
      s := s + Spelled(i);
      AfterOneMore(start, 0);
      i := (i + 1) % TWO_32;
      NoLinks(start, op);
      assert operands == OperandsFrom(start, 1);
      assert s == before + Spelled(After(start, 0)) + Links(start, 0, op);
      for k := 0 to depth
        invariant i == After(start, k + 1)
        invariant operands == OperandsFrom(start, k + 1)
        invariant s == before + Spelled(After(start, 0)) + Links(start, k, op)
      {
        operands := operands + [Operand(i)];
        ConcatThree(before + Spelled(After(start, 0)), Links(start, k, op), [' ', op, ' '] + Spelled(i));
        OneLink(start, k, op);
        s := s + ([' ', op, ' '] + Spelled(i));
        AfterOneMore(start, k + 1);
        i := (i + 1) % TWO_32;
      }
      s := s + TERMINATOR;
      var value := ExpectedExpression(operands, assoc);
      OneExpression(depth, op, assoc, expressions, before);
      AddIsExact(Checksum(depth, assoc, expressions), ChainValue(Ints(operands), assoc));
      expected := Wrap(expected as int + value as int);
      expressions := expressions + 1;
    }
    cell := Cell(s, expected, depth, expressions, Some(assoc));
    FixtureIsSound(cell, assoc, target);
  }

  lemma Beginning(depth: nat, op: char, assoc: Assoc)
    ensures Source(depth, op, 0) == [] && After(Times(0, depth + 1), 0) == 0 && Wrap(Checksum(depth, assoc, 0)) == 0
  {
  }

  lemma NoLinks(start: nat, op: char)
    ensures Links(start, 0, op) == []
  {
  }

  lemma OneLink(start: nat, k: nat, op: char)
    ensures Links(start, k + 1, op) == Links(start, k, op) + ([' ', op, ' '] + Spelled(After(start, k + 1)))
  {
  }

  lemma OneExpression(depth: nat, op: char, assoc: Assoc, expressions: nat, before: string)
    requires before == Source(depth, op, expressions) && IsOperator(op)
    ensures var start := Times(expressions, depth + 1);
      && before + Spelled(After(start, 0)) + Links(start, depth, op) + TERMINATOR == Source(depth, op, expressions + 1)
      && |Source(depth, op, expressions + 1)| > |before|
      && After(start, depth + 1) == After(Times(expressions + 1, depth + 1), 0)
      && Checksum(depth, assoc, expressions + 1)
         == Checksum(depth, assoc, expressions) + ChainValue(Ints(OperandsFrom(start, depth + 1)), assoc)
  {
    hide Spelled, Links, Operand, ChainValue, Ints;
    var start := Times(expressions, depth + 1);
    var v, links := Spelled(After(start, 0)), Links(start, depth, op);
    OneMore(expressions, depth + 1);
    ConcatThree(before, v, links);
    ConcatThree(before, v + links, TERMINATOR);
  }

  lemma AddIsExact(a: int, b: int)
    ensures Wrap(Wrap(a) as int + Wrap(b) as int) == Wrap(a + b)
  {
    CongruentToWrap(a);
    CongruentToWrap(b);
    var x, y := (a - Wrap(a) as int) / TWO_64, (b - Wrap(b) as int) / TWO_64;
    hide Wrap;
    assert (a + b) - (Wrap(a) as int + Wrap(b) as int) == (x + y) * TWO_64;
    MultipleHasNoRemainder(x + y, TWO_64);
    WrapsAlikeIff(a + b, Wrap(a) as int + Wrap(b) as int);
  }

  /** Every byte and count assertion holds of a fixture, at any size and depth. */
  lemma FixtureIsSound(cell: Cell, assoc: Assoc, target: nat)
    requires Faithful(cell, assoc) && |cell.src| >= target
    requires cell.expressions > 0 ==> |Source(cell.depth, Op(assoc), cell.expressions - 1)| < target
    ensures Sound(cell, target)
  {
    hide CensusOf, Times, Source, Checksum, Wrap, EndsInDigit;
    var op, e := Op(assoc), cell.expressions;
    SourceShape(cell.depth, op, e);
    MoreOperands(e, cell.depth);
    NoTimes(cell.depth + 1);
    if e > 0 {
      SourceShape(cell.depth, op, e - 1);
      OneMore(e - 1, cell.depth + 1);
    }
  }

  lemma MoreOperands(e: nat, depth: nat)
    ensures Times(e, depth + 1) == Times(e, depth) + e
  {
  }

  /** `bare_operand_source`: one operand an expression. */
  method Bare(target: nat) returns (cell: Cell)
    ensures cell.depth == 0 && cell.assoc == None
    ensures cell.src == Source(0, '+', cell.expressions) && Sound(cell, target)
    ensures cell.expected == Wrap(Checksum(0, Left, cell.expressions))
  {
    hide Source, Expression, Spelled, Operand, After, Times, Wrap, Checksum, CensusOf;
    var s: string := [];
    var i, expected, expressions := 0, 0 as i64, 0;
    Beginning(0, '+', Left);
    while |s| < target
      invariant s == Source(0, '+', expressions)
      invariant i == After(Times(expressions, 1), 0)
      invariant expected == Wrap(Checksum(0, Left, expressions))
      invariant expressions > 0 ==> |Source(0, '+', expressions - 1)| < target
      invariant expressions == 0 ==> s == []
      decreases target - |s|
    {
      ghost var start, before := Times(expressions, 1), s;
      var value := Operand(i);
      OneExpression(0, '+', Left, expressions, before);
      NoLinks(start, '+');
      assert before + Spelled(i) + [] == before + Spelled(i);
      ConcatThree(before, Spelled(i), TERMINATOR);
      s := s + (Spelled(i) + TERMINATOR);
      OneOperand(start);
      WrapOfI64(value);
      AddIsExact(Checksum(0, Left, expressions), value as int);
      expected := Wrap(expected as int + value as int);
      expressions := expressions + 1;
      AfterOneMore(start, 0);
      i := (i + 1) % TWO_32;
    }
    cell := Cell(s, expected, 0, expressions, None);
    FixtureIsSound(cell, Left, target);
  }

  lemma OneOperand(start: nat)
    ensures ChainValue(Ints(OperandsFrom(start, 1)), Left) == Operand(After(start, 0)) as int
  {
  }

  /** `check_invariants`: the census of the bytes against the loop's own counts. */
  method CheckInvariants(cell: Cell, target: nat) returns (ok: bool)
    ensures ok <==> Sound(cell, target)
  {
    hide CensusOf, Times;
    var seen := TakeCensus(cell.src);
    if seen.expressions != cell.expressions { return false; }
    if seen.operands != Operands(cell) { return false; }
    if seen.operators != Operators(cell) { return false; }
    if |cell.src| != BYTES_PER_OPERAND * Operands(cell) { return false; }
    if Operands(cell) + Operators(cell) + cell.expressions != 2 * Operands(cell) { return false; }
    var bytes := BYTES_PER_OPERAND * (cell.depth + 1);
    ok := |cell.src| >= target && |cell.src| < target + bytes;
  }

  // ---- the pair ---------------------------------------------------------------------

  /** The positions at which two texts of one length differ. */
  function Differing(right: string, left: string): nat
    requires |right| == |left|
  {
    if right == [] then 0
    else Differing(Front(right), Front(left)) + (if Last(right) != Last(left) then 1 else 0)
  }

  /** Alike but for the operators, `^` against `+`. */
  ghost predicate Matched(right: string, left: string) {
    |right| == |left| && forall k :: 0 <= k < |right| ==> MatchedAt(right[k], left[k])
  }

  predicate MatchedAt(r: char, l: char) {
    if IsOperator(r) then r == '^' && l == '+' else r == l
  }

  /** What `check_pair` asserts of two cells. */
  predicate PairSound(right: Cell, left: Cell) {
    && |right.src| == |left.src| && right.depth == left.depth
    && (forall k :: 0 <= k < |right.src| && right.src[k] != left.src[k] ==> right.src[k] == '^' && left.src[k] == '+')
    && Differing(right.src, left.src) == Operators(right)
    && (if right.depth >= 2 then right.expected != left.expected else right.expected == left.expected)
  }

  method CheckPair(right: Cell, left: Cell) returns (ok: bool)
    ensures ok <==> PairSound(right, left)
  {
    hide Times;
    if |right.src| != |left.src| || right.depth != left.depth { return false; }
    var differing := 0;
    for k := 0 to |right.src|
      invariant differing == Differing(right.src[..k], left.src[..k])
      invariant forall i :: 0 <= i < k && right.src[i] != left.src[i] ==> right.src[i] == '^' && left.src[i] == '+'
    {
      assert Front(right.src[..k + 1]) == right.src[..k] && Front(left.src[..k + 1]) == left.src[..k];
      if right.src[k] != left.src[k] {
        differing := differing + 1;
        if !(right.src[k] == '^' && left.src[k] == '+') { return false; }
      }
    }
    assert right.src[..|right.src|] == right.src && left.src[..|right.src|] == left.src;
    if differing != Operators(right) { return false; }
    ok := if right.depth >= 2 then right.expected != left.expected else right.expected == left.expected;
  }

  lemma MatchedConcat(a: string, b: string, c: string, d: string)
    requires Matched(a, c) && Matched(b, d)
    ensures Matched(a + b, c + d)
  {
    hide MatchedAt;
  }

  lemma MatchedToItself(text: string)
    requires CensusOf(text).operators == 0
    ensures Matched(text, text)
  {
    forall k | 0 <= k < |text| ensures MatchedAt(text[k], text[k]) {
      CountAt(IsOperator, text, k);
    }
  }

  lemma {:induction false} CountAt(p: char -> bool, text: string, k: nat)
    requires k < |text|
    ensures p(text[k]) ==> Count(p, text) > 0
    decreases |text|
  {
    if k < |text| - 1 { CountAt(p, Front(text), k); }
  }

  lemma {:induction false} MatchedLinks(i: nat, count: nat)
    ensures Matched(Links(i, count, '^'), Links(i, count, '+'))
  {
    hide Spelled, After, Matched;
    if count == 0 {
      assert Matched([], []) by { MatchedToItself([]); }
    } else {
      var v := Spelled(After(i, count));
      MatchedLinks(i, count - 1);
      MatchedSpelling(After(i, count));
      MatchedOperator();
      MatchedConcat([' ', '^', ' '], v, [' ', '+', ' '], v);
      MatchedConcat(Links(i, count - 1, '^'), [' ', '^', ' '] + v, Links(i, count - 1, '+'), [' ', '+', ' '] + v);
    }
  }

  lemma MatchedOperator()
    ensures Matched([' ', '^', ' '], [' ', '+', ' '])
  {
  }

  lemma MatchedSpelling(i: nat)
    requires i < TWO_32
    ensures Matched(Spelled(i), Spelled(i))
  {
    hide Spelled, CensusOf;
    SpelledIsFourDigits(i);
    CensusOfFour(Spelled(i));
    MatchedToItself(Spelled(i));
  }

  lemma {:induction false} MatchedSources(depth: nat, expressions: nat)
    ensures Matched(Source(depth, '^', expressions), Source(depth, '+', expressions))
  {
    hide Spelled, After, Matched, Links, Times;
    if expressions == 0 {
      assert Matched([], []) by { MatchedToItself([]); }
    } else {
      var i := Times(expressions - 1, depth + 1);
      var v := Spelled(After(i, 0));
      MatchedSources(depth, expressions - 1);
      MatchedSpelling(After(i, 0));
      MatchedLinks(i, depth);
      MatchedConcat(v, Links(i, depth, '^'), v, Links(i, depth, '+'));
      MatchedTerminator();
      MatchedConcat(v + Links(i, depth, '^'), TERMINATOR, v + Links(i, depth, '+'), TERMINATOR);
      MatchedConcat(Source(depth, '^', expressions - 1), Expression(i, depth, '^'),
        Source(depth, '+', expressions - 1), Expression(i, depth, '+'));
    }
  }

  lemma MatchedTerminator()
    ensures Matched(TERMINATOR, TERMINATOR)
  {
    hide CensusOf;
    CensusOfThree(';', '\n');
    MatchedToItself(TERMINATOR);
  }

  lemma {:induction false} MatchedDiffersAtOperators(right: string, left: string)
    requires Matched(right, left)
    ensures Differing(right, left) == Count(IsOperator, right)
    decreases |right|
  {
    if right != [] {
      MatchedDiffersAtOperators(Front(right), Front(left));
    }
  }

  /** Both generators stop after the same number of expressions. */
  lemma SameLength(right: Cell, left: Cell, target: nat)
    requires Sound(right, target) && Sound(left, target) && right.depth == left.depth
    ensures right.expressions == left.expressions
  {
    hide CensusOf;
    var step := right.depth + 1;
    var e, f := right.expressions, left.expressions;
    assert e * step - f * step == (e - f) * step;
    Multiples(e - f, step);
  }

  /** Operand positions hold the same operands in the two sums. */
  lemma {:induction false} ChecksumsCompare(depth: nat, expressions: nat)
    ensures depth <= 1 ==> Checksum(depth, Left, expressions) == Checksum(depth, Right, expressions)
    ensures depth >= 2 && expressions > 0 ==> Checksum(depth, Left, expressions) > Checksum(depth, Right, expressions) >= 0
    ensures expressions == 0 ==> Checksum(depth, Left, expressions) == Checksum(depth, Right, expressions) == 0
  {
    hide LeftValue, RightValue, Times, OperandsFrom;
    if expressions > 0 {
      var ops := OperandsFrom(Times(expressions - 1, depth + 1), depth + 1);
      ChecksumsCompare(depth, expressions - 1);
      OperandsArePositive(Times(expressions - 1, depth + 1), depth + 1);
      LeftAgainstRight(Ints(ops));
      RightIsPositive(Ints(ops));
    }
  }

  lemma OperandsArePositive(i: nat, count: nat)
    ensures forall k :: 0 <= k < count ==> Ints(OperandsFrom(i, count))[k] > 0
  {
  }

  lemma RightIsPositive(ops: seq<int>)
    requires ops != [] && forall k :: 0 <= k < |ops| ==> ops[k] > 0
    ensures RightValue(ops) > 0
  {
    if |ops| > 1 { LeftAgainstRight(Front(ops)); }
  }

  /** The two fixtures of one depth pass `check_pair`, except that from depth 2 on the two
      expected values, unequal as integers, must also be unequal modulo 2^64. */
  lemma PairOfFixtures(right: Cell, left: Cell, target: nat)
    requires Faithful(right, Right) && Faithful(left, Left) && Sound(right, target) && Sound(left, target)
    requires right.depth == left.depth
    ensures Matched(right.src, left.src)
    ensures PairSound(right, left) <==> (right.depth >= 2 ==> right.expected != left.expected)
    ensures right.depth >= 2 && target > 0 ==>
      var e := right.expressions;
      && Checksum(right.depth, Left, e) > Checksum(right.depth, Right, e)
      && (Checksum(right.depth, Left, e) < TWO_64 ==> PairSound(right, left))
  {
    hide CensusOf, Times, Source, Checksum, Wrap;
    SameLength(right, left, target);
    MatchedSources(right.depth, right.expressions);
    MatchedDiffersAtOperators(right.src, left.src);
    CensusOperators(right.src);
    ChecksumsCompare(right.depth, right.expressions);
    var l, r := Checksum(right.depth, Left, right.expressions), Checksum(right.depth, Right, right.expressions);
    WrapsAlikeIff(r, l);
    if target > 0 { SomeExpression(right, target); }
  }

  lemma CensusOperators(text: string)
    ensures CensusOf(text).operators == Count(IsOperator, text)
  {
  }

  lemma SomeExpression(cell: Cell, target: nat)
    requires Sound(cell, target) && target > 0
    ensures cell.expressions > 0
  {
    hide CensusOf;
  }

  // ---- the pair at the benchmark's size ---------------------------------------------

  /** The sum of the first `n` powers of 31. */
  function Powers(n: nat): nat {
    if n == 0 then 0 else 31 * Powers(n - 1) + 1
  }

  lemma {:induction false} LeftIsBelow(ops: seq<int>)
    requires ops != [] && forall k :: 0 <= k < |ops| ==> 0 <= ops[k] <= 9999
    ensures 0 <= LeftValue(ops) <= 9999 * Powers(|ops|)
    decreases |ops|
  {
    if |ops| > 1 {
      LeftIsBelow(Front(ops));
    } else {
      assert Powers(1) == 1;
    }
  }

  lemma {:induction false} ChecksumIsBelow(depth: nat, expressions: nat)
    ensures 0 <= Checksum(depth, Left, expressions) <= Times(expressions, 9999 * Powers(depth + 1))
    decreases expressions
  {
    hide LeftValue, Powers, Times, OperandsFrom;
    NoTimes(9999 * Powers(depth + 1));
    if expressions > 0 {
      var ops := OperandsFrom(Times(expressions - 1, depth + 1), depth + 1);
      ChecksumIsBelow(depth, expressions - 1);
      OperandsAreSmall(Times(expressions - 1, depth + 1), depth + 1);
      LeftIsBelow(Ints(ops));
      OneMore(expressions - 1, 9999 * Powers(depth + 1));
    }
  }

  lemma OperandsAreSmall(i: nat, count: nat)
    ensures forall k :: 0 <= k < count ==> 0 <= Ints(OperandsFrom(i, count))[k] <= 9999
  {
  }

  /** Wherever the largest sum possible stays below 2^64, the pair passes. */
  lemma PairPasses(right: Cell, left: Cell, target: nat)
    requires Faithful(right, Right) && Faithful(left, Left) && Sound(right, target) && Sound(left, target)
    requires right.depth == left.depth && target > 0
    requires Times(right.expressions, 9999 * Powers(right.depth + 1)) < TWO_64
    ensures PairSound(right, left)
  {
    hide PairSound, Sound, Faithful, Times, Powers, Checksum;
    ChecksumIsBelow(right.depth, right.expressions);
    PairOfFixtures(right, left, target);
  }

  const TARGET := 131072

  lemma FewExpressions(cell: Cell)
    requires Sound(cell, TARGET)
    ensures Times(cell.expressions, cell.depth + 1) < 18725 + cell.depth + 1
  {
    hide CensusOf;
  }

  lemma PowersUpTo9()
    ensures Powers(1) == 1 && Powers(2) == 32 && Powers(3) == 993 && Powers(4) == 30784 && Powers(5) == 954305
    ensures Powers(6) == 29583456 && Powers(7) == 917087137 && Powers(8) == 28429701248 && Powers(9) == 881320738689
  {
    assert Powers(0) == 0;
    assert Powers(1) == 31 * Powers(0) + 1;
    assert Powers(2) == 31 * Powers(1) + 1;
    assert Powers(3) == 31 * Powers(2) + 1;
    assert Powers(4) == 31 * Powers(3) + 1;
    assert Powers(5) == 31 * Powers(4) + 1;
    assert Powers(6) == 31 * Powers(5) + 1;
    assert Powers(7) == 31 * Powers(6) + 1;
    assert Powers(8) == 31 * Powers(7) + 1;
    assert Powers(9) == 31 * Powers(8) + 1;
  }

  /** At the benchmark's size that is so up to depth 8. */
  lemma SmallEnough(expressions: nat, depth: nat)
    requires depth <= 8 && Times(expressions, depth + 1) < 18725 + depth + 1
    ensures Times(expressions, 9999 * Powers(depth + 1)) < TWO_64
  {
    PowersUpTo9();
    hide Powers;
    match depth
    case 0 =>
    case 1 =>
    case 2 =>
    case 3 =>
    case 4 =>
    case 5 =>
    case 6 =>
    case 7 =>
    case 8 =>
    case _ =>
  }

  /** The two fixtures the benchmark builds at one depth pass `check_pair` at every depth up to 8. */
  lemma BenchmarkPairPasses(right: Cell, left: Cell)
    requires Faithful(right, Right) && Faithful(left, Left) && Sound(right, TARGET) && Sound(left, TARGET)
    requires right.depth == left.depth <= 8
    ensures PairSound(right, left)
  {
    hide PairSound, Sound, Faithful, Times, Powers;
    FewExpressions(right);
    SmallEnough(right.expressions, right.depth);
    PairPasses(right, left, TARGET);
  }
}
