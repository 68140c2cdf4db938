/** Reading the fixtures of the Pratt benchmark back: the numbers and signs their text spells, and
    that the expected value is that of what is read.  The reader knows decimal numerals, white
    space and the terminator, and nothing of how the text was generated; the operands are stated
    over the integers, as residues of a product. */
module ChainReader {
  import opened Sequences
  import opened Wrappers
  import opened ChainFold
  import opened ChainSource

  datatype Item = Num(n: int) | Sign(c: char) | End

  function Flush(run: Option<int>): seq<Item> {
    match run case Some(n) => [Num(n)] case None => []
  }

  /** The items read, and the number whose digits are still being read. */
  function Scan(text: string): (seq<Item>, Option<int>) {
    if text == [] then ([], None)
    else
      var (items, run) := Scan(Front(text));
      var c := Last(text);
      if '0' <= c <= '9' then
        (items, Some(10 * (match run case Some(n) => n case None => 0) + (c as int - '0' as int)))
      else if c == ' ' || c == '\n' then (items + Flush(run), None)
      else if c == ';' then (items + Flush(run) + [End], None)
      else (items + Flush(run) + [Sign(c)], None)
  }

  function Items(text: string): seq<Item> {
    Scan(text).0 + Flush(Scan(text).1)
  }

  /** The items of one expression: its operands with the sign between each two. */
  function Listed(ops: seq<int>, op: char): seq<Item>
    requires ops != []
  {
    if |ops| == 1 then [Num(ops[0])] else Listed(Front(ops), op) + [Sign(op), Num(Last(ops))]
  }

  function Listing(exprs: seq<seq<int>>, op: char): seq<Item>
    requires forall e :: 0 <= e < |exprs| ==> exprs[e] != []
  {
    if exprs == [] then [] else Listing(Front(exprs), op) + (Listed(Last(exprs), op) + [End])
  }

  /** Operand number `i`: 1000, and the remainder by 9000 of what the product leaves by 2^32. */
  ghost predicate NthOperand(i: nat, v: int) {
    exists q: int, p: int, t: int, r: int :: Residues(i, q, p, t, r) && v == 1000 + r
  }

  ghost predicate Residues(i: nat, q: int, p: int, t: int, r: int) {
    && i * 2654435761 == q * 4294967296 + p && 0 <= p < 4294967296
    && p == t * 9000 + r && 0 <= r < 9000
  }

  /** The text reads as these expressions, of as many operands each as the depth asks for, the
      operands those of the running number, and they have the expected value. */
  ghost predicate ReadsAs(cell: Cell, op: char, assoc: Assoc, exprs: seq<seq<int>>) {
    && |exprs| == cell.expressions
    && (forall e :: 0 <= e < |exprs| ==> |exprs[e]| == cell.depth + 1)
    && (forall e, k :: 0 <= e < |exprs| && 0 <= k <= cell.depth ==> NthOperand(Times(e, cell.depth + 1) + k, exprs[e][k]))
    && Items(cell.src) == Listing(exprs, op)
    && cell.expected == Wrap(Sum(Map((ops: seq<int>) => if ops == [] then 0 else ChainValue(ops, assoc), exprs)))
  }

  ghost predicate Readable(cell: Cell, op: char, assoc: Assoc) {
    exists exprs :: ReadsAs(cell, op, assoc, exprs)
  }

  // ---- numerals ---------------------------------------------------------------------

  lemma ScanSnoc(text: string, c: char)
    ensures var (items, run) := Scan(text);
      Scan(text + [c]) ==
        if '0' <= c <= '9' then (items, Some(10 * (match run case Some(n) => n case None => 0) + (c as int - '0' as int)))
        else if c == ' ' || c == '\n' then (items + Flush(run), None)
        else if c == ';' then (items + Flush(run) + [End], None)
        else (items + Flush(run) + [Sign(c)], None)
  {
    assert Front(text + [c]) == text;
  }

  lemma DigitReads(d: nat)
    requires d < 10
    ensures '0' <= Digit(d) <= '9' && Digit(d) as int - '0' as int == d
  {
  }

  lemma {:induction false} NumeralReads(text: string, n: nat)
    requires Scan(text).1 == None
    ensures Scan(text + Decimal(n)) == (Scan(text).0, Some(n))
    decreases n
  {
    hide Scan, Digit;
    DigitReads(n % 10);
    if n < 10 {
      ScanSnoc(text, Digit(n));
    } else {
      NumeralReads(text, n / 10);
      assert text + Decimal(n) == (text + Decimal(n / 10)) + [Digit(n % 10)];
      ScanSnoc(text + Decimal(n / 10), Digit(n % 10));
    }
  }

  // ---- expressions ------------------------------------------------------------------

  lemma LinkReads(text: string, op: char, x: nat)
    requires x < TWO_32 && IsOperator(op) && Scan(text).1.Some?
    ensures Scan(text + ([' ', op, ' '] + Spelled(x)))
         == (Scan(text).0 + [Num(Scan(text).1.value), Sign(op)], Some(Operand(x) as int))
  {
    hide Scan, Operand, Decimal;
    var (items, run) := Scan(text);
    ScanSnoc(text, ' ');
    ScanSnoc(text + [' '], op);
    ScanSnoc(text + [' '] + [op], ' ');
    var before := text + [' '] + [op] + [' '];
    assert text + ([' ', op, ' '] + Spelled(x)) == before + Spelled(x);
    assert Scan(text + [' ']) == (items + [Num(run.value)], None);
    assert items + [Num(run.value)] + [] + [Sign(op)] == items + [Num(run.value), Sign(op)];
    assert Scan(text + [' '] + [op]) == (items + [Num(run.value), Sign(op)], None);
    assert items + [Num(run.value), Sign(op)] + [] == items + [Num(run.value), Sign(op)];
    NumeralReads(before, Operand(x) as nat);
  }

  lemma {:induction false} LinksRead(text: string, i: nat, count: nat, op: char)
    requires IsOperator(op) && Scan(text).1 == None
    ensures var (items, run) := Scan(text + Spelled(After(i, 0)) + Links(i, count, op));
      run.Some? && items + [Num(run.value)] == Scan(text).0 + Listed(Ints(OperandsFrom(i, count + 1)), op)
    decreases count
  {
    hide Scan, Operand, Decimal, After;
    var ops := Ints(OperandsFrom(i, count + 1));
    var head := text + Spelled(After(i, 0));
    if count == 0 {
      NumeralReads(text, Operand(After(i, 0)) as nat);
      assert head + [] == head;
    } else {
      LinksRead(text, i, count - 1, op);
      LinkReads(head + Links(i, count - 1, op), op, After(i, count));
      ConcatThree(head, Links(i, count - 1, op), [' ', op, ' '] + Spelled(After(i, count)));
      assert Front(ops) == Ints(OperandsFrom(i, count));
      var before := Scan(head + Links(i, count - 1, op));
      ConcatThree(Scan(text).0, Listed(Front(ops), op), [Sign(op), Num(Last(ops))]);
      assert before.0 + [Num(before.1.value), Sign(op)] + [Num(Last(ops))]
          == (before.0 + [Num(before.1.value)]) + [Sign(op), Num(Last(ops))];
    }
  }

  lemma ExpressionReads(text: string, i: nat, depth: nat, op: char)
    requires IsOperator(op) && Scan(text).1 == None
    ensures Scan(text + Expression(i, depth, op))
         == (Scan(text).0 + (Listed(Ints(OperandsFrom(i, depth + 1)), op) + [End]), None)
  {
    hide Scan, Spelled, After, Links, Listed, Ints;
    var body := text + Spelled(After(i, 0)) + Links(i, depth, op);
    LinksRead(text, i, depth, op);
    var (items, run) := Scan(body);
    ScanSnoc(body, ' ');
    ScanSnoc(body + [' '], ';');
    ScanSnoc(body + [' '] + [';'], '\n');
    assert text + Expression(i, depth, op) == body + [' '] + [';'] + ['\n'];
    var listed := Listed(Ints(OperandsFrom(i, depth + 1)), op);
    assert items + [Num(run.value)] + [] + [End] + [] == Scan(text).0 + (listed + [End]);
  }

  /** The operands of the first `n` expressions. */
  ghost function Expressions(depth: nat, n: nat): (r: seq<seq<int>>)
    ensures |r| == n && forall e :: 0 <= e < |r| ==> r[e] != []
  {
    if n == 0 then [] else Expressions(depth, n - 1) + [Ints(OperandsFrom(Times(n - 1, depth + 1), depth + 1))]
  }

  lemma {:induction false} SourceReads(depth: nat, op: char, n: nat)
    requires IsOperator(op)
    ensures Scan(Source(depth, op, n)) == (Listing(Expressions(depth, n), op), None)
  {
    hide Scan, Expression, Ints, Listed, Times;
    if n == 0 {
      NothingRead();
    } else {
      SourceReads(depth, op, n - 1);
      ExpressionReads(Source(depth, op, n - 1), Times(n - 1, depth + 1), depth, op);
      assert Front(Expressions(depth, n)) == Expressions(depth, n - 1);
    }
  }

  lemma NothingRead()
    ensures Scan([]) == ([], None)
  {
  }

  // ---- operands and the expected value ----------------------------------------------

  lemma SameRemainder(i: nat, k: nat, m: nat)
    requires m > 0
    ensures ((i % m) * k) % m == (i * k) % m
  {
    var q := i / m;
    assert i == q * m + i % m;
    assert i * k == (i % m) * k + (q * k) * m by {
      assert i * k == (q * m + i % m) * k;
      Distribute(q, m, i % m, k);
    }
    ModOfSum((i % m) * k, q * k, m);
  }

  lemma Distribute(q: int, m: int, r: int, k: int)
    ensures (q * m + r) * k == r * k + (q * k) * m
  {
    assert (q * m + r) * k == (q * m) * k + r * k;
    assert (q * m) * k == (q * k) * m;
  }

  lemma ModOfSum(a: int, q: int, m: nat)
    requires m > 0
    ensures (a + q * m) % m == a % m
  {
    var x, y := (a + q * m) % m, a % m;
    var s, t := (a + q * m) / m, a / m;
    assert a + q * m == s * m + x && a == t * m + y;
    assert x - y == (t + q - s) * m by { assert (t + q - s) * m == t * m + q * m - s * m; }
    Multiples(t + q - s, m);
  }

  lemma OperandIsNth(i: nat)
    ensures NthOperand(i, Operand(i % TWO_32) as int)
  {
    var k, m := 2654435761, TWO_32;
    SameRemainder(i, k, m);
    var p := (i * k) % m;
    assert i * k == ((i * k) / m) * m + p;
    assert p == (p / 9000) * 9000 + p % 9000;
    assert Operand(i % m) as int == 1000 + p % 9000;
    assert Residues(i, (i * k) / m, p, p / 9000, p % 9000);
  }

  lemma {:induction false} ExpressionsAre(depth: nat, n: nat, e: nat, k: nat)
    requires e < n && k <= depth
    ensures |Expressions(depth, n)[e]| == depth + 1 && NthOperand(Times(e, depth + 1) + k, Expressions(depth, n)[e][k])
    decreases n
  {
    hide NthOperand, Operand, Times;
    if e == n - 1 {
      OperandIsNth(Times(e, depth + 1) + k);
      assert OperandsFrom(Times(e, depth + 1), depth + 1)[k] == Operand(After(Times(e, depth + 1), k));
    } else {
      ExpressionsAre(depth, n - 1, e, k);
    }
  }

  lemma {:induction false} ChecksumIsRead(depth: nat, assoc: Assoc, n: nat)
    ensures Checksum(depth, assoc, n)
         == Sum(Map((ops: seq<int>) => if ops == [] then 0 else ChainValue(ops, assoc), Expressions(depth, n)))
  {
    hide ChainValue, Ints, Times;
    if n > 0 {
      ChecksumIsRead(depth, assoc, n - 1);
      var f := (ops: seq<int>) => if ops == [] then 0 else ChainValue(ops, assoc);
      var last := Ints(OperandsFrom(Times(n - 1, depth + 1), depth + 1));
      assert Map(f, Expressions(depth, n)) == Map(f, Expressions(depth, n - 1)) + [f(last)];
      SumSnoc(Map(f, Expressions(depth, n - 1)), f(last));
    }
  }

  lemma SourceCellReads(cell: Cell, op: char, assoc: Assoc)
    requires IsOperator(op) && cell.src == Source(cell.depth, op, cell.expressions)
    requires cell.expected == Wrap(Checksum(cell.depth, assoc, cell.expressions))
    ensures Readable(cell, op, assoc)
  {
    hide Scan, Source, Checksum, NthOperand, Listing, Wrap, ChainValue;
    var exprs := Expressions(cell.depth, cell.expressions);
    SourceReads(cell.depth, op, cell.expressions);
    assert Listing(exprs, op) + [] == Listing(exprs, op);
    forall e, k | 0 <= e < |exprs| && 0 <= k <= cell.depth
      ensures |exprs[e]| == cell.depth + 1 && NthOperand(Times(e, cell.depth + 1) + k, exprs[e][k])
    {
      ExpressionsAre(cell.depth, cell.expressions, e, k);
    }
    forall e | 0 <= e < |exprs| ensures |exprs[e]| == cell.depth + 1 {
      ExpressionsAre(cell.depth, cell.expressions, e, 0);
    }
    ChecksumIsRead(cell.depth, assoc, cell.expressions);
    assert ReadsAs(cell, op, assoc, exprs);
  }

  /** A chain fixture reads back as expressions of the one operator, `^` for the right-leaning and
      `+` for the left-leaning, and their value is the expected one. */
  lemma FixtureReads(cell: Cell, assoc: Assoc)
    requires Faithful(cell, assoc)
    ensures Readable(cell, if assoc.Left? then '+' else '^', assoc)
  {
    hide Readable;
    SourceCellReads(cell, Op(assoc), assoc);
  }

  /** The operator-free fixture reads back as its operands, one an expression, and their sum is the
      expected value. */
  lemma BareReads(cell: Cell, op: char)
    requires IsOperator(op) && cell.depth == 0 && cell.src == Source(0, op, cell.expressions)
    requires cell.expected == Wrap(Checksum(0, Left, cell.expressions))
    ensures Readable(cell, op, Left) && forall c :: Sign(c) !in Items(cell.src)
  {
    SourceCellReads(cell, op, Left);
    var exprs :| ReadsAs(cell, op, Left, exprs);
    hide Scan;
    NoSigns(exprs, op);
  }

  lemma {:induction false} NoSigns(exprs: seq<seq<int>>, op: char)
    requires forall e :: 0 <= e < |exprs| ==> |exprs[e]| == 1
    ensures forall c :: Sign(c) !in Listing(exprs, op)
  {
    if exprs != [] {
      assert Last(exprs) == exprs[|exprs| - 1];
      forall e | 0 <= e < |Front(exprs)| ensures |Front(exprs)[e]| == 1 { assert Front(exprs)[e] == exprs[e]; }
      NoSigns(Front(exprs), op);
    }
  }

  // ---- what the two checks look at, said outright -----------------------------------

  /** The places where a run of digits begins. */
  ghost function Starts(text: string): set<nat> {
    set k: nat | k < |text| && BeginsRun(text, k)
  }

  ghost predicate BeginsRun(text: string, k: nat)
    requires k < |text|
  {
    '0' <= text[k] <= '9' && (k > 0 ==> !('0' <= text[k - 1] <= '9'))
  }

  ghost function Signs(text: string): set<nat> {
    set k | 0 <= k < |text| && (text[k] == '^' || text[k] == '+')
  }

  ghost function Ends(text: string): set<nat> {
    set k | 0 <= k < |text| && text[k] == ';'
  }

  ghost function Differences(right: string, left: string): set<nat>
    requires |right| == |left|
  {
    set k | 0 <= k < |right| && right[k] != left[k]
  }

  lemma OneMoreStart(text: string)
    requires text != []
    ensures |Starts(text)| == |Starts(Front(text))| + if IsDigit(Last(text)) && !EndsInDigit(Front(text)) then 1 else 0
  {
    var n := |text| - 1;
    var before, after := Starts(Front(text)), Starts(text);
    assert forall k: nat :: k < n ==> (BeginsRun(text, k) <==> BeginsRun(Front(text), k));
    assert BeginsRun(text, n) <==> IsDigit(Last(text)) && !EndsInDigit(Front(text));
    hide BeginsRun;
    assert after == if BeginsRun(text, n) then before + {n} else before;
  }

  lemma OneMoreSign(text: string)
    requires text != []
    ensures |Signs(text)| == |Signs(Front(text))| + if Last(text) == '^' || Last(text) == '+' then 1 else 0
  {
    var n := |text| - 1;
    var before, after := Signs(Front(text)), Signs(text);
    assert after == if text[n] == '^' || text[n] == '+' then before + {n} else before;
  }

  lemma OneMoreEnd(text: string)
    requires text != []
    ensures |Ends(text)| == |Ends(Front(text))| + if Last(text) == ';' then 1 else 0
  {
    var n := |text| - 1;
    var before, after := Ends(Front(text)), Ends(text);
    assert after == if text[n] == ';' then before + {n} else before;
  }

  /** The census counts those places. */
  lemma {:induction false} CensusIs(text: string)
    ensures CensusOf(text) == Census(|Starts(text)|, |Signs(text)|, |Ends(text)|)
  {
    if text == [] {
      assert Starts(text) == {} && Signs(text) == {} && Ends(text) == {};
    } else {
      hide Starts, Signs, Ends, IsDigit, EndsInDigit;
      CensusIs(Front(text));
      OneMoreStart(text);
      OneMoreSign(text);
      OneMoreEnd(text);
    }
  }

  lemma {:induction false} DifferingIs(right: string, left: string)
    requires |right| == |left|
    ensures Differing(right, left) == |Differences(right, left)|
  {
    if right == [] {
      assert Differences(right, left) == {};
    } else {
      var n := |right| - 1;
      DifferingIs(Front(right), Front(left));
      assert Differences(right, left)
        == if right[n] != left[n] then Differences(Front(right), Front(left)) + {n} else Differences(Front(right), Front(left));
    }
  }

  lemma Distributes(e: nat, d: nat)
    ensures e * (d + 1) == e * d + e
  {
  }

  /** The check of one fixture: as many operands, operators and terminators as its counters say,
      seven bytes an operand, and a length at or above the target by less than one expression. */
  lemma SoundIff(cell: Cell, target: nat)
    ensures Sound(cell, target) <==>
      && |Starts(cell.src)| == cell.expressions * (cell.depth + 1)
      && |Signs(cell.src)| == cell.expressions * cell.depth
      && |Ends(cell.src)| == cell.expressions
      && |cell.src| == 7 * |Starts(cell.src)|
      && target <= |cell.src| && |cell.src| - 7 * (cell.depth + 1) < target
  {
    hide CensusOf, Starts, Signs, Ends;
    CensusIs(cell.src);
    Distributes(cell.expressions, cell.depth);
    assert Operands(cell) == cell.expressions * (cell.depth + 1) && Operators(cell) == cell.expressions * cell.depth;
    hide Operands, Operators;
  }

  /** The check of a pair: texts of one length that differ in the operators alone, `^` against
      `+`, as many as there are; and values that differ from depth 2 on. */
  lemma PairIff(right: Cell, left: Cell)
    ensures PairSound(right, left) <==>
      && |right.src| == |left.src| && right.depth == left.depth
      && (forall k :: 0 <= k < |right.src| && right.src[k] != left.src[k] ==> right.src[k] == '^' && left.src[k] == '+')
      && |Differences(right.src, left.src)| == right.expressions * right.depth
      && (right.expected != left.expected <==> right.depth >= 2)
  {
    hide Differences;
    if |right.src| == |left.src| { DifferingIs(right.src, left.src); }
  }
}
