/** What the Pratt driver makes of the benchmark's chains, and the checksum that follows. */
module PrattChains {
  import opened Sequences
  import opened Wrappers
  import opened PrattDriver
  import opened ChainFold

  /** Operands with one operator between each two. */
  function Chain(operands: seq<Token>, op: Token): (r: seq<Token>)
    requires operands != []
    ensures |r| == 2 * |operands| - 1
  {
    if |operands| == 1 then operands else Chain(Front(operands), op) + [op, Last(operands)]
  }

  ghost predicate Operands(operands: seq<Token>) {
    operands != [] && forall k :: 0 <= k < |operands| ==> operands[k].lhs.Operand?
  }

  function LeftTree(operands: seq<Token>, op: Token): Tree
    requires operands != []
  {
    if |operands| == 1 then Atom(operands[0])
    else Bin(LeftTree(Front(operands), op), op, Atom(Last(operands)))
  }

  function RightTree(operands: seq<Token>, op: Token): Tree
    requires operands != []
  {
    if |operands| == 1 then Atom(operands[0]) else Bin(Atom(operands[0]), op, RightTree(operands[1..], op))
  }

  lemma {:induction false} ChainCons(operands: seq<Token>, op: Token)
    requires |operands| > 1
    ensures Chain(operands, op) == [operands[0], op] + Chain(operands[1..], op)
    decreases |operands|
  {
    if |operands| == 2 {
      assert Front(operands) == [operands[0]] && operands[1..] == [operands[1]];
    } else {
      var front := Front(operands);
      ChainCons(front, op);
      assert front[1..] == Front(operands[1..]) && Last(operands[1..]) == Last(operands);
      ConcatThree([operands[0], op], Chain(front[1..], op), [op, Last(operands)]);
    }
  }

  /** A left-associative chain leans left, in two frames whatever its length. */
  lemma {:induction false} LeftTreeRespects(operands: seq<Token>, op: Token, floor: Floor)
    requires Operands(operands) && op.rhs.Infix? && op.rhs.fixity.Left? && Admits(floor, op.rhs.power)
    ensures var t := LeftTree(operands, op);
      && Yield(t) == Chain(operands, op) && Respects(t) && Fits(t, floor) && Depth(t) <= 2
      && EdgeLeaves(t, Some(op)) && EdgeLeaves(t, None) && Latch(t).None?
    decreases |operands|
  {
    if |operands| > 1 {
      LeftTreeRespects(Front(operands), op, floor);
      assert [op] + [Last(operands)] == [op, Last(operands)];
    }
  }

  /** A right-associative chain leans right, one frame deeper at each operator. */
  lemma {:induction false} RightTreeRespects(operands: seq<Token>, op: Token, floor: Floor)
    requires Operands(operands) && op.rhs.Infix? && op.rhs.fixity.Right? && Admits(floor, op.rhs.power)
    ensures var t := RightTree(operands, op);
      && Yield(t) == Chain(operands, op) && Respects(t) && Fits(t, floor) && Depth(t) == |operands|
      && EdgeLeaves(t, None)
    decreases |operands|
  {
    if |operands| > 1 {
      RightTreeRespects(operands[1..], op, RightFloor(op.rhs));
      ChainCons(operands, op);
      ConcatThree([operands[0]], [op], Chain(operands[1..], op));
      assert [operands[0]] + [op] == [operands[0], op];
    }
  }

  lemma StandsWhole(toks: seq<Token>)
    ensures At(toks, 0, toks)
  {
  }

  /** The driver folds a chain into the tree its operator's associativity implies. */
  lemma ChainParses(operands: seq<Token>, op: Token, floor: Floor, budget: nat)
    requires Operands(operands) && op.rhs.Infix? && !op.rhs.fixity.Neither? && Admits(floor, op.rhs.power)
    ensures var toks := Chain(operands, op);
      if op.rhs.fixity.Left? then
        budget >= 2 ==> Parse(floor, toks, 0, budget) == Ok(Some((LeftTree(operands, op), |toks|)))
      else
        budget >= |operands| <==> Parse(floor, toks, 0, budget) == Ok(Some((RightTree(operands, op), |toks|)))
  {
    hide Parse, At, EdgeLeaves, Fits, Respects, LeftTree, RightTree, Chain, Yield, Depth, Admits;
    var toks := Chain(operands, op);
    StandsWhole(toks);
    if op.rhs.fixity.Left? {
      LeftTreeRespects(operands, op, floor);
      DriverIsTheGrammar(floor, toks, 0, budget, LeftTree(operands, op), |toks|);
    } else {
      RightTreeRespects(operands, op, floor);
      DriverIsTheGrammar(floor, toks, 0, budget, RightTree(operands, op), |toks|);
    }
  }

  // ---- the checksum -----------------------------------------------------------------

  /** The benchmark's folds over a tree, in wrapping 64-bit arithmetic. */
  function Value(t: Tree, v: Token -> i64): i64 {
    match t
    case Atom(tok) => v(tok)
    case Bin(l, _, r) => Fold(Value(l, v), Value(r, v))
    case Pre(_, arg) => Wrap(-(Value(arg, v) as int))
    case Post(arg, _) => Value(arg, v)
  }

  lemma {:induction false} LeftTreeValue(operands: seq<Token>, op: Token, v: Token -> i64)
    requires operands != []
    ensures Value(LeftTree(operands, op), v) == Wrap(LeftValue(Ints(Map(v, operands))))
    decreases |operands|
  {
    hide Wrap, Fold;
    var values := Ints(Map(v, operands));
    if |operands| > 1 {
      LeftTreeValue(Front(operands), op, v);
      assert Front(values) == Ints(Map(v, Front(operands)));
      FoldIsExact(LeftValue(Front(values)), Last(values));
      WrapOfI64(v(Last(operands)));
    } else {
      WrapOfI64(v(operands[0]));
    }
  }

  lemma {:induction false} RightTreeValue(operands: seq<Token>, op: Token, v: Token -> i64)
    requires operands != []
    ensures Value(RightTree(operands, op), v) == Wrap(RightValue(Ints(Map(v, operands))))
    decreases |operands|
  {
    hide Wrap, Fold;
    var values := Ints(Map(v, operands));
    WrapOfI64(v(operands[0]));
    if |operands| > 1 {
      RightTreeValue(operands[1..], op, v);
      assert values[1..] == Ints(Map(v, operands[1..]));
      assert Front(values) == [values[0]] + Front(values[1..]);
      SumCons(values[0], Front(values[1..]));
      FoldIsExact(values[0], RightValue(values[1..]));
    } else {
      assert Front(values) == [];
    }
  }

  /** Folding what the driver returns gives the value the generator predicts for the chain. */
  lemma DriverFoldsToChainValue(operands: seq<Token>, op: Token, floor: Floor, budget: nat, v: Token -> i64)
    requires Operands(operands) && op.rhs.Infix? && !op.rhs.fixity.Neither? && Admits(floor, op.rhs.power)
    requires budget >= 2 && budget >= |operands|
    ensures var r := Parse(floor, Chain(operands, op), 0, budget);
      && r.Ok? && r.value.Some? && r.value.value.1 == |Chain(operands, op)|
      && Value(r.value.value.0, v)
         == Wrap(ChainValue(Ints(Map(v, operands)), if op.rhs.fixity.Left? then ChainFold.Left else ChainFold.Right))
  {
    hide Parse, Chain, LeftTree, RightTree, LeftValue, RightValue, Wrap;
    ChainParses(operands, op, floor, budget);
    LeftTreeValue(operands, op, v);
    RightTreeValue(operands, op, v);
  }
}
