/** What powers and fixities decide between two operators that meet over one operand, and what a
    missing operand does: the laws of grouping, each spelled out for every choice of powers. */
module PrattPairs {
  import opened Wrappers
  import opened PrattDriver

  /** A second operator takes the operand between them: it binds tighter, or as tight to the right
      of a right-associative first one. */
  ghost predicate Takes(first: Rhs, second: Power)
    requires first.Infix?
  {
    second > first.power || (second == first.power && first.fixity.Right?)
  }

  ghost predicate Operands(toks: seq<Token>) {
    forall t <- toks :: t.lhs.Operand?
  }

  /** The tree is read, and all the tokens with it. */
  ghost predicate ReadAs(toks: seq<Token>, floor: Floor, budget: nat, t: Tree) {
    Parse(floor, toks, 0, budget) == Ok(Some((t, |toks|)))
  }

  lemma OperandThenEnd(floor: Floor, toks: seq<Token>, pos: nat, budget: nat)
    requires budget > 0 && pos + 1 == |toks| && toks[pos].lhs.Operand?
    ensures Parse(floor, toks, pos, budget) == Ok(Some((Atom(toks[pos]), pos + 1)))
  {
    assert Continue(floor, toks, pos + 1, Atom(toks[pos]), None, budget) == Ok(Some((Atom(toks[pos]), pos + 1)));
  }

  lemma ContinueAtEnd(floor: Floor, toks: seq<Token>, lhs: Tree, latch: Option<Power>, budget: nat)
    requires budget > 0
    ensures Continue(floor, toks, |toks|, lhs, latch, budget) == Ok(Some((lhs, |toks|)))
  {
  }

  /** An admitted infix operator before the last operand. */
  lemma LastInfix(floor: Floor, toks: seq<Token>, pos: nat, lhs: Tree, latch: Option<Power>, budget: nat)
    requires budget >= 2 && pos + 2 == |toks| && toks[pos].rhs.Infix? && toks[pos + 1].lhs.Operand?
    requires Admits(floor, toks[pos].rhs.power) && latch != Some(toks[pos].rhs.power)
    ensures Continue(floor, toks, pos, lhs, latch, budget) == Ok(Some((Bin(lhs, toks[pos], Atom(toks[pos + 1])), |toks|)))
  {
    OperandThenEnd(RightFloor(toks[pos].rhs), toks, pos + 1, budget - 1);
    ContinueAtEnd(floor, toks, Bin(lhs, toks[pos], Atom(toks[pos + 1])),
      if toks[pos].rhs.fixity.Neither? then Some(toks[pos].rhs.power) else None, budget);
  }

  /** An operator the floor does not admit ends the frame. */
  lemma StopsAt(floor: Floor, toks: seq<Token>, pos: nat, lhs: Tree, latch: Option<Power>, budget: nat)
    requires budget > 0 && pos < |toks| && PowerOf(toks[pos].rhs).Some? && !Admits(floor, PowerOf(toks[pos].rhs).value)
    ensures Continue(floor, toks, pos, lhs, latch, budget) == Ok(Some((lhs, pos)))
  {
  }

  lemma OperandThen(floor: Floor, toks: seq<Token>, pos: nat, budget: nat)
    requires budget > 0 && pos < |toks| && toks[pos].lhs.Operand?
    ensures Parse(floor, toks, pos, budget) == Continue(floor, toks, pos + 1, Atom(toks[pos]), None, budget)
  {
  }

  lemma InfixThen(floor: Floor, toks: seq<Token>, pos: nat, lhs: Tree, budget: nat, right: Tree, next: nat)
    requires budget > 0 && pos < |toks| && toks[pos].rhs.Infix? && Admits(floor, toks[pos].rhs.power)
    requires Parse(RightFloor(toks[pos].rhs), toks, pos + 1, budget - 1) == Ok(Some((right, next)))
    ensures Continue(floor, toks, pos, lhs, None, budget)
         == Continue(floor, toks, next, Bin(lhs, toks[pos], right),
              if toks[pos].rhs.fixity.Neither? then Some(toks[pos].rhs.power) else None, budget)
  {
  }

  lemma PostfixThen(floor: Floor, toks: seq<Token>, pos: nat, lhs: Tree, latch: Option<Power>, budget: nat)
    requires budget > 0 && pos < |toks| && toks[pos].rhs.Postfix? && Admits(floor, toks[pos].rhs.power)
    ensures Continue(floor, toks, pos, lhs, latch, budget) == Continue(floor, toks, pos + 1, Post(lhs, toks[pos]), latch, budget)
  {
  }

  lemma PrefixThen(floor: Floor, toks: seq<Token>, pos: nat, budget: nat, arg: Tree, next: nat)
    requires budget > 0 && pos < |toks| && toks[pos].lhs.Prefix?
    requires Parse(Inclusive(toks[pos].lhs.power), toks, pos + 1, budget - 1) == Ok(Some((arg, next)))
    ensures Parse(floor, toks, pos, budget) == Continue(floor, toks, next, Pre(toks[pos], arg), None, budget)
  {
  }

  /** `a f b g c`: the second operator takes `b`, or the first keeps it; but two operators of one
      power do not follow each other if the first is non-associative. */
  lemma TwoInfixes(a: Token, f: Token, b: Token, g: Token, c: Token, low: Power, budget: nat)
    requires Operands([a, b, c]) && f.rhs.Infix? && g.rhs.Infix? && low <= f.rhs.power && low <= g.rhs.power && budget >= 3
    ensures
      var toks, floor := [a, f, b, g, c], Inclusive(low);
      if Takes(f.rhs, g.rhs.power) then ReadAs(toks, floor, budget, Bin(Atom(a), f, Bin(Atom(b), g, Atom(c))))
      else if f.rhs.fixity.Neither? && f.rhs.power == g.rhs.power then Parse(floor, toks, 0, budget) == Err(NonAssociative)
      else ReadAs(toks, floor, budget, Bin(Bin(Atom(a), f, Atom(b)), g, Atom(c)))
  {
    var toks, floor := [a, f, b, g, c], Inclusive(low);
    assert a in [a, b, c] && b in [a, b, c] && c in [a, b, c];
    OperandThen(floor, toks, 0, budget);
    OperandThen(RightFloor(f.rhs), toks, 2, budget - 1);
    if Takes(f.rhs, g.rhs.power) {
      LastInfix(RightFloor(f.rhs), toks, 3, Atom(b), None, budget - 1);
      InfixThen(floor, toks, 1, Atom(a), budget, Bin(Atom(b), g, Atom(c)), 5);
      ContinueAtEnd(floor, toks, Bin(Atom(a), f, Bin(Atom(b), g, Atom(c))),
        if f.rhs.fixity.Neither? then Some(f.rhs.power) else None, budget);
    } else {
      StopsAt(RightFloor(f.rhs), toks, 3, Atom(b), None, budget - 1);
      InfixThen(floor, toks, 1, Atom(a), budget, Atom(b), 3);
      if !(f.rhs.fixity.Neither? && f.rhs.power == g.rhs.power) {
        LastInfix(floor, toks, 3, Bin(Atom(a), f, Atom(b)), if f.rhs.fixity.Neither? then Some(f.rhs.power) else None, budget);
      }
    }
  }

  /** `a f b g` with a postfix `g`. */
  lemma InfixAndPostfix(a: Token, f: Token, b: Token, g: Token, low: Power, budget: nat)
    requires Operands([a, b]) && f.rhs.Infix? && g.rhs.Postfix? && low <= f.rhs.power && low <= g.rhs.power && budget >= 2
    ensures ReadAs([a, f, b, g], Inclusive(low), budget,
      if Takes(f.rhs, g.rhs.power) then Bin(Atom(a), f, Post(Atom(b), g)) else Post(Bin(Atom(a), f, Atom(b)), g))
  {
    var toks, floor := [a, f, b, g], Inclusive(low);
    var latch := if f.rhs.fixity.Neither? then Some(f.rhs.power) else None;
    assert a in [a, b] && b in [a, b];
    OperandThen(floor, toks, 0, budget);
    OperandThen(RightFloor(f.rhs), toks, 2, budget - 1);
    if Takes(f.rhs, g.rhs.power) {
      PostfixThen(RightFloor(f.rhs), toks, 3, Atom(b), None, budget - 1);
      ContinueAtEnd(RightFloor(f.rhs), toks, Post(Atom(b), g), None, budget - 1);
      InfixThen(floor, toks, 1, Atom(a), budget, Post(Atom(b), g), 4);
      ContinueAtEnd(floor, toks, Bin(Atom(a), f, Post(Atom(b), g)), latch, budget);
    } else {
      StopsAt(RightFloor(f.rhs), toks, 3, Atom(b), None, budget - 1);
      InfixThen(floor, toks, 1, Atom(a), budget, Atom(b), 3);
      PostfixThen(floor, toks, 3, Bin(Atom(a), f, Atom(b)), latch, budget);
      ContinueAtEnd(floor, toks, Post(Bin(Atom(a), f, Atom(b)), g), latch, budget);
    }
  }

  /** `p a g b` with a prefix `p`: the operator takes the operand when it binds as tight or tighter. */
  lemma PrefixAndInfix(p: Token, a: Token, g: Token, b: Token, low: Power, budget: nat)
    requires p.lhs.Prefix? && Operands([a, b]) && g.rhs.Infix? && low <= g.rhs.power && budget >= 3
    ensures ReadAs([p, a, g, b], Inclusive(low), budget,
      if g.rhs.power >= p.lhs.power then Pre(p, Bin(Atom(a), g, Atom(b))) else Bin(Pre(p, Atom(a)), g, Atom(b)))
  {
    var toks, floor, inner := [p, a, g, b], Inclusive(low), Inclusive(p.lhs.power);
    assert a in [a, b] && b in [a, b];
    OperandThen(inner, toks, 1, budget - 1);
    if g.rhs.power >= p.lhs.power {
      LastInfix(inner, toks, 2, Atom(a), None, budget - 1);
      PrefixThen(floor, toks, 0, budget, Bin(Atom(a), g, Atom(b)), 4);
      ContinueAtEnd(floor, toks, Pre(p, Bin(Atom(a), g, Atom(b))), None, budget);
    } else {
      StopsAt(inner, toks, 2, Atom(a), None, budget - 1);
      PrefixThen(floor, toks, 0, budget, Atom(a), 2);
      LastInfix(floor, toks, 2, Pre(p, Atom(a)), None, budget);
    }
  }

  /** `p a g` with a prefix `p` and a postfix `g`. */
  lemma PrefixAndPostfix(p: Token, a: Token, g: Token, low: Power, budget: nat)
    requires p.lhs.Prefix? && a.lhs.Operand? && g.rhs.Postfix? && low <= g.rhs.power && budget >= 2
    ensures ReadAs([p, a, g], Inclusive(low), budget,
      if g.rhs.power >= p.lhs.power then Pre(p, Post(Atom(a), g)) else Post(Pre(p, Atom(a)), g))
  {
    var toks, floor, inner := [p, a, g], Inclusive(low), Inclusive(p.lhs.power);
    OperandThen(inner, toks, 1, budget - 1);
    if g.rhs.power >= p.lhs.power {
      PostfixThen(inner, toks, 2, Atom(a), None, budget - 1);
      ContinueAtEnd(inner, toks, Post(Atom(a), g), None, budget - 1);
      PrefixThen(floor, toks, 0, budget, Post(Atom(a), g), 3);
      ContinueAtEnd(floor, toks, Pre(p, Post(Atom(a), g)), None, budget);
    } else {
      StopsAt(inner, toks, 2, Atom(a), None, budget - 1);
      PrefixThen(floor, toks, 0, budget, Atom(a), 2);
      PostfixThen(floor, toks, 2, Pre(p, Atom(a)), None, budget);
      ContinueAtEnd(floor, toks, Post(Pre(p, Atom(a)), g), None, budget);
    }
  }

  /** An operator below the floor is left where it is: below an inclusive one, at or below an
      exclusive one. */
  lemma BelowTheFloor(a: Token, g: Token, low: Power, budget: nat)
    requires a.lhs.Operand? && (g.rhs.Infix? || g.rhs.Postfix? || g.rhs.Adjacent?) && budget >= 1
    ensures g.rhs.power < low ==> Parse(Inclusive(low), [a, g], 0, budget) == Ok(Some((Atom(a), 1)))
    ensures g.rhs.power <= low ==> Parse(Exclusive(low), [a, g], 0, budget) == Ok(Some((Atom(a), 1)))
  {
    OperandThen(Inclusive(low), [a, g], 0, budget);
    OperandThen(Exclusive(low), [a, g], 0, budget);
  }

  /** What is missing: an operand behind a prefix, the right side of an infix operator or of two
      operands side by side.  Either is an error to a fail-fast driver; a recording one notes it and
      takes the prefix for an operand, the left side for the whole. */
  lemma NothingBehind(failFast: bool, p: Token, a: Token, g: Token, low: Power, budget: nat)
    requires p.lhs.Prefix? && a.lhs.Operand? && (g.rhs.Infix? || g.rhs.Adjacent?) && low <= g.rhs.power && budget >= 2
    requires g.lhs.NoLhs?
    ensures Frame(failFast, Inclusive(low), [p], 0, budget)
         == Report([MissingOperand], if failFast then Err(MissingOperand) else Ok(Some((Atom(p), 1))))
    ensures Frame(failFast, Inclusive(low), [a, g], 0, budget)
         == Report([MissingRight], if failFast then Err(MissingRight) else Ok(Some((Atom(a), if g.rhs.Infix? then 2 else 1))))
    ensures Frame(failFast, Inclusive(low), [g], 0, budget) == Report([], Ok(None))
    ensures Frame(failFast, Inclusive(low), [a], 0, 0) == Report([], Err(RecursionLimit))
  {
    assert Frame(failFast, Inclusive(p.lhs.power), [p], 1, budget - 1) == Report([], Ok(None));
    var toks := [a, g];
    assert Frame(failFast, Inclusive(low), toks, 0, budget) == Operators(failFast, Inclusive(low), toks, 1, Atom(a), None, budget);
    if g.rhs.Infix? {
      assert Frame(failFast, RightFloor(g.rhs), toks, 2, budget - 1) == Report([], Ok(None));
    }
    assert [] + [MissingRight] == [MissingRight] && [] + [MissingOperand] == [MissingOperand];
  }
}
