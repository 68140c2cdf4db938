/** The token-level Pratt driver: binding powers, floors, associativity, the non-associative
    latch and the depth budget, against the precedence grammar it implements. */
module PrattDriver {
  import opened Sequences
  import opened Wrappers
  import opened TokenInput

  type Power = int

  datatype Fixity = Left | Right | Neither

  /** How a token is read where an operand may begin. */
  datatype Lhs = NoLhs | Operand | Prefix(power: Power)

  /** How a token is read after an operand. */
  datatype Rhs =
    | NoRhs
    | End
    | Postfix(power: Power)
    | Infix(fixity: Fixity, power: Power)
    | Adjacent(power: Power)

  /** One token, with the two classifications the grammar gives it. */
  datatype Token = Token(id: nat, lhs: Lhs, rhs: Rhs)

  /** What the folds build. */
  datatype Tree =
    | Atom(tok: Token)
    | Pre(op: Token, arg: Tree)
    | Post(arg: Tree, op: Token)
    | Bin(left: Tree, op: Token, right: Tree)

  /** The bound a frame admits operators by. */
  datatype Floor = Inclusive(m: Power) | Exclusive(m: Power)

  datatype PrattError = RecursionLimit | NonAssociative | MissingOperand | MissingRight

  predicate Admits(floor: Floor, q: Power) {
    match floor
    case Inclusive(m) => q >= m
    case Exclusive(m) => q > m
  }

  /** The bound of the frame that reads an infix operator's right operand. */
  function RightFloor(op: Rhs): Floor
    requires op.Infix?
  {
    if op.fixity.Right? then Inclusive(op.power) else Exclusive(op.power)
  }

  // ---- the driver -------------------------------------------------------------------

  type Outcome = Result<Option<(Tree, nat)>, PrattError>

  /** `pratt_in`: one frame, with `budget` levels of descent left to it. */
  function Parse(floor: Floor, toks: seq<Token>, pos: nat, budget: nat): (r: Outcome)
    ensures r.Ok? && r.value.Some? ==> pos < r.value.value.1 <= |toks|
    decreases |toks| - pos, 1
  {
    if budget == 0 then Err(RecursionLimit)
    else if pos >= |toks| then Ok(None)
    else
      match toks[pos].lhs
      case NoLhs => Ok(None)
      case Operand => Continue(floor, toks, pos + 1, Atom(toks[pos]), None, budget)
      case Prefix(p) =>
        match Parse(Inclusive(p), toks, pos + 1, budget - 1)
        case Err(e) => Err(e)
        case Ok(None) => Err(MissingOperand)
        case Ok(Some((arg, q))) => Continue(floor, toks, q, Pre(toks[pos], arg), None, budget)
  }

  /** The loop of a frame: fold operators onto `lhs` while the floor admits them.  `latch` is the
      power of the non-associative operator folded last, if any. */
  function Continue(floor: Floor, toks: seq<Token>, pos: nat, lhs: Tree, latch: Option<Power>,
      budget: nat): (r: Outcome)
    requires budget > 0 && pos <= |toks|
    ensures r.Ok? ==> r.value.Some? && pos <= r.value.value.1 <= |toks|
    decreases |toks| - pos, 0
  {
    if pos >= |toks| then Ok(Some((lhs, pos)))
    else
      var tok := toks[pos];
      match tok.rhs
      case NoRhs => Ok(Some((lhs, pos)))
      case End => Ok(Some((lhs, pos)))
      case Postfix(p) =>
        if !Admits(floor, p) then Ok(Some((lhs, pos)))
        else Continue(floor, toks, pos + 1, Post(lhs, tok), latch, budget)
      case Infix(fixity, p) =>
        if !Admits(floor, p) then Ok(Some((lhs, pos)))
        else if latch == Some(p) then Err(NonAssociative)
        else
          (match Parse(RightFloor(tok.rhs), toks, pos + 1, budget - 1)
           case Err(e) => Err(e)
           case Ok(None) => Err(MissingRight)
           case Ok(Some((right, q))) =>
             Continue(floor, toks, q, Bin(lhs, tok, right), if fixity.Neither? then Some(p) else None, budget))
      case Adjacent(p) =>
        if !Admits(floor, p) then Ok(Some((lhs, pos)))
        else if latch == Some(p) then Err(NonAssociative)
        else Err(MissingRight)
  }

  // ---- the driver with its emitter --------------------------------------------------

  /** What a run reports: the diagnostics emitted, in order, and how it ends. */
  datatype Report = Report(diagnostics: seq<PrattError>, result: Outcome)

  function Noting(diagnostics: seq<PrattError>, r: Report): Report {
    Report(diagnostics + r.diagnostics, r.result)
  }

  /** One frame under an emitter.  A missing operand and a missing right side are emitted: a
      fail-fast emitter makes errors of them, a recording one lets the bare operator, or the
      left side alone, stand for the expression. */
  function Frame(failFast: bool, floor: Floor, toks: seq<Token>, pos: nat, budget: nat): (r: Report)
    ensures r.result.Ok? && r.result.value.Some? ==> pos < r.result.value.value.1 <= |toks|
    decreases |toks| - pos, 1
  {
    if budget == 0 then Report([], Err(RecursionLimit))
    else if pos >= |toks| then Report([], Ok(None))
    else
      match toks[pos].lhs
      case NoLhs => Report([], Ok(None))
      case Operand => Operators(failFast, floor, toks, pos + 1, Atom(toks[pos]), None, budget)
      case Prefix(p) =>
        var arg := Frame(failFast, Inclusive(p), toks, pos + 1, budget - 1);
        match arg.result
        case Err(e) => arg
        case Ok(None) =>
          Report(arg.diagnostics + [MissingOperand],
            if failFast then Err(MissingOperand) else Ok(Some((Atom(toks[pos]), pos + 1))))
        case Ok(Some((t, q))) =>
          Noting(arg.diagnostics, Operators(failFast, floor, toks, q, Pre(toks[pos], t), None, budget))
  }

  /** The loop of a frame under an emitter. */
  function Operators(failFast: bool, floor: Floor, toks: seq<Token>, pos: nat, lhs: Tree, latch: Option<Power>,
      budget: nat): (r: Report)
    requires budget > 0 && pos <= |toks|
    ensures r.result.Ok? ==> r.result.value.Some? && pos <= r.result.value.value.1 <= |toks|
    decreases |toks| - pos, 0
  {
    if pos >= |toks| then Report([], Ok(Some((lhs, pos))))
    else
      var tok := toks[pos];
      match tok.rhs
      case NoRhs => Report([], Ok(Some((lhs, pos))))
      case End => Report([], Ok(Some((lhs, pos))))
      case Postfix(p) =>
        if !Admits(floor, p) then Report([], Ok(Some((lhs, pos))))
        else Operators(failFast, floor, toks, pos + 1, Post(lhs, tok), latch, budget)
      case Infix(fixity, p) =>
        if !Admits(floor, p) then Report([], Ok(Some((lhs, pos))))
        else if latch == Some(p) then Report([], Err(NonAssociative))
        else
          (var right := Frame(failFast, RightFloor(tok.rhs), toks, pos + 1, budget - 1);
           match right.result
           case Err(e) => right
           case Ok(None) =>
             Report(right.diagnostics + [MissingRight], if failFast then Err(MissingRight) else Ok(Some((lhs, pos + 1))))
           case Ok(Some((t, q))) =>
             Noting(right.diagnostics,
               Operators(failFast, floor, toks, q, Bin(lhs, tok, t), if fixity.Neither? then Some(p) else None, budget)))
      case Adjacent(p) =>
        if !Admits(floor, p) then Report([], Ok(Some((lhs, pos))))
        else if latch == Some(p) then Report([], Err(NonAssociative))
        else Report([MissingRight], if failFast then Err(MissingRight) else Ok(Some((lhs, pos))))
  }

  lemma NotingNothing(r: Report)
    ensures Noting([], r) == r
  {
    assert [] + r.diagnostics == r.diagnostics;
  }

  lemma NotingTwice(a: seq<PrattError>, b: seq<PrattError>, r: Report)
    ensures Noting(a, Noting(b, r)) == Noting(a + b, r)
  {
    ConcatThree(a, b, r.diagnostics);
  }

  /** A fail-fast parse is the recording one cut off at its first diagnostic. */
  ghost predicate CutAtFirst(parse: Outcome, r: Report) {
    parse == if r.diagnostics == [] then r.result else Err(r.diagnostics[0])
  }

  /** Under a fail-fast emitter a frame is the plain parse. */
  lemma {:induction false} FailFastParses(floor: Floor, toks: seq<Token>, pos: nat, budget: nat)
    ensures Frame(true, floor, toks, pos, budget).result == Parse(floor, toks, pos, budget)
    decreases |toks| - pos, 1
  {
    hide Operators, Continue;
    if budget > 0 && pos < |toks| {
      match toks[pos].lhs
      case NoLhs =>
      case Operand => FailFastContinues(floor, toks, pos + 1, Atom(toks[pos]), None, budget);
      case Prefix(p) =>
        FailFastParses(Inclusive(p), toks, pos + 1, budget - 1);
        var arg := Parse(Inclusive(p), toks, pos + 1, budget - 1);
        if arg.Ok? && arg.value.Some? {
          FailFastContinues(floor, toks, arg.value.value.1, Pre(toks[pos], arg.value.value.0), None, budget);
        }
    }
  }

  lemma {:induction false} FailFastContinues(floor: Floor, toks: seq<Token>, pos: nat, lhs: Tree,
      latch: Option<Power>, budget: nat)
    requires budget > 0 && pos <= |toks|
    ensures Operators(true, floor, toks, pos, lhs, latch, budget).result == Continue(floor, toks, pos, lhs, latch, budget)
    decreases |toks| - pos, 0
  {
    hide Frame, Parse, Admits, RightFloor;
    if pos < |toks| && PowerOf(toks[pos].rhs).Some? && Admits(floor, PowerOf(toks[pos].rhs).value) {
      var tok := toks[pos];
      if tok.rhs.Postfix? {
        FailFastContinues(floor, toks, pos + 1, Post(lhs, tok), latch, budget);
      } else if tok.rhs.Infix? && latch != Some(tok.rhs.power) {
        FailFastParses(RightFloor(tok.rhs), toks, pos + 1, budget - 1);
        var right := Parse(RightFloor(tok.rhs), toks, pos + 1, budget - 1);
        if right.Ok? && right.value.Some? {
          FailFastContinues(floor, toks, right.value.value.1, Bin(lhs, tok, right.value.value.0),
            if tok.rhs.fixity.Neither? then Some(tok.rhs.power) else None, budget);
        }
      }
    }
  }

  /** A recording run goes on where the plain parse stops: up to its first diagnostic they are
      one, and without a diagnostic they end alike. */
  lemma {:induction false} RecordingGoesOn(floor: Floor, toks: seq<Token>, pos: nat, budget: nat)
    ensures CutAtFirst(Parse(floor, toks, pos, budget), Frame(false, floor, toks, pos, budget))
    decreases |toks| - pos, 1
  {
    hide Operators, Continue;
    if budget > 0 && pos < |toks| {
      match toks[pos].lhs
      case NoLhs =>
      case Operand => RecordingContinues(floor, toks, pos + 1, Atom(toks[pos]), None, budget);
      case Prefix(p) =>
        RecordingGoesOn(Inclusive(p), toks, pos + 1, budget - 1);
        var arg := Parse(Inclusive(p), toks, pos + 1, budget - 1);
        if arg.Ok? && arg.value.Some? {
          RecordingContinues(floor, toks, arg.value.value.1, Pre(toks[pos], arg.value.value.0), None, budget);
        }
    }
  }

  lemma {:induction false} RecordingContinues(floor: Floor, toks: seq<Token>, pos: nat, lhs: Tree,
      latch: Option<Power>, budget: nat)
    requires budget > 0 && pos <= |toks|
    ensures CutAtFirst(Continue(floor, toks, pos, lhs, latch, budget), Operators(false, floor, toks, pos, lhs, latch, budget))
    decreases |toks| - pos, 0
  {
    hide Frame, Parse, Admits, RightFloor;
    if pos < |toks| && PowerOf(toks[pos].rhs).Some? && Admits(floor, PowerOf(toks[pos].rhs).value) {
      var tok := toks[pos];
      if tok.rhs.Postfix? {
        RecordingContinues(floor, toks, pos + 1, Post(lhs, tok), latch, budget);
      } else if tok.rhs.Infix? && latch != Some(tok.rhs.power) {
        RecordingGoesOn(RightFloor(tok.rhs), toks, pos + 1, budget - 1);
        var right := Parse(RightFloor(tok.rhs), toks, pos + 1, budget - 1);
        if right.Ok? && right.value.Some? {
          RecordingContinues(floor, toks, right.value.value.1, Bin(lhs, tok, right.value.value.0),
            if tok.rhs.fixity.Neither? then Some(tok.rhs.power) else None, budget);
        }
      }
    }
  }

  class Emitter {
    const failFast: bool
    var diagnostics: seq<PrattError>

    constructor (failFast: bool)
      ensures this.failFast == failFast && diagnostics == []
    {
      this.failFast := failFast;
      diagnostics := [];
    }

    /** The diagnostic joins those emitted; a fail-fast emitter asks for an error. */
    method Emit(e: PrattError) returns (fatal: bool)
      modifies this
      ensures diagnostics == old(diagnostics) + [e] && fatal == failFast
    {
      diagnostics := diagnostics + [e];
      fatal := failFast;
    }
  }

  datatype NoNode = NoNode

  predicate Reads(r: Result<Option<Tree>, PrattError>, pos: nat, start: nat, spec: Outcome) {
    match spec
    case Ok(Some((t, q))) => r == Ok(Some(t)) && pos == q
    case Ok(None) => r == Ok(None) && pos == start
    case Err(e) => r == Err(e)
  }

  /** One frame: `depth` levels are open around it, of at most `limit`. */
  method PrattIn(inp: InputRef<Token, NoNode>, emitter: Emitter, floor: Floor, depth: nat, limit: nat)
    returns (r: Result<Option<Tree>, PrattError>)
    requires inp.Valid() && depth <= limit
    modifies inp, emitter
    ensures inp.Valid() && inp.pos >= old(inp.pos) && (r.Ok? && r.value.Some? ==> inp.pos > old(inp.pos))
    ensures var spec := Frame(emitter.failFast, floor, inp.toks, old(inp.pos), limit - depth);
      Reads(r, inp.pos, old(inp.pos), spec.result) && emitter.diagnostics == old(emitter.diagnostics) + spec.diagnostics
    decreases |inp.toks| - inp.pos
  {
    hide Admits, RightFloor, Operators;
    ghost var before := emitter.diagnostics;
    if depth + 1 > limit { return Err(RecursionLimit); }
    var head := inp.TryExpect((t: Token) => !t.lhs.NoLhs?);
    if head.None? { return Ok(None); }
    if head.value.lhs.Prefix? {
      ghost var spec := Frame(emitter.failFast, Inclusive(head.value.lhs.power), inp.toks, inp.pos, limit - depth - 1);
      var arg := PrattIn(inp, emitter, Inclusive(head.value.lhs.power), depth + 1, limit);
      if arg.Err? { return arg; }
      if arg.value.None? {
        var fatal := emitter.Emit(MissingOperand);
        ConcatThree(before, spec.diagnostics, [MissingOperand]);
        return if fatal then Err(MissingOperand) else Ok(Some(Atom(head.value)));
      }
      var lhs := Pre(head.value, arg.value.value);
      ConcatThree(before, spec.diagnostics,
        Operators(emitter.failFast, floor, inp.toks, inp.pos, lhs, None, limit - depth).diagnostics);
      r := FoldOperators(inp, emitter, floor, lhs, depth, limit);
    } else {
      r := FoldOperators(inp, emitter, floor, Atom(head.value), depth, limit);
    }
  }

  /** The loop stands at `pos` with `lhs` folded and `noted` emitted, on its way to `whole`. */
  ghost predicate Going(whole: Report, noted: seq<PrattError>, failFast: bool, floor: Floor, toks: seq<Token>, pos: nat,
                        lhs: Tree, latch: Option<Power>, budget: nat)
    requires budget > 0 && pos <= |toks|
  {
    whole == Noting(noted, Operators(failFast, floor, toks, pos, lhs, latch, budget))
  }

  lemma GoingStarts(failFast: bool, floor: Floor, toks: seq<Token>, pos: nat, lhs: Tree, budget: nat)
    requires budget > 0 && pos <= |toks|
    ensures Going(Operators(failFast, floor, toks, pos, lhs, None, budget), [], failFast, floor, toks, pos, lhs, None, budget)
  {
    NotingNothing(Operators(failFast, floor, toks, pos, lhs, None, budget));
  }

  /** Where no token continues the frame, or the next one repeats a non-associative power. */
  lemma GoingEnds(whole: Report, noted: seq<PrattError>, failFast: bool, floor: Floor, toks: seq<Token>, pos: nat,
                  lhs: Tree, latch: Option<Power>, budget: nat)
    requires budget > 0 && pos <= |toks| && Going(whole, noted, failFast, floor, toks, pos, lhs, latch, budget)
    requires Leaves(floor, NextOf(toks, pos)) || (!toks[pos].rhs.Postfix? && latch == PowerOf(toks[pos].rhs))
    ensures whole == Report(noted, if Leaves(floor, NextOf(toks, pos)) then Ok(Some((lhs, pos))) else Err(NonAssociative))
  {
    hide Frame, Admits, RightFloor;
    assert noted + [] == noted;
  }

  lemma GoingPastPostfix(whole: Report, noted: seq<PrattError>, failFast: bool, floor: Floor, toks: seq<Token>,
      pos: nat,
                         lhs: Tree, latch: Option<Power>, budget: nat)
    requires budget > 0 && pos < |toks| && Going(whole, noted, failFast, floor, toks, pos, lhs, latch, budget)
    requires toks[pos].rhs.Postfix? && Admits(floor, toks[pos].rhs.power)
    ensures Going(whole, noted, failFast, floor, toks, pos + 1, Post(lhs, toks[pos]), latch, budget)
  {
    hide Frame, Admits, RightFloor, Noting;
  }

  lemma GoingPastInfix(whole: Report, noted: seq<PrattError>, failFast: bool, floor: Floor, toks: seq<Token>, pos: nat,
                       lhs: Tree, latch: Option<Power>, budget: nat, right: Report)
    requires budget > 0 && pos < |toks| && Going(whole, noted, failFast, floor, toks, pos, lhs, latch, budget)
    requires toks[pos].rhs.Infix? && Admits(floor, toks[pos].rhs.power) && latch != Some(toks[pos].rhs.power)
    requires right == Frame(failFast, RightFloor(toks[pos].rhs), toks, pos + 1, budget - 1)
    ensures match right.result
      case Err(_) => whole == Report(noted + right.diagnostics, right.result)
      case Ok(None) => whole == Report(noted + (right.diagnostics + [MissingRight]),
                                       if failFast then Err(MissingRight) else Ok(Some((lhs, pos + 1))))
      case Ok(Some((t, q))) =>
        q <= |toks| && Going(whole, noted + right.diagnostics, failFast, floor, toks, q, Bin(lhs, toks[pos], t),
                             if toks[pos].rhs.fixity.Neither? then Some(toks[pos].rhs.power) else None, budget)
  {
    hide Admits, RightFloor;
    var op := toks[pos];
    if right.result.Ok? && right.result.value.Some? {
      var (t, q) := right.result.value.value;
      hide Frame, Noting;
      NotingTwice(noted, right.diagnostics, Operators(failFast, floor, toks, q, Bin(lhs, op, t),
        if op.rhs.fixity.Neither? then Some(op.rhs.power) else None, budget));
    }
  }

  lemma GoingAtAdjacent(whole: Report, noted: seq<PrattError>, failFast: bool, floor: Floor, toks: seq<Token>, pos: nat,
                        lhs: Tree, latch: Option<Power>, budget: nat)
    requires budget > 0 && pos < |toks| && Going(whole, noted, failFast, floor, toks, pos, lhs, latch, budget)
    requires toks[pos].rhs.Adjacent? && Admits(floor, toks[pos].rhs.power) && latch != Some(toks[pos].rhs.power)
    ensures whole == Report(noted + [MissingRight], if failFast then Err(MissingRight) else Ok(Some((lhs, pos))))
  {
    hide Frame, Admits, RightFloor;
  }

  /** The second half of a frame: its loop over the operators. */
  method FoldOperators(inp: InputRef<Token, NoNode>, emitter: Emitter, floor: Floor, first: Tree, depth: nat,
      limit: nat)
    returns (r: Result<Option<Tree>, PrattError>)
    requires inp.Valid() && depth < limit
    modifies inp, emitter
    ensures inp.Valid() && inp.pos >= old(inp.pos)
    ensures var spec := Operators(emitter.failFast, floor, inp.toks, old(inp.pos), first, None, limit - depth);
      Reads(r, inp.pos, old(inp.pos), spec.result) && emitter.diagnostics == old(emitter.diagnostics) + spec.diagnostics
    decreases |inp.toks| - inp.pos
  {
    hide Admits, RightFloor, Frame, Operators, Going, Noting;
    ghost var toks, start, budget, before, ff := inp.toks, inp.pos, limit - depth, emitter.diagnostics, emitter.failFast;
    ghost var noted: seq<PrattError> := [];
    ghost var whole := Operators(ff, floor, toks, start, first, None, budget);
    var lhs := first;
    var latch: Option<Power> := None;
    GoingStarts(ff, floor, toks, start, first, budget);
    while true
      invariant inp.Valid() && inp.pos >= start && emitter.diagnostics == before + noted
      invariant Going(whole, noted, ff, floor, toks, inp.pos, lhs, latch, budget)
      decreases |toks| - inp.pos
    {
      var ahead := inp.Head();
      if Leaves(floor, ahead) {
        GoingEnds(whole, noted, ff, floor, toks, inp.pos, lhs, latch, budget);
        return Ok(Some(lhs));
      }
      var tok := ahead.value;
      if !tok.rhs.Postfix? && latch == PowerOf(tok.rhs) {
        GoingEnds(whole, noted, ff, floor, toks, inp.pos, lhs, latch, budget);
        return Err(NonAssociative);
      }
      match tok.rhs {
        case Postfix(p) =>
          GoingPastPostfix(whole, noted, ff, floor, toks, inp.pos, lhs, latch, budget);
          var _ := inp.Next();
          lhs := Post(lhs, tok);
        case Infix(fixity, p) =>
          ghost var right' := Frame(ff, RightFloor(tok.rhs), toks, inp.pos + 1, budget - 1);
          GoingPastInfix(whole, noted, ff, floor, toks, inp.pos, lhs, latch, budget, right');
          var _ := inp.Next();
          var right := PrattIn(inp, emitter, RightFloor(tok.rhs), depth + 1, limit);
          ConcatThree(before, noted, right'.diagnostics);
          if right.Err? { return right; }
          if right.value.None? {
            var fatal := emitter.Emit(MissingRight);
            ConcatThree(before + noted, right'.diagnostics, [MissingRight]);
            ConcatThree(before, noted, right'.diagnostics + [MissingRight]);
            return if fatal then Err(MissingRight) else Ok(Some(lhs));
          }
          lhs := Bin(lhs, tok, right.value.value);
          latch := if fixity.Neither? then Some(p) else None;
          noted := noted + right'.diagnostics;
        case Adjacent(p) =>
          GoingAtAdjacent(whole, noted, ff, floor, toks, inp.pos, lhs, latch, budget);
          ConcatThree(before, noted, [MissingRight]);
          var fatal := emitter.Emit(MissingRight);
          return if fatal then Err(MissingRight) else Ok(Some(lhs));
      }
    }
  }

  // ---- the precedence grammar -------------------------------------------------------

  function Yield(t: Tree): (r: seq<Token>)
    ensures r != []
  {
    match t
    case Atom(tok) => [tok]
    case Pre(op, arg) => [op] + Yield(arg)
    case Post(arg, op) => Yield(arg) + [op]
    case Bin(l, op, r) => Yield(l) + ([op] + Yield(r))
  }

  /** The power of a token after an operand, if it continues an expression at all. */
  function PowerOf(rhs: Rhs): Option<Power> {
    match rhs
    case NoRhs => None
    case End => None
    case Postfix(p) => Some(p)
    case Infix(_, p) => Some(p)
    case Adjacent(p) => Some(p)
  }

  /** A frame with this floor leaves `next` alone. */
  predicate Leaves(floor: Floor, next: Option<Token>) {
    next.Some? && PowerOf(next.value.rhs).Some? ==> !Admits(floor, PowerOf(next.value.rhs).value)
  }

  /** Every frame open at the right edge of the tree leaves `next` alone. */
  predicate EdgeLeaves(t: Tree, next: Option<Token>) {
    match t
    case Atom(_) => true
    case Post(_, _) => true
    case Pre(op, arg) => op.lhs.Prefix? && Leaves(Inclusive(op.lhs.power), next) && EdgeLeaves(arg, next)
    case Bin(_, op, r) => op.rhs.Infix? && Leaves(RightFloor(op.rhs), next) && EdgeLeaves(r, next)
  }

  /** The operators folded in the tree's own frame are all admitted by the floor. */
  predicate Fits(t: Tree, floor: Floor) {
    match t
    case Atom(_) => true
    case Pre(_, _) => true
    case Post(arg, op) => op.rhs.Postfix? && Admits(floor, op.rhs.power) && Fits(arg, floor)
    case Bin(l, op, _) => op.rhs.Infix? && Admits(floor, op.rhs.power) && Fits(l, floor)
  }

  /** The power of the non-associative operator the frame folded last; a postfix keeps it. */
  function Latch(t: Tree): Option<Power> {
    match t
    case Atom(_) => None
    case Pre(_, _) => None
    case Post(arg, _) => Latch(arg)
    case Bin(_, op, _) => if op.rhs.Infix? && op.rhs.fixity.Neither? then Some(op.rhs.power) else None
  }

  /** The tree respects precedence and associativity: an operand's operators are admitted by its
      operator, every operator binds looser than all that is open to its left, and no operator
      repeats the power of a non-associative one. */
  predicate Respects(t: Tree) {
    match t
    case Atom(tok) => tok.lhs.Operand?
    case Pre(op, arg) => op.lhs.Prefix? && Respects(arg) && Fits(arg, Inclusive(op.lhs.power))
    case Post(arg, op) => op.rhs.Postfix? && Respects(arg) && EdgeLeaves(arg, Some(op))
    case Bin(l, op, r) =>
      && op.rhs.Infix? && Respects(l) && EdgeLeaves(l, Some(op)) && Latch(l) != Some(op.rhs.power)
      && Respects(r) && Fits(r, RightFloor(op.rhs))
  }

  /** The frames stacked up while the tree is read. */
  function Depth(t: Tree): (r: nat)
    ensures r >= 1
  {
    match t
    case Atom(_) => 1
    case Pre(_, arg) => 1 + Depth(arg)
    case Post(arg, _) => Depth(arg)
    case Bin(l, _, r) => if Depth(l) > 1 + Depth(r) then Depth(l) else 1 + Depth(r)
  }

  function NextOf(toks: seq<Token>, pos: nat): Option<Token> {
    if pos < |toks| then Some(toks[pos]) else None
  }

  /** The tree stands at `pos`, up to `end`, and nothing that follows belongs to it. */
  ghost predicate Derives(floor: Floor, toks: seq<Token>, pos: nat, end: nat, t: Tree) {
    && At(toks, pos, Yield(t)) && end == pos + |Yield(t)|
    && Respects(t) && Fits(t, floor)
    && Leaves(floor, NextOf(toks, end)) && EdgeLeaves(t, NextOf(toks, end))
  }

  // ---- the driver implements the grammar --------------------------------------------

  /** A frame that has folded `t` so far. */
  ghost predicate Folded(floor: Floor, toks: seq<Token>, start: nat, pos: nat, t: Tree, budget: nat) {
    && At(toks, start, Yield(t)) && pos == start + |Yield(t)|
    && Respects(t) && Fits(t, floor) && EdgeLeaves(t, NextOf(toks, pos)) && Depth(t) <= budget
  }

  lemma {:induction false} ParseDerives(floor: Floor, toks: seq<Token>, pos: nat, budget: nat)
    requires var r := Parse(floor, toks, pos, budget); r.Ok? && r.value.Some?
    ensures var (t, q) := Parse(floor, toks, pos, budget).value.value;
      Derives(floor, toks, pos, q, t) && Depth(t) <= budget
    decreases |toks| - pos, 1
  {
    hide Continue, At, Derives, Leaves;
    var tok := toks[pos];
    AtOne(toks, pos, tok);
    if tok.lhs.Operand? {
      ContinueDerives(floor, toks, pos, pos + 1, Atom(tok), budget);
    } else {
      var (arg, q) := Parse(Inclusive(tok.lhs.power), toks, pos + 1, budget - 1).value.value;
      ParseDerives(Inclusive(tok.lhs.power), toks, pos + 1, budget - 1);
      FoldedPrefix(floor, toks, pos, q, tok, arg, budget);
      ContinueDerives(floor, toks, pos, q, Pre(tok, arg), budget);
    }
  }

  lemma FoldedPrefix(floor: Floor, toks: seq<Token>, pos: nat, q: nat, tok: Token, arg: Tree, budget: nat)
    requires At(toks, pos, [tok]) && tok.lhs.Prefix? && budget > 0
    requires Derives(Inclusive(tok.lhs.power), toks, pos + 1, q, arg) && Depth(arg) <= budget - 1
    ensures Folded(floor, toks, pos, q, Pre(tok, arg), budget)
  {
    hide At, Leaves, Admits;
    AtParts(toks, pos, [tok], Yield(arg));
  }

  lemma FoldedPostfix(floor: Floor, toks: seq<Token>, start: nat, pos: nat, t: Tree, budget: nat)
    requires Folded(floor, toks, start, pos, t, budget) && pos < |toks|
    requires toks[pos].rhs.Postfix? && Admits(floor, toks[pos].rhs.power)
    ensures Folded(floor, toks, start, pos + 1, Post(t, toks[pos]), budget)
  {
    hide At, Leaves, Admits;
    AtOne(toks, pos, toks[pos]);
    AtParts(toks, start, Yield(t), [toks[pos]]);
  }

  lemma FoldedInfix(floor: Floor, toks: seq<Token>, start: nat, pos: nat, t: Tree, right: Tree, q: nat, budget: nat)
    requires Folded(floor, toks, start, pos, t, budget) && pos < |toks| && budget > 0
    requires toks[pos].rhs.Infix? && Admits(floor, toks[pos].rhs.power) && Latch(t) != Some(toks[pos].rhs.power)
    requires Derives(RightFloor(toks[pos].rhs), toks, pos + 1, q, right) && Depth(right) <= budget - 1
    ensures Folded(floor, toks, start, q, Bin(t, toks[pos], right), budget)
  {
    hide At, Leaves, Admits, RightFloor;
    AtOne(toks, pos, toks[pos]);
    AtParts(toks, pos, [toks[pos]], Yield(right));
    AtParts(toks, start, Yield(t), [toks[pos]] + Yield(right));
  }

  lemma {:induction false} ContinueDerives(floor: Floor, toks: seq<Token>, start: nat, pos: nat, t: Tree, budget: nat)
    requires budget > 0 && pos <= |toks| && Folded(floor, toks, start, pos, t, budget)
    requires Continue(floor, toks, pos, t, Latch(t), budget).Ok?
    ensures var (t', q) := Continue(floor, toks, pos, t, Latch(t), budget).value.value;
      Derives(floor, toks, start, q, t') && Depth(t') <= budget
    decreases |toks| - pos, 0
  {
    hide Parse, At, Fits, EdgeLeaves, Respects, Yield, Depth, Admits, RightFloor;
    if pos < |toks| && PowerOf(toks[pos].rhs).Some? && Admits(floor, PowerOf(toks[pos].rhs).value) {
      var tok := toks[pos];
      if tok.rhs.Postfix? {
        FoldedPostfix(floor, toks, start, pos, t, budget);
        ContinueDerives(floor, toks, start, pos + 1, Post(t, tok), budget);
      } else {
        var (right, q) := Parse(RightFloor(tok.rhs), toks, pos + 1, budget - 1).value.value;
        ParseDerives(RightFloor(tok.rhs), toks, pos + 1, budget - 1);
        FoldedInfix(floor, toks, start, pos, t, right, q, budget);
        ContinueDerives(floor, toks, start, q, Bin(t, tok, right), budget);
      }
    }
  }

  lemma StepPrefix(floor: Floor, toks: seq<Token>, pos: nat, op: Token, arg: Tree, q: nat, budget: nat)
    requires At(toks, pos, [op]) && op.lhs.Prefix? && budget > 0
    requires Parse(Inclusive(op.lhs.power), toks, pos + 1, budget - 1) == Ok(Some((arg, q)))
    ensures q <= |toks| && Parse(floor, toks, pos, budget) == Continue(floor, toks, q, Pre(op, arg), None, budget)
  {
    hide At, Continue;
    AtOne(toks, pos, op);
  }

  lemma StepPostfix(floor: Floor, toks: seq<Token>, pos: nat, lhs: Tree, op: Token, budget: nat)
    requires At(toks, pos, [op]) && op.rhs.Postfix? && Admits(floor, op.rhs.power) && budget > 0
    ensures pos < |toks|
    ensures Continue(floor, toks, pos, lhs, Latch(lhs), budget) == Continue(floor, toks, pos + 1, Post(lhs, op), Latch(Post(lhs, op)), budget)
  {
    hide At, Parse, Admits;
    AtOne(toks, pos, op);
  }

  lemma StepInfix(floor: Floor, toks: seq<Token>, pos: nat, lhs: Tree, op: Token, right: Tree, q: nat, budget: nat)
    requires At(toks, pos, [op]) && op.rhs.Infix? && Admits(floor, op.rhs.power) && budget > 0
    requires Latch(lhs) != Some(op.rhs.power)
    requires Parse(RightFloor(op.rhs), toks, pos + 1, budget - 1) == Ok(Some((right, q)))
    ensures pos < |toks| && q <= |toks|
    ensures Continue(floor, toks, pos, lhs, Latch(lhs), budget)
            == Continue(floor, toks, q, Bin(lhs, op, right), Latch(Bin(lhs, op, right)), budget)
  {
    hide At, Parse, Admits, RightFloor;
    AtOne(toks, pos, op);
  }

  /** Read from its first token, a tree that respects precedence is folded whole. */
  lemma {:induction false} ParseFolds(floor: Floor, toks: seq<Token>, pos: nat, t: Tree, budget: nat)
    requires budget > 0 && Folded(floor, toks, pos, pos + |Yield(t)|, t, budget)
    ensures pos + |Yield(t)| <= |toks|
    ensures Parse(floor, toks, pos, budget) == Continue(floor, toks, pos + |Yield(t)|, t, Latch(t), budget)
    decreases t, 1
  {
    hide At, Leaves, Admits, RightFloor;
    AtFits(toks, pos, Yield(t));
    match t
    case Atom(tok) => AtOne(toks, pos, tok);
    case Pre(op, arg) =>
      hide Parse, Continue;
      AtParts(toks, pos, [op], Yield(arg));
      ParseReads(Inclusive(op.lhs.power), toks, pos + 1, arg, budget - 1);
      StepPrefix(floor, toks, pos, op, arg, pos + |Yield(t)|, budget);
    case Post(arg, op) =>
      hide Parse, Continue;
      AtParts(toks, pos, Yield(arg), [op]);
      AtOne(toks, pos + |Yield(arg)|, op);
      ParseFolds(floor, toks, pos, arg, budget);
      StepPostfix(floor, toks, pos + |Yield(arg)|, arg, op, budget);
    case Bin(_, _, _) => InfixFolds(floor, toks, pos, t, budget);
  }

  lemma {:induction false} InfixFolds(floor: Floor, toks: seq<Token>, pos: nat, t: Tree, budget: nat)
    requires budget > 0 && Folded(floor, toks, pos, pos + |Yield(t)|, t, budget) && t.Bin?
    ensures pos + |Yield(t)| <= |toks|
    ensures Parse(floor, toks, pos, budget) == Continue(floor, toks, pos + |Yield(t)|, t, Latch(t), budget)
    decreases t, 0
  {
    hide At, Leaves, Admits, RightFloor, Parse, Continue;
    var Bin(l, op, r) := t;
    var p := pos + |Yield(l)|;
    AtParts(toks, pos, Yield(l), [op] + Yield(r));
    AtParts(toks, p, [op], Yield(r));
    AtOne(toks, p, op);
    ParseFolds(floor, toks, pos, l, budget);
    ParseReads(RightFloor(op.rhs), toks, p + 1, r, budget - 1);
    StepInfix(floor, toks, p, l, op, r, pos + |Yield(t)|, budget);
  }

  /** And the frame ends there if it leaves the next token alone. */
  lemma {:induction false} ParseReads(floor: Floor, toks: seq<Token>, pos: nat, t: Tree, budget: nat)
    requires budget > 0 && Folded(floor, toks, pos, pos + |Yield(t)|, t, budget)
    requires Leaves(floor, NextOf(toks, pos + |Yield(t)|))
    ensures Parse(floor, toks, pos, budget) == Ok(Some((t, pos + |Yield(t)|)))
    decreases t, 2
  {
    hide Parse, Continue, Folded, Leaves;
    ParseFolds(floor, toks, pos, t, budget);
    ContinueStops(floor, toks, pos + |Yield(t)|, t, budget);
  }

  lemma AtFits(toks: seq<Token>, pos: nat, piece: seq<Token>)
    requires At(toks, pos, piece)
    ensures pos + |piece| <= |toks|
  {
  }

  lemma ContinueStops(floor: Floor, toks: seq<Token>, pos: nat, t: Tree, budget: nat)
    requires budget > 0 && pos <= |toks| && Leaves(floor, NextOf(toks, pos))
    ensures Continue(floor, toks, pos, t, Latch(t), budget) == Ok(Some((t, pos)))
  {
  }

  /** The driver accepts exactly what the precedence grammar derives within the depth budget, and
      returns the derivation's tree. */
  lemma DriverIsTheGrammar(floor: Floor, toks: seq<Token>, pos: nat, budget: nat, t: Tree, end: nat)
    ensures Parse(floor, toks, pos, budget) == Ok(Some((t, end))) <==>
      Derives(floor, toks, pos, end, t) && Depth(t) <= budget
  {
    hide Parse, At, Fits, EdgeLeaves, Respects, Yield, Leaves;
    if Parse(floor, toks, pos, budget) == Ok(Some((t, end))) {
      ParseDerives(floor, toks, pos, budget);
    }
    if Derives(floor, toks, pos, end, t) && Depth(t) <= budget {
      ParseReads(floor, toks, pos, t, budget);
    }
  }

  /** So the grammar is unambiguous: from one position and floor there is one tree at most. */
  lemma GrammarIsUnambiguous(floor: Floor, toks: seq<Token>, pos: nat, t: Tree, end: nat, t': Tree, end': nat)
    requires Derives(floor, toks, pos, end, t) && Derives(floor, toks, pos, end', t')
    ensures t == t' && end == end'
  {
    hide Derives, Parse;
    var budget := Depth(t) + Depth(t');
    DriverIsTheGrammar(floor, toks, pos, budget, t, end);
    DriverIsTheGrammar(floor, toks, pos, budget, t', end');
  }

  /** A larger budget changes no accepted parse. */
  lemma MoreBudgetChangesNothing(floor: Floor, toks: seq<Token>, pos: nat, budget: nat, more: nat)
    requires budget <= more
    requires Parse(floor, toks, pos, budget).Ok? && Parse(floor, toks, pos, budget).value.Some?
    ensures Parse(floor, toks, pos, more) == Parse(floor, toks, pos, budget)
  {
    var (t, end) := Parse(floor, toks, pos, budget).value.value;
    hide Parse, Derives;
    DriverIsTheGrammar(floor, toks, pos, budget, t, end);
    DriverIsTheGrammar(floor, toks, pos, more, t, end);
  }

  /** Every descent is preceded by a commit, so a budget above the number of tokens left never
      runs out. */
  lemma {:induction false} BudgetAboveTokensSuffices(floor: Floor, toks: seq<Token>, pos: nat, budget: nat)
    requires pos <= |toks| && budget > |toks| - pos
    ensures Parse(floor, toks, pos, budget) != Err(RecursionLimit)
    decreases |toks| - pos, 1
  {
    hide Continue;
    if pos < |toks| {
      match toks[pos].lhs
      case NoLhs =>
      case Operand => LoopNeverRunsOut(floor, toks, pos + 1, Atom(toks[pos]), None, budget);
      case Prefix(p) =>
        BudgetAboveTokensSuffices(Inclusive(p), toks, pos + 1, budget - 1);
        var r := Parse(Inclusive(p), toks, pos + 1, budget - 1);
        if r.Ok? && r.value.Some? {
          LoopNeverRunsOut(floor, toks, r.value.value.1, Pre(toks[pos], r.value.value.0), None, budget);
        }
    }
  }

  lemma {:induction false} LoopNeverRunsOut(floor: Floor, toks: seq<Token>, pos: nat, lhs: Tree,
      latch: Option<Power>, budget: nat)
    requires pos <= |toks| && budget > |toks| - pos
    ensures Continue(floor, toks, pos, lhs, latch, budget) != Err(RecursionLimit)
    decreases |toks| - pos, 0
  {
    hide Parse, Admits, RightFloor;
    if pos < |toks| {
      var tok := toks[pos];
      match tok.rhs
      case NoRhs =>
      case End =>
      case Adjacent(_) =>
      case Postfix(_) => LoopNeverRunsOut(floor, toks, pos + 1, Post(lhs, tok), latch, budget);
      case Infix(fixity, p) =>
        BudgetAboveTokensSuffices(RightFloor(tok.rhs), toks, pos + 1, budget - 1);
        var r := Parse(RightFloor(tok.rhs), toks, pos + 1, budget - 1);
        if r.Ok? && r.value.Some? {
          LoopNeverRunsOut(floor, toks, r.value.value.1, Bin(lhs, tok, r.value.value.0),
            if fixity.Neither? then Some(p) else None, budget);
        }
    }
  }

  lemma ReadsOperand(floor: Floor, toks: seq<Token>, pos: nat, budget: nat)
    requires pos < |toks| && toks[pos].lhs.Operand? && budget > 0 && Leaves(floor, NextOf(toks, pos + 1))
    ensures Parse(floor, toks, pos, budget) == Ok(Some((Atom(toks[pos]), pos + 1)))
  {
    ContinueStops(floor, toks, pos + 1, Atom(toks[pos]), budget);
    hide Continue;
  }

  /** A non-associative operator refuses only an operator of its own power after it: with `==`
      non-associative and `<` left-associative at one power, `a < b == c` is read and
      `a == b < c` is not. */
  lemma NonAssociativityIsPerOperator(a: Token, b: Token, c: Token, eq: Token, lt: Token, floor: Floor, budget: nat)
    requires a.lhs.Operand? && b.lhs.Operand? && c.lhs.Operand? && budget >= 2
    requires eq.rhs.Infix? && lt.rhs.Infix? && eq.rhs.fixity.Neither? && lt.rhs.fixity.Left?
    requires eq.rhs.power == lt.rhs.power && Admits(floor, eq.rhs.power)
    ensures Parse(floor, [a, lt, b, eq, c], 0, budget) == Ok(Some((Bin(Bin(Atom(a), lt, Atom(b)), eq, Atom(c)), 5)))
    ensures Parse(floor, [a, eq, b, lt, c], 0, budget) == Err(NonAssociative)
  {
    OneOperatorThen(a, lt, b, eq, c, floor, budget);
    OneOperatorThen(a, eq, b, lt, c, floor, budget);
    hide Parse;
    var toks := [a, lt, b, eq, c];
    ReadsOperand(RightFloor(eq.rhs), toks, 4, budget - 1);
    assert Continue(floor, toks, 5, Bin(Bin(Atom(a), lt, Atom(b)), eq, Atom(c)), Some(eq.rhs.power), budget)
        == Ok(Some((Bin(Bin(Atom(a), lt, Atom(b)), eq, Atom(c)), 5)));
  }

  lemma OneOperatorThen(a: Token, op: Token, b: Token, next: Token, c: Token, floor: Floor, budget: nat)
    requires a.lhs.Operand? && b.lhs.Operand? && budget >= 2
    requires op.rhs.Infix? && next.rhs.Infix? && !op.rhs.fixity.Right?
    requires op.rhs.power == next.rhs.power && Admits(floor, op.rhs.power)
    ensures Parse(floor, [a, op, b, next, c], 0, budget)
         == Continue(floor, [a, op, b, next, c], 3, Bin(Atom(a), op, Atom(b)), Latch(Bin(Atom(a), op, Atom(b))), budget)
  {
    var toks := [a, op, b, next, c];
    ReadsOperand(RightFloor(op.rhs), toks, 2, budget - 1);
    assert Parse(floor, toks, 0, budget) == Continue(floor, toks, 1, Atom(a), None, budget);
    hide Parse;
  }
}
