/** The lossless twin of the S-expression parser, which only recognises and records. */
module SExpressionCst {
  import opened Sequences
  import opened Wrappers
  import opened TokenInput
  import opened EventTree
  import opened SExpression

  datatype Kind = AtomNode | ListNode | QuotedNode

  type Input = InputRef<Lexeme<Token>, Kind>

  /** The syntax tree, trivia aside. */
  datatype Cst = Single(token: Token) | Group(elems: seq<Cst>) | Tick(inner: Cst)

  predicate IsAtom(t: Token) {
    !t.LParen? && !t.RParen? && !t.Quote?
  }

  // ---- the language -----------------------------------------------------------------

  type Outcome<T> = Result<(T, seq<Token>), ParseError>

  /** One expression at the head of the significant tokens, and what follows it. */
  function ReadExpr(ts: seq<Token>): (r: Outcome<Cst>)
    ensures r.Ok? ==> |r.value.1| < |ts|
    decreases |ts|, 0
  {
    if ts == [] || ts[0].RParen? then Err(UnexpectedEot)
    else if ts[0].LParen? then
      match ReadElems(ts[1..])
      case Err(e) => Err(e)
      case Ok((elems, rest)) => Ok((Group(elems), rest))
    else if ts[0].Quote? then
      match ReadExpr(ts[1..])
      case Err(e) => Err(e)
      case Ok((inner, rest)) => Ok((Tick(inner), rest))
    else Ok((Single(ts[0]), ts[1..]))
  }

  /** Zero or more expressions and the closing parenthesis. */
  function ReadElems(ts: seq<Token>): (r: Outcome<seq<Cst>>)
    ensures r.Ok? ==> |r.value.1| < |ts|
    decreases |ts|, 1
  {
    if ts == [] then Err(UnexpectedEot)
    else if ts[0].RParen? then Ok(([], ts[1..]))
    else
      match ReadExpr(ts)
      case Err(e) => Err(e)
      case Ok((elem, rest)) => Prepend([elem], ReadElems(rest))
  }

  /** The events a tree stands for. */
  function Shape(c: Cst): Log
    decreases c, 0
  {
    match c
    case Single(t) => [Open(AtomNode), Leaf(t), Close]
    case Group(elems) => [Open(ListNode), Leaf(LParen)] + ShapeAll(elems) + [Leaf(RParen), Close]
    case Tick(inner) => [Open(QuotedNode), Leaf(Quote)] + Shape(inner) + [Close]
  }

  function ShapeAll(elems: seq<Cst>): Log
    decreases elems, 1
  {
    if elems == [] then [] else Shape(elems[0]) + ShapeAll(elems[1..])
  }

  lemma {:induction false} ShapeAllSnoc(elems: seq<Cst>, c: Cst)
    ensures ShapeAll(elems + [c]) == ShapeAll(elems) + Shape(c)
  {
    if elems != [] {
      assert (elems + [c])[1..] == elems[1..] + [c];
      ShapeAllSnoc(elems[1..], c);
      ConcatThree(Shape(elems[0]), ShapeAll(elems[1..]), Shape(c));
    } else {
      assert (elems + [c])[1..] == [];
    }
  }

  // ---- the recogniser ---------------------------------------------------------------

  type Log = seq<Event<Token, Kind>>

  /** A run from `ahead` and `built` came to `r`, the outcome of the specification on the
      significant tokens, and on success to the rest of them and the events of the tree. */
  ghost predicate Parsed(ahead: seq<Token>, built: Log, r: Result<(), ParseError>, ahead': seq<Token>, built': Log) {
    match ReadExpr(ahead)
    case Ok((c, rest)) => r == Ok(()) && ahead' == rest && built' == built + Shape(c)
    case Err(e) => r == Err(e)
  }

  /** The log with its trivia. */
  type FullLog = seq<Event<Lexeme<Token>, Kind>>

  /** No node begins or ends with trivia. */
  ghost predicate Neat(log: FullLog) {
    forall i :: 0 < i < |log| ==> Beside(log[i - 1], log[i])
  }

  predicate Beside(a: Event<Lexeme<Token>, Kind>, b: Event<Lexeme<Token>, Kind>) {
    !(a.Open? && Trivial(b)) && !(Trivial(a) && b.Close?)
  }

  /** Trivia may follow. */
  predicate Free(log: FullLog) {
    log != [] ==> !Last(log).Open?
  }

  /** A node may end. */
  predicate Firm(log: FullLog) {
    log != [] && !Last(log).Open? && !Trivial(Last(log))
  }

  lemma NeatSnoc(log: FullLog, e: Event<Lexeme<Token>, Kind>)
    requires Neat(log) && (log != [] ==> Beside(Last(log), e))
    ensures Neat(log + [e]) && (!e.Open? ==> Free(log + [e])) && (!e.Open? && !Trivial(e) ==> Firm(log + [e]))
  {
  }

  lemma NeatSkips(before: FullLog, after: FullLog)
    requires Neat(before) && Skipped(before, after) && (Free(before) || after == before)
    ensures Neat(after) && (Free(before) ==> Free(after))
  {
    forall i | 0 < i < |after| ensures Beside(after[i - 1], after[i]) {
      if i < |before| { assert Beside(before[i - 1], before[i]); }
    }
  }

  lemma NeatTakes(before: FullLog, r: Result<(), ParseError>, ahead: seq<Token>, after: FullLog, settled: bool)
    requires Neat(before) && (settled || Free(before)) && Taken(before, r, ahead, after, settled)
    ensures Neat(after) && (r.Ok? ==> Firm(after)) && (Free(before) ==> Free(after))
  {
    if r.Ok? {
      NeatSkips(before, Front(after));
      assert after == Front(after) + [Last(after)];
      NeatSnoc(Front(after), Last(after));
    } else {
      NeatSkips(before, after);
    }
  }

  method Expr(inp: Input) returns (r: Result<(), ParseError>)
    requires Lossless(inp) && Neat(inp.events) && Free(inp.events)
    modifies inp
    ensures Neat(inp.events) && (r.Ok? ==> Firm(inp.events))
    ensures Lossless(inp) && inp.pos >= old(inp.pos) && (r.Ok? ==> inp.pos > old(inp.pos))
    ensures Parsed(old(Ahead(inp)), old(Built(inp)), r, Ahead(inp), Built(inp))
    decreases |inp.toks| - inp.pos, 1
  {
    hide TokensOf, Ahead, Built, Settled, Neat;
    ghost var log := inp.events;
    var ahead := Peek(inp);
    NeatSkips(log, inp.events);
    match ahead {
      case None => r := Err(UnexpectedEot);
      case Some(LParen) => r := ParseList(inp);
      case Some(Quote) => r := ParseQuoted(inp);
      case Some(RParen) => r := Err(UnexpectedEot);
      case Some(_) => r := ParseAtom(inp);
    }
  }

  method ParseAtom(inp: Input) returns (r: Result<(), ParseError>)
    requires Lossless(inp) && Settled(inp) && Neat(inp.events)
    modifies inp
    ensures Lossless(inp) && Neat(inp.events) && (r.Ok? ==> Firm(inp.events))
    ensures if old(Ahead(inp)) != [] && IsAtom(old(Ahead(inp))[0])
            then r == Ok(()) && inp.pos > old(inp.pos) && Ahead(inp) == old(Ahead(inp))[1..]
              && Built(inp) == old(Built(inp)) + Shape(Single(old(Ahead(inp))[0]))
            else r == Err(UnexpectedToken) && inp.pos == old(inp.pos)
  {
    hide TokensOf, Ahead, Built, Settled, Neat;
    NeatSnoc(inp.events, Open(AtomNode));
    Begin(inp, AtomNode);
    ghost var log, leaf := inp.events, HeadOf(Ahead(inp));
    var taken := TakeIf(inp, IsAtom);
    if !taken {
      assert log + [] == log;
      return Err(UnexpectedToken);
    }
    NeatSnoc(log, Leaf(Sig(leaf.value)));
    NeatSnoc(inp.events, Close);
    End(inp);
    r := Ok(());
  }

  method ParseQuoted(inp: Input) returns (r: Result<(), ParseError>)
    requires Lossless(inp) && Settled(inp) && Neat(inp.events)
    requires Ahead(inp) != [] && Ahead(inp)[0].Quote?
    modifies inp
    ensures Neat(inp.events) && (r.Ok? ==> Firm(inp.events))
    ensures Lossless(inp) && inp.pos > old(inp.pos)
    ensures Parsed(old(Ahead(inp)), old(Built(inp)), r, Ahead(inp), Built(inp))
    decreases |inp.toks| - inp.pos, 0
  {
    hide TokensOf, Ahead, Built, Settled, Neat;
    NeatSnoc(inp.events, Open(QuotedNode));
    Begin(inp, QuotedNode);
    ghost var log, ahead := inp.events, Ahead(inp);
    var mark := Expect(inp, (t: Token) => t.Quote?);
    NeatTakes(log, mark, ahead, inp.events, true);
    r := Expr(inp);
    if r.Ok? {
      NeatSnoc(inp.events, Close);
      End(inp);
    }
  }

  method ParseList(inp: Input) returns (r: Result<(), ParseError>)
    requires Lossless(inp) && Settled(inp) && Neat(inp.events)
    requires Ahead(inp) != [] && Ahead(inp)[0].LParen?
    modifies inp
    ensures Neat(inp.events) && (r.Ok? ==> Firm(inp.events))
    ensures Lossless(inp) && inp.pos > old(inp.pos)
    ensures Parsed(old(Ahead(inp)), old(Built(inp)), r, Ahead(inp), Built(inp))
    decreases |inp.toks| - inp.pos, 0
  {
    hide TokensOf, Ahead, Built, Settled, Neat;
    NeatSnoc(inp.events, Open(ListNode));
    Begin(inp, ListNode);
    ghost var log, ahead := inp.events, Ahead(inp);
    var mark := Expect(inp, (t: Token) => t.LParen?);
    NeatTakes(log, mark, ahead, inp.events, true);
    r := ParseElems(inp);
    if r.Ok? {
      NeatSnoc(inp.events, Close);
      End(inp);
    }
  }

  /** Where the loop of `list` stands once it has read `elems`. */
  ghost predicate Partway(ahead: seq<Token>, built: Log, elems: seq<Cst>,
    ahead0: seq<Token>, built0: Log)
  {
    ReadElems(ahead0) == Prepend(elems, ReadElems(ahead)) && built == built0 + ShapeAll(elems)
  }

  lemma AtStart(ahead: seq<Token>, built: Log)
    ensures Partway(ahead, built, [], ahead, built)
  {
    PrependNothing(ReadElems(ahead));
  }

  /** The three ways the loop goes on: the end of input, the closing parenthesis, an element. */
  lemma Stops(ahead: seq<Token>, built: Log, elems: seq<Cst>, ahead0: seq<Token>, built0: Log)
    requires Partway(ahead, built, elems, ahead0, built0) && (ahead == [] || ahead[0].RParen?)
    ensures if ahead == [] then ReadElems(ahead0) == Err(UnexpectedEot)
            else ReadElems(ahead0) == Ok((elems, ahead[1..])) && built == built0 + ShapeAll(elems)
  {
    assert elems + [] == elems;
  }

  lemma Onwards(ahead: seq<Token>, built: Log, elems: seq<Cst>, ahead0: seq<Token>, built0: Log,
      r: Result<(), ParseError>, ahead': seq<Token>, built': Log)
    requires Partway(ahead, built, elems, ahead0, built0) && ahead != [] && !ahead[0].RParen?
    requires Parsed(ahead, built, r, ahead', built')
    ensures r.Err? ==> ReadElems(ahead0) == Err(r.error)
    ensures r.Ok? ==> ReadExpr(ahead).Ok? && Partway(ahead', built', elems + [ReadExpr(ahead).value.0], ahead0, built0)
  {
    if r.Ok? {
      var (c, rest) := ReadExpr(ahead).value;
      PrependTwice(elems, [c], ReadElems(rest));
      ShapeAllSnoc(elems, c);
      ConcatThree(built0, ShapeAll(elems), Shape(c));
    }
  }

  /** The loop of `list`: elements until the closing parenthesis, which it consumes. */
  method ParseElems(inp: Input) returns (r: Result<(), ParseError>)
    requires Lossless(inp) && Neat(inp.events) && Free(inp.events)
    modifies inp
    ensures Neat(inp.events) && (r.Ok? ==> Firm(inp.events))
    ensures Lossless(inp) && inp.pos >= old(inp.pos)
    ensures match ReadElems(old(Ahead(inp)))
            case Ok((elems, rest)) =>
              r == Ok(()) && Ahead(inp) == rest && Built(inp) == old(Built(inp)) + ShapeAll(elems) + [Leaf(RParen)]
            case Err(e) => r == Err(e)
    decreases |inp.toks| - inp.pos, 2
  {
    hide TokensOf, Ahead, Built, Settled, Parsed, ReadElems, ReadExpr, Partway, ShapeAll, Neat;
    ghost var start, ahead0, built0 := inp.pos, Ahead(inp), Built(inp);
    ghost var elems: seq<Cst> := [];
    AtStart(ahead0, built0);
    while true
      invariant Lossless(inp) && start <= inp.pos && Neat(inp.events) && Free(inp.events)
      invariant Partway(Ahead(inp), Built(inp), elems, ahead0, built0)
      decreases |inp.toks| - inp.pos
    {
      ghost var before := inp.events;
      var ahead := Peek(inp);
      NeatSkips(before, inp.events);
      ghost var ts, log, full := Ahead(inp), Built(inp), inp.events;
      match ahead {
        case None =>
          Stops(ts, log, elems, ahead0, built0);
          return Err(UnexpectedEot);
        case Some(RParen) =>
          Stops(ts, log, elems, ahead0, built0);
          r := Expect(inp, (t: Token) => t.RParen?);
          NeatTakes(full, r, ts, inp.events, true);
          return;
        case Some(_) =>
          r := Expr(inp);
          Onwards(ts, log, elems, ahead0, built0, r, Ahead(inp), Built(inp));
          if r.Err? { return; }
          elems := elems + [ReadExpr(ts).value.0];
      }
    }
  }

  /** The driver: one expression, then the trailing trivia. */
  method Program(inp: Input) returns (r: Result<(), ParseError>)
    requires Lossless(inp) && Neat(inp.events) && Free(inp.events)
    modifies inp
    ensures Neat(inp.events)
    ensures Lossless(inp) && (r.Ok? ==> Settled(inp))
    ensures Parsed(old(Ahead(inp)), old(Built(inp)), r, Ahead(inp), Built(inp))
  {
    hide TokensOf, Ahead, Built, Settled, Neat;
    r := Expr(inp);
    if r.Ok? {
      ghost var log := inp.events;
      SkipTrivia(inp);
      NeatSkips(log, inp.events);
    }
  }

  /** A whole run over a lossless stream.  The outcome and the trivia-free tree are functions of
      the significant tokens alone, and the log holds every token up to the end of the run. */
  method Run(toks: seq<Lexeme<Token>>) returns (r: Result<(), ParseError>, events: seq<Event<Lexeme<Token>,
      Kind>>, end: nat)
    ensures end <= |toks| && TokensOf(events) == toks[..end] && Neat(events)
    ensures r.Ok? && end < |toks| ==> toks[end].Sig?
    ensures Parsed(Significant(toks), [], r, Significant(toks[end..]), Bare(events))
    ensures if r.Ok? then RecordsExpression(Bare(events)) && Significant(toks) == TokensOf(Bare(events)) + Significant(toks[end..])
            else r.error == UnexpectedEot
  {
    hide Parsed, Significant, RecordsExpression;
    var inp := new InputRef<Lexeme<Token>, Kind>(toks);
    assert toks[0..] == toks;
    r := Program(inp);
    events, end := inp.events, inp.pos;
    ParsedMeans(Significant(toks), r, Significant(toks[end..]), Bare(events));
  }

  // ---- the recorded tree, as the events alone show it -------------------------------

  type Tree = Green<Token, Kind>

  /** Each node is what its own children make it: an atom node one token that is no parenthesis and
      no quote mark, a list node nodes between parentheses, a quoted node a quote mark and a node. */
  predicate WellMade(g: Tree)
    decreases g
  {
    match g
    case Tok(_) => true
    case Node(k, kids) =>
      && (forall kid <- kids :: WellMade(kid))
      && match k
         case AtomNode => |kids| == 1 && kids[0].Tok? && !kids[0].token.LParen? && !kids[0].token.RParen? && !kids[0].token.Quote?
         case ListNode =>
           && |kids| >= 2 && kids[0] == Tok(LParen) && kids[|kids| - 1] == Tok(RParen)
           && forall i :: 0 < i < |kids| - 1 ==> kids[i].Node?
         case QuotedNode => |kids| == 2 && kids[0] == Tok(Quote) && kids[1].Node?
  }

  ghost function GreenOf(c: Cst): Tree
    decreases c, 0
  {
    match c
    case Single(t) => Node(AtomNode, [Tok(t)])
    case Group(elems) => Node(ListNode, [Tok(LParen)] + GreenAll(elems) + [Tok(RParen)])
    case Tick(inner) => Node(QuotedNode, [Tok(Quote), GreenOf(inner)])
  }

  ghost function GreenAll(elems: seq<Cst>): seq<Tree>
    decreases elems, 1
  {
    if elems == [] then [] else [GreenOf(elems[0])] + GreenAll(elems[1..])
  }

  lemma NodeLogs(k: Kind, kids: seq<Tree>)
    ensures LogOf(Node(k, kids)) == [Event<Token, Kind>.Open(k)] + LogOfAll(kids) + [Event<Token, Kind>.Close]
  {
  }

  lemma TokLogs(t: Token)
    ensures LogOfAll<Token, Kind>([Tok(t)]) == [Leaf(t)]
  {
    LogOfOne<Token, Kind>(Tok(t));
  }

  lemma {:induction false} GreenLogs(c: Cst)
    ensures LogOf(GreenOf(c)) == Shape(c)
    decreases c, 0
  {
    hide LogOf, LogOfAll;
    match c
    case Single(t) =>
      TokLogs(t);
      NodeLogs(AtomNode, [Tok(t)]);
    case Group(elems) =>
      GreenAllLogs(elems);
      GroupLogs(elems);
    case Tick(inner) =>
      GreenLogs(inner);
      TickLogs(inner);
  }

  lemma GroupLogs(elems: seq<Cst>)
    requires LogOfAll(GreenAll(elems)) == ShapeAll(elems)
    ensures LogOf(GreenOf(Group(elems))) == Shape(Group(elems))
  {
    hide LogOf, LogOfAll, GreenAll, ShapeAll;
    var first: seq<Tree>, last: seq<Tree> := [Tok(LParen)], [Tok(RParen)];
    LogOfConcat(first, GreenAll(elems));
    LogOfConcat(first + GreenAll(elems), last);
    TokLogs(LParen);
    TokLogs(RParen);
    NodeLogs(ListNode, first + GreenAll(elems) + last);
    assert LogOf(GreenOf(Group(elems))) == Shape(Group(elems));
  }

  lemma TickLogs(inner: Cst)
    requires LogOf(GreenOf(inner)) == Shape(inner)
    ensures LogOf(GreenOf(Tick(inner))) == Shape(Tick(inner))
  {
    hide LogOf, LogOfAll;
    var first: seq<Tree> := [Tok(Quote)];
    LogOfConcat(first, [GreenOf(inner)]);
    TokLogs(Quote);
    LogOfOne(GreenOf(inner));
    assert first + [GreenOf(inner)] == [Tok(Quote), GreenOf(inner)];
    NodeLogs(QuotedNode, first + [GreenOf(inner)]);
    assert LogOf(GreenOf(Tick(inner))) == Shape(Tick(inner));
  }

  lemma {:induction false} GreenAllLogs(elems: seq<Cst>)
    ensures LogOfAll(GreenAll(elems)) == ShapeAll(elems)
    decreases elems, 1
  {
    if elems != [] {
      GreenLogs(elems[0]);
      GreenAllLogs(elems[1..]);
      assert ([GreenOf(elems[0])] + GreenAll(elems[1..]))[1..] == GreenAll(elems[1..]);
    }
  }

  lemma {:induction false} GreenIsWellMade(c: Cst)
    requires Spellable(c)
    ensures WellMade(GreenOf(c)) && GreenOf(c).Node?
    decreases c, 0
  {
    match c
    case Single(_) =>
    case Group(elems) =>
      GreenAllAreWellMade(elems);
      var inside := GreenAll(elems);
      var kids := [Tok(LParen)] + inside + [Tok(RParen)];
      forall i | 0 < i < |kids| - 1 ensures kids[i] == inside[i - 1] {}
      forall kid | kid in kids ensures WellMade(kid) {
        if kid !in inside { assert kid.Tok?; }
      }
    case Tick(inner) => GreenIsWellMade(inner);
  }

  lemma {:induction false} GreenAllAreWellMade(elems: seq<Cst>)
    requires forall i :: 0 <= i < |elems| ==> Spellable(elems[i])
    ensures forall g <- GreenAll(elems) :: WellMade(g) && g.Node?
    decreases elems, 1
  {
    hide WellMade;
    if elems != [] {
      GreenIsWellMade(elems[0]);
      GreenAllAreWellMade(elems[1..]);
    }
  }

  /** The log of a successful run is well nested, and the one tree it holds is a node, each node of
      it what its own children make it. */
  ghost predicate RecordsExpression(log: Log) {
    exists g :: ReadLog(log) == Some([g]) && WellMade(g) && g.Node?
  }

  lemma SuccessRecordsExpression(ts: seq<Token>)
    requires ReadExpr(ts).Ok?
    ensures RecordsExpression(Shape(ReadExpr(ts).value.0))
    ensures ts == TokensOf(Shape(ReadExpr(ts).value.0)) + ReadExpr(ts).value.1
  {
    hide WellMade;
    var c := ReadExpr(ts).value.0;
    AcceptedSpells(ts);
    GreenLogs(c);
    GreenIsWellMade(c);
    LogOfOne(GreenOf(c));
    ReadLogIff(Shape(c), [GreenOf(c)]);
    ShapeHoldsYield(c);
  }

  /** The recogniser has one error: an expression missing where one is due. */
  lemma {:induction false} OnlyUnexpectedEot(ts: seq<Token>)
    ensures ReadExpr(ts).Err? ==> ReadExpr(ts).error == UnexpectedEot
    decreases |ts|, 0
  {
    if ts != [] && ts[0].LParen? {
      ElemsOnlyUnexpectedEot(ts[1..]);
    } else if ts != [] && ts[0].Quote? {
      OnlyUnexpectedEot(ts[1..]);
    }
  }

  lemma {:induction false} ElemsOnlyUnexpectedEot(ts: seq<Token>)
    ensures ReadElems(ts).Err? ==> ReadElems(ts).error == UnexpectedEot
    decreases |ts|, 1
  {
    hide ReadExpr;
    if ts != [] && !ts[0].RParen? {
      OnlyUnexpectedEot(ts);
      if ReadExpr(ts).Ok? { ElemsOnlyUnexpectedEot(ReadExpr(ts).value.1); }
    }
  }

  lemma ParsedMeans(ts: seq<Token>, r: Result<(), ParseError>, ahead: seq<Token>, built: Log)
    requires Parsed(ts, [], r, ahead, built)
    ensures if r.Ok? then RecordsExpression(built) && ts == TokensOf(built) + ahead else r.error == UnexpectedEot
  {
    hide ReadExpr, RecordsExpression, Shape;
    OnlyUnexpectedEot(ts);
    if ReadExpr(ts).Ok? {
      SuccessRecordsExpression(ts);
      assert [] + Shape(ReadExpr(ts).value.0) == Shape(ReadExpr(ts).value.0);
    }
  }

  // ---- the language, declaratively --------------------------------------------------

  /** The tokens a tree spells. */
  function Yield(c: Cst): (r: seq<Token>)
    ensures r != []
    decreases c, 0
  {
    match c
    case Single(t) => [t]
    case Group(elems) => [LParen] + YieldAll(elems)
    case Tick(inner) => [Quote] + Yield(inner)
  }

  /** The elements and the closing parenthesis. */
  function YieldAll(elems: seq<Cst>): (r: seq<Token>)
    ensures r != []
    decreases elems, 1
  {
    if elems == [] then [RParen] else Yield(elems[0]) + YieldAll(elems[1..])
  }

  /** Every leaf is an atom token. */
  predicate Spellable(c: Cst)
    decreases c, 0
  {
    match c
    case Single(t) => IsAtom(t)
    case Group(elems) => forall i :: 0 <= i < |elems| ==> Spellable(elems[i])
    case Tick(inner) => Spellable(inner)
  }

  lemma {:induction false} ShapeHoldsYield(c: Cst)
    ensures TokensOf(Shape(c)) == Yield(c)
    decreases c, 0
  {
    match c
    case Single(t) =>
    case Group(elems) =>
      ShapeAllHoldsYield(elems);
      TokensConcat([Open(ListNode), Leaf(LParen)], ShapeAll(elems));
      TokensConcat([Open(ListNode), Leaf(LParen)] + ShapeAll(elems), [Leaf(RParen), Close]);
      ConcatThree([LParen], TokensOf(ShapeAll(elems)), [RParen]);
    case Tick(inner) =>
      ShapeHoldsYield(inner);
      TokensConcat([Open(QuotedNode), Leaf(Quote)], Shape(inner));
      TokensConcat([Open(QuotedNode), Leaf(Quote)] + Shape(inner), [Close]);
  }

  lemma {:induction false} ShapeAllHoldsYield(elems: seq<Cst>)
    ensures TokensOf(ShapeAll(elems)) + [RParen] == YieldAll(elems)
    decreases elems, 1
  {
    if elems != [] {
      ShapeHoldsYield(elems[0]);
      ShapeAllHoldsYield(elems[1..]);
      TokensConcat(Shape(elems[0]), ShapeAll(elems[1..]));
      ConcatThree(Yield(elems[0]), TokensOf(ShapeAll(elems[1..])), [RParen]);
    }
  }

  /** What is accepted spells the tree returned. */
  lemma {:induction false} AcceptedSpells(ts: seq<Token>)
    requires ReadExpr(ts).Ok?
    ensures var (c, rest) := ReadExpr(ts).value; Spellable(c) && ts == Yield(c) + rest
    decreases |ts|, 0
  {
    hide ReadElems, YieldAll;
    var (c, rest) := ReadExpr(ts).value;
    HeadThenRest(ts);
    if ts[0].LParen? {
      AcceptedElemsSpell(ts[1..]);
      ConcatThree([LParen], YieldAll(c.elems), rest);
    } else if ts[0].Quote? {
      AcceptedSpells(ts[1..]);
      ConcatThree([Quote], Yield(c.inner), rest);
    }
  }

  lemma {:induction false} AcceptedElemsSpell(ts: seq<Token>)
    requires ReadElems(ts).Ok?
    ensures var (elems, rest) := ReadElems(ts).value;
      (forall i :: 0 <= i < |elems| ==> Spellable(elems[i])) && ts == YieldAll(elems) + rest
    decreases |ts|, 1
  {
    hide ReadExpr, Yield, Spellable;
    var (elems, rest) := ReadElems(ts).value;
    HeadThenRest(ts);
    if !ts[0].RParen? {
      var (c, after) := ReadExpr(ts).value;
      AcceptedSpells(ts);
      AcceptedElemsSpell(after);
      assert elems[0] == c && elems[1..] == ReadElems(after).value.0;
      ConcatThree(Yield(c), YieldAll(elems[1..]), rest);
    }
  }

  lemma {:induction false} SpelledIsAccepted(c: Cst, rest: seq<Token>)
    requires Spellable(c)
    ensures ReadExpr(Yield(c) + rest) == Ok((c, rest))
    decreases c, 0
  {
    hide ReadElems, YieldAll;
    FirstOf(Yield(c), rest);
    match c
    case Single(_) =>
    case Group(elems) => SpelledElemsAreAccepted(elems, rest);
    case Tick(inner) => SpelledIsAccepted(inner, rest);
  }

  lemma {:induction false} SpelledElemsAreAccepted(elems: seq<Cst>, rest: seq<Token>)
    requires forall i :: 0 <= i < |elems| ==> Spellable(elems[i])
    ensures ReadElems(YieldAll(elems) + rest) == Ok((elems, rest))
    decreases elems, 1
  {
    hide ReadExpr, Spellable;
    if elems == [] {
      FirstOf([RParen], rest);
    } else {
      var after := YieldAll(elems[1..]) + rest;
      SpelledIsAccepted(elems[0], after);
      SpelledElemsAreAccepted(elems[1..], rest);
      ConcatThree(Yield(elems[0]), YieldAll(elems[1..]), rest);
      FirstOf(Yield(elems[0]), after);
      SpellingOpens(elems[0]);
      HeadThenRest(elems);
    }
  }

  lemma SpellingOpens(c: Cst)
    requires Spellable(c)
    ensures !Yield(c)[0].RParen?
  {
  }

  /** The recogniser accepts exactly the spellings of trees, whatever follows them. */
  lemma AcceptsExactlySpellings(ts: seq<Token>, c: Cst, rest: seq<Token>)
    ensures ReadExpr(ts) == Ok((c, rest)) <==> Spellable(c) && ts == Yield(c) + rest
  {
    if ReadExpr(ts).Ok? { AcceptedSpells(ts); }
    if Spellable(c) { SpelledIsAccepted(c, rest); }
  }

  /** The log determines the tree. */
  lemma LogDeterminesTree(c: Cst, d: Cst)
    requires Spellable(c) && Spellable(d) && Shape(c) == Shape(d)
    ensures c == d
  {
    ShapeHoldsYield(c);
    ShapeHoldsYield(d);
    SpelledIsAccepted(c, []);
    SpelledIsAccepted(d, []);
  }

  // ---- against the tree-building parser ---------------------------------------------

  /** The syntax tree of an expression's spelling. */
  function Twin(e: Expr): Cst
    decreases e, 0
  {
    match e
    case Constant(a) => Single(AtomToken(a))
    case Conditional(c, t, None) => Group([Single(If), Twin(c), Twin(t)])
    case Conditional(c, t, Some(o)) => Group([Single(If), Twin(c), Twin(t), Twin(o)])
    case Quoted(elems) => Tick(Group(TwinAll(elems)))
    case Application(f, args) => Group([Twin(f)] + TwinAll(args))
  }

  function TwinAll(es: seq<Expr>): (r: seq<Cst>)
    ensures |r| == |es|
    decreases es, 1
  {
    if es == [] then [] else [Twin(es[0])] + TwinAll(es[1..])
  }

  /** The trees that are some expression's: a quote holds a list, a list is not empty, and a
      list headed by `if` has two or three parts. */
  predicate Proper(c: Cst)
    decreases c, 0
  {
    match c
    case Single(t) => AtomOf(t).Some?
    case Tick(inner) => inner.Group? && forall i :: 0 <= i < |inner.elems| ==> Proper(inner.elems[i])
    case Group(elems) =>
      if elems == [] then false
      else if elems[0] == Single(If) then
        3 <= |elems| <= 4 && forall i :: 1 <= i < |elems| ==> Proper(elems[i])
      else forall i :: 0 <= i < |elems| ==> Proper(elems[i])
  }

  function BackAll(elems: seq<Cst>): (r: seq<Expr>)
    requires forall i :: 0 <= i < |elems| ==> Proper(elems[i])
    decreases elems, 1
  {
    if elems == [] then [] else [Back(elems[0])] + BackAll(elems[1..])
  }

  /** The expression a proper tree spells. */
  function Back(c: Cst): Expr
    requires Proper(c)
    decreases c, 0
  {
    match c
    case Single(t) => Constant(AtomOf(t).value)
    case Tick(Group(elems)) => Quoted(BackAll(elems))
    case Group(elems) =>
      if elems[0] == Single(If) then
        Conditional(Back(elems[1]), Back(elems[2]), if |elems| == 4 then Some(Back(elems[3])) else None)
      else Application(Back(elems[0]), BackAll(elems[1..]))
  }

  lemma {:induction false} TwinOfBack(c: Cst)
    requires Proper(c)
    ensures Twin(Back(c)) == c
    decreases c, 0
  {
    hide AtomOf, AtomToken;
    match c
    case Single(t) => AtomSpelling(t);
    case Tick(Group(elems)) => TwinOfBackAll(elems);
    case Group(elems) =>
      if elems[0] == Single(If) {
        TwinOfBack(elems[1]);
        TwinOfBack(elems[2]);
        if |elems| == 4 { TwinOfBack(elems[3]); }
      } else {
        TwinOfBack(elems[0]);
        TwinOfBackAll(elems[1..]);
        HeadThenRest(elems);
      }
  }

  lemma {:induction false} TwinOfBackAll(elems: seq<Cst>)
    requires forall i :: 0 <= i < |elems| ==> Proper(elems[i])
    ensures TwinAll(BackAll(elems)) == elems
    decreases elems, 1
  {
    hide Back, Twin;
    if elems != [] {
      TwinOfBack(elems[0]);
      TwinOfBackAll(elems[1..]);
      HeadThenRest(elems);
    }
  }

  lemma {:induction false} TwinIsProper(e: Expr)
    ensures Proper(Twin(e)) && Spellable(Twin(e))
    decreases e, 0
  {
    match e
    case Constant(a) =>
    case Conditional(c, t, els) =>
      TwinIsProper(c);
      TwinIsProper(t);
      if els.Some? { TwinIsProper(els.value); }
    case Quoted(elems) => TwinAllIsProper(elems);
    case Application(f, args) =>
      TwinIsProper(f);
      TwinAllIsProper(args);
  }

  lemma {:induction false} TwinAllIsProper(es: seq<Expr>)
    ensures forall i :: 0 <= i < |es| ==> Proper(TwinAll(es)[i]) && Spellable(TwinAll(es)[i])
    decreases es, 1
  {
    hide Twin, Proper, Spellable;
    if es != [] {
      TwinIsProper(es[0]);
      TwinAllIsProper(es[1..]);
    }
  }

  /** The twin is spelled as the expression is. */
  lemma {:induction false} TwinSpellsAlike(e: Expr)
    ensures Yield(Twin(e)) == Unparse(e)
    decreases e, 0
  {
    hide Proper, Spellable;
    match e
    case Constant(a) =>
    case Conditional(c, t, els) =>
      hide Yield, Twin, Unparse;
      TwinSpellsAlike(c);
      TwinSpellsAlike(t);
      if els.Some? { TwinSpellsAlike(els.value); }
      ConditionalSpellsAlike(e);
    case Quoted(elems) => TwinAllSpellsAlike(elems);
    case Application(f, args) =>
      TwinSpellsAlike(f);
      TwinAllSpellsAlike(args);
      ApplicationSpellsAlike(f, args, e);
  }

  lemma YieldAllCons(c: Cst, elems: seq<Cst>)
    ensures YieldAll([c] + elems) == Yield(c) + YieldAll(elems)
  {
    assert ([c] + elems)[1..] == elems;
  }

  lemma YieldOfTwo(a: Cst, b: Cst)
    ensures YieldAll([a, b]) == Yield(a) + (Yield(b) + [RParen])
  {
    YieldAllCons(b, []);
    YieldAllCons(a, [b]);
    assert [b] + [] == [b] && [a] + [b] == [a, b];
  }

  lemma YieldOfThree(a: Cst, b: Cst, c: Cst)
    ensures YieldAll([a, b, c]) == Yield(a) + (Yield(b) + (Yield(c) + [RParen]))
  {
    hide Yield;
    YieldOfTwo(b, c);
    YieldAllCons(a, [b, c]);
    assert [a] + [b, c] == [a, b, c];
  }

  lemma IfGroup(parts: seq<Cst>)
    ensures Yield(Group([Single(If)] + parts)) == [LParen, If] + YieldAll(parts)
  {
    YieldAllCons(Single(If), parts);
    ConcatThree([LParen], [If], YieldAll(parts));
    assert [LParen] + [If] == [LParen, If];
  }

  lemma ConditionalSpellsAlike(e: Expr)
    requires e.Conditional?
    requires Yield(Twin(e.cond)) == Unparse(e.cond) && Yield(Twin(e.thn)) == Unparse(e.thn)
    requires e.els.Some? ==> Yield(Twin(e.els.value)) == Unparse(e.els.value)
    ensures Yield(Twin(e)) == Unparse(e)
  {
    hide Yield, YieldAll;
    var c, t := Twin(e.cond), Twin(e.thn);
    match e.els
    case None =>
      YieldOfTwo(c, t);
      IfGroup([c, t]);
      assert [Single(If)] + [c, t] == [Single(If), c, t];
    case Some(o) =>
      YieldOfThree(c, t, Twin(o));
      IfGroup([c, t, Twin(o)]);
      assert [Single(If)] + [c, t, Twin(o)] == [Single(If), c, t, Twin(o)];
  }

  lemma ApplicationSpellsAlike(f: Expr, args: seq<Expr>, e: Expr)
    requires e == Application(f, args)
    requires Yield(Twin(f)) == Unparse(f) && YieldAll(TwinAll(args)) == UnparseList(args)
    ensures Yield(Twin(e)) == Unparse(e)
  {
    YieldAllCons(Twin(f), TwinAll(args));
  }

  lemma {:induction false} TwinAllSpellsAlike(es: seq<Expr>)
    ensures YieldAll(TwinAll(es)) == UnparseList(es)
    decreases es, 1
  {
    hide Twin, Unparse, Yield;
    if es != [] {
      TwinSpellsAlike(es[0]);
      TwinAllSpellsAlike(es[1..]);
      YieldAllCons(Twin(es[0]), TwinAll(es[1..]));
    }
  }

  lemma AtFromHere(ts: seq<Token>, pos: nat, piece: seq<Token>)
    requires pos <= |ts|
    ensures At(ts, pos, piece) <==> pos + |piece| <= |ts| && ts[pos..] == piece + ts[pos + |piece|..]
  {
    if pos + |piece| <= |ts| && ts[pos..] == piece + ts[pos + |piece|..] {
      forall i | 0 <= i < |piece| ensures ts[pos + i] == piece[i] {
        assert ts[pos..][i] == piece[i];
      }
    }
  }

  /** Whenever the tree-building parser accepts a prefix, the recogniser consumes exactly that
      prefix, and the tree it records is the twin of the expression. */
  lemma TwinSimulates(ts: seq<Token>, pos: nat)
    requires pos <= |ts| && ExprAt(ts, pos).Ok?
    ensures var (e, q) := ExprAt(ts, pos).value; ReadExpr(ts[pos..]) == Ok((Twin(e), ts[q..]))
  {
    hide ExprAt, ReadExpr, At, Unparse, Yield, Twin, Proper, Spellable;
    var (e, q) := ExprAt(ts, pos).value;
    AcceptedIsSpelling(ts, pos);
    AtFromHere(ts, pos, Unparse(e));
    TwinSpellsAlike(e);
    TwinIsProper(e);
    SpelledIsAccepted(Twin(e), ts[q..]);
  }

  /** Of what the recogniser accepts, the tree-building parser accepts exactly the proper trees,
      and then they stop at the same place. */
  lemma AgreeExactlyOnProper(ts: seq<Token>, pos: nat, c: Cst, rest: seq<Token>)
    requires pos <= |ts| && ReadExpr(ts[pos..]) == Ok((c, rest))
    ensures ExprAt(ts, pos).Ok? <==> Proper(c)
    ensures Proper(c) ==> ExprAt(ts, pos) == Ok((Back(c), |ts| - |rest|))
  {
    hide ExprAt, ReadExpr, At, Unparse, Yield, Twin, Back, Proper, Spellable;
    if ExprAt(ts, pos).Ok? {
      TwinSimulates(ts, pos);
      TwinIsProper(ExprAt(ts, pos).value.0);
    }
    if Proper(c) {
      AcceptedSpells(ts[pos..]);
      TwinOfBack(c);
      TwinSpellsAlike(Back(c));
      AtFromHere(ts, pos, Yield(c));
      SpellingIsAccepted(Back(c), ts, pos);
    }
  }

  /** The converse fails: `()`, `(if)` and a quoted atom are recognised, and refused by the
      tree-building parser. */
  lemma RecognisedButRefused(k: string)
    ensures ReadExpr([LParen, RParen]) == Ok((Group([]), [])) && ExprAt([LParen, RParen], 0).Err?
    ensures ReadExpr([LParen, If, RParen]).Ok? && ExprAt([LParen, If, RParen], 0).Err?
    ensures ReadExpr([Quote, Keyword(k)]).Ok? && ExprAt([Quote, Keyword(k)], 0).Err?
  {
    AgreeOn([LParen, RParen], Group([]));
    AgreeOn([LParen, If, RParen], Group([Single(If)]));
    AgreeOn([Quote, Keyword(k)], Tick(Single(Keyword(k))));
  }

  lemma AgreeOn(ts: seq<Token>, c: Cst)
    requires Spellable(c) && ts == Yield(c)
    ensures ReadExpr(ts) == Ok((c, [])) && (ExprAt(ts, 0).Ok? <==> Proper(c))
  {
    assert ts + [] == ts && ts[0..] == ts;
    SpelledIsAccepted(c, []);
    AgreeExactlyOnProper(ts, 0, c, []);
  }
}
