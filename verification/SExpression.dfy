/** The S-expression parser of the `s_expression` example: recursive descent over tokens, and
    its exact inverse. */
module SExpression {
  import opened Sequences
  import opened Wrappers
  import opened TokenInput

  datatype Token =
    | Int(n: int)
    | True
    | False
    | Keyword(name: string)
    | Plus
    | Minus
    | Star
    | Slash
    | Equal
    | Not
    | If
    | LParen
    | RParen
    | Quote

  datatype BuiltIn = Add | Sub | Mul | Div | Eq | Negate

  datatype Atom = Num(n: int) | Bool(b: bool) | Key(name: string) | Builtin(op: BuiltIn)

  datatype Expr =
    | Constant(atom: Atom)
    | Conditional(cond: Expr, thn: Expr, els: Option<Expr>)
    | Quoted(elems: seq<Expr>)
    | Application(func: Expr, args: seq<Expr>)

  /** This parser declares no syntax nodes. */
  datatype NoNode = NoNode

  type Parsed<T> = Result<(T, nat), ParseError>

  /** The atom a token is, if it is one. */
  function AtomOf(t: Token): Option<Atom> {
    match t
    case Int(n) => Some(Num(n))
    case True => Some(Bool(true))
    case False => Some(Bool(false))
    case Keyword(k) => Some(Key(k))
    case Plus => Some(Builtin(Add))
    case Minus => Some(Builtin(Sub))
    case Star => Some(Builtin(Mul))
    case Slash => Some(Builtin(Div))
    case Equal => Some(Builtin(Eq))
    case Not => Some(Builtin(Negate))
    case _ => None
  }

  predicate Looking(toks: seq<Token>, pos: nat, t: Token) {
    pos < |toks| && toks[pos] == t
  }

  /** One expression from `pos`, and the position after it. */
  function ExprAt(toks: seq<Token>, pos: nat): (r: Parsed<Expr>)
    ensures r.Ok? ==> pos < r.value.1 <= |toks|
    decreases |toks| - pos, 0
  {
    if pos >= |toks| then Err(UnexpectedEot)
    else if AtomOf(toks[pos]).Some? then Ok((Constant(AtomOf(toks[pos]).value), pos + 1))
    else if toks[pos] == Quote then
      if !Looking(toks, pos + 1, LParen) then Err(UnexpectedToken)
      else
        match ListAt(toks, pos + 2)
        case Err(e) => Err(e)
        case Ok((elems, q)) => Ok((Quoted(elems), q))
    else if toks[pos] == LParen then
      if Looking(toks, pos + 1, If) then ConditionalAt(toks, pos + 2)
      else
        match ExprAt(toks, pos + 1)
        case Err(e) => Err(e)
        case Ok((func, p)) =>
          match ListAt(toks, p)
          case Err(e) => Err(e)
          case Ok((args, q)) => Ok((Application(func, args), q))
    else Err(UnexpectedToken)
  }

  /** The rest of a conditional, after `( if`. */
  function ConditionalAt(toks: seq<Token>, pos: nat): (r: Parsed<Expr>)
    ensures r.Ok? ==> pos < r.value.1 <= |toks|
    decreases |toks| - pos, 1
  {
    match ExprAt(toks, pos)
    case Err(e) => Err(e)
    case Ok((cond, p)) =>
      match ExprAt(toks, p)
      case Err(e) => Err(e)
      case Ok((thn, q)) =>
        if Looking(toks, q, RParen) then Ok((Conditional(cond, thn, None), q + 1))
        else
          match ExprAt(toks, q)
          case Err(e) => Err(e)
          case Ok((els, r)) =>
            if Looking(toks, r, RParen) then Ok((Conditional(cond, thn, Some(els)), r + 1))
            else Err(UnexpectedToken)
  }

  /** Zero or more expressions and the closing parenthesis. */
  function ListAt(toks: seq<Token>, pos: nat): (r: Parsed<seq<Expr>>)
    ensures r.Ok? ==> pos < r.value.1 <= |toks|
    decreases |toks| - pos, 1
  {
    if Looking(toks, pos, RParen) then Ok(([], pos + 1))
    else
      match ExprAt(toks, pos)
      case Err(e) => Err(e)
      case Ok((elem, p)) => Prepend([elem], ListAt(toks, p))
  }

  /** A parser's outcome and its end position are those of its specification. */
  predicate Reads<T(==)>(r: Result<T, ParseError>, pos: nat, spec: Parsed<T>) {
    match spec
    case Ok((v, q)) => r == Ok(v) && pos == q
    case Err(e) => r == Err(e)
  }

  // ---- the parser -------------------------------------------------------------------

  method ParseExpr(inp: InputRef<Token, NoNode>) returns (r: Result<Expr, ParseError>)
    requires inp.Valid()
    modifies inp
    ensures inp.Valid()
    ensures Reads(r, inp.pos, ExprAt(inp.toks, old(inp.pos)))
    decreases |inp.toks| - inp.pos, 0
  {
    hide ListAt, ConditionalAt, AtomOf;
    var tok := inp.Next();
    if tok.None? {
      return Err(UnexpectedEot);
    }
    match AtomOf(tok.value) {
      case Some(atom) =>
        r := Ok(Constant(atom));
      case None =>
        if tok.value == Quote {
          var open := inp.TryExpect(t => t == LParen);
          if open.None? {
            return Err(UnexpectedToken);
          }
          var elems := ParseList(inp);
          r := match elems case Ok(es) => Ok(Quoted(es)) case Err(e) => Err(e);
        } else if tok.value == LParen {
          var isIf := inp.TryExpect(t => t == If);
          if isIf.Some? {
            r := ParseConditional(inp);
          } else {
            var func := ParseExpr(inp);
            if func.Err? { return func; }
            var args := ParseList(inp);
            r := match args case Ok(es) => Ok(Application(func.value, es)) case Err(e) => Err(e);
          }
        } else {
          r := Err(UnexpectedToken);
        }
    }
  }

  /** The conditional branch of `parse_expr`, after `( if`. */
  method ParseConditional(inp: InputRef<Token, NoNode>) returns (r: Result<Expr, ParseError>)
    requires inp.Valid()
    modifies inp
    ensures inp.Valid()
    ensures Reads(r, inp.pos, ConditionalAt(inp.toks, old(inp.pos)))
    decreases |inp.toks| - inp.pos, 1
  {
    hide ExprAt, ListAt, AtomOf;
    var cond := ParseExpr(inp);
    if cond.Err? { return cond; }
    var thn := ParseExpr(inp);
    if thn.Err? { return thn; }
    var close := inp.TryExpect(t => t == RParen);
    if close.Some? {
      return Ok(Conditional(cond.value, thn.value, None));
    }
    var els := ParseExpr(inp);
    if els.Err? { return els; }
    close := inp.TryExpect(t => t == RParen);
    if close.None? {
      return Err(UnexpectedToken);
    }
    r := Ok(Conditional(cond.value, thn.value, Some(els.value)));
  }

  method ParseList(inp: InputRef<Token, NoNode>) returns (r: Result<seq<Expr>, ParseError>)
    requires inp.Valid()
    modifies inp
    ensures inp.Valid()
    ensures Reads(r, inp.pos, ListAt(inp.toks, old(inp.pos)))
    decreases |inp.toks| - inp.pos, 1
  {
    hide ExprAt;
    ghost var start := inp.pos;
    var elems: seq<Expr> := [];
    PrependNothing(ListAt(inp.toks, inp.pos));
    while true
      invariant inp.Valid() && start <= inp.pos
      invariant ListAt(inp.toks, start) == Prepend(elems, ListAt(inp.toks, inp.pos))
      decreases |inp.toks| - inp.pos
    {
      ghost var at := inp.pos;
      var close := inp.TryExpect(t => t == RParen);
      if close.Some? {
        assert elems + [] == elems;
        return Ok(elems);
      }
      var elem := ParseExpr(inp);
      if elem.Err? {
        return Err(elem.error);
      }
      PrependTwice(elems, [elem.value], ListAt(inp.toks, inp.pos));
      elems := elems + [elem.value];
    }
  }

  // ---- the inverse ------------------------------------------------------------------

  function AtomToken(a: Atom): (t: Token)
    ensures AtomOf(t) == Some(a)
  {
    match a
    case Num(n) => Int(n)
    case Bool(true) => True
    case Bool(false) => False
    case Key(k) => Keyword(k)
    case Builtin(Add) => Plus
    case Builtin(Sub) => Minus
    case Builtin(Mul) => Star
    case Builtin(Div) => Slash
    case Builtin(Eq) => Equal
    case Builtin(Negate) => Not
  }

  /** The canonical spelling of an expression. */
  function Unparse(e: Expr): (r: seq<Token>)
    ensures r != []
    decreases e, 0
  {
    match e
    case Constant(a) => [AtomToken(a)]
    case Conditional(c, t, None) => [LParen, If] + (Unparse(c) + (Unparse(t) + [RParen]))
    case Conditional(c, t, Some(o)) => [LParen, If] + (Unparse(c) + (Unparse(t) + (Unparse(o) + [RParen])))
    case Quoted(elems) => [Quote, LParen] + UnparseList(elems)
    case Application(f, args) => [LParen] + (Unparse(f) + UnparseList(args))
  }

  /** The elements and the closing parenthesis. */
  function UnparseList(elems: seq<Expr>): (r: seq<Token>)
    ensures r != []
    decreases elems, 1
  {
    if elems == [] then [RParen] else Unparse(elems[0]) + UnparseList(elems[1..])
  }

  lemma AtTwo(toks: seq<Token>, pos: nat, x: Token, y: Token, rest: seq<Token>)
    ensures At(toks, pos, [x, y] + rest) <==> Looking(toks, pos, x) && Looking(toks, pos + 1, y) && At(toks, pos + 2, rest)
  {
    assert [x, y] == [x] + [y];
    AtParts(toks, pos, [x, y], rest);
    AtParts(toks, pos, [x], [y]);
    AtOne(toks, pos, x);
    AtOne(toks, pos + 1, y);
  }

  lemma HeadNeverCloses(e: Expr)
    ensures Unparse(e)[0] != RParen && Unparse(e)[0] != If
  {
    if e.Constant? { assert AtomOf(Unparse(e)[0]).Some?; }
  }

  lemma AtomSpelling(t: Token)
    requires AtomOf(t).Some?
    ensures AtomToken(AtomOf(t).value) == t && t != Quote && t != LParen
  {
  }

  /** Whatever the parser accepts is the spelling of what it returns. */
  lemma {:induction false} AcceptedIsSpelling(toks: seq<Token>, pos: nat)
    requires ExprAt(toks, pos).Ok?
    ensures var (e, q) := ExprAt(toks, pos).value; At(toks, pos, Unparse(e)) && q == pos + |Unparse(e)|
    decreases |toks| - pos, 0
  {
    hide At, ListAt, ConditionalAt, UnparseList, AtomOf;
    var (e, q) := ExprAt(toks, pos).value;
    if AtomOf(toks[pos]).Some? {
      AtomSpelling(toks[pos]);
      AtOne(toks, pos, toks[pos]);
    } else if toks[pos] == Quote {
      AcceptedListIsSpelling(toks, pos + 2);
      AtTwo(toks, pos, Quote, LParen, UnparseList(e.elems));
    } else if Looking(toks, pos + 1, If) {
      AcceptedConditionalIsSpelling(toks, pos + 2);
      var rest := ConditionalRest(e);
      AtTwo(toks, pos, LParen, If, rest);
    } else {
      var p := ExprAt(toks, pos + 1).value.1;
      AcceptedIsSpelling(toks, pos + 1);
      AcceptedListIsSpelling(toks, p);
      AtParts(toks, pos + 1, Unparse(e.func), UnparseList(e.args));
      AtParts(toks, pos, [LParen], Unparse(e.func) + UnparseList(e.args));
      AtOne(toks, pos, LParen);
    }
  }

  /** The spelling of a conditional after `( if`. */
  function ConditionalRest(e: Expr): seq<Token>
    requires e.Conditional?
  {
    match e.els
    case None => Unparse(e.cond) + (Unparse(e.thn) + [RParen])
    case Some(o) => Unparse(e.cond) + (Unparse(e.thn) + (Unparse(o) + [RParen]))
  }

  lemma {:induction false} AcceptedConditionalIsSpelling(toks: seq<Token>, pos: nat)
    requires ConditionalAt(toks, pos).Ok?
    ensures var (e, q) := ConditionalAt(toks, pos).value;
      e.Conditional? && At(toks, pos, ConditionalRest(e)) && q == pos + |ConditionalRest(e)|
    decreases |toks| - pos, 1
  {
    hide At, ExprAt, Unparse;
    var (e, end) := ConditionalAt(toks, pos).value;
    var p := ExprAt(toks, pos).value.1;
    var q := ExprAt(toks, p).value.1;
    AcceptedIsSpelling(toks, pos);
    AcceptedIsSpelling(toks, p);
    if e.els.None? {
      AtOne(toks, q, RParen);
      AtParts(toks, p, Unparse(e.thn), [RParen]);
      AtParts(toks, pos, Unparse(e.cond), Unparse(e.thn) + [RParen]);
    } else {
      var r := ExprAt(toks, q).value.1;
      AcceptedIsSpelling(toks, q);
      AtOne(toks, r, RParen);
      var tail := Unparse(e.els.value) + [RParen];
      AtParts(toks, q, Unparse(e.els.value), [RParen]);
      AtParts(toks, p, Unparse(e.thn), tail);
      AtParts(toks, pos, Unparse(e.cond), Unparse(e.thn) + tail);
    }
  }

  lemma {:induction false} AcceptedListIsSpelling(toks: seq<Token>, pos: nat)
    requires ListAt(toks, pos).Ok?
    ensures var (es, q) := ListAt(toks, pos).value; At(toks, pos, UnparseList(es)) && q == pos + |UnparseList(es)|
    decreases |toks| - pos, 1
  {
    hide At, ExprAt, Unparse;
    var (es, q) := ListAt(toks, pos).value;
    if es == [] {
      AtOne(toks, pos, RParen);
    } else {
      var p := ExprAt(toks, pos).value.1;
      AcceptedIsSpelling(toks, pos);
      AcceptedListIsSpelling(toks, p);
      assert es[1..] == ListAt(toks, p).value.0;
      AtParts(toks, pos, Unparse(es[0]), UnparseList(es[1..]));
    }
  }

  lemma ReadsAtom(toks: seq<Token>, pos: nat, a: Atom)
    requires Looking(toks, pos, AtomToken(a))
    ensures ExprAt(toks, pos) == Ok((Constant(a), pos + 1))
  {
    hide AtomToken, AtomOf;
  }

  lemma ReadsConditional(toks: seq<Token>, pos: nat)
    requires Looking(toks, pos, LParen) && Looking(toks, pos + 1, If)
    ensures ExprAt(toks, pos) == ConditionalAt(toks, pos + 2)
  {
    hide ListAt, ConditionalAt;
  }

  lemma ReadsQuoted(toks: seq<Token>, pos: nat, elems: seq<Expr>, end: nat)
    requires Looking(toks, pos, Quote) && Looking(toks, pos + 1, LParen)
    requires ListAt(toks, pos + 2) == Ok((elems, end))
    ensures ExprAt(toks, pos) == Ok((Quoted(elems), end))
  {
    hide ListAt, ConditionalAt;
  }

  lemma ReadsApplication(toks: seq<Token>, pos: nat, f: Expr, p: nat, args: seq<Expr>, end: nat)
    requires Looking(toks, pos, LParen) && !Looking(toks, pos + 1, If)
    requires ExprAt(toks, pos + 1) == Ok((f, p)) && ListAt(toks, p) == Ok((args, end))
    ensures ExprAt(toks, pos) == Ok((Application(f, args), end))
  {
    hide ListAt, ConditionalAt;
  }

  /** Wherever the spelling of an expression stands, the parser reads that expression there. */
  lemma {:induction false} SpellingIsAccepted(e: Expr, toks: seq<Token>, pos: nat)
    requires At(toks, pos, Unparse(e))
    ensures ExprAt(toks, pos) == Ok((e, pos + |Unparse(e)|))
    decreases e, 2
  {
    match e
    case Constant(a) => AtomIsAccepted(a, toks, pos);
    case Conditional(_, _, _) => WholeConditionalIsAccepted(e, toks, pos);
    case Quoted(elems) => QuotedIsAccepted(elems, toks, pos, e);
    case Application(f, args) => ApplicationIsAccepted(f, args, toks, pos, e);
  }

  lemma AtomIsAccepted(a: Atom, toks: seq<Token>, pos: nat)
    requires At(toks, pos, Unparse(Constant(a)))
    ensures ExprAt(toks, pos) == Ok((Constant(a), pos + |Unparse(Constant(a))|))
  {
    hide At, ExprAt, AtomToken;
    AtOne(toks, pos, AtomToken(a));
    ReadsAtom(toks, pos, a);
  }

  lemma {:induction false} WholeConditionalIsAccepted(e: Expr, toks: seq<Token>, pos: nat)
    requires e.Conditional? && At(toks, pos, Unparse(e))
    ensures ExprAt(toks, pos) == Ok((e, pos + |Unparse(e)|))
    decreases e, 2, 0
  {
    hide At, ExprAt, ConditionalAt, Looking;
    AtTwo(toks, pos, LParen, If, ConditionalRest(e));
    ConditionalIsAccepted(e, toks, pos + 2);
    ReadsConditional(toks, pos);
  }

  lemma {:induction false} QuotedIsAccepted(elems: seq<Expr>, toks: seq<Token>, pos: nat, e: Expr)
    requires e == Quoted(elems) && At(toks, pos, Unparse(e))
    ensures ExprAt(toks, pos) == Ok((e, pos + |Unparse(e)|))
    decreases e, 2, 0
  {
    hide At, ExprAt, ListAt, UnparseList, Looking;
    AtTwo(toks, pos, Quote, LParen, UnparseList(elems));
    SpellingListIsAccepted(elems, toks, pos + 2);
    ReadsQuoted(toks, pos, elems, pos + 2 + |UnparseList(elems)|);
  }

  lemma {:induction false} ApplicationIsAccepted(f: Expr, args: seq<Expr>, toks: seq<Token>, pos: nat, e: Expr)
    requires e == Application(f, args) && At(toks, pos, Unparse(e))
    ensures ExprAt(toks, pos) == Ok((e, pos + |Unparse(e)|))
    decreases e, 2, 0
  {
    hide At, ExprAt, ListAt, UnparseList;
    var p := pos + 1 + |Unparse(f)|;
    AtParts(toks, pos, [LParen], Unparse(f) + UnparseList(args));
    AtOne(toks, pos, LParen);
    AtParts(toks, pos + 1, Unparse(f), UnparseList(args));
    AtHead(toks, pos + 1, Unparse(f));
    HeadNeverCloses(f);
    SpellingIsAccepted(f, toks, pos + 1);
    SpellingListIsAccepted(args, toks, p);
    ReadsApplication(toks, pos, f, p, args, p + |UnparseList(args)|);
  }

  lemma {:induction false} ConditionalIsAccepted(e: Expr, toks: seq<Token>, pos: nat)
    requires e.Conditional? && At(toks, pos, ConditionalRest(e))
    ensures ConditionalAt(toks, pos) == Ok((e, pos + |ConditionalRest(e)|))
    decreases e, 1
  {
    hide At, ExprAt, Unparse;
    var c, t := Unparse(e.cond), Unparse(e.thn);
    var p, q := pos + |c|, pos + |c| + |t|;
    if e.els.None? {
      AtParts(toks, pos, c, t + [RParen]);
      AtParts(toks, p, t, [RParen]);
      AtOne(toks, q, RParen);
    } else {
      var o := Unparse(e.els.value);
      AtParts(toks, pos, c, t + (o + [RParen]));
      AtParts(toks, p, t, o + [RParen]);
      AtParts(toks, q, o, [RParen]);
      AtOne(toks, q + |o|, RParen);
      AtHead(toks, q, o);
      HeadNeverCloses(e.els.value);
      SpellingIsAccepted(e.els.value, toks, q);
    }
    SpellingIsAccepted(e.cond, toks, pos);
    SpellingIsAccepted(e.thn, toks, p);
  }

  lemma {:induction false} SpellingListIsAccepted(elems: seq<Expr>, toks: seq<Token>, pos: nat)
    requires At(toks, pos, UnparseList(elems))
    ensures ListAt(toks, pos) == Ok((elems, pos + |UnparseList(elems)|))
    decreases elems, 1
  {
    hide At, ExprAt, Unparse;
    if elems == [] {
      AtOne(toks, pos, RParen);
    } else {
      var first, p := Unparse(elems[0]), pos + |Unparse(elems[0])|;
      AtParts(toks, pos, first, UnparseList(elems[1..]));
      AtHead(toks, pos, first);
      HeadNeverCloses(elems[0]);
      SpellingIsAccepted(elems[0], toks, pos);
      SpellingListIsAccepted(elems[1..], toks, p);
      assert [elems[0]] + elems[1..] == elems;
    }
  }

  /** The parser and the canonical spelling are inverse to each other, both ways and on every
      token stream, whatever follows. */
  lemma ParserInvertsSpelling(toks: seq<Token>, pos: nat, e: Expr)
    ensures ExprAt(toks, pos) == Ok((e, pos + |Unparse(e)|)) <==> At(toks, pos, Unparse(e))
    ensures forall q :: ExprAt(toks, pos) == Ok((e, q)) ==> q == pos + |Unparse(e)|
  {
    if ExprAt(toks, pos).Ok? { AcceptedIsSpelling(toks, pos); }
    if At(toks, pos, Unparse(e)) { SpellingIsAccepted(e, toks, pos); }
  }

  /** No two expressions are spelled alike, and no spelling starts another. */
  lemma SpellingIsPrefixFree(e: Expr, f: Expr, toks: seq<Token>, pos: nat)
    requires At(toks, pos, Unparse(e)) && At(toks, pos, Unparse(f))
    ensures e == f
  {
    SpellingIsAccepted(e, toks, pos);
    SpellingIsAccepted(f, toks, pos);
  }

  // ---- the words of the language ----------------------------------------------------

  /** What each token stands for as an atom; keywords, marks and `if` stand for none. */
  lemma AtomIff(t: Token, a: Atom)
    ensures AtomOf(t) == Some(a) <==>
      || (exists n :: t == Int(n) && a == Num(n)) || (exists name :: t == Keyword(name) && a == Key(name))
      || (t == True && a == Bool(true)) || (t == False && a == Bool(false))
      || (t == Plus && a == Builtin(Add)) || (t == Minus && a == Builtin(Sub)) || (t == Star && a == Builtin(Mul))
      || (t == Slash && a == Builtin(Div)) || (t == Equal && a == Builtin(Eq)) || (t == Not && a == Builtin(Negate))
  {
  }

  /** What each form is spelled with, in its order. */
  lemma FormsAre(t: Token, a: Atom, c: Expr, d: Expr, e: Expr)
    ensures AtomOf(t) == Some(a) ==> Unparse(Constant(a)) == [t]
    ensures Unparse(Conditional(c, d, None)) == [LParen, If] + (Unparse(c) + (Unparse(d) + [RParen]))
    ensures Unparse(Conditional(c, d, Some(e))) == [LParen, If] + (Unparse(c) + (Unparse(d) + (Unparse(e) + [RParen])))
    ensures Unparse(Quoted([])) == [Quote, LParen] + [RParen]
    ensures Unparse(Application(c, [])) == [LParen] + (Unparse(c) + [RParen])
  {
  }

  /** A list grows at its end, before its closing parenthesis. */
  lemma {:induction false} ListGrows(elems: seq<Expr>, e: Expr)
    ensures Last(UnparseList(elems)) == RParen
    ensures UnparseList(elems + [e]) == Front(UnparseList(elems)) + Unparse(e) + [RParen]
  {
    hide Unparse;
    if elems == [] {
      assert ([] + [e])[1..] == [];
    } else {
      ListGrows(elems[1..], e);
      assert (elems + [e])[0] == elems[0] && (elems + [e])[1..] == elems[1..] + [e];
      assert Front(UnparseList(elems)) == Unparse(elems[0]) + Front(UnparseList(elems[1..]));
    }
  }

  // ---- the errors -------------------------------------------------------------------

  /** At `p` the tokens have ended where an expression is wanted; or there is a token no expression
      begins with, a quote mark with no parenthesis behind it, or anything but the closing
      parenthesis behind the third part of a conditional. */
  ghost predicate Fails(toks: seq<Token>, p: nat, e: ParseError) {
    match e
    case UnexpectedEot => p >= |toks|
    case UnexpectedToken =>
      || (p < |toks| && (toks[p] == RParen || toks[p] == If))
      || (p < |toks| && toks[p] == Quote && !(p + 1 < |toks| && toks[p + 1] == LParen))
      || (0 < p && EndsThird(toks, p) && !(p < |toks| && toks[p] == RParen))
  }

  /** A conditional's third part ends at `p`. */
  ghost predicate EndsThird(toks: seq<Token>, p: nat) {
    exists i: nat :: BeginsConditional(toks, i) && ThirdEnds(toks, i + 2, p)
  }

  ghost predicate BeginsConditional(toks: seq<Token>, i: nat) {
    i + 1 < |toks| && toks[i] == LParen && toks[i + 1] == If
  }

  ghost predicate ThirdEnds(toks: seq<Token>, i: nat, p: nat) {
    exists j: nat, k: nat, c, t, e :: Part(toks, i, j, c) && Part(toks, j, k, t) && Part(toks, k, p, e)
  }

  ghost predicate Part(toks: seq<Token>, i: nat, j: nat, e: Expr) {
    ExprAt(toks, i) == Ok((e, j))
  }

  /** Every error arises at some place. */
  lemma {:induction false} ErrorArises(toks: seq<Token>, pos: nat) returns (p: nat)
    requires ExprAt(toks, pos).Err?
    ensures pos <= p && Fails(toks, p, ExprAt(toks, pos).error)
    decreases |toks| - pos, 0
  {
    hide ListAt, ConditionalAt;
    p := pos;
    if pos < |toks| && toks[pos] == Quote && Looking(toks, pos + 1, LParen) {
      p := ErrorArisesInList(toks, pos + 2);
    } else if pos < |toks| && toks[pos] == LParen {
      if Looking(toks, pos + 1, If) {
        p := ErrorArisesInConditional(toks, pos);
      } else if ExprAt(toks, pos + 1).Err? {
        p := ErrorArises(toks, pos + 1);
      } else {
        p := ErrorArisesInList(toks, ExprAt(toks, pos + 1).value.1);
      }
    }
  }

  lemma {:induction false} ErrorArisesInList(toks: seq<Token>, pos: nat) returns (p: nat)
    requires ListAt(toks, pos).Err?
    ensures pos <= p && Fails(toks, p, ListAt(toks, pos).error)
    decreases |toks| - pos, 1
  {
    hide ExprAt, Fails;
    if ExprAt(toks, pos).Err? {
      p := ErrorArises(toks, pos);
    } else {
      p := ErrorArisesInList(toks, ExprAt(toks, pos).value.1);
    }
  }

  lemma {:induction false} ErrorArisesInConditional(toks: seq<Token>, i: nat) returns (p: nat)
    requires i + 1 < |toks| && toks[i] == LParen && toks[i + 1] == If && ConditionalAt(toks, i + 2).Err?
    ensures i <= p && Fails(toks, p, ConditionalAt(toks, i + 2).error)
    decreases |toks| - i - 2, 1
  {
    hide ExprAt;
    if ExprAt(toks, i + 2).Err? {
      p := ErrorArises(toks, i + 2);
    } else {
      var (c, j) := ExprAt(toks, i + 2).value;
      if ExprAt(toks, j).Err? {
        p := ErrorArises(toks, j);
      } else {
        var (t, k) := ExprAt(toks, j).value;
        if ExprAt(toks, k).Err? {
          p := ErrorArises(toks, k);
        } else {
          var (e, q) := ExprAt(toks, k).value;
          assert Part(toks, i + 2, j, c) && Part(toks, j, k, t) && Part(toks, k, q, e);
          assert BeginsConditional(toks, i) && ThirdEnds(toks, i + 2, q);
          p := q;
        }
      }
    }
  }
}
