/** The predicate parser of the coverage gate: a recursive-descent reader with a mutable position
    in the tokens of a text, its specification, and the round trips it supports. */
module CfgParse {
  import opened Sequences
  import opened Wrappers
  import opened CfgPredicate
  import opened CfgTokens

  datatype ParseError = EmptyPredicate | NotTakesOne | TrailingTokens | NotJson

  type Parsed<T> = Result<(T, nat), ParseError>

  predicate Looking(toks: seq<Token>, pos: nat, t: Token) {
    pos < |toks| && toks[pos] == t
  }

  predicate Combinator(name: Token) {
    name == Word("all") || name == Word("any") || name == Word("not")
  }

  /** What a token contributes as a value: a quoted one what it says in JSON, any other its text. */
  function ValueOf(t: Token): Result<string, ParseError> {
    match t
    case Word(s) => Ok(s)
    case Quoted(_, Some(v)) => Ok(v)
    case Quoted(_, None) => Err(NotJson)
    case Open => Ok("(")
    case Close => Ok(")")
    case Comma => Ok(",")
    case Equals => Ok("=")
  }

  function Combine(name: Token, args: seq<Node>): Result<Node, ParseError> {
    if name == Word("not") then
      if |args| == 1 then Ok(Not(args[0])) else Err(NotTakesOne)
    else if name == Word("all") then Ok(All(args))
    else Ok(Any(args))
  }

  /** One expression from `pos`, and the position after it. */
  function ParseExpr(toks: seq<Token>, pos: nat): (r: Parsed<Node>)
    ensures r.Ok? ==> pos < r.value.1 <= |toks|
    decreases |toks| - pos, 0
  {
    if pos >= |toks| then Err(EmptyPredicate)
    else if Combinator(toks[pos]) && Looking(toks, pos + 1, Open) then
      match ParseArgs(toks, pos + 2)
      case Err(e) => Err(e)
      case Ok((args, p)) =>
        (match Combine(toks[pos], args)
         case Err(e) => Err(e)
         case Ok(node) => Ok((node, p)))
    else if Looking(toks, pos + 1, Equals) then
      if pos + 2 >= |toks| then Ok((Leaf(toks[pos], None), pos + 2))
      else
        match ValueOf(toks[pos + 2])
        case Err(e) => Err(e)
        case Ok(v) => Ok((Leaf(toks[pos], Some(v)), pos + 3))
    else Ok((Leaf(toks[pos], None), pos + 1))
  }

  /** Arguments up to and including the closing parenthesis; commas are optional. */
  function ParseArgs(toks: seq<Token>, pos: nat): (r: Parsed<seq<Node>>)
    ensures r.Ok? ==> pos < r.value.1 <= |toks|
    decreases |toks| - pos, 1
  {
    if Looking(toks, pos, Close) then Ok(([], pos + 1))
    else
      match ParseExpr(toks, pos)
      case Err(e) => Err(e)
      case Ok((node, p)) => Prepend([node], ParseArgs(toks, SkipComma(toks, p)))
  }

  function SkipComma(toks: seq<Token>, pos: nat): nat {
    if Looking(toks, pos, Comma) then pos + 1 else pos
  }

  function Parse(toks: seq<Token>): Result<Node, ParseError> {
    match ParseExpr(toks, 0)
    case Err(e) => Err(e)
    case Ok((node, p)) => if p < |toks| then Err(TrailingTokens) else Ok(node)
  }

  // ---- the reader -------------------------------------------------------------------

  class Reader {
    const toks: seq<Token>
    var pos: nat

    constructor (toks: seq<Token>)
      ensures this.toks == toks && pos == 0
    {
      this.toks := toks;
      pos := 0;
    }

    method Tok() returns (t: Option<Token>)
      requires pos <= |toks|
      modifies this
      ensures if old(pos) < |toks| then t == Some(toks[old(pos)]) && pos == old(pos) + 1
              else t == None && pos == old(pos)
    {
      if pos == |toks| {
        return None;
      }
      t := Some(toks[pos]);
      pos := pos + 1;
    }

    predicate Peek(t: Token)
      reads this
    {
      Looking(toks, pos, t)
    }

    method Expr() returns (r: Result<Node, ParseError>)
      requires pos <= |toks|
      modifies this
      ensures pos <= |toks|
      ensures match ParseExpr(toks, old(pos))
              case Ok((node, p)) => r == Ok(node) && pos == p
              case Err(e) => r == Err(e)
      decreases |toks| - pos
    {
      hide Combine, Combinator, ValueOf;
      ghost var start := pos;
      var name := Tok();
      if name.None? {
        return Err(EmptyPredicate);
      }
      if Combinator(name.value) && Peek(Open) {
        var _ := Tok();
        var args: seq<Node> := [];
        PrependNothing(ParseArgs(toks, pos));
        while !Peek(Close)
          invariant start + 2 <= pos <= |toks|
          invariant ParseArgs(toks, start + 2) == Prepend(args, ParseArgs(toks, pos))
          decreases |toks| - pos
        {
          ghost var at, had := pos, args;
          var arg := Expr();
          if arg.Err? {
            return Err(arg.error);
          }
          args := args + [arg.value];
          PrependTwice(had, [arg.value], ParseArgs(toks, SkipComma(toks, pos)));
          if Peek(Comma) {
            var _ := Tok();
          }
        }
        assert args + [] == args;
        var _ := Tok();
        r := Combine(name.value, args);
        return;
      }
      if Peek(Equals) {
        var _ := Tok();
        var value := Tok();
        if value.None? {
          return Ok(Leaf(name.value, None));
        }
        var v := ValueOf(value.value);
        return match v case Ok(text) => Ok(Leaf(name.value, Some(text))) case Err(e) => Err(e);
      }
      r := Ok(Leaf(name.value, None));
    }
  }

  /** `parse`.  A match of the pattern depends only on where it starts, so the tokens are those of
      the text whichever of `tok` and `peek` asks for them; text that matches nothing ends them. */
  method ParsePredicate(pred: string, blank: char -> bool,
      loads: string -> Option<string>) returns (r: Result<Node, ParseError>)
    ensures r == Parse(Tokens(pred, blank, loads))
  {
    var reader := new Reader(Tokens(pred, blank, loads));
    r := reader.Expr();
    if r.Ok? && reader.pos < |reader.toks| {
      r := Err(TrailingTokens);
    }
  }

  // ---- printing and reading back ----------------------------------------------------

  /** Leaves of a tree rustc could have been given: the name is an identifier. */
  ghost predicate WellFormed(node: Node)
    decreases node
  {
    match node
    case All(parts) => forall p :: p in parts ==> WellFormed(p)
    case Any(parts) => forall p :: p in parts ==> WellFormed(p)
    case Not(arg) => WellFormed(arg)
    case Leaf(name, _) => name.Word?
  }

  /** The print of a tree; `quote` spells a value in quotes. */
  function Print(node: Node, quote: string -> string): (r: seq<Token>)
    ensures r != []
    decreases node, 0
  {
    match node
    case All(parts) => [Word("all"), Open] + PrintArgs(parts, quote)
    case Any(parts) => [Word("any"), Open] + PrintArgs(parts, quote)
    case Not(arg) => [Word("not"), Open] + Print(arg, quote) + [Close]
    case Leaf(name, None) => [name]
    case Leaf(name, Some(v)) => [name, Equals, Quoted(quote(v), Some(v))]
  }

  /** The arguments, comma-separated, and the closing parenthesis. */
  function PrintArgs(parts: seq<Node>, quote: string -> string): (r: seq<Token>)
    ensures r != []
    decreases parts, 1
  {
    if parts == [] then [Close]
    else if |parts| == 1 then Print(parts[0], quote) + [Close]
    else Print(parts[0], quote) + [Comma] + PrintArgs(parts[1..], quote)
  }

  lemma AtTwo(toks: seq<Token>, pos: nat, x: Token, y: Token, rest: seq<Token>)
    requires At(toks, pos, [x, y] + rest)
    ensures pos + 2 <= |toks| && toks[pos] == x && toks[pos + 1] == y && At(toks, pos + 2, rest)
  {
    AtParts(toks, pos, [x, y], rest);
    assert [x, y][0] == x && [x, y][1] == y;
  }

  ghost predicate Stops(toks: seq<Token>, pos: nat) {
    !Looking(toks, pos, Equals) && !Looking(toks, pos, Open)
  }

  lemma {:induction false} PrintHead(node: Node, quote: string -> string)
    requires WellFormed(node)
    ensures Print(node, quote)[0].Word?
  {
  }

  lemma CombinatorReads(toks: seq<Token>, pos: nat, args: seq<Node>, end: nat)
    requires pos + 1 < |toks| && Combinator(toks[pos]) && toks[pos + 1] == Open
    requires ParseArgs(toks, pos + 2) == Ok((args, end))
    ensures ParseExpr(toks, pos) == match Combine(toks[pos], args) case Ok(node) => Ok((node, end)) case Err(e) => Err(e)
  {
  }

  lemma LeafReads(name: Token, value: Option<string>, quote: string -> string, toks: seq<Token>, pos: nat)
    requires name.Word? && At(toks, pos, Print(Leaf(name, value), quote)) && Stops(toks, pos + |Print(Leaf(name, value), quote)|)
    ensures ParseExpr(toks, pos) == Ok((Leaf(name, value), pos + |Print(Leaf(name, value), quote)|))
  {
    AtHead(toks, pos, Print(Leaf(name, value), quote));
    if value.Some? {
      assert [name, Equals, Quoted(quote(value.value), value)] == [name, Equals] + [Quoted(quote(value.value), value)];
      AtTwo(toks, pos, name, Equals, [Quoted(quote(value.value), value)]);
      AtHead(toks, pos + 2, [Quoted(quote(value.value), value)]);
    }
  }

  /** Wherever a printed tree stands, the parser reads that tree and stops right after it. */
  lemma {:induction false} ReadBack(node: Node, quote: string -> string, toks: seq<Token>, pos: nat)
    requires WellFormed(node) && At(toks, pos, Print(node, quote)) && Stops(toks, pos + |Print(node, quote)|)
    ensures ParseExpr(toks, pos) == Ok((node, pos + |Print(node, quote)|))
    decreases node, 0
  {
    hide At, ParseExpr, ParseArgs, PrintArgs;
    CombinatorsDiffer();
    match node
    case All(parts) =>
      AtTwo(toks, pos, Word("all"), Open, PrintArgs(parts, quote));
      ReadBackArgs(parts, quote, toks, pos + 2);
      CombinatorReads(toks, pos, parts, pos + 2 + |PrintArgs(parts, quote)|);
    case Any(parts) =>
      AtTwo(toks, pos, Word("any"), Open, PrintArgs(parts, quote));
      ReadBackArgs(parts, quote, toks, pos + 2);
      CombinatorReads(toks, pos, parts, pos + 2 + |PrintArgs(parts, quote)|);
    case Not(arg) =>
      assert [Word("not"), Open] + Print(arg, quote) + [Close] == [Word("not"), Open] + (Print(arg, quote) + [Close]);
      AtTwo(toks, pos, Word("not"), Open, Print(arg, quote) + [Close]);
      var next := pos + 2 + |Print(arg, quote)|;
      AtParts(toks, pos + 2, Print(arg, quote), [Close]);
      AtHead(toks, pos + 2, Print(arg, quote));
      AtHead(toks, next, [Close]);
      PrintHead(arg, quote);
      ReadBack(arg, quote, toks, pos + 2);
      OneArg(toks, pos + 2, arg, next);
      CombinatorReads(toks, pos, [arg], next + 1);
    case Leaf(name, value) =>
      LeafReads(name, value, quote, toks, pos);
  }

  lemma OneArg(toks: seq<Token>, pos: nat, node: Node, p: nat)
    requires !Looking(toks, pos, Close) && ParseExpr(toks, pos) == Ok((node, p)) && Looking(toks, p, Close)
    ensures ParseArgs(toks, pos) == Ok(([node], p + 1))
  {
    assert [node] + [] == [node];
  }

  lemma CombinatorsDiffer()
    ensures Word("any") != Word("all") && Word("any") != Word("not") && Word("all") != Word("not")
  {
    assert "any"[1] == 'n' && "all"[1] == 'l' && "not"[1] == 'o';
  }

  /** One argument read, and the rest after an optional comma. */
  lemma ArgsStep(toks: seq<Token>, pos: nat, node: Node, p: nat, rest: seq<Node>, end: nat)
    requires !Looking(toks, pos, Close) && ParseExpr(toks, pos) == Ok((node, p))
    requires ParseArgs(toks, SkipComma(toks, p)) == Ok((rest, end))
    ensures ParseArgs(toks, pos) == Ok(([node] + rest, end))
  {
  }

  lemma {:induction false} ReadBackArgs(parts: seq<Node>, quote: string -> string, toks: seq<Token>, pos: nat)
    requires (forall p :: p in parts ==> WellFormed(p)) && At(toks, pos, PrintArgs(parts, quote))
    ensures ParseArgs(toks, pos) == Ok((parts, pos + |PrintArgs(parts, quote)|))
    decreases parts, 1
  {
    hide At, ParseExpr, Print, WellFormed;
    AtHead(toks, pos, PrintArgs(parts, quote));
    if parts != [] {
      var first := Print(parts[0], quote);
      var next := pos + |first|;
      PrintHead(parts[0], quote);
      if |parts| == 1 {
        AtParts(toks, pos, first, [Close]);
        AtHead(toks, pos, first);
        AtHead(toks, next, [Close]);
        ReadBack(parts[0], quote, toks, pos);
        ArgsStep(toks, pos, parts[0], next, [], next + 1);
        assert [parts[0]] + [] == parts;
      } else {
        AtParts(toks, pos, first + [Comma], PrintArgs(parts[1..], quote));
        AtParts(toks, pos, first, [Comma]);
        AtHead(toks, pos, first);
        AtHead(toks, next, [Comma]);
        ReadBack(parts[0], quote, toks, pos);
        ReadBackArgs(parts[1..], quote, toks, next + 1);
        ArgsStep(toks, pos, parts[0], next, parts[1..], next + 1 + |PrintArgs(parts[1..], quote)|);
        assert [parts[0]] + parts[1..] == parts;
      }
    }
  }

  /** Parsing the canonical print of a tree returns the tree, with nothing left over. */
  lemma RoundTrip(node: Node, quote: string -> string)
    requires WellFormed(node)
    ensures Parse(Print(node, quote)) == Ok(node)
  {
    assert At(Print(node, quote), 0, Print(node, quote));
    ReadBack(node, quote, Print(node, quote), 0);
  }

  // ---- joining separate gates -------------------------------------------------------

  /** The parts from `k` on, comma-separated, and the closing parenthesis. */
  function JoinRest(parts: seq<seq<Token>>, k: nat): (r: seq<Token>)
    requires k < |parts|
    ensures r != []
    decreases |parts| - k
  {
    if k == |parts| - 1 then parts[k] + [Close] else parts[k] + [Comma] + JoinRest(parts, k + 1)
  }

  /** `"all(" + ", ".join(parts) + ")"`. */
  function JoinGates(parts: seq<seq<Token>>): seq<Token>
    requires parts != []
  {
    [Word("all"), Open] + JoinRest(parts, 0)
  }

  /** A part that means something else between commas: one that ends in an `=` with no value,
      which alone is a leaf without a value, or one that opens with a parenthesis closing the list. */
  predicate Misread(part: seq<Token>) {
    (|part| == 2 && part[1] == Equals) || Looking(part, 0, Close)
  }

  /** An argument list that closes reads the same wherever its tokens stand. */
  lemma {:induction false} ArgsMove(p: seq<Token>, i: nat, toks: seq<Token>, o: nat)
    requires At(toks, o, p) && ParseArgs(p, i).Ok?
    ensures ParseArgs(toks, o + i) == Ok((ParseArgs(p, i).value.0, o + ParseArgs(p, i).value.1))
    decreases |p| - i, 1
  {
    hide ParseExpr;
    TokensMove(p, toks, o, i);
    if !Looking(p, i, Close) {
      var (node, j) := ParseExpr(p, i).value;
      var next := SkipComma(p, j);
      assert ParseArgs(p, next).Ok?;
      ExprMoves(p, i, toks, o);
      TokensMove(p, toks, o, j);
      ArgsMove(p, next, toks, o);
      ArgsStep(toks, o + i, node, o + j, ParseArgs(p, next).value.0, o + ParseArgs(p, next).value.1);
    }
  }

  lemma TokensMove(p: seq<Token>, toks: seq<Token>, o: nat, i: nat)
    requires At(toks, o, p) && i < |p|
    ensures o + i < |toks| && toks[o + i] == p[i]
  {
  }

  /** So does an expression, if what follows cannot be taken for more of it. */
  lemma {:induction false} ExprMoves(p: seq<Token>, i: nat, toks: seq<Token>, o: nat)
    requires At(toks, o, p) && ParseExpr(p, i).Ok?
    requires ParseExpr(p, i).value.1 < |p| ||
      (Stops(toks, o + |p|) && !(i + 2 == |p| && p[i + 1] == Equals))
    ensures ParseExpr(toks, o + i) == Ok((ParseExpr(p, i).value.0, o + ParseExpr(p, i).value.1))
    decreases |p| - i, 0
  {
    hide ParseArgs, At;
    TokensMove(p, toks, o, i);
    if i + 1 < |p| { TokensMove(p, toks, o, i + 1); }
    if i + 2 < |p| { TokensMove(p, toks, o, i + 2); }
    if Combinator(p[i]) && Looking(p, i + 1, Open) {
      ArgsMove(p, i + 2, toks, o);
    }
  }

  lemma JoinRestAt(parts: seq<seq<Token>>, k: nat, toks: seq<Token>, pos: nat)
    requires k < |parts| && At(toks, pos, JoinRest(parts, k))
    ensures At(toks, pos, parts[k]) && pos + |parts[k]| < |toks|
    ensures if k == |parts| - 1 then toks[pos + |parts[k]|] == Close
            else toks[pos + |parts[k]|] == Comma && At(toks, pos + |parts[k]| + 1, JoinRest(parts, k + 1))
  {
    hide At;
    if k == |parts| - 1 {
      AtParts(toks, pos, parts[k], [Close]);
      AtHead(toks, pos + |parts[k]|, [Close]);
    } else {
      AtParts(toks, pos, parts[k] + [Comma], JoinRest(parts, k + 1));
      AtParts(toks, pos, parts[k], [Comma]);
      AtHead(toks, pos + |parts[k]|, [Comma]);
    }
  }

  /** Each part parses alone to the node listed for it. */
  ghost predicate Separately(parts: seq<seq<Token>>, nodes: seq<Node>) {
    |parts| == |nodes| && forall k :: 0 <= k < |parts| ==> Parse(parts[k]) == Ok(nodes[k])
  }

  /** A part that would be misread is misread: its place in the list is taken by something else. */
  lemma MisreadPart(part: seq<Token>, node: Node, toks: seq<Token>, pos: nat)
    requires Parse(part) == Ok(node) && Misread(part)
    requires At(toks, pos, part) && pos + |part| < |toks|
    ensures ParseArgs(toks, pos).Ok? ==> ParseArgs(toks, pos).value.0 == [] || ParseArgs(toks, pos).value.0[0] != node
  {
    TokensMove(part, toks, pos, 0);
    if !Looking(part, 0, Close) {
      TokensMove(part, toks, pos, 1);
      assert ParseExpr(part, 0) == Ok((Leaf(part[0], None), 2));
      assert ParseExpr(toks, pos).Ok? ==> ParseExpr(toks, pos).value.0.value.Some?;
    }
  }

  /** Reading the joined parts from `k` on. */
  lemma {:induction false} JoinedArgs(parts: seq<seq<Token>>, nodes: seq<Node>, k: nat, toks: seq<Token>, pos: nat)
    requires Separately(parts, nodes) && k < |parts| && At(toks, pos, JoinRest(parts, k))
    ensures (forall i :: k <= i < |parts| ==> !Misread(parts[i])) ==>
      ParseArgs(toks, pos) == Ok((nodes[k..], pos + |JoinRest(parts, k)|))
    ensures (exists i :: k <= i < |parts| && Misread(parts[i])) ==>
      !(ParseArgs(toks, pos).Ok? && ParseArgs(toks, pos).value.0 == nodes[k..])
    decreases |parts| - k
  {
    hide At, ParseExpr, JoinRest;
    var part, rest := parts[k], nodes[k + 1..];
    JoinRestAt(parts, k, toks, pos);
    JoinRestLength(parts, k);
    assert nodes[k..] == [nodes[k]] + rest;
    ParsesAll(part, nodes[k]);
    if Misread(part) {
      MisreadPart(part, nodes[k], toks, pos);
    } else {
      TokensMove(part, toks, pos, 0);
      ExprMoves(part, 0, toks, pos);
      if k < |parts| - 1 {
        JoinedArgs(parts, nodes, k + 1, toks, pos + |part| + 1);
      }
    }
  }

  lemma JoinRestLength(parts: seq<seq<Token>>, k: nat)
    requires k < |parts|
    ensures |JoinRest(parts, k)| == |parts[k]| + 1 + if k == |parts| - 1 then 0 else |JoinRest(parts, k + 1)|
  {
  }

  lemma ParsesAll(part: seq<Token>, node: Node)
    requires Parse(part) == Ok(node)
    ensures ParseExpr(part, 0) == Ok((node, |part|)) && part != []
  {
  }

  /** `crate_gate` joins a file's gates into one `all(...)`. That text parses to the conjunction
      of the gates parsed one by one exactly when none of them is misread between commas. */
  lemma JoinedGates(parts: seq<seq<Token>>, nodes: seq<Node>)
    requires parts != [] && Separately(parts, nodes)
    ensures Parse(JoinGates(parts)) == Ok(All(nodes)) <==>
      forall i :: 0 <= i < |parts| ==> !Misread(parts[i])
  {
    hide ParseArgs, JoinRest;
    var toks := JoinGates(parts);
    assert At(toks, 0, toks);
    AtTwo(toks, 0, Word("all"), Open, JoinRest(parts, 0));
    CombinatorsDiffer();
    JoinedArgs(parts, nodes, 0, toks, 2);
    assert nodes[0..] == nodes;
  }

  // ---- a joined text that is not read to its end ------------------------------------

  /** The parts from `k` on, comma-separated, with nothing to close the list. */
  function OpenRest(parts: seq<seq<Token>>, k: nat): (r: seq<Token>)
    requires k < |parts|
    decreases |parts| - k
  {
    if k == |parts| - 1 then parts[k] else parts[k] + [Comma] + OpenRest(parts, k + 1)
  }

  lemma OpenRestAt(parts: seq<seq<Token>>, k: nat, toks: seq<Token>, pos: nat)
    requires k < |parts| && At(toks, pos, OpenRest(parts, k)) && pos + |OpenRest(parts, k)| == |toks|
    ensures At(toks, pos, parts[k])
    ensures if k == |parts| - 1 then pos + |parts[k]| == |toks|
            else pos + |parts[k]| < |toks| && toks[pos + |parts[k]|] == Comma
                 && At(toks, pos + |parts[k]| + 1, OpenRest(parts, k + 1))
                 && pos + |parts[k]| + 1 + |OpenRest(parts, k + 1)| == |toks|
  {
    hide At;
    if k < |parts| - 1 {
      AtParts(toks, pos, parts[k] + [Comma], OpenRest(parts, k + 1));
      AtParts(toks, pos, parts[k], [Comma]);
      AtHead(toks, pos + |parts[k]|, [Comma]);
    }
  }

  /** A part at the very end, a dangling `=` included, reads as it does alone. */
  lemma LastPartReads(part: seq<Token>, node: Node, toks: seq<Token>, pos: nat)
    requires Parse(part) == Ok(node) && At(toks, pos, part) && pos + |part| == |toks|
    ensures ParseExpr(toks, pos) == Ok((node, |toks|))
  {
    hide ParseArgs;
    ParsesAll(part, node);
    if |part| == 2 && part[1] == Equals {
      TokensMove(part, toks, pos, 0);
      TokensMove(part, toks, pos, 1);
    } else {
      ExprMoves(part, 0, toks, pos);
    }
  }

  lemma ArgsStepFails(toks: seq<Token>, pos: nat, node: Node, p: nat, rest: seq<Node>)
    requires !Looking(toks, pos, Close) && ParseExpr(toks, pos) == Ok((node, p))
    requires var more := ParseArgs(toks, SkipComma(toks, p)); more.Ok? ==> more.value.0 != rest
    ensures var args := ParseArgs(toks, pos); args.Ok? ==> args.value.0 != [node] + rest
  {
    var more := ParseArgs(toks, SkipComma(toks, p));
    if more.Ok? {
      assert ([node] + more.value.0)[1..] == more.value.0 && ([node] + rest)[1..] == rest;
    }
  }

  /** Without the closing parenthesis the parts are not read as their nodes. */
  lemma {:induction false} OpenArgs(parts: seq<seq<Token>>, nodes: seq<Node>, k: nat, toks: seq<Token>, pos: nat)
    requires k < |parts| <= |nodes| && forall i :: 0 <= i < |parts| ==> Parse(parts[i]) == Ok(nodes[i])
    requires At(toks, pos, OpenRest(parts, k)) && pos + |OpenRest(parts, k)| == |toks|
    ensures ParseArgs(toks, pos).Ok? ==> ParseArgs(toks, pos).value.0 != nodes[k..]
    decreases |parts| - k
  {
    hide At, ParseExpr, OpenRest, Parse;
    var part, node, rest := parts[k], nodes[k], nodes[k + 1..];
    var next := pos + |part|;
    OpenRestAt(parts, k, toks, pos);
    assert nodes[k..] == [node] + rest;
    ParsesAll(part, node);
    TokensMove(part, toks, pos, 0);
    if Looking(part, 0, Close) {
      assert ParseArgs(toks, pos).value.0 == [];
    } else if k == |parts| - 1 {
      LastPartReads(part, node, toks, pos);
      NothingToRead(toks);
      ArgsStepFails(toks, pos, node, |toks|, rest);
    } else if Misread(part) {
      MisreadPart(part, node, toks, pos);
    } else {
      ExprMoves(part, 0, toks, pos);
      OpenArgs(parts, nodes, k + 1, toks, next + 1);
      ArgsStepFails(toks, pos, node, next, rest);
    }
  }

  lemma NothingToRead(toks: seq<Token>)
    ensures ParseArgs(toks, |toks|).Err? && SkipComma(toks, |toks|) == |toks|
  {
  }

  /** So a joined text of which some part is not read to its end is not the conjunction. */
  lemma OpenGate(parts: seq<seq<Token>>, nodes: seq<Node>)
    requires 0 < |parts| <= |nodes| && forall i :: 0 <= i < |parts| ==> Parse(parts[i]) == Ok(nodes[i])
    ensures Parse([Word("all"), Open] + OpenRest(parts, 0)) != Ok(All(nodes))
  {
    hide ParseArgs, OpenRest;
    var toks := [Word("all"), Open] + OpenRest(parts, 0);
    assert At(toks, 0, toks);
    AtTwo(toks, 0, Word("all"), Open, OpenRest(parts, 0));
    CombinatorsDiffer();
    OpenArgs(parts, nodes, 0, toks, 2);
    assert nodes[0..] == nodes;
  }

  /** The tokens of a file's gate: none, the one gate, or the joined ones. */
  function GateTokens(parts: seq<seq<Token>>): Option<seq<Token>> {
    if parts == [] then None
    else if |parts| == 1 then Some(parts[0])
    else Some(JoinGates(parts))
  }

  /** So the gate decides a leg the way all its gates together do. */
  lemma CrateGateIsConjunction(parts: seq<seq<Token>>, nodes: seq<Node>, leg: Leg)
    requires parts != [] && Separately(parts, nodes)
    requires |parts| == 1 || forall i :: 0 <= i < |parts| ==> !Misread(parts[i])
    ensures var gate := GateTokens(parts).value;
      Parse(gate).Ok? && Evaluate(Parse(gate).value, leg) == Least(nodes, leg)
  {
    if |parts| == 1 {
      assert nodes == [nodes[0]];
      assert Parse(parts[0]) == Ok(nodes[0]);
      assert Least(nodes[1..], leg) == TRUE;
    } else {
      JoinedGates(parts, nodes);
    }
  }

  /** The failing case: `x =` reads as a bare leaf alone, and swallows the comma when joined. */
  lemma DanglingEqualsMisreads(x: string, y: string)
    requires !Combinator(Word(y))
    ensures Parse([Word(x), Equals]) == Ok(Leaf(Word(x), None))
    ensures Parse(JoinGates([[Word(x), Equals], [Word(y)]])) == Ok(All([Leaf(Word(x), Some(",")), Leaf(Word(y), None)]))
  {
    var parts := [[Word(x), Equals], [Word(y)]];
    assert JoinRest(parts, 1) == [Word(y), Close];
    assert JoinRest(parts, 0) == [Word(x), Equals, Comma, Word(y), Close];
    var toks := JoinGates(parts);
    assert toks == [Word("all"), Open, Word(x), Equals, Comma, Word(y), Close];
    var swallowed, other := Leaf(Word(x), Some(",")), Leaf(Word(y), None);
    ArgsStep(toks, 5, other, 6, [], 7);
    assert [other] + [] == [other];
    ArgsStep(toks, 2, swallowed, 5, [other], 7);
    assert [swallowed] + [other] == [swallowed, other];
    CombinatorsDiffer();
  }
}
