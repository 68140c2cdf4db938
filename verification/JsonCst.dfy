/** The lossless JSON recogniser of the `json_cst` example: the grammar of RFC 8259, sections 2
    to 5, over tokens, with every token it passes recorded under a node. */
module JsonCst {
  import opened Sequences
  import opened Wrappers
  import opened TokenInput
  import opened EventTree

  datatype Token =
    | True
    | False
    | Null
    | Number(text: string)
    | Str(text: string)
    | LBrace
    | RBrace
    | LBracket
    | RBracket
    | Colon
    | Comma

  datatype Kind = ObjectNode | MemberNode | ArrayNode

  type Input = InputRef<Lexeme<Token>, Kind>
  type Log = seq<Event<Token, Kind>>

  /** The two bracketed, comma-separated shapes. */
  datatype Container = Braces | Brackets

  /** A value (a scalar or a container), or a member of an object. */
  datatype Json =
    | Scalar(token: Token)
    | Member(key: Token, value: Json)
    | Box(c: Container, items: seq<Json>)

  predicate IsScalar(t: Token) {
    t.True? || t.False? || t.Null? || t.Number? || t.Str?
  }

  function OpenOf(c: Container): Token {
    match c case Braces => LBrace case Brackets => LBracket
  }

  function CloseOf(c: Container): Token {
    match c case Braces => RBrace case Brackets => RBracket
  }

  function NodeOf(c: Container): Kind {
    match c case Braces => ObjectNode case Brackets => ArrayNode
  }

  // ---- the grammar ------------------------------------------------------------------

  /** The trees of the grammar: an object holds members, an array holds values. */
  predicate Grammatical(j: Json)
    decreases j
  {
    match j
    case Scalar(t) => IsScalar(t)
    case Member(k, v) => k.Str? && !v.Member? && Grammatical(v)
    case Box(c, items) => forall i :: 0 <= i < |items| ==> Fits(c, items[i]) && Grammatical(items[i])
  }

  predicate Fits(c: Container, j: Json) {
    c.Braces? <==> j.Member?
  }

  /** The significant tokens a tree spells. */
  function Yield(j: Json): (r: seq<Token>)
    ensures r != []
    decreases j, 0
  {
    match j
    case Scalar(t) => [t]
    case Member(k, v) => [k, Colon] + Yield(v)
    case Box(c, items) => [OpenOf(c)] + (if items == [] then [CloseOf(c)] else YieldItems(c, items))
  }

  /** One or more items with commas between them, and the closing bracket. */
  function YieldItems(c: Container, items: seq<Json>): (r: seq<Token>)
    requires items != []
    ensures r != []
    decreases items, 1
  {
    Yield(items[0]) + if |items| == 1 then [CloseOf(c)] else [Comma] + YieldItems(c, items[1..])
  }

  /** The events of a tree. */
  function Shape(j: Json): Log
    decreases j, 0
  {
    match j
    case Scalar(t) => [Leaf(t)]
    case Member(k, v) => [Open(MemberNode), Leaf(k), Leaf(Colon)] + Shape(v) + [Close]
    case Box(c, items) =>
      [Open(NodeOf(c)), Leaf(OpenOf(c))] + (if items == [] then [Leaf(CloseOf(c))] else ShapeItems(c, items)) + [Close]
  }

  function ShapeItems(c: Container, items: seq<Json>): Log
    requires items != []
    decreases items, 1
  {
    Shape(items[0]) + if |items| == 1 then [Leaf(CloseOf(c))] else [Leaf(Comma)] + ShapeItems(c, items[1..])
  }

  // ---- what the recogniser accepts --------------------------------------------------

  type Outcome<T> = Result<(T, seq<Token>), ParseError>

  function ReadValue(ts: seq<Token>): (r: Outcome<Json>)
    ensures r.Ok? ==> |r.value.1| < |ts|
    decreases |ts|, 0
  {
    if ts == [] then Err(UnexpectedToken)
    else if ts[0].LBrace? then ReadBox(Braces, ts[1..])
    else if ts[0].LBracket? then ReadBox(Brackets, ts[1..])
    else if IsScalar(ts[0]) then Ok((Scalar(ts[0]), ts[1..]))
    else Err(UnexpectedToken)
  }

  function ReadMember(ts: seq<Token>): (r: Outcome<Json>)
    ensures r.Ok? ==> |r.value.1| < |ts|
    decreases |ts|, 1
  {
    if |ts| < 2 || !ts[0].Str? || !ts[1].Colon? then Err(UnexpectedToken)
    else
      match ReadValue(ts[2..])
      case Err(e) => Err(e)
      case Ok((v, rest)) => Ok((Member(ts[0], v), rest))
  }

  /** One item of a container. */
  function ReadItem(c: Container, ts: seq<Token>): (r: Outcome<Json>)
    ensures r.Ok? ==> |r.value.1| < |ts|
    decreases |ts|, 2
  {
    match c case Braces => ReadMember(ts) case Brackets => ReadValue(ts)
  }

  /** One or more items and the closing bracket. */
  function ReadItems(c: Container, ts: seq<Token>): (r: Outcome<seq<Json>>)
    ensures r.Ok? ==> |r.value.1| < |ts| && r.value.0 != []
    decreases |ts|, 3
  {
    match ReadItem(c, ts)
    case Err(e) => Err(e)
    case Ok((item, rest)) =>
      if rest == [] then Err(UnexpectedToken)
      else if rest[0].Comma? then Prepend([item], ReadItems(c, rest[1..]))
      else if rest[0] == CloseOf(c) then Ok(([item], rest[1..]))
      else Err(UnexpectedToken)
  }

  /** A container after its opening bracket. */
  function ReadBox(c: Container, ts: seq<Token>): (r: Outcome<Json>)
    ensures r.Ok? ==> |r.value.1| < |ts|
    decreases |ts|, 4
  {
    if ts != [] && ts[0] == CloseOf(c) then Ok((Box(c, []), ts[1..]))
    else
      match ReadItems(c, ts)
      case Err(e) => Err(e)
      case Ok((items, rest)) => Ok((Box(c, items), rest))
  }

  // ---- acceptance is the grammar ----------------------------------------------------

  /** What is accepted is a grammatical tree's spelling. */
  lemma {:induction false} AcceptedSpells(ts: seq<Token>)
    requires ReadValue(ts).Ok?
    ensures var (j, rest) := ReadValue(ts).value; !j.Member? && Grammatical(j) && ts == Yield(j) + rest
    decreases |ts|, 0
  {
    hide ReadBox, YieldItems;
    HeadThenRest(ts);
    if ts[0].LBrace? {
      AcceptedBoxSpells(Braces, ts[1..]);
    } else if ts[0].LBracket? {
      AcceptedBoxSpells(Brackets, ts[1..]);
    }
  }

  lemma {:induction false} AcceptedBoxSpells(c: Container, ts: seq<Token>)
    requires ReadBox(c, ts).Ok?
    ensures var (j, rest) := ReadBox(c, ts).value;
      j.Box? && j.c == c && Grammatical(j) && [OpenOf(c)] + ts == Yield(j) + rest
    decreases |ts|, 4
  {
    hide ReadItems, YieldItems;
    var (j, rest) := ReadBox(c, ts).value;
    HeadThenRest(ts);
    if ts[0] != CloseOf(c) {
      AcceptedItemsSpell(c, ts);
      ConcatThree([OpenOf(c)], YieldItems(c, j.items), rest);
    } else {
      ConcatThree([OpenOf(c)], [CloseOf(c)], rest);
    }
  }

  lemma {:induction false} AcceptedItemSpells(c: Container, ts: seq<Token>)
    requires ReadItem(c, ts).Ok?
    ensures var (j, rest) := ReadItem(c, ts).value; Fits(c, j) && Grammatical(j) && ts == Yield(j) + rest
    decreases |ts|, 2
  {
    hide ReadValue;
    var (j, rest) := ReadItem(c, ts).value;
    if c.Braces? {
      AcceptedSpells(ts[2..]);
      ConcatThree([ts[0], ts[1]], Yield(j.value), rest);
      assert ts == [ts[0], ts[1]] + ts[2..];
    } else {
      AcceptedSpells(ts);
    }
  }

  lemma {:induction false} AcceptedItemsSpell(c: Container, ts: seq<Token>)
    requires ReadItems(c, ts).Ok?
    ensures var (items, rest) := ReadItems(c, ts).value;
      && (forall i :: 0 <= i < |items| ==> Fits(c, items[i]) && Grammatical(items[i]))
      && ts == YieldItems(c, items) + rest
    decreases |ts|, 3
  {
    hide ReadItem, Yield, Grammatical;
    var (items, rest) := ReadItems(c, ts).value;
    var (item, after) := ReadItem(c, ts).value;
    AcceptedItemSpells(c, ts);
    HeadThenRest(after);
    if after[0].Comma? {
      AcceptedItemsSpell(c, after[1..]);
      assert items[0] == item && items[1..] == ReadItems(c, after[1..]).value.0;
      ConcatThree([Comma], YieldItems(c, items[1..]), rest);
      ConcatThree(Yield(item), [Comma] + YieldItems(c, items[1..]), rest);
    } else {
      ConcatThree(Yield(item), [CloseOf(c)], rest);
    }
  }

  lemma {:induction false} SpelledIsAccepted(j: Json, rest: seq<Token>)
    requires !j.Member? && Grammatical(j)
    ensures ReadValue(Yield(j) + rest) == Ok((j, rest))
    decreases j, 1
  {
    hide ReadBox, YieldItems;
    FirstOf(Yield(j), rest);
    if j.Box? {
      SpelledBoxIsAccepted(j, rest);
    }
  }

  lemma {:induction false} SpelledBoxIsAccepted(j: Json, rest: seq<Token>)
    requires j.Box? && Grammatical(j)
    ensures ReadBox(j.c, Yield(j)[1..] + rest) == Ok((j, rest))
    decreases j, 0
  {
    hide ReadItems;
    if j.items == [] {
      FirstOf([CloseOf(j.c)], rest);
    } else {
      SpelledItemsAreAccepted(j.c, j.items, rest);
      FirstOf(YieldItems(j.c, j.items), rest);
      FirstOf(Yield(j.items[0]), YieldItems(j.c, j.items)[|Yield(j.items[0])|..]);
      SpellingOpens(j.items[0]);
    }
  }

  lemma SpellingOpens(j: Json)
    requires Grammatical(j)
    ensures Yield(j)[0] != RBrace && Yield(j)[0] != RBracket
  {
  }

  lemma {:induction false} SpelledItemIsAccepted(c: Container, j: Json, rest: seq<Token>)
    requires Fits(c, j) && Grammatical(j)
    ensures ReadItem(c, Yield(j) + rest) == Ok((j, rest))
    decreases j, 2
  {
    hide ReadValue;
    if c.Braces? {
      SpelledIsAccepted(j.value, rest);
      ConcatThree([j.key, Colon], Yield(j.value), rest);
      assert (Yield(j) + rest)[2..] == Yield(j.value) + rest;
    } else {
      SpelledIsAccepted(j, rest);
    }
  }

  lemma {:induction false} SpelledItemsAreAccepted(c: Container, items: seq<Json>, rest: seq<Token>)
    requires items != [] && forall i :: 0 <= i < |items| ==> Fits(c, items[i]) && Grammatical(items[i])
    ensures ReadItems(c, YieldItems(c, items) + rest) == Ok((items, rest))
    decreases items, 1
  {
    hide ReadItem, Yield, Grammatical;
    var item := items[0];
    if |items| == 1 {
      SpelledItemIsAccepted(c, item, [CloseOf(c)] + rest);
      ConcatThree(Yield(item), [CloseOf(c)], rest);
      FirstOf([CloseOf(c)], rest);
      assert items == [item];
    } else {
      var more := YieldItems(c, items[1..]);
      SpelledItemsAreAccepted(c, items[1..], rest);
      SpelledItemIsAccepted(c, item, [Comma] + (more + rest));
      ConcatThree([Comma], more, rest);
      ConcatThree(Yield(item), [Comma] + more, rest);
      FirstOf([Comma], more + rest);
      HeadThenRest(items);
    }
  }

  /** The recogniser accepts exactly the spellings of JSON values, whatever follows them. */
  lemma AcceptsExactlyTheGrammar(ts: seq<Token>, j: Json, rest: seq<Token>)
    ensures ReadValue(ts) == Ok((j, rest)) <==> !j.Member? && Grammatical(j) && ts == Yield(j) + rest
  {
    if ReadValue(ts).Ok? { AcceptedSpells(ts); }
    if !j.Member? && Grammatical(j) { SpelledIsAccepted(j, rest); }
  }

  /** Acceptance alone: the tokens begin with the spelling of a JSON value. */
  lemma SucceedsIffAValueLeads(ts: seq<Token>)
    ensures ReadValue(ts).Ok? <==> exists j: Json :: !j.Member? && Grammatical(j) && Yield(j) <= ts
  {
    hide ReadValue, Grammatical, Yield;
    if ReadValue(ts).Ok? {
      AcceptedSpells(ts);
      var j := ReadValue(ts).value.0;
      assert !j.Member? && Grammatical(j) && Yield(j) <= ts;
    }
    if j: Json :| !j.Member? && Grammatical(j) && Yield(j) <= ts {
      assert ts == Yield(j) + ts[|Yield(j)|..];
      SpelledIsAccepted(j, ts[|Yield(j)|..]);
    }
  }

  // ---- the log of a tree ------------------------------------------------------------

  lemma {:induction false} ShapeHoldsYield(j: Json)
    ensures TokensOf(Shape(j)) == Yield(j)
    decreases j, 0
  {
    match j
    case Scalar(t) =>
    case Member(k, v) =>
      ShapeHoldsYield(v);
      TokensConcat([Open(MemberNode), Leaf(k), Leaf(Colon)], Shape(v));
      TokensConcat([Open(MemberNode), Leaf(k), Leaf(Colon)] + Shape(v), [Close]);
      MemberOpening(k);
    case Box(c, items) =>
      var opening: Log := [Open(NodeOf(c)), Leaf(OpenOf(c))];
      var inside: Log := if items == [] then [Leaf(CloseOf(c))] else ShapeItems(c, items);
      if items != [] { ShapeItemsHoldYield(c, items); }
      TokensConcat(opening, inside);
      TokensConcat(opening + inside, [Close]);
  }

  lemma MemberOpening(k: Token)
    ensures TokensOf<Token, Kind>([Open(MemberNode), Leaf(k), Leaf(Colon)]) == [k, Colon]
  {
    var log: Log := [Open(MemberNode), Leaf(k), Leaf(Colon)];
    assert log[1..] == [Leaf(k), Leaf(Colon)] && log[1..][1..] == [Leaf(Colon)];
    assert TokensOf(log[1..]) == [k] + TokensOf(log[1..][1..]);
  }

  lemma {:induction false} ShapeItemsHoldYield(c: Container, items: seq<Json>)
    requires items != []
    ensures TokensOf(ShapeItems(c, items)) == YieldItems(c, items)
    decreases items, 1
  {
    hide Shape, Yield;
    ShapeHoldsYield(items[0]);
    if |items| == 1 {
      TokensConcat(Shape(items[0]), [Leaf(CloseOf(c))]);
    } else {
      ShapeItemsHoldYield(c, items[1..]);
      TokensConcat([Leaf(Comma)], ShapeItems(c, items[1..]));
      TokensConcat(Shape(items[0]), [Leaf(Comma)] + ShapeItems(c, items[1..]));
    }
  }

  /** The log determines the tree. */
  lemma LogDeterminesTree(i: Json, j: Json)
    requires !i.Member? && Grammatical(i) && !j.Member? && Grammatical(j) && Shape(i) == Shape(j)
    ensures i == j
  {
    ShapeHoldsYield(i);
    ShapeHoldsYield(j);
    SpelledIsAccepted(i, []);
    SpelledIsAccepted(j, []);
  }

  // ---- the recorded tree, as the events alone show it -------------------------------

  type Tree = Green<Token, Kind>

  /** A scalar token, or an object or array node. */
  predicate IsValue(g: Tree) {
    match g
    case Tok(t) => t.True? || t.False? || t.Null? || t.Number? || t.Str?
    case Node(k, _) => k.ObjectNode? || k.ArrayNode?
  }

  predicate IsMember(g: Tree) {
    g.Node? && g.kind.MemberNode?
  }

  /** Between the first and the last child items take turns with commas, an item at either end. */
  predicate CommaSeparated(kids: seq<Tree>, item: Tree -> bool) {
    && |kids| >= 2 && (|kids| == 2 || |kids| % 2 == 1)
    && forall i :: 0 < i < |kids| - 1 ==> if i % 2 == 1 then item(kids[i]) else kids[i] == Tok(Comma)
  }

  /** Each node is what its own children make it: an object from brace to brace over members, an
      array from bracket to bracket over values, a member a string, a colon and a value. */
  predicate WellMade(g: Tree)
    decreases g
  {
    match g
    case Tok(_) => true
    case Node(k, kids) =>
      && (forall kid <- kids :: WellMade(kid))
      && match k
         case ObjectNode => CommaSeparated(kids, IsMember) && kids[0] == Tok(LBrace) && kids[|kids| - 1] == Tok(RBrace)
         case ArrayNode => CommaSeparated(kids, IsValue) && kids[0] == Tok(LBracket) && kids[|kids| - 1] == Tok(RBracket)
         case MemberNode => |kids| == 3 && kids[0].Tok? && kids[0].token.Str? && kids[1] == Tok(Colon) && IsValue(kids[2])
  }

  ghost function GreenOf(j: Json): Tree
    decreases j, 0
  {
    match j
    case Scalar(t) => Tok(t)
    case Member(k, v) => Node(MemberNode, [Tok(k), Tok(Colon), GreenOf(v)])
    case Box(Braces, items) => Node(ObjectNode, [Tok(LBrace)] + GreenItems(items) + [Tok(RBrace)])
    case Box(Brackets, items) => Node(ArrayNode, [Tok(LBracket)] + GreenItems(items) + [Tok(RBracket)])
  }

  ghost function GreenItems(items: seq<Json>): seq<Tree>
    decreases items, 1
  {
    if items == [] then []
    else [GreenOf(items[0])] + if |items| == 1 then [] else [Tok(Comma)] + GreenItems(items[1..])
  }

  lemma {:induction false} GreenLogs(j: Json)
    ensures LogOf(GreenOf(j)) == Shape(j)
    decreases j, 0
  {
    hide LogOf, LogOfAll;
    match j
    case Scalar(t) => ScalarLogs(t);
    case Member(k, v) =>
      GreenLogs(v);
      MemberLogs(k, v);
    case Box(c, items) =>
      GreenItemsLog(c, items);
      BoxLogs(c, items);
  }

  lemma ScalarLogs(t: Token)
    ensures LogOf<Token, Kind>(Tok(t)) == Shape(Scalar(t))
  {
  }

  lemma NodeLogs(k: Kind, kids: seq<Tree>)
    ensures LogOf(Node(k, kids)) == [Event<Token, Kind>.Open(k)] + LogOfAll(kids) + [Event<Token, Kind>.Close]
  {
  }

  lemma TokLogs(t: Token)
    ensures LogOfAll<Token, Kind>([Tok(t)]) == [Leaf(t)]
  {
    LogOfOne<Token, Kind>(Tok(t));
  }

  lemma MemberLogs(k: Token, v: Json)
    requires LogOf(GreenOf(v)) == Shape(v)
    ensures LogOf(GreenOf(Member(k, v))) == Shape(Member(k, v))
  {
    hide LogOf, LogOfAll;
    var key: seq<Tree>, colon: seq<Tree>, value := [Tok(k)], [Tok(Colon)], [GreenOf(v)];
    LogOfConcat(key, colon);
    LogOfConcat(key + colon, value);
    TokLogs(k);
    TokLogs(Colon);
    LogOfOne(GreenOf(v));
    assert key + colon + value == [Tok(k), Tok(Colon), GreenOf(v)];
    NodeLogs(MemberNode, key + colon + value);
    var open: Log, leaves: Log := [Open(MemberNode)], [Leaf(k), Leaf(Colon)];
    assert [Event<Token, Kind>.Leaf(k)] + [Event<Token, Kind>.Leaf(Colon)] == leaves;
    ConcatThree(open, leaves, Shape(v));
    assert open + leaves == [Open(MemberNode), Leaf(k), Leaf(Colon)];
  }

  lemma BoxLogs(c: Container, items: seq<Json>)
    requires LogOfAll(GreenItems(items)) + [Event<Token, Kind>.Leaf(CloseOf(c))]
          == if items == [] then [Event<Token, Kind>.Leaf(CloseOf(c))] else ShapeItems(c, items)
    ensures LogOf(GreenOf(Box(c, items))) == Shape(Box(c, items))
  {
    hide LogOf, LogOfAll, ShapeItems, GreenItems;
    var first: seq<Tree>, last: seq<Tree> := [Tok(OpenOf(c))], [Tok(CloseOf(c))];
    LogOfConcat(first, GreenItems(items));
    LogOfConcat(first + GreenItems(items), last);
    TokLogs(OpenOf(c));
    TokLogs(CloseOf(c));
    NodeLogs(GreenOf(Box(c, items)).kind, first + GreenItems(items) + last);
    var open: Log, leaf: Log := [Open(NodeOf(c))], [Leaf(OpenOf(c))];
    var inside: Log := if items == [] then [Leaf(CloseOf(c))] else ShapeItems(c, items);
    ConcatThree(leaf, LogOfAll(GreenItems(items)), [Event<Token, Kind>.Leaf(CloseOf(c))]);
    ConcatThree(open, leaf, inside);
    assert open + leaf == [Open(NodeOf(c)), Leaf(OpenOf(c))];
  }

  lemma {:induction false} GreenItemsLog(c: Container, items: seq<Json>)
    ensures LogOfAll(GreenItems(items)) + [Event<Token, Kind>.Leaf(CloseOf(c))]
         == if items == [] then [Event<Token, Kind>.Leaf(CloseOf(c))] else ShapeItems(c, items)
    decreases items, 1
  {
    var close: Log := [Leaf(CloseOf(c))];
    if items == [] {
      assert LogOfAll<Token, Kind>([]) + close == close;
    } else {
      GreenLogs(items[0]);
      LogOfOne(GreenOf(items[0]));
      if |items| == 1 {
        assert [GreenOf(items[0])] + [] == [GreenOf(items[0])];
      } else {
        var comma: Tree := Tok(Comma);
        GreenItemsLog(c, items[1..]);
        LogOfConcat([comma], GreenItems(items[1..]));
        LogOfOne(comma);
        LogOfConcat([GreenOf(items[0])], [comma] + GreenItems(items[1..]));
        ConcatThree([Event<Token, Kind>.Leaf(Comma)], LogOfAll(GreenItems(items[1..])), close);
        ConcatThree(Shape(items[0]), LogOfAll([comma] + GreenItems(items[1..])), close);
      }
    }
  }

  lemma {:induction false} GreenIsWellMade(j: Json)
    requires Grammatical(j)
    ensures WellMade(GreenOf(j)) && (if j.Member? then IsMember(GreenOf(j)) else IsValue(GreenOf(j)))
    decreases j, 0
  {
    match j
    case Scalar(_) =>
    case Member(k, v) => GreenIsWellMade(v);
    case Box(c, items) =>
      GreenItemsAreWellMade(c, items);
      BoxIsWellMade(c, GreenItems(items));
  }

  /** Items in turn with commas. */
  predicate InTurn(c: Container, gs: seq<Tree>) {
    && (gs == [] || |gs| % 2 == 1)
    && forall i :: 0 <= i < |gs| ==>
         if i % 2 == 1 then gs[i] == Tok(Comma) else if c.Braces? then IsMember(gs[i]) else IsValue(gs[i])
  }

  lemma BoxIsWellMade(c: Container, gs: seq<Tree>)
    requires InTurn(c, gs) && forall g <- gs :: WellMade(g)
    ensures WellMade(Node(if c.Braces? then ObjectNode else ArrayNode, [Tok(OpenOf(c))] + gs + [Tok(CloseOf(c))]))
  {
    hide IsMember, IsValue;
    var kids := [Tok(OpenOf(c))] + gs + [Tok(CloseOf(c))];
    forall i | 0 < i < |kids| - 1 ensures kids[i] == gs[i - 1] {}
    forall kid | kid in kids ensures WellMade(kid) {
      if kid !in gs { assert kid.Tok?; }
    }
  }

  lemma {:induction false} GreenItemsAreWellMade(c: Container, items: seq<Json>)
    requires forall i :: 0 <= i < |items| ==> Fits(c, items[i]) && Grammatical(items[i])
    ensures InTurn(c, GreenItems(items)) && forall g <- GreenItems(items) :: WellMade(g)
    decreases items, 1
  {
    hide WellMade, IsMember, IsValue;
    if items != [] {
      GreenIsWellMade(items[0]);
      CommaIsWellMade();
      if |items| > 1 {
        GreenItemsAreWellMade(c, items[1..]);
        var gs, rest := GreenItems(items), GreenItems(items[1..]);
        assert gs == [GreenOf(items[0]), Tok(Comma)] + rest;
        assert rest != [];
        forall i | 2 <= i < |gs| ensures gs[i] == rest[i - 2] {}
      }
    }
  }

  lemma CommaIsWellMade()
    ensures WellMade(Tok(Comma))
  {
  }

  /** The log of a successful run is well nested, and the one tree it holds is a JSON value, each
      node of it what its own children make it. */
  ghost predicate RecordsValue(log: Log) {
    exists g :: ReadLog(log) == Some([g]) && WellMade(g) && IsValue(g)
  }

  lemma SuccessRecordsValue(ts: seq<Token>)
    requires ReadValue(ts).Ok?
    ensures RecordsValue(Shape(ReadValue(ts).value.0))
    ensures ts == TokensOf(Shape(ReadValue(ts).value.0)) + ReadValue(ts).value.1
  {
    hide WellMade;
    var j := ReadValue(ts).value.0;
    AcceptedSpells(ts);
    GreenLogs(j);
    GreenIsWellMade(j);
    LogOfOne(GreenOf(j));
    ReadLogIff(Shape(j), [GreenOf(j)]);
    ShapeHoldsYield(j);
  }

  /** The recogniser has one error. */
  lemma {:induction false} OnlyUnexpectedToken(ts: seq<Token>)
    ensures ReadValue(ts).Err? ==> ReadValue(ts).error == UnexpectedToken
    decreases |ts|, 0
  {
    hide ReadItems;
    if ts != [] && ts[0].LBrace? {
      ItemsOnlyUnexpectedToken(Braces, ts[1..]);
    } else if ts != [] && ts[0].LBracket? {
      ItemsOnlyUnexpectedToken(Brackets, ts[1..]);
    }
  }

  lemma {:induction false} ItemsOnlyUnexpectedToken(c: Container, ts: seq<Token>)
    ensures ReadItems(c, ts).Err? ==> ReadItems(c, ts).error == UnexpectedToken
    decreases |ts|, 3
  {
    ItemOnlyUnexpectedToken(c, ts);
    hide ReadItem;
    if ReadItem(c, ts).Ok? {
      var rest := ReadItem(c, ts).value.1;
      if rest != [] && rest[0].Comma? { ItemsOnlyUnexpectedToken(c, rest[1..]); }
    }
  }

  lemma {:induction false} ItemOnlyUnexpectedToken(c: Container, ts: seq<Token>)
    ensures ReadItem(c, ts).Err? ==> ReadItem(c, ts).error == UnexpectedToken
    decreases |ts|, 2
  {
    hide ReadValue;
    match c
    case Braces => if |ts| >= 2 { OnlyUnexpectedToken(ts[2..]); }
    case Brackets => OnlyUnexpectedToken(ts);
  }

  // ---- the recogniser ---------------------------------------------------------------

  /** A run from `ahead` and `built` came to `r`, the outcome `spec` on the significant tokens,
      and on success to the rest of them and the events of the tree. */
  ghost predicate Parsed(spec: Outcome<Json>, built: Log, r: Result<(), ParseError>, ahead': seq<Token>, built': Log) {
    match spec
    case Ok((j, rest)) => r == Ok(()) && ahead' == rest && built' == built + Shape(j)
    case Err(e) => r == Err(e)
  }

  /** Where the loop of a container stands before its next item. */
  ghost predicate Partway(c: Container, ahead: seq<Token>, built: Log, items: seq<Json>, ahead0: seq<Token>,
      built0: Log) {
    ReadItems(c, ahead0) == Prepend(items, ReadItems(c, ahead)) && built == built0 + Leading(items)
  }

  /** The events of items each followed by a comma. */
  function Leading(items: seq<Json>): Log {
    if items == [] then [] else Leading(Front(items)) + Shape(Last(items)) + [Leaf(Comma)]
  }

  lemma {:induction false} LeadingThenLast(c: Container, items: seq<Json>, tail: seq<Json>)
    requires tail != []
    ensures ShapeItems(c, items + tail) == Leading(items) + ShapeItems(c, tail)
    decreases |items|
  {
    if items == [] {
      assert items + tail == tail;
    } else {
      var last := Last(items);
      LeadingThenLast(c, Front(items), [last] + tail);
      assert Front(items) + ([last] + tail) == items + tail;
      ShapeItemsCons(c, last, tail);
      ConcatThree(Leading(Front(items)), Shape(last) + [Leaf(Comma)], ShapeItems(c, tail));
      ConcatThree(Leading(Front(items)), Shape(last), [Leaf(Comma)]);
    }
  }

  lemma ShapeItemsCons(c: Container, item: Json, tail: seq<Json>)
    requires tail != []
    ensures ShapeItems(c, [item] + tail) == (Shape(item) + [Leaf(Comma)]) + ShapeItems(c, tail)
  {
    FirstOf([item], tail);
    ConcatThree(Shape(item), [Leaf(Comma)], ShapeItems(c, tail));
  }

  lemma AtStart(c: Container, ahead: seq<Token>, built: Log)
    ensures Partway(c, ahead, built, [], ahead, built)
  {
    PrependNothing(ReadItems(c, ahead));
  }

  /** An item, and then the three ways the loop goes on. */
  lemma Onwards(c: Container, ahead: seq<Token>, built: Log, items: seq<Json>, ahead0: seq<Token>, built0: Log,
      r: Result<(), ParseError>, ahead': seq<Token>, built': Log)
    requires Partway(c, ahead, built, items, ahead0, built0)
    requires Parsed(ReadItem(c, ahead), built, r, ahead', built')
    ensures r.Err? ==> ReadItems(c, ahead0) == Err(r.error)
    ensures r.Ok? ==> ReadItem(c, ahead).Ok?
    ensures r.Ok? && (ahead' == [] || (!ahead'[0].Comma? && ahead'[0] != CloseOf(c))) ==>
      ReadItems(c, ahead0) == Err(UnexpectedToken)
    ensures r.Ok? && ahead' != [] && ahead'[0].Comma? ==>
      Partway(c, ahead'[1..], built' + [Leaf(Comma)], items + [ReadItem(c, ahead).value.0], ahead0, built0)
    ensures r.Ok? && ahead' != [] && ahead'[0] == CloseOf(c) ==>
      && ReadItems(c, ahead0) == Ok((items + [ReadItem(c, ahead).value.0], ahead'[1..]))
      && built' + [Leaf(CloseOf(c))] == built0 + ShapeItems(c, items + [ReadItem(c, ahead).value.0])
  {
    hide ReadItem, Shape;
    if r.Ok? && ahead' != [] {
      var item := ReadItem(c, ahead).value.0;
      if ahead'[0].Comma? {
        PrependTwice(items, [item], ReadItems(c, ahead'[1..]));
        assert Front(items + [item]) == items;
        ConcatThree(built0, Leading(items), Shape(item));
        ConcatThree(built0, Leading(items) + Shape(item), [Leaf(Comma)]);
      } else if ahead'[0] == CloseOf(c) {
        LeadingThenLast(c, items, [item]);
        ConcatThree(built0, Leading(items), Shape(item));
        ConcatThree(built0, Leading(items) + Shape(item), [Leaf(CloseOf(c))]);
        ConcatThree(Leading(items), Shape(item), [Leaf(CloseOf(c))]);
      }
    }
  }

  lemma EmptyBox(c: Container, ts: seq<Token>, built: Log)
    requires ts != [] && ts[0] == CloseOf(c)
    ensures Parsed(ReadBox(c, ts), built, Ok(()), ts[1..],
      built + [Open(NodeOf(c))] + [Leaf(OpenOf(c))] + [Leaf(CloseOf(c))] + [Close])
  {
    var opening: Log := [Open(NodeOf(c)), Leaf(OpenOf(c))];
    assert built + [Open(NodeOf(c))] + [Leaf(OpenOf(c))] == built + opening;
    ConcatThree(built, opening, [Leaf(CloseOf(c))]);
    ConcatThree(built, opening + [Leaf(CloseOf(c))], [Close]);
  }

  lemma FullBox(c: Container, ts: seq<Token>, built: Log)
    requires ts == [] || ts[0] != CloseOf(c)
    ensures var items := ReadItems(c, ts);
      if items.Err? then ReadBox(c, ts) == Err(items.error)
      else
        Parsed(ReadBox(c, ts), built, Ok(()), items.value.1,
          built + [Open(NodeOf(c))] + [Leaf(OpenOf(c))] + ShapeItems(c, items.value.0) + [Close])
  {
    hide ReadItems, ShapeItems;
    if ReadItems(c, ts).Ok? {
      var items := ReadItems(c, ts).value.0;
      var opening: Log := [Open(NodeOf(c)), Leaf(OpenOf(c))];
      assert built + [Open(NodeOf(c))] + [Leaf(OpenOf(c))] == built + opening;
      ConcatThree(built, opening, ShapeItems(c, items));
      ConcatThree(built, opening + ShapeItems(c, items), [Close]);
    }
  }

  /** The log with its trivia. */
  type FullLog = seq<Event<Lexeme<Token>, Kind>>

  /** Where trivia stands: no node ends with it and no object or array begins with it.  Between a
      comma and a member it is the member that begins with it; before the first member of an object
      it stands outside. */
  ghost predicate Neat(log: FullLog) {
    forall i :: 0 <= i < |log| ==> MayFollow(log[..i], log[i])
  }

  ghost predicate MayFollow(log: FullLog, e: Event<Lexeme<Token>, Kind>) {
    match e
    case Close => log != [] && !Trivial(Last(log))
    case Leaf(Trivia(_)) => Free(log) || LateMember(log)
    case Leaf(Sig(_)) => true
    case Open(k) => k.MemberNode? && log != [] && Trivial(Last(log)) ==> BehindBrace(log)
  }

  /** No node has just been opened. */
  predicate Free(log: FullLog) {
    log != [] ==> !Last(log).Open?
  }

  predicate BehindComma(log: FullLog) {
    log != [] && Last(log) == Leaf(Sig(Comma))
  }

  /** A member has just been opened, directly behind a comma. */
  predicate LateMember(log: FullLog) {
    log != [] && Last(log) == Open(MemberNode) && BehindComma(Front(log))
  }

  /** An opening brace, and trivia behind it. */
  ghost predicate BehindBrace(log: FullLog) {
    exists j :: 0 <= j < |log| && log[j] == Leaf(Sig(LBrace)) && forall k :: j < k < |log| ==> Trivial(log[k])
  }

  /** A token that is no trivia, or the end of a node. */
  predicate Firm(log: FullLog) {
    log != [] && !Last(log).Open? && !Trivial(Last(log))
  }

  lemma NeatSnoc(log: FullLog, e: Event<Lexeme<Token>, Kind>)
    requires Neat(log) && MayFollow(log, e)
    ensures Neat(log + [e])
  {
    hide MayFollow;
    var longer := log + [e];
    forall i | 0 <= i < |longer| ensures MayFollow(longer[..i], longer[i]) {
      if i < |log| {
        assert longer[..i] == log[..i];
      } else {
        assert longer[..i] == log;
      }
    }
  }

  lemma {:induction false} NeatSkips(before: FullLog, after: FullLog)
    requires Neat(before) && Skipped(before, after) && (Free(before) || LateMember(before) || after == before)
    ensures Neat(after) && (Free(before) ==> Free(after)) && (BehindBrace(before) ==> BehindBrace(after))
    decreases |after|
  {
    hide Neat;
    if |after| > |before| {
      var front := Front(after);
      NeatSkips(before, front);
      assert after == front + [Last(after)];
      assert Free(front) || front == before by {
        if |front| > |before| { assert Trivial(Last(front)); }
      }
      assert MayFollow(front, Last(after));
      NeatSnoc(front, Last(after));
      if BehindBrace(before) {
        var j :| 0 <= j < |front| && front[j] == Leaf(Sig(LBrace)) && forall k :: j < k < |front| ==> Trivial(front[k]);
        assert after[j] == Leaf(Sig(LBrace)) && forall k :: j < k < |after| ==> Trivial(after[k]);
      }
    } else {
      assert after == before;
    }
  }

  lemma NeatTakes(before: FullLog, r: Result<(), ParseError>, ahead: seq<Token>, after: FullLog, settled: bool)
    requires Neat(before) && (settled || Free(before) || LateMember(before)) && Taken(before, r, ahead, after, settled)
    ensures Neat(after) && (r.Ok? ==> Firm(after) && Free(after) && ahead != [] && Last(after) == Leaf(Sig(ahead[0])))
  {
    hide Neat, LateMember;
    if r.Ok? {
      NeatSkips(before, Front(after));
      assert after == Front(after) + [Last(after)];
      NeatSnoc(Front(after), Last(after));
    } else {
      NeatSkips(before, after);
    }
  }

  lemma NeatOpens(log: FullLog, kind: Kind)
    requires Neat(log) && kind != MemberNode
    ensures Neat(log + [Open(kind)])
  {
    NeatSnoc(log, Open(kind));
  }

  lemma NeatCloses(log: FullLog)
    requires Neat(log) && Firm(log)
    ensures Neat(log + [Close]) && Firm(log + [Close]) && Free(log + [Close])
  {
    NeatSnoc(log, Close);
  }

  lemma BraceIsBehind(log: FullLog)
    requires log != [] && Last(log) == Leaf(Sig(LBrace))
    ensures BehindBrace(log)
  {
  }

  /** A member may be opened: an opening brace and trivia stand behind, none of it yet to be
      skipped, or a comma does. */
  ghost predicate MemberMayOpen(log: FullLog, settled: bool) {
    (BehindBrace(log) && settled) || BehindComma(log)
  }

  lemma MemberOpens(log: FullLog, settled: bool)
    requires Neat(log) && MemberMayOpen(log, settled)
    ensures Neat(log + [Open(MemberNode)]) && (settled || LateMember(log + [Open(MemberNode)]))
  {
    hide Neat;
    NeatSnoc(log, Open(MemberNode));
    assert Front(log + [Open(MemberNode)]) == log;
  }

  method Value(inp: Input) returns (r: Result<(), ParseError>)
    requires Lossless(inp) && Neat(inp.events) && Free(inp.events)
    modifies inp
    ensures Neat(inp.events) && (r.Ok? ==> Firm(inp.events) && Free(inp.events))
    ensures Lossless(inp) && inp.pos >= old(inp.pos) && (r.Ok? ==> inp.pos > old(inp.pos))
    ensures Parsed(ReadValue(old(Ahead(inp))), old(Built(inp)), r, Ahead(inp), Built(inp))
    decreases |inp.toks| - inp.pos, 1
  {
    hide TokensOf, Ahead, Built, ReadBox, Neat;
    ghost var log := inp.events;
    var ahead := Peek(inp);
    NeatSkips(log, inp.events);
    match ahead {
      case Some(LBrace) => r := ParseObject(inp);
      case Some(LBracket) => r := ParseArray(inp);
      case Some(Str(_)) | Some(Number(_)) | Some(True) | Some(False) | Some(Null) =>
        NeatSnoc(inp.events, Leaf(Sig(ahead.value)));
        var taken := TakeIf(inp, (_: Token) => true);
        r := if taken then Ok(()) else Err(UnexpectedEot);
      case _ => r := Err(UnexpectedToken);
    }
  }

  method ParseMember(inp: Input) returns (r: Result<(), ParseError>)
    requires Lossless(inp) && Neat(inp.events) && MemberMayOpen(inp.events, Settled(inp))
    modifies inp
    ensures Neat(inp.events) && (r.Ok? ==> Firm(inp.events) && Free(inp.events))
    ensures Lossless(inp) && inp.pos >= old(inp.pos) && (r.Ok? ==> inp.pos > old(inp.pos))
    ensures Parsed(ReadMember(old(Ahead(inp))), old(Built(inp)), r, Ahead(inp), Built(inp))
    decreases |inp.toks| - inp.pos, 2
  {
    hide TokensOf, Ahead, Built, Settled, ReadValue, Neat, MemberMayOpen;
    MemberOpens(inp.events, Settled(inp));
    Begin(inp, MemberNode);
    ghost var log, ahead, settled := inp.events, Ahead(inp), Settled(inp);
    r := Expect(inp, (t: Token) => t.Str?);
    NeatTakes(log, r, ahead, inp.events, settled);
    if r.Err? { return; }
    log, ahead, settled := inp.events, Ahead(inp), Settled(inp);
    r := Expect(inp, (t: Token) => t.Colon?);
    NeatTakes(log, r, ahead, inp.events, settled);
    if r.Err? { return; }
    r := Value(inp);
    if r.Ok? {
      NeatCloses(inp.events);
      End(inp);
    }
  }

  /** `object`: the opening brace, no member or members with commas between, the closing one. */
  method ParseObject(inp: Input) returns (r: Result<(), ParseError>)
    requires Lossless(inp) && Settled(inp) && Neat(inp.events)
    requires Ahead(inp) != [] && Ahead(inp)[0].LBrace?
    modifies inp
    ensures Neat(inp.events) && (r.Ok? ==> Firm(inp.events) && Free(inp.events))
    ensures Lossless(inp) && inp.pos > old(inp.pos)
    ensures Parsed(ReadBox(Braces, old(Ahead(inp))[1..]), old(Built(inp)), r, Ahead(inp), Built(inp))
    decreases |inp.toks| - inp.pos, 0
  {
    hide TokensOf, Ahead, Built, Settled, ReadBox, ReadItems, ReadMember, ReadValue, Partway, Leading, Shape, ShapeItems;
    hide Neat, BehindBrace, MayFollow, Taken, Skipped, Firm, Free, LateMember;
    ghost var start, built1 := inp.pos, Built(inp);
    NeatOpens(inp.events, ObjectNode);
    Begin(inp, ObjectNode);
    ghost var full, toks := inp.events, Ahead(inp);
    r := Expect(inp, (t: Token) => t.LBrace?);
    NeatTakes(full, r, toks, inp.events, true);
    full := inp.events;
    BraceIsBehind(full);
    var ahead := Peek(inp);
    NeatSkips(full, inp.events);
    ghost var ahead0, built0 := Ahead(inp), Built(inp);
    if ahead == Some(RBrace) {
      EmptyBox(Braces, ahead0, built1);
      full, toks := inp.events, Ahead(inp);
      r := Expect(inp, (t: Token) => t.RBrace?);
      NeatTakes(full, r, toks, inp.events, true);
      NeatCloses(inp.events);
      End(inp);
      return;
    }
    FullBox(Braces, ahead0, built1);
    ghost var items: seq<Json> := [];
    AtStart(Braces, ahead0, built0);
    while true
      invariant Lossless(inp) && start < inp.pos && Neat(inp.events) && MemberMayOpen(inp.events, Settled(inp))
      invariant Partway(Braces, Ahead(inp), Built(inp), items, ahead0, built0)
      decreases |inp.toks| - inp.pos
    {
      ghost var ts, log := Ahead(inp), Built(inp);
      r := ParseMember(inp);
      Onwards(Braces, ts, log, items, ahead0, built0, r, Ahead(inp), Built(inp));
      if r.Err? { return; }
      items := items + [ReadItem(Braces, ts).value.0];
      full := inp.events;
      ahead := Peek(inp);
      NeatSkips(full, inp.events);
      full, toks := inp.events, Ahead(inp);
      match ahead {
        case Some(Comma) =>
          r := Expect(inp, (t: Token) => t.Comma?);
          NeatTakes(full, r, toks, inp.events, true);
        case Some(RBrace) =>
          r := Expect(inp, (t: Token) => t.RBrace?);
          NeatTakes(full, r, toks, inp.events, true);
          NeatCloses(inp.events);
          End(inp);
          return;
        case _ => return Err(UnexpectedToken);
      }
    }
  }

  /** `array`, likewise. */
  method ParseArray(inp: Input) returns (r: Result<(), ParseError>)
    requires Lossless(inp) && Settled(inp) && Neat(inp.events)
    requires Ahead(inp) != [] && Ahead(inp)[0].LBracket?
    modifies inp
    ensures Neat(inp.events) && (r.Ok? ==> Firm(inp.events) && Free(inp.events))
    ensures Lossless(inp) && inp.pos > old(inp.pos)
    ensures Parsed(ReadBox(Brackets, old(Ahead(inp))[1..]), old(Built(inp)), r, Ahead(inp), Built(inp))
    decreases |inp.toks| - inp.pos, 0
  {
    hide TokensOf, Ahead, Built, Settled, ReadBox, ReadItems, ReadMember, ReadValue, Partway, Leading, Shape, ShapeItems;
    hide Neat, BehindBrace, MayFollow, Taken, Skipped, Firm, Free, LateMember;
    ghost var start, built1 := inp.pos, Built(inp);
    NeatOpens(inp.events, ArrayNode);
    Begin(inp, ArrayNode);
    ghost var full, toks := inp.events, Ahead(inp);
    r := Expect(inp, (t: Token) => t.LBracket?);
    NeatTakes(full, r, toks, inp.events, true);
    full := inp.events;
    var ahead := Peek(inp);
    NeatSkips(full, inp.events);
    ghost var ahead0, built0 := Ahead(inp), Built(inp);
    if ahead == Some(RBracket) {
      EmptyBox(Brackets, ahead0, built1);
      full, toks := inp.events, Ahead(inp);
      r := Expect(inp, (t: Token) => t.RBracket?);
      NeatTakes(full, r, toks, inp.events, true);
      NeatCloses(inp.events);
      End(inp);
      return;
    }
    FullBox(Brackets, ahead0, built1);
    ghost var items: seq<Json> := [];
    AtStart(Brackets, ahead0, built0);
    while true
      invariant Lossless(inp) && start < inp.pos && Neat(inp.events) && Free(inp.events)
      invariant Partway(Brackets, Ahead(inp), Built(inp), items, ahead0, built0)
      decreases |inp.toks| - inp.pos
    {
      ghost var ts, log := Ahead(inp), Built(inp);
      r := Value(inp);
      Onwards(Brackets, ts, log, items, ahead0, built0, r, Ahead(inp), Built(inp));
      if r.Err? { return; }
      items := items + [ReadItem(Brackets, ts).value.0];
      full := inp.events;
      ahead := Peek(inp);
      NeatSkips(full, inp.events);
      full, toks := inp.events, Ahead(inp);
      match ahead {
        case Some(Comma) =>
          r := Expect(inp, (t: Token) => t.Comma?);
          NeatTakes(full, r, toks, inp.events, true);
        case Some(RBracket) =>
          r := Expect(inp, (t: Token) => t.RBracket?);
          NeatTakes(full, r, toks, inp.events, true);
          NeatCloses(inp.events);
          End(inp);
          return;
        case _ => return Err(UnexpectedToken);
      }
    }
  }

  /** The driver: one value, then the trailing trivia.  What follows is not looked at. */
  method Document(inp: Input) returns (r: Result<(), ParseError>)
    requires Lossless(inp) && Neat(inp.events) && Free(inp.events)
    modifies inp
    ensures Neat(inp.events)
    ensures Lossless(inp) && (r.Ok? ==> Settled(inp))
    ensures Parsed(ReadValue(old(Ahead(inp))), old(Built(inp)), r, Ahead(inp), Built(inp))
  {
    hide TokensOf, Ahead, Built, Settled, ReadValue, Neat;
    r := Value(inp);
    if r.Ok? {
      ghost var log := inp.events;
      SkipTrivia(inp);
      NeatSkips(log, inp.events);
    }
  }

  lemma ParsedMeans(ts: seq<Token>, r: Result<(), ParseError>, ahead: seq<Token>, built: Log)
    requires Parsed(ReadValue(ts), [], r, ahead, built)
    ensures if r.Ok? then RecordsValue(built) && ts == TokensOf(built) + ahead else r.error == UnexpectedToken
  {
    hide ReadValue, RecordsValue, Shape;
    OnlyUnexpectedToken(ts);
    if ReadValue(ts).Ok? {
      SuccessRecordsValue(ts);
      assert [] + Shape(ReadValue(ts).value.0) == Shape(ReadValue(ts).value.0);
    }
  }

  /** A whole run over a lossless stream.  It succeeds just when the significant tokens begin
      with a JSON value, its outcome and the trivia-free tree are functions of the significant
      tokens alone, and the log holds every token up to the end of the run. */
  method Run(toks: seq<Lexeme<Token>>) returns (r: Result<(), ParseError>, events: seq<Event<Lexeme<Token>,
      Kind>>, end: nat)
    ensures end <= |toks| && TokensOf(events) == toks[..end] && Neat(events)
    ensures r.Ok? && end < |toks| ==> toks[end].Sig?
    ensures Parsed(ReadValue(Significant(toks)), [], r, Significant(toks[end..]), Bare(events))
    ensures if r.Ok? then RecordsValue(Bare(events)) && Significant(toks) == TokensOf(Bare(events)) + Significant(toks[end..])
            else r.error == UnexpectedToken
  {
    hide Parsed, Significant, RecordsValue;
    var inp := new InputRef<Lexeme<Token>, Kind>(toks);
    assert toks[0..] == toks;
    r := Document(inp);
    events, end := inp.events, inp.pos;
    ParsedMeans(Significant(toks), r, Significant(toks[end..]), Bare(events));
  }
}
