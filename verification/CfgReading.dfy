/** What the predicate parser accepts and what it refuses, said outright: the trees that stand at
    a place in the tokens, commas optional, and the place at which an error arises. */
module CfgReading {
  import opened Wrappers
  import opened CfgPredicate
  import opened CfgParse

  // ---- the trees that are read ------------------------------------------------------

  const ALL := ['a', 'l', 'l']
  const ANY := ['a', 'n', 'y']
  const NOT := ['n', 'o', 't']

  ghost predicate Heads(toks: seq<Token>, i: nat, name: string) {
    i + 1 < |toks| && toks[i] == Word(name) && toks[i + 1] == Open
  }

  /** The token stands for this value behind an `=`. */
  ghost predicate Says(t: Token, v: string) {
    match t
    case Word(s) => v == s
    case Quoted(_, says) => says == Some(v)
    case Open => v == ['(']
    case Close => v == [')']
    case Comma => v == [',']
    case Equals => v == ['=']
  }

  /** Past a comma, if there is one. */
  ghost predicate Past(toks: seq<Token>, k: nat, next: nat) {
    if k < |toks| && toks[k] == Comma then next == k + 1 else next == k
  }

  /** The tokens from `i` to `j` are the tree. */
  ghost predicate Stands(toks: seq<Token>, i: nat, j: nat, node: Node)
    decreases node, 0
  {
    match node
    case All(parts) => Heads(toks, i, ALL) && ArgsStand(toks, i + 2, j, parts)
    case Any(parts) => Heads(toks, i, ANY) && ArgsStand(toks, i + 2, j, parts)
    case Not(arg) =>
      && Heads(toks, i, NOT) && i + 2 < |toks| && toks[i + 2] != Close
      && exists k: nat, next: nat ::
           Stands(toks, i + 2, k, arg) && Past(toks, k, next) && next < |toks| && toks[next] == Close && j == next + 1
    case Leaf(name, value) =>
      && i < |toks| && toks[i] == name
      && !Heads(toks, i, ALL) && !Heads(toks, i, ANY) && !Heads(toks, i, NOT)
      && match value
         case Some(v) => i + 3 == j <= |toks| && toks[i + 1] == Equals && Says(toks[i + 2], v)
         case None =>
           if i + 1 < |toks| && toks[i + 1] == Equals then i + 2 == j == |toks| else j == i + 1
  }

  /** The tokens from `i` to `j` are the trees, a comma or none behind each, and a parenthesis. */
  ghost predicate ArgsStand(toks: seq<Token>, i: nat, j: nat, parts: seq<Node>)
    decreases parts, 1
  {
    if parts == [] then i < |toks| && toks[i] == Close && j == i + 1
    else
      && i < |toks| && toks[i] != Close
      && exists k: nat, next: nat :: Stands(toks, i, k, parts[0]) && Past(toks, k, next) && ArgsStand(toks, next, j, parts[1..])
  }

  lemma PastIsSkip(toks: seq<Token>, k: nat, next: nat)
    ensures Past(toks, k, next) <==> next == SkipComma(toks, k)
  {
  }

  lemma SaysIff(t: Token, v: string)
    ensures Says(t, v) <==> ValueOf(t) == Ok(v)
  {
  }

  lemma NamesDiffer()
    ensures ALL != ANY && ALL != NOT && ANY != NOT
    ensures ALL == "all" && ANY == "any" && NOT == "not"
  {
    assert ALL[1] != ANY[1] && ALL[0] != NOT[0] && ANY[0] != NOT[0];
  }

  lemma HeadsIff(toks: seq<Token>, i: nat)
    ensures i < |toks| ==> (Combinator(toks[i]) && Looking(toks, i + 1, Open) <==>
      Heads(toks, i, ALL) || Heads(toks, i, ANY) || Heads(toks, i, NOT))
  {
    NamesDiffer();
  }

  /** What is parsed stands there. */
  lemma {:induction false} ParsedStands(toks: seq<Token>, i: nat)
    requires ParseExpr(toks, i).Ok?
    ensures Stands(toks, i, ParseExpr(toks, i).value.1, ParseExpr(toks, i).value.0)
    decreases |toks| - i, 0
  {
    hide ParseArgs, ValueOf;
    NamesDiffer();
    HeadsIff(toks, i);
    if Combinator(toks[i]) && Looking(toks, i + 1, Open) {
      var (args, j) := ParseArgs(toks, i + 2).value;
      ArgsParsedStand(toks, i + 2);
      if toks[i] == Word(NOT) { OneArgStands(toks, i, j, args); }
    } else if Looking(toks, i + 1, Equals) && i + 2 < |toks| {
      SaysIff(toks[i + 2], ValueOf(toks[i + 2]).value);
    }
  }

  lemma OneArgStands(toks: seq<Token>, i: nat, j: nat, args: seq<Node>)
    requires Heads(toks, i, NOT) && |args| == 1
    ensures ArgsStand(toks, i + 2, j, args) <==> Stands(toks, i, j, Not(args[0]))
  {
    hide Heads, Past;
    if ArgsStand(toks, i + 2, j, args) {
      var k: nat, next: nat :| Stands(toks, i + 2, k, args[0]) && Past(toks, k, next) && ArgsStand(toks, next, j, args[1..]);
      assert args[1..] == [];
      assert Stands(toks, i + 2, k, args[0]) && Past(toks, k, next);
    }
    if Stands(toks, i, j, Not(args[0])) {
      var k: nat, next: nat :|
        Stands(toks, i + 2, k, args[0]) && Past(toks, k, next) && next < |toks| && toks[next] == Close && j == next + 1;
      assert ArgsStand(toks, next, j, args[1..]);
    }
  }

  lemma {:induction false} ArgsParsedStand(toks: seq<Token>, i: nat)
    requires ParseArgs(toks, i).Ok?
    ensures ArgsStand(toks, i, ParseArgs(toks, i).value.1, ParseArgs(toks, i).value.0)
    decreases |toks| - i, 1
  {
    hide ParseExpr, Stands;
    if !Looking(toks, i, Close) {
      var (node, k) := ParseExpr(toks, i).value;
      var next := SkipComma(toks, k);
      PastIsSkip(toks, k, next);
      ParsedStands(toks, i);
      ArgsParsedStand(toks, next);
      var (rest, j) := ParseArgs(toks, next).value;
      assert ParseArgs(toks, i).value.0 == [node] + rest;
      assert ([node] + rest)[0] == node && ([node] + rest)[1..] == rest;
      assert i < |toks|;
    }
  }

  /** And what stands there is parsed. */
  lemma {:induction false} StandingIsParsed(toks: seq<Token>, i: nat, j: nat, node: Node)
    requires Stands(toks, i, j, node)
    ensures ParseExpr(toks, i) == Ok((node, j))
    decreases node, 0
  {
    hide ParseArgs, ValueOf;
    NamesDiffer();
    HeadsIff(toks, i);
    match node
    case All(parts) => ArgsAreParsed(toks, i + 2, j, parts);
    case Any(parts) => ArgsAreParsed(toks, i + 2, j, parts);
    case Not(arg) =>
      var k: nat, next: nat :|
        Stands(toks, i + 2, k, arg) && Past(toks, k, next) && next < |toks| && toks[next] == Close && j == next + 1;
      StandingIsParsed(toks, i + 2, k, arg);
      PastIsSkip(toks, k, next);
      OneArgParsed(toks, i + 2, k, next, arg);
    case Leaf(name, value) =>
      if value.Some? { SaysIff(toks[i + 2], value.value); }
  }

  lemma OneArgParsed(toks: seq<Token>, i: nat, k: nat, next: nat, arg: Node)
    requires i < |toks| && toks[i] != Close && ParseExpr(toks, i) == Ok((arg, k))
    requires next == SkipComma(toks, k) && Looking(toks, next, Close)
    ensures ParseArgs(toks, i) == Ok(([arg], next + 1))
  {
    assert ParseArgs(toks, next) == Ok(([], next + 1));
    hide ParseExpr, ParseArgs;
    ArgsStep(toks, i, arg, k, [], next + 1);
    assert [arg] + [] == [arg];
  }

  lemma {:induction false} ArgsAreParsed(toks: seq<Token>, i: nat, j: nat, parts: seq<Node>)
    requires ArgsStand(toks, i, j, parts)
    ensures ParseArgs(toks, i) == Ok((parts, j))
    decreases parts, 1
  {
    hide ParseExpr, Stands;
    if parts != [] {
      var k: nat, next: nat :| Stands(toks, i, k, parts[0]) && Past(toks, k, next) && ArgsStand(toks, next, j, parts[1..]);
      StandingIsParsed(toks, i, k, parts[0]);
      PastIsSkip(toks, k, next);
      ArgsAreParsed(toks, next, j, parts[1..]);
      ArgsStep(toks, i, parts[0], k, parts[1..], j);
      assert [parts[0]] + parts[1..] == parts;
    }
  }

  /** The parser reads a tree from a place exactly when that tree stands there, and stops where it
      ends. */
  lemma ExprIff(toks: seq<Token>, i: nat, j: nat, node: Node)
    ensures ParseExpr(toks, i) == Ok((node, j)) <==> Stands(toks, i, j, node)
  {
    if ParseExpr(toks, i) == Ok((node, j)) { ParsedStands(toks, i); }
    if Stands(toks, i, j, node) { StandingIsParsed(toks, i, j, node); }
  }

  lemma ArgsIff(toks: seq<Token>, i: nat, j: nat, parts: seq<Node>)
    ensures ParseArgs(toks, i) == Ok((parts, j)) <==> ArgsStand(toks, i, j, parts)
  {
    if ParseArgs(toks, i) == Ok((parts, j)) { ArgsParsedStand(toks, i); }
    if ArgsStand(toks, i, j, parts) { ArgsAreParsed(toks, i, j, parts); }
  }

  /** A whole text is accepted as a tree exactly when its tokens are that tree. */
  lemma ParseIff(toks: seq<Token>, node: Node)
    ensures Parse(toks) == Ok(node) <==> Stands(toks, 0, |toks|, node)
  {
    hide Stands;
    ExprIff(toks, 0, |toks|, node);
  }

  // ---- the errors -------------------------------------------------------------------

  /** At `p` there is nothing to read but a tree is wanted; a `not` holds some other number of
      trees than one; or a quoted value is none that JSON reads. */
  ghost predicate Fails(toks: seq<Token>, p: nat, e: ParseError) {
    match e
    case EmptyPredicate => p >= |toks|
    case NotTakesOne => Heads(toks, p, NOT) && HoldsNotOne(toks, p + 2)
    case NotJson => p + 2 < |toks| && toks[p + 1] == Equals && toks[p + 2].Quoted? && toks[p + 2].says.None?
    case TrailingTokens => false
  }

  ghost predicate HoldsNotOne(toks: seq<Token>, i: nat) {
    exists j: nat, args :: ArgsStand(toks, i, j, args) && |args| != 1
  }

  /** Every error of an expression arises at some place of it. */
  lemma {:induction false} ErrorArises(toks: seq<Token>, i: nat) returns (p: nat)
    requires ParseExpr(toks, i).Err?
    ensures i <= p && Fails(toks, p, ParseExpr(toks, i).error)
    decreases |toks| - i, 0
  {
    hide ParseArgs;
    NamesDiffer();
    p := i;
    if i < |toks| && Combinator(toks[i]) && Looking(toks, i + 1, Open) {
      if ParseArgs(toks, i + 2).Err? {
        p := ErrorArisesIn(toks, i + 2);
      } else {
        var (args, j) := ParseArgs(toks, i + 2).value;
        ArgsIff(toks, i + 2, j, args);
        assert ArgsStand(toks, i + 2, j, args);
      }
    }
  }

  lemma {:induction false} ErrorArisesIn(toks: seq<Token>, i: nat) returns (p: nat)
    requires ParseArgs(toks, i).Err?
    ensures i <= p && Fails(toks, p, ParseArgs(toks, i).error)
    decreases |toks| - i, 1
  {
    hide ParseExpr;
    if ParseExpr(toks, i).Err? {
      p := ErrorArises(toks, i);
    } else {
      p := ErrorArisesIn(toks, SkipComma(toks, ParseExpr(toks, i).value.1));
    }
  }

  /** A text is refused for what follows a tree exactly when a tree ends before the text does; any
      other error arises at some place of the text. */
  lemma RefusedFor(toks: seq<Token>)
    requires Parse(toks).Err?
    ensures Parse(toks).error == TrailingTokens <==> exists j: nat, node :: j < |toks| && Stands(toks, 0, j, node)
    ensures Parse(toks).error != TrailingTokens ==> exists p: nat :: Fails(toks, p, Parse(toks).error)
  {
    hide Stands;
    if ParseExpr(toks, 0).Err? {
      var p := ErrorArises(toks, 0);
      forall j: nat, node ensures !Stands(toks, 0, j, node) { ExprIff(toks, 0, j, node); }
    } else {
      var (node, j) := ParseExpr(toks, 0).value;
      ExprIff(toks, 0, j, node);
      assert j < |toks| && Stands(toks, 0, j, node);
    }
  }
}
