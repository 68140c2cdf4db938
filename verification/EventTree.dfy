/** Reading a log of events back into trees, with a stack of open nodes and nothing else. */
module EventTree {
  import opened Sequences
  import opened Wrappers
  import opened TokenInput

  /** A tree as the events alone show it. */
  datatype Green<+T, +K> = Tok(token: T) | Node(kind: K, kids: seq<Green<T, K>>)

  /** An open node: its kind, and what its parent held before it. */
  datatype Frame<+T, +K> = Frame(kind: K, before: seq<Green<T, K>>)

  /** The events read, `open` nodes around, `kids` in the innermost one so far. */
  function ReadFrom<T, K>(log: seq<Event<T, K>>, open: seq<Frame<T, K>>, kids: seq<Green<T,
      K>>): Option<seq<Green<T, K>>> {
    if log == [] then if open == [] then Some(kids) else None
    else
      match log[0]
      case Leaf(t) => ReadFrom(log[1..], open, kids + [Tok(t)])
      case Open(k) => ReadFrom(log[1..], open + [Frame(k, kids)], [])
      case Close =>
        if open == [] then None
        else ReadFrom(log[1..], Front(open), Last(open).before + [Node(Last(open).kind, kids)])
  }

  /** The trees of a well-nested log; none for any other. */
  function ReadLog<T, K>(log: seq<Event<T, K>>): Option<seq<Green<T, K>>> {
    ReadFrom(log, [], [])
  }

  function LogOf<T, K>(g: Green<T, K>): seq<Event<T, K>>
    decreases g, 0
  {
    match g
    case Tok(t) => [Event.Leaf(t)]
    case Node(k, kids) => [Event.Open(k)] + LogOfAll(kids) + [Event.Close]
  }

  function LogOfAll<T, K>(gs: seq<Green<T, K>>): seq<Event<T, K>>
    decreases gs, 1
  {
    if gs == [] then [] else LogOf(gs[0]) + LogOfAll(gs[1..])
  }

  lemma {:induction false} LogOfConcat<T, K>(a: seq<Green<T, K>>, b: seq<Green<T, K>>)
    ensures LogOfAll(a + b) == LogOfAll(a) + LogOfAll(b)
    decreases |a|
  {
    if a == [] {
      assert a + b == b;
    } else {
      FirstOf(a, b);
      LogOfConcat(a[1..], b);
      ConcatThree(LogOf(a[0]), LogOfAll(a[1..]), LogOfAll(b));
    }
  }

  lemma LogOfOne<T, K>(g: Green<T, K>)
    ensures LogOfAll([g]) == LogOf(g)
  {
    assert [g][1..] == [];
    assert LogOf(g) + [] == LogOf(g);
  }

  /** A tree's events read from anywhere add that tree. */
  lemma {:induction false} ReadsTree<T, K>(g: Green<T, K>, rest: seq<Event<T, K>>, open: seq<Frame<T, K>>,
      kids: seq<Green<T, K>>)
    ensures ReadFrom(LogOf(g) + rest, open, kids) == ReadFrom(rest, open, kids + [g])
    decreases g, 0
  {
    match g
    case Tok(t) =>
      assert ([Event<T, K>.Leaf(t)] + rest)[1..] == rest;
    case Node(k, inner) =>
      var close: seq<Event<T, K>> := [Close];
      var log := LogOf(g) + rest;
      assert log == [Event<T, K>.Open(k)] + (LogOfAll(inner) + (close + rest));
      assert log[1..] == LogOfAll(inner) + (close + rest);
      var frame := Frame(k, kids);
      ReadsTrees(inner, close + rest, open + [frame], []);
      assert [] + inner == inner;
      assert (close + rest)[1..] == rest && Front(open + [frame]) == open && Last(open + [frame]) == frame;
  }

  lemma {:induction false} ReadsTrees<T, K>(gs: seq<Green<T, K>>, rest: seq<Event<T, K>>, open: seq<Frame<T,
      K>>, kids: seq<Green<T, K>>)
    ensures ReadFrom(LogOfAll(gs) + rest, open, kids) == ReadFrom(rest, open, kids + gs)
    decreases gs, 1
  {
    if gs == [] {
      assert [] + rest == rest && kids + [] == kids;
    } else {
      ConcatThree(LogOf(gs[0]), LogOfAll(gs[1..]), rest);
      ReadsTree(gs[0], LogOfAll(gs[1..]) + rest, open, kids);
      ReadsTrees(gs[1..], rest, open, kids + [gs[0]]);
      assert kids + [gs[0]] + gs[1..] == kids + gs;
    }
  }

  /** What a stack of open nodes has seen. */
  function SeenLog<T, K>(open: seq<Frame<T, K>>, kids: seq<Green<T, K>>): seq<Event<T, K>>
    decreases |open|
  {
    if open == [] then LogOfAll(kids)
    else SeenLog(Front(open), Last(open).before) + ([Event.Open(Last(open).kind)] + LogOfAll(kids))
  }

  lemma {:induction false} ReadIsLogged<T, K>(log: seq<Event<T, K>>, open: seq<Frame<T, K>>, kids: seq<Green<T, K>>)
    requires ReadFrom(log, open, kids).Some?
    ensures SeenLog(open, kids) + log == LogOfAll(ReadFrom(log, open, kids).value)
    decreases |log|
  {
    if log == [] {
      assert LogOfAll(kids) + [] == LogOfAll(kids);
    } else {
      HeadThenRest(log);
      ConcatThree(SeenLog(open, kids), [log[0]], log[1..]);
      match log[0]
      case Leaf(t) =>
        SeenMore(open, kids, Tok(t));
        ReadIsLogged(log[1..], open, kids + [Tok(t)]);
      case Open(k) =>
        var frame := Frame(k, kids);
        assert Front(open + [frame]) == open && Last(open + [frame]) == frame;
        assert [Event<T, K>.Open(k)] + [] == [Event<T, K>.Open(k)];
        ReadIsLogged(log[1..], open + [frame], []);
      case Close =>
        SeenClosed(open, kids);
        ReadIsLogged(log[1..], Front(open), Last(open).before + [Node(Last(open).kind, kids)]);
    }
  }

  lemma SeenMore<T, K>(open: seq<Frame<T, K>>, kids: seq<Green<T, K>>, g: Green<T, K>)
    ensures SeenLog(open, kids + [g]) == SeenLog(open, kids) + LogOf(g)
  {
    LogOfConcat(kids, [g]);
    LogOfOne(g);
    if open != [] {
      ConcatThree([Event<T, K>.Open(Last(open).kind)], LogOfAll(kids), LogOf(g));
      ConcatThree(SeenLog(Front(open), Last(open).before), [Event<T, K>.Open(Last(open).kind)] + LogOfAll(kids), LogOf(g));
    }
  }

  lemma SeenClosed<T, K>(open: seq<Frame<T, K>>, kids: seq<Green<T, K>>)
    requires open != []
    ensures SeenLog(Front(open), Last(open).before + [Node(Last(open).kind, kids)]) == SeenLog(open, kids) + [Close]
  {
    var g := Node(Last(open).kind, kids);
    SeenMore(Front(open), Last(open).before, g);
    ConcatThree(SeenLog(Front(open), Last(open).before), [Event<T, K>.Open(g.kind)] + LogOfAll(kids), [Close]);
  }

  /** Reading is the inverse of recording: a log is well nested exactly when it is the log of some
      trees, and then it is read as those. */
  lemma ReadLogIff<T, K>(log: seq<Event<T, K>>, gs: seq<Green<T, K>>)
    ensures ReadLog(log) == Some(gs) <==> log == LogOfAll(gs)
  {
    if log == LogOfAll(gs) {
      ReadsTrees(gs, [], [], []);
      assert LogOfAll(gs) + [] == LogOfAll(gs) && [] + gs == gs;
    }
    if ReadLog(log) == Some(gs) {
      ReadIsLogged(log, [], []);
      assert [] + log == log;
    }
  }
}
