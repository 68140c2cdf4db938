/** The input the example parsers read from: a position in a token sequence, advanced by `next`,
    `try_expect` and `skip_while`, with every committed token and every opened or closed node
    recorded in order.  Over a lossless stream the tokens are trivia or significant, and the
    parsers skip trivia before they look: the second half says what such a parser sees. */
module TokenInput {
  import opened Sequences
  import opened Wrappers

  /** What a recording emitter sees. */
  datatype Event<+T, +K> = Open(kind: K) | Leaf(token: T) | Close

  /** A token of a lossless stream: trivia, or a significant token. */
  datatype Lexeme<+T> = Trivia(text: string) | Sig(token: T)

  /** The grammar errors of the example parsers. */
  datatype ParseError = UnexpectedToken | UnexpectedEot

  class InputRef<T, K> {
    const toks: seq<T>
    var pos: nat
    var events: seq<Event<T, K>>

    constructor (toks: seq<T>)
      ensures this.toks == toks && pos == 0 && events == []
    {
      this.toks := toks;
      pos := 0;
      events := [];
    }

    ghost predicate Valid()
      reads this
    {
      pos <= |toks|
    }

    /** The token at hand, not consumed. */
    function Head(): Option<T>
      reads this
    {
      if pos < |toks| then Some(toks[pos]) else None
    }

    method Next() returns (t: Option<T>)
      requires Valid()
      modifies this
      ensures Valid() && t == old(Head())
      ensures if t.Some? then pos == old(pos) + 1 && events == old(events) + [Leaf(t.value)]
              else pos == old(pos) && events == old(events)
    {
      t := Head();
      if t.Some? {
        pos := pos + 1;
        events := events + [Leaf(t.value)];
      }
    }

    method TryExpect(wanted: T -> bool) returns (t: Option<T>)
      requires Valid()
      modifies this
      ensures Valid()
      ensures t == if old(Head()).Some? && wanted(old(Head()).value) then old(Head()) else None
      ensures if t.Some? then pos == old(pos) + 1 && events == old(events) + [Leaf(t.value)]
              else pos == old(pos) && events == old(events)
    {
      if pos < |toks| && wanted(toks[pos]) {
        t := Next();
      } else {
        t := None;
      }
    }

    method SkipWhile(skipped: T -> bool)
      requires Valid()
      modifies this
      ensures Valid() && pos == SkipEnd(toks, old(pos), skipped)
      ensures events == old(events) + Leaves(toks[old(pos)..pos])
    {
      ghost var start, before := pos, events;
      while pos < |toks| && skipped(toks[pos])
        invariant start <= pos <= |toks|
        invariant SkipEnd(toks, pos, skipped) == SkipEnd(toks, start, skipped)
        invariant events == before + Leaves(toks[start..pos])
        decreases |toks| - pos
      {
        assert toks[start..pos + 1] == toks[start..pos] + [toks[pos]];
        var _ := Next();
      }
    }

    /** The node bracket: opened before its parser runs, closed once it succeeds. */
    method StartNode(kind: K)
      modifies this`events
      ensures events == old(events) + [Open(kind)]
    {
      events := events + [Open(kind)];
    }

    method FinishNode()
      modifies this`events
      ensures events == old(events) + [Close]
    {
      events := events + [Close];
    }
  }

  function SkipEnd<T>(toks: seq<T>, pos: nat, skipped: T -> bool): (r: nat)
    requires pos <= |toks|
    ensures pos <= r <= |toks|
    decreases |toks| - pos
  {
    if pos < |toks| && skipped(toks[pos]) then SkipEnd(toks, pos + 1, skipped) else pos
  }

  function Leaves<T, K>(toks: seq<T>): (r: seq<Event<T, K>>)
    ensures |r| == |toks|
  {
    seq(|toks|, i requires 0 <= i < |toks| => Leaf(toks[i]))
  }

  /** The tokens of an event log, in order. */
  function TokensOf<T, K>(events: seq<Event<T, K>>): seq<T> {
    if events == [] then []
    else (if events[0].Leaf? then [events[0].token] else []) + TokensOf(events[1..])
  }

  lemma {:induction false} TokensConcat<T, K>(a: seq<Event<T, K>>, b: seq<Event<T, K>>)
    ensures TokensOf(a + b) == TokensOf(a) + TokensOf(b)
  {
    if a == [] {
      assert a + b == b;
    } else {
      assert (a + b)[0] == a[0] && (a + b)[1..] == a[1..] + b;
      TokensConcat(a[1..], b);
      var head := if a[0].Leaf? then [a[0].token] else [];
      ConcatThree(head, TokensOf(a[1..]), TokensOf(b));
    }
  }

  lemma {:induction false} TokensOfLeaves<T, K>(toks: seq<T>)
    ensures TokensOf(Leaves<T, K>(toks)) == toks
  {
    if toks != [] {
      assert Leaves<T, K>(toks)[1..] == Leaves(toks[1..]);
      TokensOfLeaves<T, K>(toks[1..]);
    }
  }

  // ---- trivia -----------------------------------------------------------------------

  function IsTrivia<T>(): Lexeme<T> -> bool {
    (t: Lexeme<T>) => t.Trivia?
  }

  /** The significant tokens, in order. */
  function Significant<T>(toks: seq<Lexeme<T>>): seq<T> {
    if toks == [] then []
    else (if toks[0].Sig? then [toks[0].token] else []) + Significant(toks[1..])
  }

  lemma {:induction false} SignificantConcat<T>(a: seq<Lexeme<T>>, b: seq<Lexeme<T>>)
    ensures Significant(a + b) == Significant(a) + Significant(b)
  {
    if a == [] {
      assert a + b == b;
    } else {
      assert (a + b)[0] == a[0] && (a + b)[1..] == a[1..] + b;
      SignificantConcat(a[1..], b);
      var head := if a[0].Sig? then [a[0].token] else [];
      ConcatThree(head, Significant(a[1..]), Significant(b));
    }
  }

  /** A piece of trivia changes nothing the grammar sees, wherever it stands. */
  lemma TriviaIsInsignificant<T>(a: seq<Lexeme<T>>, text: string, b: seq<Lexeme<T>>)
    ensures Significant(a + [Trivia(text)] + b) == Significant(a + b)
  {
    SignificantConcat(a + [Trivia(text)], b);
    SignificantConcat(a, [Trivia(text)]);
    SignificantConcat(a, b);
  }

  /** Past the trivia: the position of the next significant token, or the end. */
  function Settle<T>(toks: seq<Lexeme<T>>, pos: nat): (r: nat)
    requires pos <= |toks|
    ensures pos <= r <= |toks|
  {
    SkipEnd(toks, pos, IsTrivia())
  }

  lemma {:induction false} SettleSkips<T>(toks: seq<Lexeme<T>>, pos: nat)
    requires pos <= |toks|
    ensures var q := Settle(toks, pos);
      && Significant(toks[pos..q]) == []
      && Significant(toks[pos..]) == Significant(toks[q..])
      && (q < |toks| ==> toks[q].Sig? && Significant(toks[q..]) == [toks[q].token] + Significant(toks[q + 1..]))
      && (q == |toks| ==> Significant(toks[pos..]) == [])
    decreases |toks| - pos
  {
    var q := Settle(toks, pos);
    if pos < |toks| && toks[pos].Trivia? {
      SettleSkips(toks, pos + 1);
      assert toks[pos..q][1..] == toks[pos + 1..q] && toks[pos..][1..] == toks[pos + 1..];
    } else if pos < |toks| {
      assert toks[pos..][1..] == toks[pos + 1..];
    }
  }

  /** The log without its trivia leaves. */
  function Bare<T, K>(events: seq<Event<Lexeme<T>, K>>): seq<Event<T, K>> {
    if events == [] then [] else BareOne(events[0]) + Bare(events[1..])
  }

  function BareOne<T, K>(event: Event<Lexeme<T>, K>): seq<Event<T, K>> {
    match event
    case Open(k) => [Open(k)]
    case Close => [Close]
    case Leaf(Sig(t)) => [Leaf(t)]
    case Leaf(Trivia(_)) => []
  }

  lemma {:induction false} BareConcat<T, K>(a: seq<Event<Lexeme<T>, K>>, b: seq<Event<Lexeme<T>, K>>)
    ensures Bare(a + b) == Bare(a) + Bare(b)
  {
    if a == [] {
      assert a + b == b;
    } else {
      assert (a + b)[0] == a[0] && (a + b)[1..] == a[1..] + b;
      BareConcat(a[1..], b);
      ConcatThree(BareOne(a[0]), Bare(a[1..]), Bare(b));
    }
  }

  lemma {:induction false} BareLeaves<T, K>(toks: seq<Lexeme<T>>)
    ensures Bare(Leaves<Lexeme<T>, K>(toks)) == Leaves(Significant(toks))
  {
    if toks != [] {
      assert Leaves<Lexeme<T>, K>(toks)[1..] == Leaves(toks[1..]);
      BareLeaves<T, K>(toks[1..]);
    }
  }

  // ---- parsing a lossless stream ----------------------------------------------------

  /** The log holds every consumed token, trivia included, in order. */
  ghost predicate Lossless<T, K>(inp: InputRef<Lexeme<T>, K>)
    reads inp
  {
    inp.Valid() && TokensOf(inp.events) == inp.toks[..inp.pos]
  }

  /** The significant tokens still to come. */
  ghost function Ahead<T, K>(inp: InputRef<Lexeme<T>, K>): seq<T>
    reads inp
  {
    if inp.Valid() then Significant(inp.toks[inp.pos..]) else []
  }

  /** The log so far, trivia aside. */
  ghost function Built<T, K>(inp: InputRef<Lexeme<T>, K>): seq<Event<T, K>>
    reads inp
  {
    Bare(inp.events)
  }

  function HeadOf<T>(ts: seq<T>): Option<T> {
    if ts == [] then None else Some(ts[0])
  }

  /** No trivia stands before the next token. */
  ghost predicate Settled<T, K>(inp: InputRef<Lexeme<T>, K>)
    reads inp
  {
    match inp.Head()
    case None => Ahead(inp) == []
    case Some(Trivia(_)) => false
    case Some(Sig(t)) => Ahead(inp) != [] && Ahead(inp)[0] == t
  }

  predicate Trivial<T, K>(e: Event<Lexeme<T>, K>) {
    e.Leaf? && e.token.Trivia?
  }

  /** The log has grown by trivia only. */
  ghost predicate Skipped<T, K>(before: seq<Event<Lexeme<T>, K>>, after: seq<Event<Lexeme<T>, K>>) {
    before <= after && forall i :: |before| <= i < |after| ==> Trivial(after[i])
  }

  lemma {:induction false} SettleIsTrivia<T>(toks: seq<Lexeme<T>>, pos: nat)
    requires pos <= |toks|
    ensures forall i :: pos <= i < Settle(toks, pos) ==> toks[i].Trivia?
    decreases |toks| - pos
  {
    if pos < |toks| && toks[pos].Trivia? { SettleIsTrivia(toks, pos + 1); }
  }

  lemma Recorded<T, K>(events: seq<Event<Lexeme<T>, K>>, e: Event<Lexeme<T>, K>)
    ensures TokensOf(events + [e]) == TokensOf(events) + if e.Leaf? then [e.token] else []
    ensures Bare(events + [e]) == Bare(events) + BareOne(e)
  {
    TokensConcat(events, [e]);
    BareConcat(events, [e]);
  }

  lemma RecordedTrivia<T, K>(events: seq<Event<Lexeme<T>, K>>, toks: seq<Lexeme<T>>, start: nat)
    requires start <= |toks| && TokensOf(events) == toks[..start]
    ensures var end := Settle(toks, start); var log := events + Leaves(toks[start..end]);
      TokensOf(log) == toks[..end] && Bare(log) == Bare(events)
  {
    hide TokensOf, Significant, Bare, SkipEnd;
    var end := Settle(toks, start);
    var skipped := toks[start..end];
    SettleSkips(toks, start);
    TokensConcat(events, Leaves(skipped));
    TokensOfLeaves<Lexeme<T>, K>(skipped);
    BareConcat(events, Leaves(skipped));
    BareLeaves<T, K>(skipped);
    Slices(toks, start, end);
  }

  /** Commits the trivia at hand, which belongs to the tree whatever follows. */
  method SkipTrivia<T, K>(inp: InputRef<Lexeme<T>, K>)
    requires Lossless(inp)
    modifies inp
    ensures Lossless(inp) && Settled(inp) && inp.pos >= old(inp.pos)
    ensures Ahead(inp) == old(Ahead(inp)) && Built(inp) == old(Built(inp))
    ensures Skipped(old(inp.events), inp.events) && (old(Settled(inp)) ==> inp.events == old(inp.events))
  {
    hide TokensOf, Significant, Bare, SkipEnd;
    SettleIsTrivia(inp.toks, inp.pos);
    SettleSkips(inp.toks, inp.pos);
    RecordedTrivia(inp.events, inp.toks, inp.pos);
    inp.SkipWhile(IsTrivia());
  }

  /** `peek`: the next significant token, with the trivia before it committed. */
  method Peek<T, K>(inp: InputRef<Lexeme<T>, K>) returns (ahead: Option<T>)
    requires Lossless(inp)
    modifies inp
    ensures Lossless(inp) && Settled(inp) && inp.pos >= old(inp.pos)
    ensures Ahead(inp) == old(Ahead(inp)) && Built(inp) == old(Built(inp))
    ensures ahead == HeadOf(Ahead(inp))
    ensures Skipped(old(inp.events), inp.events) && (old(Settled(inp)) ==> inp.events == old(inp.events))
  {
    SkipTrivia(inp);
    ahead := match inp.Head() case Some(Sig(t)) => Some(t) case _ => None;
  }

  /** Consumes the token at hand if it is wanted; trivia is not skipped. */
  method TakeIf<T, K>(inp: InputRef<Lexeme<T>, K>, wanted: T -> bool) returns (taken: bool)
    requires Lossless(inp) && Settled(inp)
    modifies inp
    ensures Lossless(inp)
    ensures taken <==> old(Ahead(inp)) != [] && wanted(old(Ahead(inp))[0])
    ensures inp.pos == old(inp.pos) + (if taken then 1 else 0)
    ensures Ahead(inp) == if taken then old(Ahead(inp))[1..] else old(Ahead(inp))
    ensures Built(inp) == if taken then old(Built(inp)) + [Leaf(old(Ahead(inp))[0])] else old(Built(inp))
    ensures inp.events == old(inp.events) + if taken then [Leaf(Sig(old(Ahead(inp))[0]))] else []
  {
    hide TokensOf, Significant, Bare;
    ghost var start, before := inp.pos, inp.events;
    var t := inp.TryExpect((l: Lexeme<T>) => l.Sig? && wanted(l.token));
    taken := t.Some?;
    if taken {
      AfterOne(inp.toks, start);
      Recorded(before, Leaf(t.value));
    }
  }

  lemma AfterOne<T>(toks: seq<Lexeme<T>>, pos: nat)
    requires pos < |toks| && toks[pos].Sig?
    ensures toks[..pos] + [toks[pos]] == toks[..pos + 1]
    ensures Significant(toks[pos..])[1..] == Significant(toks[pos + 1..])
    ensures |Significant(toks[pos..])| > 0 && Significant(toks[pos..])[0] == toks[pos].token
  {
    assert toks[pos..][1..] == toks[pos + 1..];
  }

  /** The log has grown by trivia, by none if `settled`, and by the token at hand if it was wanted. */
  ghost predicate Taken<T, K>(before: seq<Event<Lexeme<T>, K>>, r: Result<(), ParseError>, ahead: seq<T>,
    after: seq<Event<Lexeme<T>, K>>, settled: bool)
  {
    if r.Ok? then
      && after != [] && ahead != [] && Last(after) == Leaf(Sig(ahead[0]))
      && Skipped(before, Front(after)) && (settled ==> Front(after) == before)
    else Skipped(before, after) && (settled ==> after == before)
  }

  /** `expect`: skips trivia, then consumes exactly a wanted token. */
  method Expect<T, K>(inp: InputRef<Lexeme<T>, K>, wanted: T -> bool) returns (r: Result<(), ParseError>)
    requires Lossless(inp)
    modifies inp
    ensures Lossless(inp) && inp.pos >= old(inp.pos)
    ensures if old(Ahead(inp)) != [] && wanted(old(Ahead(inp))[0])
            then r == Ok(()) && inp.pos > old(inp.pos)
              && Ahead(inp) == old(Ahead(inp))[1..] && Built(inp) == old(Built(inp)) + [Leaf(old(Ahead(inp))[0])]
            else r == Err(UnexpectedToken)
    ensures Taken(old(inp.events), r, old(Ahead(inp)), inp.events, old(Settled(inp)))
  {
    SkipTrivia(inp);
    var taken := TakeIf(inp, wanted);
    r := if taken then Ok(()) else Err(UnexpectedToken);
  }

  /** Opens a node in the log. */
  method Begin<T, K>(inp: InputRef<Lexeme<T>, K>, kind: K)
    requires Lossless(inp)
    modifies inp
    ensures Lossless(inp) && inp.pos == old(inp.pos) && Built(inp) == old(Built(inp)) + [Open(kind)]
    ensures inp.events == old(inp.events) + [Open(kind)]
    ensures Ahead(inp) == old(Ahead(inp)) && (old(Settled(inp)) ==> Settled(inp))
  {
    hide TokensOf, Significant, Bare;
    Recorded(inp.events, Open(kind));
    inp.StartNode(kind);
  }

  /** Closes the node opened last. */
  method End<T, K>(inp: InputRef<Lexeme<T>, K>)
    requires Lossless(inp)
    modifies inp
    ensures Lossless(inp) && inp.pos == old(inp.pos) && Built(inp) == old(Built(inp)) + [Close]
    ensures inp.events == old(inp.events) + [Close]
    ensures Ahead(inp) == old(Ahead(inp)) && (old(Settled(inp)) ==> Settled(inp))
  {
    hide TokensOf, Significant, Bare;
    Recorded(inp.events, Close);
    inp.FinishNode();
  }
}
