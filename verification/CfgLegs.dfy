/** Which CI legs may be deleted: the suites each leg alone protects, by subset dominance. */
module CfgLegs {
  import opened Wrappers
  import opened CfgPredicate

  /** A leg as `legs` lists it: its command-line flags, its resolved features, and whether it
      builds test targets. */
  datatype Declared = Declared(flags: string, leg: Leg)

  /** The feature sets by flags, as `main` tabulates them. */
  type Table = map<string, set<string>>

  /** The flags of the test legs that compile a suite with this crate-level gate. */
  function Hits(legs: seq<Declared>, gate: Option<Node>): (r: seq<string>)
    ensures forall f :: f in r <==> exists l :: l in legs && l.flags == f && Compiles(l.leg, gate)
  {
    if legs == [] then []
    else
      assert forall l :: l in legs <==> l == legs[0] || l in legs[1..];
      (if Compiles(legs[0].leg, gate) then [legs[0].flags] else []) + Hits(legs[1..], gate)
  }

  predicate Compiles(leg: Leg, gate: Option<Node>) {
    leg.tests && (gate.Some? ==> Covers(leg, gate.value))
  }

  /** The leg builds tests, and could be a build in which the gate holds. */
  ghost predicate CouldCompile(leg: Leg, gate: Option<Node>) {
    leg.tests && (gate.Some? ==> exists b :: Completes(b, gate.value, leg) && Holds(b))
  }

  lemma CompilesIff(leg: Leg, gate: Option<Node>)
    ensures Compiles(leg, gate) <==> CouldCompile(leg, gate)
  {
    if gate.Some? {
      VerdictExact(gate.value, leg);
      if Covers(leg, gate.value) {
        var b :| Completes(b, gate.value, leg) && Holds(b);
        assert Completes(b, gate.value, leg) && Holds(b);
      } else if b :| Completes(b, gate.value, leg) && Holds(b) {
        VerdictSound(gate.value, leg, b);
      }
    }
  }

  lemma HitsIff(legs: seq<Declared>, gate: Option<Node>, flags: string)
    ensures flags in Hits(legs, gate) <==> exists l :: l in legs && l.flags == flags && CouldCompile(l.leg, gate)
  {
    forall l | l in legs ensures Compiles(l.leg, gate) <==> CouldCompile(l.leg, gate) {
      CompilesIff(l.leg, gate);
    }
    hide Compiles, CouldCompile;
  }

  lemma HitsNone(legs: seq<Declared>, gate: Option<Node>)
    requires legs == []
    ensures Hits(legs, gate) == []
  {
  }

  lemma HitsCons(legs: seq<Declared>, gate: Option<Node>)
    requires legs != []
    ensures Hits(legs, gate) == (if Compiles(legs[0].leg, gate) then [legs[0].flags] else []) + Hits(legs[1..], gate)
  {
  }

  /** In the order the legs are declared in. */
  lemma {:induction false} HitsSnoc(legs: seq<Declared>, l: Declared, gate: Option<Node>)
    ensures Hits([], gate) == []
    ensures Hits(legs + [l], gate) == Hits(legs, gate) + if CouldCompile(l.leg, gate) then [l.flags] else []
  {
    hide Compiles, CouldCompile;
    CompilesIff(l.leg, gate);
    var last := if Compiles(l.leg, gate) then [l.flags] else [];
    HitsCons(legs + [l], gate);
    if legs == [] {
      HitsNone([l][1..], gate);
      assert last + [] == [] + last == last;
    } else {
      assert (legs + [l])[0] == legs[0] && (legs + [l])[1..] == legs[1..] + [l];
      HitsSnoc(legs[1..], l, gate);
      HitsCons(legs, gate);
      hide Hits;
      assert forall a: seq<string>, b: seq<string> :: a + (b + last) == (a + b) + last;
    }
  }

  ghost predicate Tabulates(table: Table, legs: seq<Declared>) {
    forall l :: l in legs ==> l.flags in table && table[l.flags] == l.leg.features
  }

  /** Two declared legs are twins when they resolve alike. */
  ghost predicate NoTwins(legs: seq<Declared>) {
    forall i, j :: 0 <= i < j < |legs| ==> legs[i].leg != legs[j].leg
  }

  /** The flags of the legs that resolve to `leg`, in the order they are declared in. */
  ghost function FlagsOf(legs: seq<Declared>, leg: Leg): seq<string> {
    if legs == [] then []
    else FlagsOf(legs[..|legs| - 1], leg) + if legs[|legs| - 1].leg == leg then [legs[|legs| - 1].flags] else []
  }

  lemma {:induction false} FlagsOfIff(legs: seq<Declared>, leg: Leg, flags: string)
    ensures flags in FlagsOf(legs, leg) <==> exists l :: l in legs && l.leg == leg && l.flags == flags
  {
    if legs != [] {
      var front, last := legs[..|legs| - 1], legs[|legs| - 1];
      FlagsOfIff(front, leg, flags);
      assert forall l :: l in legs <==> l in front || l == last;
    }
  }

  /** The duplicate-leg check: legs grouped by what they resolve to. */
  method GroupResolved(legs: seq<Declared>) returns (resolved: map<Leg, seq<string>>)
    ensures forall k :: k in resolved ==> resolved[k] == FlagsOf(legs, k)
    ensures NoTwins(legs) <==> forall k :: k in resolved ==> |resolved[k]| <= 1
    ensures forall k :: k in resolved <==> exists l :: l in legs && l.leg == k
  {
    hide FlagsOf;
    resolved := map[];
    for i := 0 to |legs|
      invariant forall k :: k in resolved <==> exists j :: 0 <= j < i && legs[j].leg == k
      invariant forall k :: k in resolved ==> |resolved[k]| >= 1
      invariant forall k :: k in resolved ==> resolved[k] == FlagsOf(legs[..i], k)
      invariant NoTwins(legs[..i]) <==> forall k :: k in resolved ==> |resolved[k]| <= 1
    {
      var l := legs[i];
      var before := if l.leg in resolved then resolved[l.leg] else [];
      ghost var was := resolved;
      resolved := resolved[l.leg := before + [l.flags]];
      TwinsNext(legs, i);
      GroupsNext(legs, i, was, resolved);
      if NoTwins(legs[..i]) {
        assert NoTwins(legs[..i + 1]) <==> l.leg !in was;
        if l.leg in was { assert |resolved[l.leg]| == 2; }
      } else {
        var k :| k in was && |was[k]| > 1;
        assert |resolved[k]| > 1;
      }
    }
    assert legs[..|legs|] == legs;
  }

  lemma GroupsNext(legs: seq<Declared>, i: nat, was: map<Leg, seq<string>>, now: map<Leg, seq<string>>)
    requires i < |legs| && forall k :: k in was <==> exists j :: 0 <= j < i && legs[j].leg == k
    requires forall k :: k in was ==> was[k] == FlagsOf(legs[..i], k)
    requires var l := legs[i]; now == was[l.leg := (if l.leg in was then was[l.leg] else []) + [l.flags]]
    ensures forall k :: k in now ==> now[k] == FlagsOf(legs[..i + 1], k)
  {
    var before, after := legs[..i], legs[..i + 1];
    assert after[..|after| - 1] == before && after[|after| - 1] == legs[i];
    forall k | k in now ensures now[k] == FlagsOf(after, k) {
      if k !in was && FlagsOf(before, k) != [] { FlagsOfIff(before, k, FlagsOf(before, k)[0]); }
    }
  }

  lemma TwinsNext(legs: seq<Declared>, i: nat)
    requires i < |legs|
    ensures NoTwins(legs[..i + 1]) <==> NoTwins(legs[..i]) && forall j :: 0 <= j < i ==> legs[j].leg != legs[i].leg
  {
    var before, after := legs[..i], legs[..i + 1];
    assert forall j :: 0 <= j < i ==> before[j] == legs[j] == after[j];
    if NoTwins(before) && forall j :: 0 <= j < i ==> legs[j].leg != legs[i].leg {
      assert NoTwins(after);
    }
    if NoTwins(after) {
      forall j | 0 <= j < i ensures legs[j].leg != legs[i].leg {
        assert after[j].leg != after[i].leg;
      }
    }
  }

  // ---- subset dominance -------------------------------------------------------------

  predicate Dominated(leg: string, hits: seq<string>, table: Table)
    requires leg in table && forall o :: o in hits ==> o in table
  {
    exists o :: o in hits && o != leg && table[o] <= table[leg]
  }

  /** The features the other compiling legs have and this one does not. */
  function Additions(leg: string, hits: seq<string>, table: Table): set<string>
    requires leg in table && forall o :: o in hits ==> o in table
  {
    set o, f | o in hits && o != leg && f in table[o] - table[leg] :: f
  }

  ghost predicate LoadBearing(leg: string, hits: seq<string>, table: Table)
    requires forall o :: o in hits ==> o in table
  {
    leg in hits && !Dominated(leg, hits, table)
  }

  /** Every other leg that compiles the suite has some feature on that this one has off. */
  lemma LoadBearingIff(leg: string, hits: seq<string>, table: Table)
    requires forall o :: o in hits ==> o in table
    ensures LoadBearing(leg, hits, table) <==>
      leg in hits && forall o :: o in hits && o != leg ==> exists f :: f in table[o] && f !in table[leg]
  {
    if LoadBearing(leg, hits, table) {
      forall o | o in hits && o != leg ensures exists f :: f in table[o] && f !in table[leg] {
        assert !(table[o] <= table[leg]);
      }
    }
  }

  /** `suite` is recorded for `leg`. */
  ghost predicate Entry(out: map<string, map<string, set<string>>>, leg: string, suite: string) {
    leg in out && suite in out[leg]
  }

  method LoadBearingSuites(suiteHits: seq<(string, seq<string>)>, table: Table)
    returns (out: map<string, map<string, set<string>>>)
    requires forall i, j :: 0 <= i < j < |suiteHits| ==> suiteHits[i].0 != suiteHits[j].0
    requires forall i, o :: 0 <= i < |suiteHits| && o in suiteHits[i].1 ==> o in table
    ensures forall i, leg :: 0 <= i < |suiteHits| ==>
      (Entry(out, leg, suiteHits[i].0) <==> LoadBearing(leg, suiteHits[i].1, table))
    ensures forall i, leg :: 0 <= i < |suiteHits| && Entry(out, leg, suiteHits[i].0) ==>
      leg in table && out[leg][suiteHits[i].0] == Additions(leg, suiteHits[i].1, table)
    ensures forall leg, suite :: Entry(out, leg, suite) ==>
      exists i :: 0 <= i < |suiteHits| && suiteHits[i].0 == suite
    ensures forall leg :: leg in out ==> out[leg] != map[]
  {
    hide Additions;
    out := map[];
    for i := 0 to |suiteHits|
      invariant Recorded(out, suiteHits, i, 0, table)
    {
      var (suite, hits) := suiteHits[i];
      for h := 0 to |hits|
        invariant Recorded(out, suiteHits, i, h, table)
      {
        var leg := hits[h];
        ghost var was := out;
        if !Dominated(leg, hits, table) {
          var held := if leg in out then out[leg] else map[];
          out := out[leg := held[suite := Additions(leg, hits, table)]];
        }
        RecordedNext(was, out, suiteHits, i, h, table);
      }
      RecordedSuite(out, suiteHits, i, table);
    }
  }

  /** The state of the double loop: suites before `i` are done, and the first `h` legs of suite `i`. */
  ghost predicate Recorded(out: map<string, map<string, set<string>>>, suiteHits: seq<(string, seq<string>)>,
      i: nat, h: nat, table: Table)
    requires i <= |suiteHits| && (i < |suiteHits| ==> h <= |suiteHits[i].1|)
    requires forall i, o :: 0 <= i < |suiteHits| && o in suiteHits[i].1 ==> o in table
  {
    && (forall k, leg :: 0 <= k < i ==> (Entry(out, leg, suiteHits[k].0) <==> LoadBearing(leg, suiteHits[k].1, table)))
    && (i < |suiteHits| ==> forall leg ::
          Entry(out, leg, suiteHits[i].0) <==> leg in suiteHits[i].1[..h] && LoadBearing(leg, suiteHits[i].1, table))
    && (forall k, leg :: 0 <= k < |suiteHits| && Entry(out, leg, suiteHits[k].0) ==>
          leg in table && out[leg][suiteHits[k].0] == Additions(leg, suiteHits[k].1, table))
    && (forall leg, suite :: Entry(out, leg, suite) ==>
          exists k :: 0 <= k < |suiteHits| && k <= i && suiteHits[k].0 == suite)
    && (forall leg :: leg in out ==> out[leg] != map[])
  }

  lemma RecordedNext(was: map<string, map<string, set<string>>>, out: map<string, map<string, set<string>>>,
                     suiteHits: seq<(string, seq<string>)>, i: nat, h: nat, table: Table)
    requires forall i, j :: 0 <= i < j < |suiteHits| ==> suiteHits[i].0 != suiteHits[j].0
    requires forall i, o :: 0 <= i < |suiteHits| && o in suiteHits[i].1 ==> o in table
    requires i < |suiteHits| && h < |suiteHits[i].1| && Recorded(was, suiteHits, i, h, table)
    requires var (suite, hits) := suiteHits[i]; var leg := hits[h];
      if Dominated(leg, hits, table) then out == was
      else out == was[leg := (if leg in was then was[leg] else map[])[suite := Additions(leg, hits, table)]]
    ensures Recorded(out, suiteHits, i, h + 1, table)
  {
    hide Additions, Dominated;
    var (suite, hits) := suiteHits[i];
    var leg := hits[h];
    OneMoreLeg(hits, h);
    if !Dominated(leg, hits, table) {
      EntryAdded(was, out, leg, suite, Additions(leg, hits, table));
    }
  }

  lemma OneMoreLeg(hits: seq<string>, h: nat)
    requires h < |hits|
    ensures forall l :: l in hits[..h + 1] <==> l in hits[..h] || l == hits[h]
  {
    assert hits[..h + 1] == hits[..h] + [hits[h]];
  }

  lemma EntryAdded(was: map<string, map<string, set<string>>>, out: map<string, map<string, set<string>>>,
                   leg: string, suite: string, additions: set<string>)
    requires out == was[leg := (if leg in was then was[leg] else map[])[suite := additions]]
    ensures forall l, s :: Entry(out, l, s) <==> Entry(was, l, s) || (l == leg && s == suite)
    ensures forall l, s :: Entry(was, l, s) && !(l == leg && s == suite) ==> out[l][s] == was[l][s]
    ensures Entry(out, leg, suite) && out[leg][suite] == additions
  {
  }

  lemma RecordedSuite(out: map<string, map<string, set<string>>>, suiteHits: seq<(string, seq<string>)>,
      i: nat, table: Table)
    requires forall i, j :: 0 <= i < j < |suiteHits| ==> suiteHits[i].0 != suiteHits[j].0
    requires forall i, o :: 0 <= i < |suiteHits| && o in suiteHits[i].1 ==> o in table
    requires i < |suiteHits| && Recorded(out, suiteHits, i, |suiteHits[i].1|, table)
    ensures Recorded(out, suiteHits, i + 1, 0, table)
  {
    assert suiteHits[i].1[..|suiteHits[i].1|] == suiteHits[i].1;
    if i + 1 < |suiteHits| {
      var next := suiteHits[i + 1].0;
      assert forall k :: 0 <= k <= i ==> suiteHits[k].0 != next;
      assert forall leg :: !Entry(out, leg, next);
    }
  }

  // ---- deleting legs ----------------------------------------------------------------

  /** Every leg compiling the suite is matched by a reported leg that has off all it has off. */
  ghost predicate PruningSafe(hits: seq<string>, table: Table)
    requires forall o :: o in hits ==> o in table
  {
    forall leg :: leg in hits ==> exists g :: LoadBearing(g, hits, table) && table[g] <= table[leg]
  }

  ghost predicate Minimal(leg: string, hits: seq<string>, table: Table)
    requires leg in table && forall o :: o in hits ==> o in table
  {
    forall o :: o in hits ==> !(table[o] < table[leg])
  }

  /** Below every leg there is one with a minimal feature set. */
  lemma {:induction false} MinimalBelow(leg: string, hits: seq<string>, table: Table) returns (g: string)
    requires leg in hits && forall o :: o in hits ==> o in table
    ensures g in hits && table[g] <= table[leg] && Minimal(g, hits, table)
    decreases table[leg]
  {
    if o :| o in hits && table[o] < table[leg] {
      g := MinimalBelow(o, hits, table);
    } else {
      g := leg;
    }
  }

  /** Pruning is safe exactly when no leg with a minimal feature set has a twin. */
  lemma PruningSafeIff(hits: seq<string>, table: Table)
    requires forall o :: o in hits ==> o in table
    ensures PruningSafe(hits, table) <==>
      forall a, b :: a in hits && b in hits && a != b && Minimal(a, hits, table) ==> table[a] != table[b]
  {
    if forall a, b :: a in hits && b in hits && a != b && Minimal(a, hits, table) ==> table[a] != table[b] {
      forall leg | leg in hits ensures exists g :: LoadBearing(g, hits, table) && table[g] <= table[leg] {
        var g := MinimalBelow(leg, hits, table);
        assert LoadBearing(g, hits, table);
      }
    } else {
      var a, b :| a in hits && b in hits && a != b && Minimal(a, hits, table) && table[a] == table[b];
      forall g | g in hits && table[g] <= table[a] ensures Dominated(g, hits, table) {
        assert table[g] == table[a];
        assert if g == a then table[b] <= table[g] else table[a] <= table[g];
      }
      assert !PruningSafe(hits, table);
    }
  }

  /** Twins look deletable both at once. */
  lemma TwinsHideEachOther(a: string, b: string, hits: seq<string>, table: Table)
    requires forall o :: o in hits ==> o in table
    requires a in hits && b in hits && a != b && table[a] == table[b]
    ensures !LoadBearing(a, hits, table) && !LoadBearing(b, hits, table)
  {
  }

  /** A test leg with these features compiles the gated item out. */
  ghost predicate AbsentUnder(node: Node, features: set<string>) {
    Evaluate(node, Leg(features, true)) == FALSE
  }

  /** No negative leaf on any of these features. */
  ghost predicate MonotoneOn(node: Node, features: set<string>) {
    forall f :: f in NegativeFeatures(node, false) ==> f !in features
  }

  /** Whatever `main` lets through: keep only the reported legs, and every suite configuration
      still has a survivor that sees every monotone absence the deleted leg saw. */
  lemma DeletingUnreportedLegs(legs: seq<Declared>, gate: Option<Node>, table: Table,
      leg: string) returns (survivor: string)
    requires Tabulates(table, legs) && NoTwins(legs) && leg in Hits(legs, gate)
    ensures forall o :: o in Hits(legs, gate) ==> o in table
    ensures LoadBearing(survivor, Hits(legs, gate), table) && table[survivor] <= table[leg]
    ensures forall node :: AbsentUnder(node, table[leg]) && MonotoneOn(node, table[leg] - table[survivor]) ==>
      AbsentUnder(node, table[survivor])
  {
    var hits := Hits(legs, gate);
    forall a, b | a in hits && b in hits && a != b ensures table[a] != table[b] {
      var x :| x in legs && x.flags == a && Compiles(x.leg, gate);
      var y :| y in legs && y.flags == b && Compiles(y.leg, gate);
      var i :| 0 <= i < |legs| && legs[i] == x;
      var j :| 0 <= j < |legs| && legs[j] == y;
      assert legs[i].leg != legs[j].leg;
    }
    PruningSafeIff(hits, table);
    survivor :| LoadBearing(survivor, hits, table) && table[survivor] <= table[leg];
    forall node | AbsentUnder(node, table[leg]) && MonotoneOn(node, table[leg] - table[survivor])
      ensures AbsentUnder(node, table[survivor])
    {
      AbsenceCarriesOver(node, Leg(table[leg], true), Leg(table[survivor], true));
    }
  }

  // ---- what is recorded -------------------------------------------------------------

  lemma AdditionsIff(leg: string, hits: seq<string>, table: Table, f: string)
    requires leg in table && forall o :: o in hits ==> o in table
    ensures f in Additions(leg, hits, table) <==> f !in table[leg] && exists o :: o in hits && o != leg && f in table[o]
  {
    if o :| o in hits && o != leg && f in table[o] && f !in table[leg] {
      assert f in table[o] - table[leg];
    }
  }

  /** The recorded set is empty exactly when nothing else compiles the suite; all of it is off
      here, and every alternative turns some of it on. */
  lemma AdditionsMeaning(leg: string, hits: seq<string>, table: Table)
    requires (forall o :: o in hits ==> o in table) && LoadBearing(leg, hits, table)
    ensures Additions(leg, hits, table) == {} <==> forall o :: o in hits ==> o == leg
    ensures Additions(leg, hits, table) !! table[leg]
    ensures forall o :: o in hits && o != leg ==> table[o] * Additions(leg, hits, table) != {}
  {
    forall o | o in hits && o != leg ensures table[o] * Additions(leg, hits, table) != {} {
      assert !(table[o] <= table[leg]);
      var f :| f in table[o] && f !in table[leg];
      assert f in table[o] - table[leg];
      assert f in Additions(leg, hits, table);
      assert f in table[o] * Additions(leg, hits, table);
    }
  }

  /** Dominance protects everything the one-feature question protected. */
  lemma IntersectionImpliesLoadBearing(leg: string, hits: seq<string>, table: Table, f: string)
    requires (forall o :: o in hits ==> o in table) && leg in hits
    requires f !in table[leg] && forall o :: o in hits && o != leg ==> f in table[o]
    ensures LoadBearing(leg, hits, table)
  {
  }

  /** ... and strictly more: three legs where no single feature is common to the alternatives. */
  lemma DominanceSeesMore(a: string, b: string, c: string)
    requires a != b && b != c && a != c
    ensures var table: Table := map[a := {"std"}, b := {"std", "map"}, c := {"std", "fold"}];
      && LoadBearing(a, [a, b, c], table)
      && table[b] * table[c] - table[a] == {}
  {
    var table: Table := map[a := {"std"}, b := {"std", "map"}, c := {"std", "fold"}];
    assert "map"[0] != "std"[0] && "fold"[0] != "std"[0] && "fold"[0] != "map"[0];
    assert "map" in table[b] && "fold" in table[c];
  }
}
