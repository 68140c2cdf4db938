/** The `cfg` predicate trees of the coverage gate: three-valued evaluation against a leg, the
    polarity of feature leaves, and what both mean for two-valued builds. */
module CfgPredicate {
  import opened Wrappers

  /** A predicate token.  A quoted one carries its text and, if JSON reads it, what it says. */
  datatype Token = Word(text: string) | Quoted(text: string, says: Option<string>) | Open | Close | Comma | Equals

  datatype Node =
    | All(parts: seq<Node>)
    | Any(parts: seq<Node>)
    | Not(arg: Node)
    | Leaf(name: Token, value: Option<string>)

  /** A leg: the features it enables, and whether it builds test targets. */
  datatype Leg = Leg(features: set<string>, tests: bool)

  const TRUE := 1
  const UNKNOWN := 0
  const FALSE := -1

  function EvaluateLeaf(name: Token, value: Option<string>, leg: Leg): int {
    if name == Word("feature") then
      if value.Some? && value.value in leg.features then TRUE else FALSE
    else if name == Word("test") then
      if leg.tests then UNKNOWN else FALSE
    else UNKNOWN
  }

  /** Kleene's strong three-valued logic: `all` is the minimum, `any` the maximum. */
  function Evaluate(node: Node, leg: Leg): (v: int)
    ensures FALSE <= v <= TRUE
    decreases node, 0
  {
    match node
    case All(parts) => Least(parts, leg)
    case Any(parts) => Greatest(parts, leg)
    case Not(arg) => -Evaluate(arg, leg)
    case Leaf(name, value) => EvaluateLeaf(name, value, leg)
  }

  function Least(parts: seq<Node>, leg: Leg): (v: int)
    ensures FALSE <= v <= TRUE
    decreases parts, 1
  {
    if parts == [] then TRUE
    else
      var first, rest := Evaluate(parts[0], leg), Least(parts[1..], leg);
      if first < rest then first else rest
  }

  function Greatest(parts: seq<Node>, leg: Leg): (v: int)
    ensures FALSE <= v <= TRUE
    decreases parts, 1
  {
    if parts == [] then FALSE
    else
      var first, rest := Evaluate(parts[0], leg), Greatest(parts[1..], leg);
      if first > rest then first else rest
  }

  /** A leg covers a predicate it does not make definitely false. */
  predicate Covers(leg: Leg, node: Node) { Evaluate(node, leg) >= UNKNOWN }

  // ---- what a verdict means ---------------------------------------------------------

  /** A two-valued build of a predicate: every leaf occurrence settled. */
  datatype Build = BAll(parts: seq<Build>) | BAny(parts: seq<Build>) | BNot(arg: Build) | BLeaf(on: bool)

  ghost predicate Holds(b: Build)
    decreases b
  {
    match b
    case BAll(parts) => forall p :: p in parts ==> Holds(p)
    case BAny(parts) => exists p :: p in parts && Holds(p)
    case BNot(arg) => !Holds(arg)
    case BLeaf(on) => on
  }

  /** A leaf may be on in a build of the leg: a feature exactly if the leg enables it, the test flag
      only if the leg builds tests, anything else freely. */
  predicate MayBe(on: bool, name: Token, value: Option<string>, leg: Leg) {
    if name == Word("feature") then on <==> value.Some? && value.value in leg.features
    else if name == Word("test") then on ==> leg.tests
    else true
  }

  /** `b` settles `node` without contradicting anything the leg decides. */
  ghost predicate Completes(b: Build, node: Node, leg: Leg)
    decreases node
  {
    match (b, node)
    case (BAll(bs), All(parts)) => |bs| == |parts| && forall i :: 0 <= i < |bs| ==> Completes(bs[i], parts[i], leg)
    case (BAny(bs), Any(parts)) => |bs| == |parts| && forall i :: 0 <= i < |bs| ==> Completes(bs[i], parts[i], leg)
    case (BNot(x), Not(arg)) => Completes(x, arg, leg)
    case (BLeaf(on), Leaf(name, value)) =>
      MayBe(on, name, value, leg)
    case _ => false
  }

  /** A definite verdict holds in every build the leg could be. */
  lemma {:induction false} VerdictSound(node: Node, leg: Leg, b: Build)
    requires Completes(b, node, leg)
    ensures Evaluate(node, leg) == TRUE ==> Holds(b)
    ensures Evaluate(node, leg) == FALSE ==> !Holds(b)
    decreases node, 0
  {
    match node
    case All(parts) => LeastSound(parts, leg, b.parts);
    case Any(parts) => GreatestSound(parts, leg, b.parts);
    case Not(arg) => VerdictSound(arg, leg, b.arg);
    case Leaf(_, _) =>
  }

  lemma {:induction false} LeastSound(parts: seq<Node>, leg: Leg, bs: seq<Build>)
    requires |bs| == |parts| && forall i :: 0 <= i < |bs| ==> Completes(bs[i], parts[i], leg)
    ensures Least(parts, leg) == TRUE ==> forall p :: p in bs ==> Holds(p)
    ensures Least(parts, leg) == FALSE ==> exists p :: p in bs && !Holds(p)
    decreases parts, 1
  {
    if parts != [] {
      VerdictSound(parts[0], leg, bs[0]);
      LeastSound(parts[1..], leg, bs[1..]);
      assert bs == [bs[0]] + bs[1..];
    }
  }

  lemma {:induction false} GreatestSound(parts: seq<Node>, leg: Leg, bs: seq<Build>)
    requires |bs| == |parts| && forall i :: 0 <= i < |bs| ==> Completes(bs[i], parts[i], leg)
    ensures Greatest(parts, leg) == TRUE ==> exists p :: p in bs && Holds(p)
    ensures Greatest(parts, leg) == FALSE ==> forall p :: p in bs ==> !Holds(p)
    decreases parts, 1
  {
    if parts != [] {
      VerdictSound(parts[0], leg, bs[0]);
      GreatestSound(parts[1..], leg, bs[1..]);
      assert bs == [bs[0]] + bs[1..];
    }
  }

  /** The build most favourable to `node` (or, with `want` false, most hostile): undecided
      leaves go the way that helps, which flips under each `not`. */
  function Lean(node: Node, leg: Leg, want: bool): Build
    decreases node, 0
  {
    match node
    case All(parts) => BAll(LeanEach(parts, leg, want))
    case Any(parts) => BAny(LeanEach(parts, leg, want))
    case Not(arg) => BNot(Lean(arg, leg, !want))
    case Leaf(name, value) =>
      var v := EvaluateLeaf(name, value, leg);
      BLeaf(v == TRUE || (v == UNKNOWN && want))
  }

  function LeanEach(parts: seq<Node>, leg: Leg, want: bool): (r: seq<Build>)
    decreases parts, 1
  {
    if parts == [] then [] else [Lean(parts[0], leg, want)] + LeanEach(parts[1..], leg, want)
  }

  lemma {:induction false} LeanAttains(node: Node, leg: Leg, want: bool)
    ensures Completes(Lean(node, leg, want), node, leg)
    ensures Holds(Lean(node, leg, want)) <==> Evaluate(node, leg) >= if want then UNKNOWN else TRUE
    decreases node, 0
  {
    match node
    case All(parts) => LeanEachAttains(parts, leg, want);
    case Any(parts) => LeanEachAttains(parts, leg, want);
    case Not(arg) => LeanAttains(arg, leg, !want);
    case Leaf(_, _) =>
  }

  lemma {:induction false} LeanEachAttains(parts: seq<Node>, leg: Leg, want: bool)
    ensures var bs := LeanEach(parts, leg, want);
      && |bs| == |parts| && (forall i :: 0 <= i < |bs| ==> Completes(bs[i], parts[i], leg))
      && ((forall p :: p in bs ==> Holds(p)) <==> Least(parts, leg) >= if want then UNKNOWN else TRUE)
      && ((exists p :: p in bs && Holds(p)) <==> Greatest(parts, leg) >= if want then UNKNOWN else TRUE)
    decreases parts, 1
  {
    if parts != [] {
      LeanAttains(parts[0], leg, want);
      LeanEachAttains(parts[1..], leg, want);
      var bs := LeanEach(parts, leg, want);
      assert bs[0] in bs && forall p :: p in bs <==> p == bs[0] || p in bs[1..];
    }
  }

  /** Evaluation is exact: TRUE and FALSE are the verdicts every build agrees on, and UNKNOWN is
      left for predicates that builds really do settle both ways. */
  lemma VerdictExact(node: Node, leg: Leg)
    ensures Evaluate(node, leg) == TRUE <==> forall b :: Completes(b, node, leg) ==> Holds(b)
    ensures Evaluate(node, leg) == FALSE <==> forall b :: Completes(b, node, leg) ==> !Holds(b)
    ensures Covers(leg, node) <==> exists b :: Completes(b, node, leg) && Holds(b)
  {
    forall b | Completes(b, node, leg)
      ensures Evaluate(node, leg) == TRUE ==> Holds(b)
      ensures Evaluate(node, leg) == FALSE ==> !Holds(b)
    {
      VerdictSound(node, leg, b);
    }
    LeanAttains(node, leg, true);
    LeanAttains(node, leg, false);
  }

  // ---- builds that treat equal leaves alike -----------------------------------------

  /** The truth of `node` when one setting serves every occurrence of an undecided leaf. */
  ghost predicate HoldsUnder(node: Node, leg: Leg, setting: (Token, Option<string>) -> bool)
    decreases node
  {
    match node
    case All(parts) => forall p :: p in parts ==> HoldsUnder(p, leg, setting)
    case Any(parts) => exists p :: p in parts && HoldsUnder(p, leg, setting)
    case Not(arg) => !HoldsUnder(arg, leg, setting)
    case Leaf(name, value) => MayBe(true, name, value, leg) && (setting(name, value) || !MayBe(false, name, value, leg))
  }

  lemma {:induction false} VerdictSoundUnder(node: Node, leg: Leg, setting: (Token, Option<string>) -> bool)
    ensures Evaluate(node, leg) == TRUE ==> HoldsUnder(node, leg, setting)
    ensures Evaluate(node, leg) == FALSE ==> !HoldsUnder(node, leg, setting)
    decreases node, 0
  {
    match node
    case All(parts) => PartsSoundUnder(parts, leg, setting);
    case Any(parts) => PartsSoundUnder(parts, leg, setting);
    case Not(arg) => VerdictSoundUnder(arg, leg, setting);
    case Leaf(_, _) =>
  }

  lemma {:induction false} PartsSoundUnder(parts: seq<Node>, leg: Leg, setting: (Token, Option<string>) -> bool)
    ensures Least(parts, leg) == TRUE ==> forall p :: p in parts ==> HoldsUnder(p, leg, setting)
    ensures Least(parts, leg) == FALSE ==> exists p :: p in parts && !HoldsUnder(p, leg, setting)
    ensures Greatest(parts, leg) == TRUE ==> exists p :: p in parts && HoldsUnder(p, leg, setting)
    ensures Greatest(parts, leg) == FALSE ==> forall p :: p in parts ==> !HoldsUnder(p, leg, setting)
    decreases parts, 1
  {
    if parts != [] {
      VerdictSoundUnder(parts[0], leg, setting);
      PartsSoundUnder(parts[1..], leg, setting);
      assert parts == [parts[0]] + parts[1..];
    }
  }

  /** Under such settings the gate is only sound, not exact: `any(unix, not(unix))` always holds
      and still evaluates to UNKNOWN. */
  lemma ExcludedMiddleIsUnknown(leg: Leg)
    ensures var unix := Leaf(Word("unix"), None);
      var node := Any([unix, Not(unix)]);
      && Evaluate(node, leg) == UNKNOWN
      && forall setting :: HoldsUnder(node, leg, setting)
  {
    var unix := Leaf(Word("unix"), None);
    var node := Any([unix, Not(unix)]);
    assert Word("unix").text[0] == 'u';
    assert Greatest([Not(unix)], leg) == UNKNOWN;
    assert [unix, Not(unix)][1..] == [Not(unix)];
    forall setting ensures HoldsUnder(node, leg, setting) {
      if HoldsUnder(unix, leg, setting) {
        assert unix in node.parts;
      } else {
        assert Not(unix) in node.parts && HoldsUnder(Not(unix), leg, setting);
      }
    }
  }

  /** The undecided leaves under an even number of `not`s, or with `odd` an odd number. */
  ghost function Undecided(node: Node, leg: Leg, odd: bool): set<(Token, Option<string>)>
    decreases node, 0
  {
    match node
    case All(parts) => UndecidedOf(parts, leg, odd)
    case Any(parts) => UndecidedOf(parts, leg, odd)
    case Not(arg) => Undecided(arg, leg, !odd)
    case Leaf(name, value) => if EvaluateLeaf(name, value, leg) == UNKNOWN && !odd then {(name, value)} else {}
  }

  ghost function UndecidedOf(parts: seq<Node>, leg: Leg, odd: bool): set<(Token, Option<string>)>
    decreases parts, 1
  {
    if parts == [] then {} else Undecided(parts[0], leg, odd) + UndecidedOf(parts[1..], leg, odd)
  }

  /** The setting turns on the undecided leaves of one parity and off those of the other. */
  ghost predicate Leaning(setting: (Token, Option<string>) -> bool, on: set<(Token, Option<string>)>,
    off: set<(Token, Option<string>)>)
  {
    (forall l <- on :: setting(l.0, l.1)) && (forall l <- off :: !setting(l.0, l.1))
  }

  /** A setting that leans one way settles the predicate as its verdict allows. */
  lemma {:induction false} LeaningDecides(node: Node, leg: Leg, setting: (Token, Option<string>) -> bool, want: bool)
    requires Leaning(setting, Undecided(node, leg, !want), Undecided(node, leg, want))
    ensures HoldsUnder(node, leg, setting) <==> Evaluate(node, leg) >= if want then UNKNOWN else TRUE
    decreases node, 0
  {
    match node
    case All(parts) => LeaningDecidesEach(parts, leg, setting, want);
    case Any(parts) => LeaningDecidesEach(parts, leg, setting, want);
    case Not(arg) => LeaningDecides(arg, leg, setting, !want);
    case Leaf(name, value) =>
      assert EvaluateLeaf(name, value, leg) == UNKNOWN ==> (name, value) in Undecided(node, leg, false);
  }

  lemma {:induction false} LeaningDecidesEach(parts: seq<Node>, leg: Leg, setting: (Token,
      Option<string>) -> bool, want: bool)
    requires Leaning(setting, UndecidedOf(parts, leg, !want), UndecidedOf(parts, leg, want))
    ensures (forall p :: p in parts ==> HoldsUnder(p, leg, setting)) <==> Least(parts, leg) >= if want then UNKNOWN else TRUE
    ensures (exists p :: p in parts && HoldsUnder(p, leg, setting)) <==> Greatest(parts, leg) >= if want then UNKNOWN else TRUE
    decreases parts, 1
  {
    hide HoldsUnder, Evaluate, Undecided;
    if parts != [] {
      LeaningDecides(parts[0], leg, setting, want);
      LeaningDecidesEach(parts[1..], leg, setting, want);
      assert forall p :: p in parts <==> p == parts[0] || p in parts[1..];
    }
  }

  /** Where no undecided leaf occurs under both parities of `not`, the verdict is exact under such
      settings too. */
  lemma OneSidedIsExact(node: Node, leg: Leg)
    requires Undecided(node, leg, false) !! Undecided(node, leg, true)
    ensures Evaluate(node, leg) == TRUE <==> forall setting :: HoldsUnder(node, leg, setting)
    ensures Evaluate(node, leg) == FALSE <==> forall setting :: !HoldsUnder(node, leg, setting)
  {
    hide HoldsUnder, Evaluate, Undecided;
    forall setting
      ensures Evaluate(node, leg) == TRUE ==> HoldsUnder(node, leg, setting)
      ensures Evaluate(node, leg) == FALSE ==> !HoldsUnder(node, leg, setting)
    {
      VerdictSoundUnder(node, leg, setting);
    }
    var even, odd := Undecided(node, leg, false), Undecided(node, leg, true);
    var up := (name: Token, value: Option<string>) => (name, value) in even;
    var down := (name: Token, value: Option<string>) => (name, value) in odd;
    assert forall l <- odd :: l !in even;
    LeaningDecides(node, leg, up, true);
    LeaningDecides(node, leg, down, false);
  }

  // ---- polarity ---------------------------------------------------------------------

  /** The feature leaves under an odd number of `not`s, in order, repeats kept; `negated` is the
      parity so far. */
  function NegativeFeatures(node: Node, negated: bool): seq<string>
    decreases node, 0
  {
    match node
    case All(parts) => NegativeFeaturesOf(parts, negated)
    case Any(parts) => NegativeFeaturesOf(parts, negated)
    case Not(arg) => NegativeFeatures(arg, !negated)
    case Leaf(name, value) => if negated && name == Word("feature") && value.Some? then [value.value] else []
  }

  function NegativeFeaturesOf(parts: seq<Node>, negated: bool): seq<string>
    decreases parts, 1
  {
    if parts == [] then [] else NegativeFeatures(parts[0], negated) + NegativeFeaturesOf(parts[1..], negated)
  }

  /** Turning on features that have no negative occurrence never lowers the verdict; with the
      parity flipped, turning on features that have no positive one never raises it. */
  lemma {:induction false} MoreFeatures(node: Node, small: Leg, large: Leg, negated: bool)
    requires small.features <= large.features && small.tests == large.tests
    requires forall f :: f in NegativeFeatures(node, negated) ==> f in small.features || f !in large.features
    ensures if negated then Evaluate(node, large) <= Evaluate(node, small)
            else Evaluate(node, small) <= Evaluate(node, large)
    decreases node, 0
  {
    match node
    case All(parts) => MoreFeaturesEach(parts, small, large, negated);
    case Any(parts) => MoreFeaturesEach(parts, small, large, negated);
    case Not(arg) => MoreFeatures(arg, small, large, !negated);
    case Leaf(_, _) =>
  }

  lemma {:induction false} MoreFeaturesEach(parts: seq<Node>, small: Leg, large: Leg, negated: bool)
    requires small.features <= large.features && small.tests == large.tests
    requires forall f :: f in NegativeFeaturesOf(parts, negated) ==> f in small.features || f !in large.features
    ensures if negated then Least(parts, large) <= Least(parts, small) && Greatest(parts, large) <= Greatest(parts, small)
            else Least(parts, small) <= Least(parts, large) && Greatest(parts, small) <= Greatest(parts, large)
    decreases parts, 1
  {
    if parts != [] {
      MoreFeatures(parts[0], small, large, negated);
      MoreFeaturesEach(parts[1..], small, large, negated);
    }
  }

  /** The form dominance uses: a leg with fewer features witnesses every absence, provided the
      predicate has no negative leaf on a feature it dropped. */
  lemma AbsenceCarriesOver(node: Node, dominated: Leg, dominator: Leg)
    requires dominator.features <= dominated.features && dominator.tests == dominated.tests
    requires forall f :: f in NegativeFeatures(node, false) ==> f !in dominated.features - dominator.features
    requires Evaluate(node, dominated) == FALSE
    ensures Evaluate(node, dominator) == FALSE
  {
    MoreFeatures(node, dominator, dominated, false);
  }

  /** Without the proviso it does not: `not(feature = "x")` is absent with `x` on, present without. */
  lemma NegativeGateInverts(x: string, tests: bool)
    ensures var gate := Not(Leaf(Word("feature"), Some(x)));
      && Evaluate(gate, Leg({x}, tests)) == FALSE
      && Evaluate(gate, Leg({}, tests)) == TRUE
      && NegativeFeatures(gate, false) == [x]
  {
  }

  // ---- occurrences, by their paths --------------------------------------------------

  /** An occurrence: the part taken at each `all` and `any`, 0 at each `not`. */
  type Path = seq<nat>

  datatype Found = Found(name: Token, value: Option<string>, odd: bool)

  /** The leaf a path leads to, and the parity of the `not`s passed. */
  ghost function LeafAt(node: Node, path: Path, odd: bool): Option<Found>
    decreases |path|
  {
    match node
    case Leaf(name, value) => if path == [] then Some(Found(name, value, odd)) else None
    case Not(arg) => if path != [] && path[0] == 0 then LeafAt(arg, path[1..], !odd) else None
    case All(parts) => if path != [] && path[0] < |parts| then LeafAt(parts[path[0]], path[1..], odd) else None
    case Any(parts) => if path != [] && path[0] < |parts| then LeafAt(parts[path[0]], path[1..], odd) else None
  }

  ghost predicate NegativeAt(node: Node, path: Path, odd: bool, f: string) {
    LeafAt(node, path, odd) == Some(Found(Word("feature"), Some(f), true))
  }

  /** The paths to negative feature leaves, each once, and the features there in the same order. */
  ghost predicate Finds(node: Node, odd: bool, paths: seq<Path>, features: seq<string>) {
    && |paths| == |features|
    && (forall i :: 0 <= i < |paths| ==> NegativeAt(node, paths[i], odd, features[i]))
    && (forall i, j :: 0 <= i < j < |paths| ==> paths[i] != paths[j])
    && (forall path, f :: NegativeAt(node, path, odd, f) ==> path in paths)
  }

  /** Within the parts from the `k`-th on. */
  ghost predicate FindsFrom(parts: seq<Node>, k: nat, odd: bool, paths: seq<Path>, features: seq<string>) {
    && |paths| == |features|
    && (forall i :: 0 <= i < |paths| ==>
          paths[i] != [] && k <= paths[i][0] < |parts| && NegativeAt(parts[paths[i][0]], paths[i][1..], odd, features[i]))
    && (forall i, j :: 0 <= i < j < |paths| ==> paths[i] != paths[j])
    && (forall part: nat, path, f :: k <= part < |parts| && NegativeAt(parts[part], path, odd, f) ==> [part] + path in paths)
  }

  function Behind(part: nat, paths: seq<Path>): (r: seq<Path>)
    ensures |r| == |paths| && forall i :: 0 <= i < |paths| ==> r[i] == [part] + paths[i]
  {
    seq(|paths|, i requires 0 <= i < |paths| => [part] + paths[i])
  }

  /** The negative features are those of the occurrences under an odd number of `not`s, one for
      each occurrence. */
  lemma {:induction false} NegativeFeaturesAreFound(node: Node, odd: bool) returns (paths: seq<Path>)
    ensures Finds(node, odd, paths, NegativeFeatures(node, odd))
    decreases node, 0
  {
    hide NegativeFeaturesOf;
    match node
    case Leaf(name, value) =>
      paths := if odd && name == Word("feature") && value.Some? then [[]] else [];
    case Not(arg) =>
      var inner := NegativeFeaturesAreFound(arg, !odd);
      paths := Behind(0, inner);
      NotFinds(arg, odd, inner, NegativeFeatures(arg, !odd));
    case All(parts) =>
      assert parts[0..] == parts;
      paths := PartsAreFound(parts, 0, odd);
      PartsFind(node, parts, odd, paths, NegativeFeaturesOf(parts, odd));
    case Any(parts) =>
      assert parts[0..] == parts;
      paths := PartsAreFound(parts, 0, odd);
      PartsFind(node, parts, odd, paths, NegativeFeaturesOf(parts, odd));
  }

  lemma BehindDiffers(part: nat, paths: seq<Path>)
    requires forall i, j :: 0 <= i < j < |paths| ==> paths[i] != paths[j]
    ensures forall i, j :: 0 <= i < j < |paths| ==> Behind(part, paths)[i] != Behind(part, paths)[j]
  {
    forall i, j | 0 <= i < j < |paths| ensures Behind(part, paths)[i] != Behind(part, paths)[j] {
      assert Behind(part, paths)[i][1..] == paths[i] && Behind(part, paths)[j][1..] == paths[j];
    }
  }

  lemma NotFinds(arg: Node, odd: bool, inner: seq<Path>, features: seq<string>)
    requires Finds(arg, !odd, inner, features)
    ensures Finds(Not(arg), odd, Behind(0, inner), features)
  {
    var paths := Behind(0, inner);
    BehindDiffers(0, inner);
    forall i | 0 <= i < |paths| ensures NegativeAt(Not(arg), paths[i], odd, features[i]) {
      assert paths[i][1..] == inner[i];
      assert NegativeAt(arg, inner[i], !odd, features[i]);
    }
    forall path, f | NegativeAt(Not(arg), path, odd, f) ensures path in paths {
      assert NegativeAt(arg, path[1..], !odd, f);
      var i :| 0 <= i < |inner| && inner[i] == path[1..];
      assert paths[i] == path;
    }
  }

  lemma PartsFind(node: Node, parts: seq<Node>, odd: bool, paths: seq<Path>, features: seq<string>)
    requires (node == All(parts) || node == Any(parts)) && FindsFrom(parts, 0, odd, paths, features)
    ensures Finds(node, odd, paths, features)
  {
    forall i | 0 <= i < |paths| ensures NegativeAt(node, paths[i], odd, features[i]) {
      assert NegativeAt(parts[paths[i][0]], paths[i][1..], odd, features[i]);
    }
    forall path, f | NegativeAt(node, path, odd, f) ensures path in paths {
      assert NegativeAt(parts[path[0]], path[1..], odd, f);
      assert [path[0]] + path[1..] == path;
    }
  }

  lemma {:induction false} PartsAreFound(parts: seq<Node>, k: nat, odd: bool) returns (paths: seq<Path>)
    requires k <= |parts|
    ensures FindsFrom(parts, k, odd, paths, NegativeFeaturesOf(parts[k..], odd))
    decreases parts[k..], 1
  {
    hide NegativeFeatures, LeafAt;
    if k == |parts| {
      paths := [];
    } else {
      assert parts[k..][0] == parts[k] && parts[k..][1..] == parts[k + 1..];
      var first := NegativeFeaturesAreFound(parts[k], odd);
      var rest := PartsAreFound(parts, k + 1, odd);
      paths := Behind(k, first) + rest;
      OnePartMore(parts, k, odd, first, NegativeFeatures(parts[k], odd), rest, NegativeFeaturesOf(parts[k + 1..], odd));
    }
  }

  lemma OnePartMore(parts: seq<Node>, k: nat, odd: bool, first: seq<Path>, here: seq<string>, rest: seq<Path>,
      there: seq<string>)
    requires k < |parts| && Finds(parts[k], odd, first, here) && FindsFrom(parts, k + 1, odd, rest, there)
    ensures FindsFrom(parts, k, odd, Behind(k, first) + rest, here + there)
  {
    hide NegativeAt;
    var paths, features := Behind(k, first) + rest, here + there;
    BehindDiffers(k, first);
    forall i | 0 <= i < |paths|
      ensures paths[i] != [] && k <= paths[i][0] < |parts| && NegativeAt(parts[paths[i][0]], paths[i][1..], odd, features[i])
    {
      if i < |first| { assert paths[i][1..] == first[i]; } else { assert paths[i] == rest[i - |first|]; }
    }
    forall i, j | 0 <= i < j < |paths| ensures paths[i] != paths[j] {
      if i < |first| <= j { assert paths[i][0] == k && rest[j - |first|][0] > k; }
    }
    forall part: nat, path, f | k <= part < |parts| && NegativeAt(parts[part], path, odd, f) ensures [part] + path in paths {
      if part == k {
        var i :| 0 <= i < |first| && first[i] == path;
        assert paths[i] == [part] + path;
      } else {
        var i :| 0 <= i < |rest| && rest[i] == [part] + path;
        assert paths[|first| + i] == [part] + path;
      }
    }
  }
}
