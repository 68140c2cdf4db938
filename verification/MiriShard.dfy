/** The shard plan for the Miri jobs: the LPT assignment, the guard that re-checks it, and the
    flags each shard hands to cargo. Weights are naturals (tenths of a second). */
module MiriShard {
  import opened Wrappers
  import opened Sequences
  import opened Sorting
  import opened Scheduling

  datatype Weights = Weights(table: map<string, nat>, fallback: nat) {
    /** A target with no entry falls back to the default weight. */
    function Of(name: string): nat {
      if name in table then table[name] else fallback
    }
  }

  datatype Refusal =
    | ShardTotalTooSmall
    | TooFewTargets
    | EmptyShard(shard: nat)
    | SizeMismatch
    | AssignedTwice
    | WrongUnion
    | UnknownUnit

  // ---- the order of assignment ------------------------------------------------------

  predicate Heavier(w: Weights, a: string, b: string) {
    w.Of(a) > w.Of(b) || (w.Of(a) == w.Of(b) && NameLe(a, b))
  }

  function ByWeight(w: Weights): (string, string) -> bool {
    (a: string, b: string) => Heavier(w, a, b)
  }

  lemma ByWeightOrder(w: Weights)
    ensures TotalOrder(ByWeight(w))
  {
    NameOrder();
    var le := ByWeight(w);
    forall a, b ensures le(a, b) || le(b, a) { NameLeTotal(a, b); }
    forall a, b | le(a, b) && le(b, a) ensures a == b { NameLeAntisymmetric(a, b); }
    forall a, b, c | le(a, b) && le(b, c) ensures le(a, c) {
      if w.Of(a) == w.Of(b) == w.Of(c) { NameLeTransitive(a, b, c); }
    }
  }

  function Order(names: seq<string>, w: Weights): (r: seq<string>)
    ensures multiset(r) == multiset(names) && |r| == |names|
  {
    Sort(ByWeight(w), names)
  }

  function Costs(names: seq<string>, w: Weights): (p: seq<nat>)
    ensures |p| == |names|
  {
    Map(w.Of, names)
  }

  function Cost(shard: seq<string>, w: Weights): nat {
    SumOfNats(Costs(shard, w));
    Sum(Costs(shard, w))
  }

  lemma OrderNonIncreasing(names: seq<string>, w: Weights)
    ensures NonIncreasing(Costs(Order(names, w), w))
  {
    ByWeightOrder(w);
    SortSorted(ByWeight(w), names);
  }

  // ---- the plan ---------------------------------------------------------------------

  /** The names an assignment gives to shard `s`, in assignment order. */
  function Members(order: seq<string>, a: seq<nat>, s: nat): (r: seq<string>)
    requires |a| == |order|
  {
    if order == [] then []
    else Members(Front(order), Front(a), s) + if Last(a) == s then [Last(order)] else []
  }

  function MembersAll(order: seq<string>, a: seq<nat>, m: nat): (r: seq<seq<string>>)
    requires |a| == |order|
    ensures |r| == m
  {
    seq(m, s requires 0 <= s < m => Members(order, a, s))
  }

  function Assignment(names: seq<string>, w: Weights, m: nat): (a: seq<nat>)
    requires m >= 1
    ensures |a| == |names| && ValidFor(a, m)
  {
    Greedy(Costs(Order(names, w), w), m)
  }

  /** What `partition` computes: each shard's names, sorted. */
  function Plan(names: seq<string>, w: Weights, m: nat): (shards: seq<seq<string>>)
    requires m >= 1
    ensures |shards| == m
  {
    SortEach(MembersAll(Order(names, w), Assignment(names, w, m), m))
  }

  function SortEach(lists: seq<seq<string>>): (r: seq<seq<string>>)
    ensures |r| == |lists| && forall s :: 0 <= s < |lists| ==> r[s] == SortNames(lists[s])
  {
    seq(|lists|, s requires 0 <= s < |lists| => SortNames(lists[s]))
  }

  function Flat(shards: seq<seq<string>>): seq<string> {
    if shards == [] then [] else Flat(Front(shards)) + Last(shards)
  }

  ghost predicate NoEmptyShard(shards: seq<seq<string>>) {
    forall s :: 0 <= s < |shards| ==> shards[s] != []
  }

  /** The guard's question, stated outright. */
  ghost predicate ExactCover(names: seq<string>, shards: seq<seq<string>>) {
    NoEmptyShard(shards) && StrictlySorted(names) && multiset(Flat(shards)) == multiset(names)
  }

  ghost predicate HasDuplicate(names: seq<string>) {
    exists n :: n in names && multiset(names)[n] > 1
  }

  /** What the guard answers: nothing exactly for an exact cover, else the first check that fails. */
  ghost predicate Judged(names: seq<string>, shards: seq<seq<string>>, r: Option<Refusal>) {
    && (r.None? <==> ExactCover(names, shards))
    && (forall s: nat :: r == Some(EmptyShard(s)) <==> s < |shards| && shards[s] == [] && NoEmptyShard(shards[..s]))
    && (r == Some(SizeMismatch) <==> NoEmptyShard(shards) && |Flat(shards)| != |names|)
    && (r == Some(AssignedTwice) <==>
          NoEmptyShard(shards) && |Flat(shards)| == |names| && HasDuplicate(Flat(shards)))
    && (r == Some(WrongUnion) <==>
          NoEmptyShard(shards) && |Flat(shards)| == |names| && !HasDuplicate(Flat(shards))
          && SortNames(Flat(shards)) != names)
    && (r.Some? ==> !r.value.ShardTotalTooSmall? && !r.value.TooFewTargets? && !r.value.UnknownUnit?)
  }

  method VerifyPartition(names: seq<string>, shards: seq<seq<string>>) returns (r: Option<Refusal>)
    ensures Judged(names, shards, r)
  {
    for s := 0 to |shards|
      invariant NoEmptyShard(shards[..s])
    {
      if shards[s] == [] {
        return Some(EmptyShard(s));
      }
    }
    var flat := Flat(shards);
    if |flat| != |names| {
      assert |multiset(flat)| != |multiset(names)|;
      return Some(SizeMismatch);
    }
    var dupes := set n | n in flat && multiset(flat)[n] > 1;
    if dupes != {} {
      var n :| n in dupes;
      if ExactCover(names, shards) {
        CountOfDistinct(names, n);
      }
      return Some(AssignedTwice);
    }
    assert !HasDuplicate(flat) by {
      forall n | n in flat ensures multiset(flat)[n] <= 1 { assert n !in dupes; }
    }
    SortedIff(names, flat);
    if SortNames(flat) != names {
      return Some(WrongUnion);
    }
    r := None;
  }

  lemma {:induction false} CountOfDistinct(names: seq<string>, n: string)
    requires StrictlySorted(names)
    ensures multiset(names)[n] <= 1
  {
    if names != [] {
      assert names == Front(names) + [Last(names)];
      CountOfDistinct(Front(names), n);
      if n == Last(names) {
        assert n !in Front(names);
      }
    }
  }

  lemma {:induction false} CountOfTwo(names: seq<string>, i: nat, j: nat)
    requires i < j < |names| && names[i] == names[j]
    ensures multiset(names)[names[i]] >= 2
  {
    assert names == names[..j] + [names[j]] + names[j + 1..];
    assert names[i] in names[..j];
  }

  lemma InBag(flat: seq<string>, n: string)
    requires multiset(flat)[n] > 1
    ensures HasDuplicate(flat)
  {
    assert n in multiset(flat);
  }

  /** Comparing `sorted(flat)` with the names is the exact-cover question, once nothing repeats. */
  lemma SortedIff(names: seq<string>, flat: seq<string>)
    requires !HasDuplicate(flat)
    ensures SortNames(flat) == names <==> StrictlySorted(names) && multiset(flat) == multiset(names)
  {
    NameOrder();
    SortSorted(NameLe, flat);
    if SortNames(flat) == names {
      forall i, j | 0 <= i < j < |names| ensures names[i] != names[j] {
        if names[i] == names[j] {
          CountOfTwo(names, i, j);
          InBag(flat, names[i]);
        }
      }
    } else if StrictlySorted(names) && multiset(flat) == multiset(names) {
      SortedUnique(NameLe, SortNames(flat), names);
    }
  }

  lemma LoadsSnoc(p: seq<nat>, a: seq<nat>, m: nat, x: nat, s: nat)
    requires |a| == |p| && s < m
    ensures Loads(p + [x], a + [s], m) == Loads(p, a, m)[s := Loads(p, a, m)[s] + x]
  {
    assert Front(p + [x]) == p && Front(a + [s]) == a;
  }

  lemma MembersSnoc(order: seq<string>, a: seq<nat>, m: nat, n: string, s: nat)
    requires |a| == |order| && s < m
    ensures MembersAll(order + [n], a + [s], m) == MembersAll(order, a, m)[s := MembersAll(order, a, m)[s] + [n]]
  {
    assert Front(order + [n]) == order && Front(a + [s]) == a;
    forall t | 0 <= t < m
      ensures MembersAll(order + [n], a + [s], m)[t] == MembersAll(order, a, m)[s := MembersAll(order, a, m)[s] + [n]][t]
    {
      assert Members(order + [n], a + [s], t) == Members(order, a, t) + if s == t then [n] else [];
    }
  }

  lemma GreedySnoc(p: seq<nat>, x: nat, m: nat)
    requires m >= 1
    ensures Greedy(p + [x], m) == Greedy(p, m) + [Least(Loads(p, Greedy(p, m), m))]
  {
    assert Front(p + [x]) == p;
  }

  lemma CostsSnoc(order: seq<string>, n: string, w: Weights)
    ensures Costs(order + [n], w) == Costs(order, w) + [w.Of(n)]
  {
  }

  /** One greedy step: what the assignment and the loads become when a job is placed. */
  lemma PlaceNext(p: seq<nat>, x: nat, m: nat)
    requires m >= 1
    ensures
      var a := Greedy(p, m);
      var s := Least(Loads(p, a, m));
      && Greedy(p + [x], m) == a + [s]
      && Loads(p + [x], a + [s], m) == Loads(p, a, m)[s := Loads(p, a, m)[s] + x]
  {
    hide Greedy, Loads, Least;
    GreedySnoc(p, x, m);
    LoadsSnoc(p, Greedy(p, m), m, x, Least(Loads(p, Greedy(p, m), m)));
  }

  /** The running state of the loop in `partition`, after the names `done`. */
  ghost predicate Placed(done: seq<string>, w: Weights, cost: seq<nat>, shards: seq<seq<string>>, m: nat)
    requires m >= 1
  {
    var p := Costs(done, w);
    cost == Loads(p, Greedy(p, m), m) && shards == MembersAll(done, Greedy(p, m), m)
  }

  lemma PlacedNothing(w: Weights, m: nat)
    requires m >= 1
    ensures Placed([], w, seq(m, _ => 0), seq(m, _ => []), m)
  {
  }

  lemma PlacedNext(done: seq<string>, w: Weights, cost: seq<nat>, shards: seq<seq<string>>, m: nat, n: string)
    requires m >= 1 && Placed(done, w, cost, shards, m)
    ensures |cost| == |shards| == m
    ensures
      var s := Least(cost);
      Placed(done + [n], w, cost[s := cost[s] + w.Of(n)], shards[s := shards[s] + [n]], m)
  {
    hide Greedy, Loads, MembersAll, Costs, Least;
    var p := Costs(done, w);
    CostsSnoc(done, n, w);
    PlaceNext(p, w.Of(n), m);
    MembersSnoc(done, Greedy(p, m), m, n, Least(cost));
  }

  method Distribute(names: seq<string>, w: Weights, m: nat) returns (plan: seq<seq<string>>)
    requires m >= 1
    ensures plan == Plan(names, w, m) && Scheduled(names, w, m, plan)
  {
    hide Placed, Plan, Scheduled;
    var order := Order(names, w);
    var shards: seq<seq<string>> := seq(m, _ => []);
    var shardCost: seq<nat> := seq(m, _ => 0);
    PlacedNothing(w, m);
    for k := 0 to |order|
      invariant |shardCost| == |shards| == m
      invariant Placed(order[..k], w, shardCost, shards, m)
    {
      var n := order[k];
      var s := Least(shardCost);
      PlacedNext(order[..k], w, shardCost, shards, m, n);
      shards := shards[s := shards[s] + [n]];
      shardCost := shardCost[s := shardCost[s] + w.Of(n)];
      assert order[..k + 1] == order[..k] + [n];
    }
    assert order[..|order|] == order;
    plan := SortEach(shards);
    PlacedEverything(names, w, shardCost, shards, m);
    PlanIsTheSchedule(names, w, m, plan);
  }

  lemma PlacedEverything(names: seq<string>, w: Weights, cost: seq<nat>, shards: seq<seq<string>>, m: nat)
    requires m >= 1 && Placed(Order(names, w), w, cost, shards, m)
    ensures SortEach(shards) == Plan(names, w, m)
  {
  }

  method Partition(names: seq<string>, w: Weights, shardTotal: int) returns (r: Result<seq<seq<string>>, Refusal>)
    ensures r == Err(ShardTotalTooSmall) <==> shardTotal < 1
    ensures r == Err(TooFewTargets) <==> shardTotal >= 1 && shardTotal > |names|
    ensures r.Ok? <==>
      1 <= shardTotal <= |names| && StrictlySorted(names) && Positives(Costs(names, w)) + 1 >= shardTotal
    ensures r.Ok? ==> r.value == Plan(names, w, shardTotal) && ExactCover(names, r.value)
    ensures r.Ok? ==> Scheduled(names, w, shardTotal, r.value)
    ensures forall s: nat :: r == Err(EmptyShard(s)) <==>
      1 <= shardTotal <= |names| && Positives(Costs(names, w)) + 1 < shardTotal && s == Positives(Costs(names, w)) + 1
    ensures r == Err(AssignedTwice) <==>
      1 <= shardTotal <= |names| && Positives(Costs(names, w)) + 1 >= shardTotal && HasDuplicate(names)
    ensures r == Err(WrongUnion) <==>
      1 <= shardTotal <= |names| && Positives(Costs(names, w)) + 1 >= shardTotal && !HasDuplicate(names) && !StrictlySorted(names)
  {
    if shardTotal < 1 {
      return Err(ShardTotalTooSmall);
    }
    if shardTotal > |names| {
      return Err(TooFewTargets);
    }
    hide Plan, ExactCover, HasDuplicate, StrictlySorted, Positives, Costs, Scheduled, Judged;
    var plan := Distribute(names, w, shardTotal);
    var verdict := VerifyPartition(names, plan);
    PlanIsJudged(names, w, shardTotal, verdict);
    if verdict.Some? {
      r := Err(verdict.value);
    } else {
      r := Ok(plan);
    }
  }

  /** What the partition checker will see of the plan. */
  lemma PlanFacts(names: seq<string>, w: Weights, m: nat)
    requires 1 <= m <= |names|
    ensures var plan, last := Plan(names, w, m), Positives(Costs(names, w));
      && (NoEmptyShard(plan) <==> last + 1 >= m)
      && (forall s: nat :: s < m && plan[s] == [] && NoEmptyShard(plan[..s]) <==> last + 1 < m && s == last + 1)
      && |Flat(plan)| == |names|
      && (HasDuplicate(Flat(plan)) <==> HasDuplicate(names))
      && (!HasDuplicate(names) ==> (SortNames(Flat(plan)) == names <==> StrictlySorted(names)))
      && (ExactCover(names, plan) <==> last + 1 >= m && StrictlySorted(names))
      && (StrictlySorted(names) ==> !HasDuplicate(names))
  {
    hide Plan, StrictlySorted, Flat, Positives, Costs, SortNames, NoEmptyShard, HasDuplicate;
    var plan := Plan(names, w, m);
    PlanCovers(names, w, m);
    PlanEmptiness(names, w, m);
    FirstEmpty(plan, Positives(Costs(names, w)));
    SameBag(names, Flat(plan));
    if !HasDuplicate(names) { SortedIff(names, Flat(plan)); }
    if StrictlySorted(names) { SortedHasNoDuplicate(names); }
  }

  /** What the guard answers of the plan. */
  lemma PlanIsJudged(names: seq<string>, w: Weights, m: nat, r: Option<Refusal>)
    requires 1 <= m <= |names| && Judged(names, Plan(names, w, m), r)
    ensures var enough := Positives(Costs(names, w)) + 1 >= m;
      && (r.None? <==> enough && StrictlySorted(names)) && (r.None? ==> ExactCover(names, Plan(names, w, m)))
      && (forall s: nat :: r == Some(EmptyShard(s)) <==> !enough && s == Positives(Costs(names, w)) + 1)
      && (r == Some(AssignedTwice) <==> enough && HasDuplicate(names))
      && (r == Some(WrongUnion) <==> enough && !HasDuplicate(names) && !StrictlySorted(names))
      && (r.Some? ==> !r.value.ShardTotalTooSmall? && !r.value.TooFewTargets?)
  {
    hide Plan, NoEmptyShard, ExactCover, HasDuplicate, StrictlySorted, Flat, Positives, Costs, SortNames;
    PlanFacts(names, w, m);
  }

  lemma SameBag(a: seq<string>, b: seq<string>)
    requires multiset(a) == multiset(b)
    ensures |a| == |b| && (HasDuplicate(a) <==> HasDuplicate(b))
  {
    assert |a| == |multiset(a)| == |multiset(b)| == |b|;
    assert forall n :: n in a <==> n in multiset(a);
    assert forall n :: n in b <==> n in multiset(b);
  }

  lemma SortedHasNoDuplicate(names: seq<string>)
    requires StrictlySorted(names)
    ensures !HasDuplicate(names)
  {
    forall n | n in names ensures multiset(names)[n] <= 1 {
      CountOfDistinct(names, n);
    }
  }

  /** When exactly the shards up to `last` are in use, the first empty one is the next. */
  lemma FirstEmpty(plan: seq<seq<string>>, last: nat)
    requires forall s :: 0 <= s < |plan| ==> (plan[s] == [] <==> s > last)
    ensures NoEmptyShard(plan) <==> last + 1 >= |plan|
    ensures forall s: nat :: s < |plan| && plan[s] == [] && NoEmptyShard(plan[..s]) <==>
      last + 1 < |plan| && s == last + 1
  {
    if last + 1 < |plan| { assert plan[last + 1] == []; }
    forall s: nat | s < |plan| && plan[s] == [] && NoEmptyShard(plan[..s]) ensures s == last + 1 {
      if s > last + 1 { InPrefix(plan, s, last + 1); }
    }
  }

  lemma InPrefix(plan: seq<seq<string>>, s: nat, e: nat)
    requires e < s <= |plan| && NoEmptyShard(plan[..s])
    ensures plan[e] != []
  {
    assert plan[..s][e] == plan[e];
  }

  // ---- the plan covers the names exactly --------------------------------------------

  lemma {:induction false} MembersAt(order: seq<string>, a: seq<nat>, s: nat)
    requires |a| == |order|
    ensures Members(order, a, s) != [] <==> s in a
  {
    if order != [] {
      MembersAt(Front(order), Front(a), s);
      assert a == Front(a) + [Last(a)];
    }
  }

  lemma {:induction false} FlatAppend(shards: seq<seq<string>>, s: nat, n: string)
    requires s < |shards|
    ensures multiset(Flat(shards[s := shards[s] + [n]])) == multiset(Flat(shards)) + multiset{n}
  {
    var after := shards[s := shards[s] + [n]];
    if s == |shards| - 1 {
      assert Front(after) == Front(shards);
    } else {
      FlatAppend(Front(shards), s, n);
      assert Front(after) == Front(shards)[s := shards[s] + [n]];
    }
  }

  lemma {:induction false} FlatOfEmpties(shards: seq<seq<string>>)
    requires forall s :: 0 <= s < |shards| ==> shards[s] == []
    ensures Flat(shards) == []
  {
    if shards != [] { FlatOfEmpties(Front(shards)); }
  }

  lemma {:induction false} MembersPartition(order: seq<string>, a: seq<nat>, m: nat)
    requires |a| == |order| && ValidFor(a, m)
    ensures multiset(Flat(MembersAll(order, a, m))) == multiset(order)
  {
    hide MembersAll, Flat;
    if order == [] {
      NoMembers(a, m);
    } else {
      MembersPartition(Front(order), Front(a), m);
      OneMoreMember(order, a, m);
      BagFront(order);
    }
  }

  lemma NoMembers(a: seq<nat>, m: nat)
    requires a == []
    ensures Flat(MembersAll([], a, m)) == []
  {
    FlatOfEmpties(MembersAll([], a, m));
  }

  lemma OneMoreMember(order: seq<string>, a: seq<nat>, m: nat)
    requires order != [] && |a| == |order| && ValidFor(a, m)
    ensures multiset(Flat(MembersAll(order, a, m)))
         == multiset(Flat(MembersAll(Front(order), Front(a), m))) + multiset{Last(order)}
  {
    hide MembersAll, Flat;
    MembersSnoc(Front(order), Front(a), m, Last(order), Last(a));
    assert order == Front(order) + [Last(order)] && a == Front(a) + [Last(a)];
    FlatAppend(MembersAll(Front(order), Front(a), m), Last(a), Last(order));
  }

  lemma {:induction false} FlatOfPermutations(x: seq<seq<string>>, y: seq<seq<string>>)
    requires |x| == |y| && forall s :: 0 <= s < |x| ==> multiset(x[s]) == multiset(y[s])
    ensures multiset(Flat(x)) == multiset(Flat(y))
  {
    if x != [] {
      FlatOfPermutations(Front(x), Front(y));
      assert multiset(Last(x)) == multiset(Last(y));
    }
  }

  /** Every name lands in exactly one shard, whatever the weights. */
  lemma PlanCovers(names: seq<string>, w: Weights, m: nat)
    requires m >= 1
    ensures multiset(Flat(Plan(names, w, m))) == multiset(names)
  {
    var order, a := Order(names, w), Assignment(names, w, m);
    MembersPartition(order, a, m);
    FlatOfPermutations(Plan(names, w, m), MembersAll(order, a, m));
  }

  // ---- which shards stay empty ------------------------------------------------------

  function Sign(x: nat): nat { if x > 0 then 1 else 0 }

  lemma {:induction false} PositivesAsSum(p: seq<nat>)
    ensures Positives(p) == Sum(Map(Sign, p))
  {
    if p != [] {
      PositivesAsSum(Front(p));
      assert Front(Map(Sign, p)) == Map(Sign, Front(p));
    }
  }

  lemma PositivesPermute(p: seq<nat>, q: seq<nat>)
    requires multiset(p) == multiset(q)
    ensures Positives(p) == Positives(q)
  {
    PositivesAsSum(p);
    PositivesAsSum(q);
    MapPermutes(Sign, p, q);
    SumPermutes(Map(Sign, p), Map(Sign, q));
  }

  /** The shards in use are a prefix; shard number `Touched` is the first empty one, if any. */
  lemma PlanEmptiness(names: seq<string>, w: Weights, m: nat)
    requires 1 <= m <= |names|
    ensures forall s :: 0 <= s < m ==> (Plan(names, w, m)[s] == [] <==> s > Positives(Costs(names, w)))
  {
    hide Greedy, Load, Positives, Members, SortNames;
    var order := Order(names, w);
    var p, a := Costs(order, w), Assignment(names, w, m);
    OrderNonIncreasing(names, w);
    MapPermutes(w.Of, order, names);
    PositivesPermute(p, Costs(names, w));
    FillShape(p, m);
    PositivesFirst(p);
    forall s | 0 <= s < m ensures Plan(names, w, m)[s] == [] <==> s > Positives(Costs(names, w)) {
      MembersAt(order, a, s);
      assert multiset(Plan(names, w, m)[s]) == multiset(Members(order, a, s));
      assert Plan(names, w, m)[s] == [] <==> |multiset(Plan(names, w, m)[s])| == 0;
      assert Members(order, a, s) == [] <==> |multiset(Members(order, a, s))| == 0;
    }
  }

  /** The remark that LPT "cannot emit an empty shard" fails on weightless targets: three names,
      two of them free, leave the third shard with nothing. */
  lemma EmptyShardWitness() returns (names: seq<string>, w: Weights)
    ensures |names| == 3 && StrictlySorted(names) && Plan(names, w, 3)[2] == []
  {
    names, w := ["a", "b", "c"], Weights(map["a" := 5], 0);
    ThirdShardEmpty(names, w, 'a', 'b', 'c');
  }

  lemma ThirdShardEmpty(names: seq<string>, w: Weights, a: char, b: char, c: char)
    requires names == [[a], [b], [c]] && a < b < c
    requires w.Of([b]) == w.Of([c]) == 0
    ensures StrictlySorted(names) && Plan(names, w, 3)[2] == []
  {
    var p := Costs(names, w);
    assert p == [p[0], 0, 0];
    assert Front(p) == [p[0], 0] && Front([p[0], 0]) == [p[0]] && Front([p[0]]) == [];
    assert Positives(p) == Positives([p[0], 0]) == Positives([p[0]]) <= 1;
    PlanEmptiness(names, w, 3);
  }

  // ---- determinism ------------------------------------------------------------------

  /** The plan depends on which names there are, not on the order they were enumerated in. */
  lemma PlanIgnoresInputOrder(names: seq<string>, other: seq<string>, w: Weights, m: nat)
    requires m >= 1 && multiset(names) == multiset(other)
    ensures Plan(names, w, m) == Plan(other, w, m)
  {
    ByWeightOrder(w);
    SortOfPermutation(ByWeight(w), names, other);
  }

  // ---- the plan, said outright ------------------------------------------------------

  /** The names by falling weight, those of equal weight by name; a name the table does not list
      has the default weight. */
  ghost predicate FallingWeight(o: seq<string>, w: Weights) {
    forall i, j :: 0 <= i < j < |o| ==>
      var x, y := (if o[i] in w.table then w.table[o[i]] else w.fallback),
                  (if o[j] in w.table then w.table[o[j]] else w.fallback);
      x > y || (x == y && ComesFirst(o[i], o[j]))
  }

  /** What the first `k` names put on shard `s`. */
  ghost function Carried(o: seq<string>, w: Weights, a: seq<nat>, s: nat, k: nat): nat
    requires k <= |o| == |a|
  {
    if k == 0 then 0
    else
      Carried(o, w, a, s, k - 1)
      + if a[k - 1] != s then 0 else if o[k - 1] in w.table then w.table[o[k - 1]] else w.fallback
  }

  /** Each name goes to the lowest of the shards that carry the least of what went before it. */
  ghost predicate LeastCarried(o: seq<string>, w: Weights, a: seq<nat>, m: nat) {
    && |a| == |o|
    && forall k :: 0 <= k < |a| ==> LowestOfLeast(o, w, a, m, k)
  }

  ghost predicate LowestOfLeast(o: seq<string>, w: Weights, a: seq<nat>, m: nat, k: nat)
    requires k < |a| == |o|
  {
    && a[k] < m
    && (forall s :: 0 <= s < m ==> Carried(o, w, a, a[k], k) <= Carried(o, w, a, s, k))
    && (forall s :: 0 <= s < a[k] ==> Carried(o, w, a, a[k], k) < Carried(o, w, a, s, k))
  }

  /** Exactly the places at which the assignment names shard `s`, in order. */
  ghost predicate Places(at: seq<nat>, a: seq<nat>, s: nat) {
    && (forall i, j :: 0 <= i < j < |at| ==> at[i] < at[j])
    && forall k :: k in at <==> 0 <= k < |a| && a[k] == s
  }

  ghost predicate InNameOrder(shard: seq<string>) {
    forall i, j :: 0 <= i < j < |shard| ==> ComesFirst(shard[i], shard[j])
  }

  /** The names at these places. */
  ghost function Picked(o: seq<string>, at: seq<nat>): seq<string> {
    Map((k: nat) => if k < |o| then o[k] else "", at)
  }

  /** The shard holds what the assignment gives it, in name order. */
  ghost predicate Holds(shard: seq<string>, o: seq<string>, a: seq<nat>, s: nat)
    requires |a| == |o|
  {
    InNameOrder(shard) && exists at :: Places(at, a, s) && multiset(shard) == multiset(Picked(o, at))
  }

  /** The shards are those of longest-processing-time scheduling of the names. */
  ghost predicate Scheduled(names: seq<string>, w: Weights, m: nat, shards: seq<seq<string>>) {
    |shards| == m && exists o, a :: ScheduledBy(names, w, m, shards, o, a)
  }

  ghost predicate ScheduledBy(names: seq<string>, w: Weights, m: nat, shards: seq<seq<string>>, o: seq<string>,
      a: seq<nat>)
    requires |shards| == m
  {
    && multiset(o) == multiset(names) && FallingWeight(o, w) && LeastCarried(o, w, a, m)
    && forall s :: 0 <= s < m ==> Holds(shards[s], o, a, s)
  }

  lemma FallingWeightIff(o: seq<string>, w: Weights)
    ensures FallingWeight(o, w) <==> Sorted(ByWeight(w), o)
  {
    forall a, b ensures NameLe(a, b) <==> ComesFirst(a, b) { NameLeIff(a, b); }
  }

  lemma InNameOrderIff(shard: seq<string>)
    ensures InNameOrder(shard) <==> Sorted(NameLe, shard)
  {
    forall a, b ensures NameLe(a, b) <==> ComesFirst(a, b) { NameLeIff(a, b); }
  }

  lemma {:induction false} CarriedIsLoad(o: seq<string>, w: Weights, a: seq<nat>, s: nat, k: nat)
    requires k <= |o| == |a|
    ensures Carried(o, w, a, s, k) == Load(Costs(o[..k], w), a[..k], s)
    decreases k
  {
    if k > 0 {
      CarriedIsLoad(o, w, a, s, k - 1);
      assert Front(Costs(o[..k], w)) == Costs(o[..k - 1], w) && Front(a[..k]) == a[..k - 1];
      assert Last(Costs(o[..k], w)) == w.Of(o[k - 1]) && Last(a[..k]) == a[k - 1];
    }
  }

  /** Such an assignment is the greedy one. */
  lemma {:induction false} LeastCarriedIff(o: seq<string>, w: Weights, a: seq<nat>, m: nat)
    requires m >= 1 && |a| == |o|
    ensures LeastCarried(o, w, a, m) <==> a == Greedy(Costs(o, w), m)
    decreases |o|
  {
    hide Greedy, Load, Carried, Costs;
    if o != [] {
      var o', a' := Front(o), Front(a);
      LeastCarriedIff(o', w, a', m);
      LeastCarriedSnoc(o, w, a, m);
      CostsSnoc(o', Last(o), w);
      assert o == o' + [Last(o)] && a == a' + [Last(a)];
      GreedySnoc(Costs(o', w), w.Of(Last(o)), m);
    } else {
      NothingGreedy(w, m);
    }
  }

  lemma NothingGreedy(w: Weights, m: nat)
    requires m >= 1
    ensures Greedy(Costs([], w), m) == []
  {
  }

  lemma {:induction false} CarriedFront(o: seq<string>, w: Weights, a: seq<nat>, s: nat, k: nat)
    requires k < |o| == |a|
    ensures Carried(o, w, a, s, k) == Carried(Front(o), w, Front(a), s, k)
    decreases k
  {
    if k > 0 { CarriedFront(o, w, a, s, k - 1); }
  }

  lemma LowestFront(o: seq<string>, w: Weights, a: seq<nat>, m: nat, k: nat)
    requires k < |o| - 1 && |a| == |o|
    ensures LowestOfLeast(o, w, a, m, k) <==> LowestOfLeast(Front(o), w, Front(a), m, k)
  {
    hide Carried;
    forall s: nat ensures Carried(o, w, a, s, k) == Carried(Front(o), w, Front(a), s, k) {
      CarriedFront(o, w, a, s, k);
    }
  }

  lemma LowestLast(o: seq<string>, w: Weights, a: seq<nat>, m: nat)
    requires m >= 1 && |a| == |o| && o != []
    ensures LowestOfLeast(o, w, a, m, |o| - 1) <==> Last(a) == Least(Loads(Costs(Front(o), w), Front(a), m))
  {
    hide Carried, Costs, Load, Least;
    var n := |o| - 1;
    var loads := Loads(Costs(Front(o), w), Front(a), m);
    forall s: nat | s < m ensures Carried(o, w, a, s, n) == loads[s] {
      CarriedIsLoad(o, w, a, s, n);
    }
    if LowestOfLeast(o, w, a, m, n) { LeastIs(loads, Last(a)); }
  }

  lemma LeastCarriedSnoc(o: seq<string>, w: Weights, a: seq<nat>, m: nat)
    requires m >= 1 && |a| == |o| && o != []
    ensures LeastCarried(o, w, a, m) <==>
      LeastCarried(Front(o), w, Front(a), m) && Last(a) == Least(Loads(Costs(Front(o), w), Front(a), m))
  {
    hide LowestOfLeast, Least, Loads, Costs;
    var n := |o| - 1;
    LowestLast(o, w, a, m);
    forall k | 0 <= k < n ensures LowestOfLeast(o, w, a, m, k) <==> LowestOfLeast(Front(o), w, Front(a), m, k) {
      LowestFront(o, w, a, m, k);
    }
  }

  lemma {:induction false} MembersPlaces(o: seq<string>, a: seq<nat>, s: nat) returns (at: seq<nat>)
    requires |a| == |o|
    ensures Places(at, a, s) && Members(o, a, s) == Picked(o, at)
    decreases |o|
  {
    if o == [] {
      at := [];
    } else {
      at := MembersPlaces(Front(o), Front(a), s);
      MorePlaces(o, a, s, at);
      at := at + if Last(a) == s then [|o| - 1] else [];
    }
  }

  lemma MorePlaces(o: seq<string>, a: seq<nat>, s: nat, at: seq<nat>)
    requires |a| == |o| && o != [] && Places(at, Front(a), s)
    ensures var more := at + if Last(a) == s then [|o| - 1] else [];
      Places(more, a, s) && Picked(o, more) == Picked(Front(o), at) + if Last(a) == s then [Last(o)] else []
  {
    var n := |o| - 1;
    var more := at + if Last(a) == s then [n] else [];
    forall k ensures k in more <==> 0 <= k < |a| && a[k] == s {
      assert k in at <==> 0 <= k < n && Front(a)[k] == s;
    }
    forall i | 0 <= i < |at| ensures at[i] < n { assert at[i] in at; }
  }

  lemma {:induction false} PlacesAreUnique(x: seq<nat>, y: seq<nat>, a: seq<nat>, s: nat)
    requires Places(x, a, s) && Places(y, a, s)
    ensures x == y
  {
    var le := (i: nat, j: nat) => i <= j;
    OnceEach(x);
    OnceEach(y);
    forall k ensures multiset(x)[k] == multiset(y)[k] {
      assert k in multiset(x) <==> k in x;
      assert k in multiset(y) <==> k in y;
    }
    assert multiset(x) == multiset(y);
    SortedUnique(le, x, y);
  }

  lemma {:induction false} OnceEach(x: seq<nat>)
    requires forall i, j :: 0 <= i < j < |x| ==> x[i] < x[j]
    ensures forall k :: multiset(x)[k] <= 1
  {
    if x != [] {
      OnceEach(Front(x));
      BagFront(x);
      assert Last(x) !in Front(x);
    }
  }

  lemma HoldsIff(shard: seq<string>, o: seq<string>, a: seq<nat>, s: nat)
    requires |a| == |o|
    ensures Holds(shard, o, a, s) <==> shard == SortNames(Members(o, a, s))
  {
    hide Places, Picked, Members, InNameOrder, TotalOrder, Sorted, Sort, NameLe;
    NameOrder();
    InNameOrderIff(shard);
    SortSorted(NameLe, Members(o, a, s));
    var at := MembersPlaces(o, a, s);
    if Holds(shard, o, a, s) {
      var at' :| Places(at', a, s) && multiset(shard) == multiset(Picked(o, at'));
      PlacesAreUnique(at, at', a, s);
      SortedUnique(NameLe, shard, SortNames(Members(o, a, s)));
    }
  }

  /** The plan is the one schedule by falling weight and least load: whatever order and assignment
      those two rules allow, the shards hold exactly what they give. */
  lemma PlanIsTheSchedule(names: seq<string>, w: Weights, m: nat, shards: seq<seq<string>>)
    requires m >= 1
    ensures Scheduled(names, w, m, shards) <==> shards == Plan(names, w, m)
  {
    hide FallingWeight, LeastCarried, Holds, SortNames, Members, Greedy;
    var order := Order(names, w);
    var a := Assignment(names, w, m);
    ByWeightOrder(w);
    SortSorted(ByWeight(w), names);
    FallingWeightIff(order, w);
    LeastCarriedIff(order, w, a, m);
    forall s | 0 <= s < m ensures Holds(Plan(names, w, m)[s], order, a, s) { HoldsIff(Plan(names, w, m)[s], order, a, s); }
    assert ScheduledBy(names, w, m, Plan(names, w, m), order, a);
    if Scheduled(names, w, m, shards) {
      var o', a' :| ScheduledBy(names, w, m, shards, o', a');
      EverySchedule(names, w, m, shards, o', a');
    }
  }

  lemma EverySchedule(names: seq<string>, w: Weights, m: nat, shards: seq<seq<string>>, o: seq<string>, a: seq<nat>)
    requires m >= 1 && |shards| == m && ScheduledBy(names, w, m, shards, o, a)
    ensures shards == Plan(names, w, m)
  {
    hide FallingWeight, Holds, SortNames, Members, Greedy;
    ByWeightOrder(w);
    SortSorted(ByWeight(w), names);
    FallingWeightIff(o, w);
    SortedUnique(ByWeight(w), o, Order(names, w));
    LeastCarriedIff(o, w, a, m);
    forall s | 0 <= s < m ensures shards[s] == Plan(names, w, m)[s] { HoldsIff(shards[s], o, a, s); }
  }

  // ---- the 4/3 bound ----------------------------------------------------------------

  lemma CostPermutes(a: seq<string>, b: seq<string>, w: Weights)
    requires multiset(a) == multiset(b)
    ensures Cost(a, w) == Cost(b, w)
  {
    MapPermutes(w.Of, a, b);
    SumPermutes(Costs(a, w), Costs(b, w));
  }

  lemma {:induction false} CostOfMembers(order: seq<string>, a: seq<nat>, w: Weights, s: nat)
    requires |a| == |order|
    ensures Cost(Members(order, a, s), w) == Load(Costs(order, w), a, s)
  {
    if order != [] {
      var front := Front(order);
      CostOfMembers(front, Front(a), w, s);
      assert Front(Costs(order, w)) == Costs(front, w);
      var before := Members(front, Front(a), s);
      if Last(a) == s {
        assert Front(Costs(before + [Last(order)], w)) == Costs(before, w);
      } else {
        assert Members(order, a, s) == before;
      }
    }
  }

  lemma CostSplit(shard: seq<string>, i: nat, w: Weights)
    requires i < |shard|
    ensures Cost(shard, w) == Cost(Without(shard, i), w) + w.Of(shard[i])
  {
    SumSplit(Costs(shard, w), i);
    assert Without(Costs(shard, w), i) == Costs(Without(shard, i), w);
  }

  /** Taking one occurrence of `n` out of whichever shard holds it. */
  lemma TakeOut(shards: seq<seq<string>>, n: string, w: Weights) returns (s: nat, rest: seq<seq<string>>)
    requires n in Flat(shards)
    ensures s < |shards| == |rest|
    ensures multiset(Flat(shards)) == multiset(Flat(rest)) + multiset{n}
    ensures forall t :: 0 <= t < |rest| ==> Cost(shards[t], w) == Cost(rest[t], w) + if t == s then w.Of(n) else 0
  {
    s := ShardHolding(shards, n);
    var i :| 0 <= i < |shards[s]| && shards[s][i] == n;
    rest := shards[s := Without(shards[s], i)];
    CostSplit(shards[s], i, w);
    BagSplit(shards[s], i);
    FlatAppend(rest, s, n);
    FlatOfPermutations(shards, rest[s := rest[s] + [n]]);
  }

  lemma LoadFront(order: seq<string>, w: Weights, b: seq<nat>, s: nat, t: nat)
    requires order != [] && |b| == |order| - 1
    ensures Load(Costs(order, w), b + [s], t) ==
      Load(Costs(Front(order), w), b, t) + if t == s then w.Of(Last(order)) else 0
  {
    assert Front(Costs(order, w)) == Costs(Front(order), w) && Front(b + [s]) == b;
  }

  /** A rival's shard lists, read as an assignment of the names in `order`. */
  lemma {:induction false} RivalAsAssignment(order: seq<string>, w: Weights, rival: seq<seq<string>>)
    returns (a: seq<nat>)
    requires multiset(Flat(rival)) == multiset(order)
    ensures |a| == |order| && ValidFor(a, |rival|)
    ensures forall s :: 0 <= s < |rival| ==> Load(Costs(order, w), a, s) == Cost(rival[s], w)
  {
    if order == [] {
      a := [];
      forall s | 0 <= s < |rival| ensures Cost(rival[s], w) == 0 {
        InFlat(rival, s);
        assert |rival[s]| == |multiset(rival[s])| == 0;
      }
    } else {
      var n := Last(order);
      BagFront(order);
      assert n in multiset(Flat(rival));
      var s, rest := TakeOut(rival, n, w);
      BagCancel(n, multiset(Flat(rest)), multiset(Front(order)));
      var b := RivalAsAssignment(Front(order), w, rest);
      a := b + [s];
      forall t | 0 <= t < |rival| ensures Load(Costs(order, w), a, t) == Cost(rival[t], w) {
        LoadFront(order, w, b, s, t);
      }
    }
  }

  lemma {:induction false} InFlat(shards: seq<seq<string>>, s: nat)
    requires s < |shards|
    ensures multiset(shards[s]) <= multiset(Flat(shards))
  {
    if s < |shards| - 1 { InFlat(Front(shards), s); }
  }

  lemma {:induction false} ShardHolding(shards: seq<seq<string>>, n: string) returns (s: nat)
    requires n in Flat(shards)
    ensures s < |shards| && n in shards[s]
  {
    if n in Last(shards) {
      s := |shards| - 1;
    } else {
      s := ShardHolding(Front(shards), n);
    }
  }

  /** The header's claim. For every other way of dividing the same names over `m` shards that
      keeps each within `limit`, no planned shard exceeds 4/3 - 1/(3m) of `limit`. */
  lemma WithinFourThirdsOfAnyRival(names: seq<string>, w: Weights, m: nat, rival: seq<seq<string>>, limit: nat, s: nat)
    requires 1 <= m == |rival| && s < m
    requires multiset(Flat(rival)) == multiset(names)
    requires forall t :: 0 <= t < m ==> Cost(rival[t], w) <= limit
    ensures 3 * m * Cost(Plan(names, w, m)[s], w) <= (4 * m - 1) * limit
  {
    var order, a := Order(names, w), Assignment(names, w, m);
    var p := Costs(order, w);
    OrderNonIncreasing(names, w);
    var b := RivalAsAssignment(order, w, rival);
    GrahamBound(p, m, b, limit, s);
    CostOfMembers(order, a, w, s);
    CostPermutes(Plan(names, w, m)[s], Members(order, a, s), w);
  }

  // ---- the flags --------------------------------------------------------------------

  /** The units of work a shard can be asked for. */
  datatype Unit = Logos | Raw | Doc | Unknown(text: string)

  const SKIP := "SKIP"

  function TestFlag(name: string): string { "--test=" + name }

  function LibShard(unit: Unit, m: nat): nat
    requires m >= 1
  {
    if unit.Raw? then 1 % m else 0
  }

  /** The words of a cargo pass: the library unit if this shard owns it, then its slice. */
  function PassWords(lib: bool, slice: seq<string>): seq<string> {
    (if lib then ["--lib"] else []) + Map(TestFlag, slice)
  }

  /** The words one shard prints for one unit; `doc` prints a word either way. */
  function Words(shard: nat, unit: Unit, m: nat, shards: seq<seq<string>>): Result<seq<string>, Refusal>
    requires shard < m == |shards|
  {
    if unit.Doc? then
      Ok(if shard == 0 then ["--doc"] else [SKIP])
    else if unit.Logos? || unit.Raw? then
      Ok(PassWords(shard == LibShard(unit, m), shards[shard]))
    else
      Err(UnknownUnit)
  }

  /** `" ".join(words)`. */
  function Join(words: seq<string>): string {
    if words == [] then ""
    else if |words| == 1 then words[0]
    else words[0] + " " + Join(words[1..])
  }

  /** What is printed, letter by letter: the doctests on shard 0, the library's own tests first on
      shard 0 or, for the raw unit, on shard 1 if there is one, and every target of the shard. */
  lemma WordsAre(shard: nat, unit: Unit, m: nat, shards: seq<seq<string>>)
    requires shard < m == |shards|
    ensures unit.Doc? ==>
      Words(shard, unit, m, shards) == Ok([if shard == 0 then ['-', '-', 'd', 'o', 'c'] else ['S', 'K', 'I', 'P']])
    ensures unit.Unknown? <==> Words(shard, unit, m, shards) == Err(UnknownUnit)
    ensures unit.Logos? || unit.Raw? ==>
      var lib := shard == if unit.Logos? || m == 1 then 0 else 1;
      var words := Words(shard, unit, m, shards);
      && words.Ok? && |words.value| == |shards[shard]| + (if lib then 1 else 0)
      && (lib ==> words.value[0] == ['-', '-', 'l', 'i', 'b'])
      && forall i :: 0 <= i < |shards[shard]| ==>
           words.value[if lib then i + 1 else i] == ['-', '-', 't', 'e', 's', 't', '='] + shards[shard][i]
  {
    if unit.Raw? && m > 1 { assert 1 % m == 1; }
    if unit.Logos? || unit.Raw? {
      var lib := shard == LibShard(unit, m);
      var words := PassWords(lib, shards[shard]);
      assert "--test=" == ['-', '-', 't', 'e', 's', 't', '='];
      forall i | 0 <= i < |shards[shard]|
        ensures words[if lib then i + 1 else i] == ['-', '-', 't', 'e', 's', 't', '='] + shards[shard][i]
      {
        assert Map(TestFlag, shards[shard])[i] == TestFlag(shards[shard][i]);
      }
    }
  }

  /** A space between each two words, and nothing else. */
  lemma {:induction false} JoinIs(words: seq<string>, word: string)
    ensures Join([]) == [] && Join([word]) == word
    ensures words != [] ==> Join(words + [word]) == Join(words) + ([' '] + word)
  {
    if |words| > 1 {
      JoinIs(words[1..], word);
      assert (words + [word])[1..] == words[1..] + [word];
    } else if |words| == 1 {
      assert (words + [word])[1..] == [word];
    }
  }

  method EmitFlags(shard: nat, unit: Unit, m: nat, shards: seq<seq<string>>) returns (line: Result<string, Refusal>)
    requires shard < m == |shards|
    ensures line == match Words(shard, unit, m, shards) case Ok(words) => Ok(Join(words)) case Err(e) => Err(e)
    ensures line.Err? <==> unit.Unknown?
    ensures line.Ok? && (forall n :: n in shards[shard] ==> SafeName(n)) ==>
      ShellSplit(line.value, []) ==
        if unit.Doc? then [if shard == 0 then "--doc" else SKIP]
        else (if shard == LibShard(unit, m) then ["--lib"] else []) + Map(TestFlag, shards[shard])
  {
    hide ShellSplit, SafeName;
    if Words(shard, unit, m, shards).Ok? && forall n :: n in shards[shard] ==> SafeName(n) {
      CallerSeesTheWords(shard, unit, m, shards);
    }
    if unit.Doc? {
      if shard == 0 {
        return Ok("--doc");
      } else {
        return Ok(SKIP);
      }
    }
    var lib;
    if unit.Logos? {
      lib := shard == 0;
    } else if unit.Raw? {
      lib := shard == 1 % m;
    } else {
      return Err(UnknownUnit);
    }
    var flags := (if lib then ["--lib"] else []) + Map(TestFlag, shards[shard]);
    return Ok(Join(flags));
  }

  /** Each shard's words for a unit, shard by shard. */
  function Printed(unit: Unit, shards: seq<seq<string>>): (r: seq<seq<string>>)
    requires !unit.Unknown?
    ensures |r| == |shards|
  {
    seq(|shards|, s requires 0 <= s < |shards| => Words(s, unit, |shards|, shards).value)
  }

  ghost function LibBag(owned: bool): multiset<string> {
    if owned then multiset{"--lib"} else multiset{}
  }

  lemma PassWordsBag(lib: bool, slice: seq<string>)
    ensures multiset(PassWords(lib, slice)) == multiset(Map(TestFlag, slice)) + LibBag(lib)
  {
  }

  lemma {:induction false} PassesSelect(lists: seq<seq<string>>, shards: seq<seq<string>>, lib: nat)
    requires |lists| == |shards|
    requires forall s :: 0 <= s < |shards| ==> lists[s] == PassWords(s == lib, shards[s])
    ensures multiset(Flat(lists)) == multiset(Map(TestFlag, Flat(shards))) + LibBag(lib < |shards|)
  {
    if shards != [] {
      PassesSelect(Front(lists), Front(shards), lib);
      PassWordsBag(|shards| - 1 == lib, Last(shards));
      MapConcat(TestFlag, Flat(Front(shards)), Last(shards));
    }
  }

  /** Over all shards of an accepted plan, one pass selects every target exactly once and
      `--lib` exactly once. */
  lemma EveryTargetOncePerPass(names: seq<string>, w: Weights, m: nat, unit: Unit)
    requires m >= 1 && (unit.Logos? || unit.Raw?)
    ensures multiset(Flat(Printed(unit, Plan(names, w, m)))) == multiset(Map(TestFlag, names)) + multiset{"--lib"}
  {
    var shards := Plan(names, w, m);
    LibShardExists(unit, m);
    PassesSelect(Printed(unit, shards), shards, LibShard(unit, m));
    PlanCovers(names, w, m);
    MapPermutes(TestFlag, Flat(shards), names);
  }

  lemma LibShardExists(unit: Unit, m: nat)
    requires m >= 1
    ensures LibShard(unit, m) < m
  {
  }

  /** The doctests run on exactly one shard; every other shard says so. */
  lemma {:induction false} DoctestsOnce(lists: seq<seq<string>>)
    requires lists != []
    requires forall s :: 0 <= s < |lists| ==> lists[s] == if s == 0 then ["--doc"] else [SKIP]
    ensures Flat(lists) == ["--doc"] + seq(|lists| - 1, _ => SKIP)
  {
    if |lists| > 1 {
      DoctestsOnce(Front(lists));
    } else {
      assert Flat(Front(lists)) == [];
    }
  }

  lemma DoctestsOncePerPlan(shards: seq<seq<string>>)
    requires shards != []
    ensures Flat(Printed(Doc, shards)) == ["--doc"] + seq(|shards| - 1, _ => SKIP)
  {
    DoctestsOnce(Printed(Doc, shards));
  }

  // ---- the calling shell ------------------------------------------------------------

  predicate Blank(c: char) { c == ' ' || c == '\t' || c == '\n' }

  predicate NameChar(c: char) {
    'A' <= c <= 'Z' || 'a' <= c <= 'z' || '0' <= c <= '9' || c == '_' || c == '-'
  }

  /** `[A-Za-z0-9_-]+`, the guard on target names. */
  ghost predicate SafeName(name: string) {
    name != [] && forall i :: 0 <= i < |name| ==> NameChar(name[i])
  }

  lemma NameCharIff(c: char)
    ensures NameChar(c) <==> c in UPPER || c in LOWER || c in DIGITS || c == '_' || c == '-'
  {
    LetterIff(c);
  }

  ghost predicate Unsplittable(word: string) {
    word != [] && forall i :: 0 <= i < |word| ==> !Blank(word[i])
  }

  /** Unquoted expansion: maximal runs of non-blank characters. */
  function ShellSplit(line: string, word: string): seq<string> {
    if line == [] then (if word == [] then [] else [word])
    else if Blank(line[0]) then (if word == [] then [] else [word]) + ShellSplit(line[1..], [])
    else ShellSplit(line[1..], word + [line[0]])
  }

  lemma {:induction false} SplitWord(word: string, rest: string, acc: string)
    requires forall i :: 0 <= i < |word| ==> !Blank(word[i])
    ensures ShellSplit(word + rest, acc) == ShellSplit(rest, acc + word)
  {
    if word == [] {
      assert word + rest == rest && acc + word == acc;
    } else {
      SplitWord(word[1..], rest, acc + [word[0]]);
      assert (word + rest)[1..] == word[1..] + rest;
      assert acc + [word[0]] + word[1..] == acc + word;
    }
  }

  /** Splitting the printed line gives back the words. */
  lemma {:induction false} SplitJoin(words: seq<string>)
    requires forall i :: 0 <= i < |words| ==> Unsplittable(words[i])
    ensures ShellSplit(Join(words), []) == words
  {
    if |words| >= 1 {
      var word, rest := words[0], words[1..];
      if rest == [] {
        SplitWord(word, "", "");
        assert word + "" == word && "" + word == word;
        assert ShellSplit("", word) == [word];
      } else {
        SplitWord(word, " " + Join(rest), "");
        assert word + " " + Join(rest) == word + (" " + Join(rest));
        assert (" " + Join(rest))[1..] == Join(rest);
        assert "" + word == word;
        SplitJoin(rest);
        assert words == [word] + rest;
      }
    }
  }

  lemma TestFlagUnsplittable(n: string)
    requires SafeName(n)
    ensures Unsplittable(TestFlag(n))
  {
    forall i | 0 <= i < |TestFlag(n)| ensures !Blank(TestFlag(n)[i]) {
      if i >= |"--test="| {
        assert TestFlag(n)[i] == n[i - |"--test="|];
      }
    }
  }

  /** The caller's word list is the emitted one, given names the guard lets through. */
  lemma CallerSeesTheWords(shard: nat, unit: Unit, m: nat, shards: seq<seq<string>>)
    requires shard < m == |shards|
    requires forall n :: n in shards[shard] ==> SafeName(n)
    requires Words(shard, unit, m, shards).Ok?
    ensures ShellSplit(Join(Words(shard, unit, m, shards).value), []) == Words(shard, unit, m, shards).value
  {
    var words := Words(shard, unit, m, shards).value;
    forall i | 0 <= i < |words| ensures Unsplittable(words[i]) {
      if words[i] != "--doc" && words[i] != "--lib" && words[i] != SKIP {
        var n :| n in shards[shard] && words[i] == TestFlag(n);
        TestFlagUnsplittable(n);
      }
    }
    SplitJoin(words);
  }
}
