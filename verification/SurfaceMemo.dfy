/** One memo for many roots: when it changes nothing, what it loses on a glob cycle, and what it
    never loses. */
module SurfaceMemo {
  import opened Sequences
  import opened Wrappers
  import opened SurfaceDiff

  // ---- untangled graphs: the memo and the cut change nothing ------------------------

  /** Two different modules glob-reach each other. */
  ghost predicate Tangled(idx: Index, p: Id, r: Id) {
    p != r && p in Reach(idx, r) && r in Reach(idx, p)
  }

  /** No glob cycle but that of a module with itself. */
  ghost predicate Untangled(idx: Index) {
    forall p, r :: !Tangled(idx, p, r)
  }

  /** `rank` falls along every glob import of another module. */
  ghost predicate Ranked(idx: Index, rank: Id -> nat) {
    forall m, i :: 0 <= i < |ItemsOf(idx, m)| ==> FallsAt(idx, rank, m, ItemsOf(idx, m)[i])
  }

  ghost predicate FallsAt(idx: Index, rank: Id -> nat, m: Id, c: Id) {
    GlobOf(idx, c).Some? ==> GlobOf(idx, c).value == m || rank(GlobOf(idx, c).value) < rank(m)
  }

  /** First definition wins, with neither memo nor cut; a module adds nothing to itself. */
  ghost function Plain(idx: Index, rank: Id -> nat, m: Id): Namespace
    requires Ranked(idx, rank)
    decreases rank(m), |ItemsOf(idx, m)| + 1
  {
    PlainFrom(idx, rank, m, 0, [])
  }

  ghost function PlainFrom(idx: Index, rank: Id -> nat, m: Id, i: nat, out: Namespace): Namespace
    requires Ranked(idx, rank) && i <= |ItemsOf(idx, m)|
    decreases rank(m), |ItemsOf(idx, m)| - i
  {
    if i == |ItemsOf(idx, m)| then out
    else
      var c := ItemsOf(idx, m)[i];
      assert FallsAt(idx, rank, m, c);
      match GlobOf(idx, c)
      case Some(t) => PlainFrom(idx, rank, m, i + 1, if t == m then out else Merge(out, Plain(idx, rank, t)))
      case None => PlainFrom(idx, rank, m, i + 1, if OwnOf(idx, c).Some? then SetDefault(out, OwnOf(idx, c).value) else out)
  }

  ghost predicate MemoPlain(idx: Index, rank: Id -> nat, memo: Memo)
    requires Ranked(idx, rank)
  {
    forall k <- memo.Keys :: memo[k] == Plain(idx, rank, k)
  }

  ghost predicate Above(stack: set<Id>, rank: Id -> nat, level: nat) {
    forall k <- stack :: rank(k) > level
  }

  /** With such a rank the memoised search returns what plain resolution returns, from any memo
      it may have built before, and keeps the memo so. */
  lemma {:induction false} ResolveIsPlain(idx: Index, rank: Id -> nat, m: Id, memo: Memo, stack: set<Id>)
    requires Ranked(idx, rank) && MemoPlain(idx, rank, memo) && Above(stack, rank, rank(m)) && memo.Keys !! stack
    ensures var (out, memo') := Resolve(idx, m, memo, stack);
      out == Plain(idx, rank, m) && MemoPlain(idx, rank, memo') && memo'.Keys !! stack
    decreases rank(m), |ItemsOf(idx, m)| + 1
  {
    hide Scan, Ranked;
    if m !in memo && IsModule(idx, m) {
      assert ItemsOf(idx, m)[0..] == ItemsOf(idx, m);
      ScanIsPlain(idx, rank, m, 0, memo, stack + {m}, []);
    }
  }

  lemma {:induction false} ScanIsPlain(idx: Index, rank: Id -> nat, m: Id, i: nat, memo: Memo, stack: set<Id>,
      out: Namespace)
    requires Ranked(idx, rank) && MemoPlain(idx, rank, memo) && i <= |ItemsOf(idx, m)|
    requires m in stack && memo.Keys !! stack && forall k <- stack :: rank(k) >= rank(m)
    ensures var (out', memo') := Scan(idx, ItemsOf(idx, m)[i..], memo, stack, out);
      out' == PlainFrom(idx, rank, m, i, out) && MemoPlain(idx, rank, memo') && memo'.Keys !! stack
    decreases rank(m), |ItemsOf(idx, m)| - i
  {
    hide Resolve, Merge, SetDefault, OwnOf, GlobOf, ItemsOf, Plain, MemoPlain;
    var items := ItemsOf(idx, m);
    if i == |items| { return; }
    assert items[i..][0] == items[i] && items[i..][1..] == items[i + 1..];
    assert FallsAt(idx, rank, m, items[i]);
    match GlobOf(idx, items[i])
    case Some(t) =>
      if t == m {
        CutIsEmpty(idx, t, memo, stack);
        MergeNothing(out);
        ScanIsPlain(idx, rank, m, i + 1, memo, stack, out);
      } else {
        var (ns, memo2) := Resolve(idx, t, memo, stack);
        ResolveIsPlain(idx, rank, t, memo, stack);
        ScanIsPlain(idx, rank, m, i + 1, memo2, stack, Merge(out, ns));
      }
    case None =>
      var own := OwnOf(idx, items[i]);
      ScanIsPlain(idx, rank, m, i + 1, memo, stack, if own.Some? then SetDefault(out, own.value) else out);
  }

  ghost function ReachSize(idx: Index): Id -> nat {
    (m: Id) => |Reach(idx, m)|
  }

  lemma SmallerSet(a: set<Id>, b: set<Id>)
    requires a < b
    ensures |a| < |b|
  {
    assert b == a + (b - a);
    assert b - a != {};
  }

  /** An untangled graph is ranked by the number of modules reached. */
  lemma UntangledIsRanked(idx: Index)
    requires Untangled(idx)
    ensures Ranked(idx, ReachSize(idx))
  {
    hide Reach;
    forall m, i | 0 <= i < |ItemsOf(idx, m)| ensures FallsAt(idx, ReachSize(idx), m, ItemsOf(idx, m)[i]) {
      var glob := GlobOf(idx, ItemsOf(idx, m)[i]);
      if glob.Some? && glob.value != m {
        var t := glob.value;
        assert t in Globs(idx, m);
        GlobIsReached(idx, m, t);
        ReachIsLeast(idx, m);
        assert !Tangled(idx, t, m);
        SmallerSet(Reach(idx, t), Reach(idx, m));
      }
    }
  }

  /** And a rank is only there on an untangled graph. */
  lemma RankedIsUntangled(idx: Index, rank: Id -> nat)
    requires Ranked(idx, rank)
    ensures Untangled(idx)
  {
    hide Reach, Ranked;
    forall p, r ensures !Tangled(idx, p, r) {
      ReachFalls(idx, rank, p);
      ReachFalls(idx, rank, r);
    }
  }

  lemma ReachFalls(idx: Index, rank: Id -> nat, m: Id)
    requires Ranked(idx, rank)
    ensures forall t <- Reach(idx, m) :: t == m || rank(t) < rank(m)
  {
    hide Reach, GlobOf, ItemsOf;
    ReachIsLeast(idx, m);
    var below := set t | t in Reach(idx, m) && (t == m || rank(t) < rank(m));
    forall x, t | x in below && t in Globs(idx, x) ensures t in below {
      var i :| 0 <= i < |ItemsOf(idx, x)| && GlobOf(idx, ItemsOf(idx, x)[i]).Some? && GlobOf(idx, ItemsOf(idx, x)[i]).value == t;
      assert FallsAt(idx, rank, x, ItemsOf(idx, x)[i]);
    }
    assert Closed(idx, below);
  }

  ghost predicate MemoScratch(idx: Index, memo: Memo) {
    forall k <- memo.Keys :: memo[k] == Scratch(idx, k)
  }

  /** So there a shared memo is exact: every module resolves as it does with an empty one. */
  lemma UntangledIsExact(idx: Index, m: Id, memo: Memo)
    requires Untangled(idx) && MemoScratch(idx, memo)
    ensures var (out, memo') := Resolve(idx, m, memo, {}); out == Scratch(idx, m) && MemoScratch(idx, memo')
  {
    hide Resolve, Plain, Ranked, Reach;
    var rank := ReachSize(idx);
    UntangledIsRanked(idx);
    forall k ensures Scratch(idx, k) == Plain(idx, rank, k) {
      ResolveIsPlain(idx, rank, k, map[], {});
    }
    ResolveIsPlain(idx, rank, m, memo, {});
  }

  // ---- one memo for many roots ------------------------------------------------------

  /** The memo after the roots have been resolved one after the other. */
  ghost function After(idx: Index, roots: seq<Id>): Memo {
    if roots == [] then map[] else Resolve(idx, Last(roots), After(idx, Front(roots)), {}).1
  }

  lemma {:induction false} AfterKeeps(idx: Index, roots: seq<Id>)
    ensures MemoSound(idx, After(idx, roots))
    ensures Untangled(idx) ==> MemoScratch(idx, After(idx, roots))
    decreases |roots|
  {
    hide Resolve, Untangled, Reach;
    if roots != [] {
      AfterKeeps(idx, Front(roots));
      ResolveSound(idx, Last(roots), After(idx, Front(roots)));
      if Untangled(idx) { UntangledIsExact(idx, Last(roots), After(idx, Front(roots))); }
    }
  }

  /** The namespace of a root resolved after others with one memo: every binding is one that a
      module reachable from it defines; on an untangled graph it is the one from scratch. */
  ghost predicate Resolved(idx: Index, before: seq<Id>, m: Id, ns: Namespace) {
    && ns == Resolve(idx, m, After(idx, before), {}).0
    && Within(idx, ns, Reach(idx, m))
    && (Untangled(idx) ==> ns == Scratch(idx, m))
  }

  lemma NextRoot(idx: Index, before: seq<Id>, m: Id)
    ensures var (ns, memo) := Resolve(idx, m, After(idx, before), {});
      Resolved(idx, before, m, ns) && memo == After(idx, before + [m])
  {
    hide Resolve, Untangled, Reach, Within;
    assert Front(before + [m]) == before && Last(before + [m]) == m;
    AfterKeeps(idx, before);
    ResolveSound(idx, m, After(idx, before));
    if Untangled(idx) { UntangledIsExact(idx, m, After(idx, before)); }
  }

  /** Any number of roots resolved with one memo, as `walk_modules` shares it. */
  method ResolveAll(idx: Index, roots: seq<Id>) returns (found: seq<Namespace>)
    ensures |found| == |roots|
    ensures forall i :: 0 <= i < |roots| ==> Resolved(idx, roots[..i], roots[i], found[i])
  {
    hide Resolve, Resolved;
    var r := new Resolver(idx);
    found := [];
    assert roots[..0] == [];
    while |found| < |roots|
      invariant |found| <= |roots| && r.idx == idx && r.stack == {} && r.memo == After(idx, roots[..|found|])
      invariant forall i :: 0 <= i < |found| ==> Resolved(idx, roots[..i], roots[i], found[i])
    {
      var k := |found|;
      assert roots[..k + 1] == roots[..k] + [roots[k]];
      NextRoot(idx, roots[..k], roots[k]);
      var out := r.Namespace(roots[k]);
      found := found + [out];
    }
  }

  // ---- what a tangle loses ----------------------------------------------------------

  /** After the roots, `p` resolves to every name it has from scratch. */
  ghost predicate CompleteAfter(idx: Index, roots: seq<Id>, p: Id) {
    Names(Resolve(idx, p, After(idx, roots), {}).0) == Names(Scratch(idx, p))
  }

  /** One memo resolves every module completely, whatever was resolved before. */
  ghost predicate AlwaysComplete(idx: Index) {
    forall roots, p :: CompleteAfter(idx, roots, p)
  }

  lemma UntangledIsComplete(idx: Index)
    requires Untangled(idx)
    ensures AlwaysComplete(idx)
  {
    hide Resolve, Untangled, Scratch;
    forall roots, p ensures CompleteAfter(idx, roots, p) {
      AfterKeeps(idx, roots);
      UntangledIsExact(idx, p, After(idx, roots));
    }
  }

  /** The second result when `p` is resolved after `r` with one memo. */
  ghost function Second(idx: Index, r: Id, p: Id): Namespace {
    Resolve(idx, p, After(idx, [r]), {}).0
  }

  lemma AfterOneRoot(idx: Index, r: Id)
    ensures After(idx, [r]) == Resolve(idx, r, map[], {}).1
  {
    hide Resolve;
    assert Front([r]) == [] && Last([r]) == r;
    assert After(idx, []) == map[];
  }

  /** `mods` holds `p`, not `r`, and every glob out of it leads back into it or to `r`. */
  ghost predicate Behind(idx: Index, mods: set<Id>, p: Id, r: Id) {
    p in mods && r !in mods && mods <= idx.Keys && LeadsInto(idx, mods, mods + {r})
  }

  /** While `r` is being resolved, no search gets past it: what it memoises for a module behind
      `r` comes from behind `r`. */
  lemma SecondStaysBehind(idx: Index, r: Id, p: Id, mods: set<Id>)
    requires IsModule(idx, r) && p in Reach(idx, r) && Behind(idx, mods, p, r)
    ensures DrawnFrom(idx, Second(idx, r, p), mods)
  {
    hide Globs, Within, Scan;
    var area := (k: Id) => if k in mods then mods else idx.Keys + {k};
    AreaBehind(idx, mods, p, r);
    assert ItemsOf(idx, r)[0..] == ItemsOf(idx, r) && {} + {r} == {r};
    NothingWithin(idx, area(r));
    ScanWithin(idx, r, 0, map[], {r}, [], area, {r});
    AfterOneRoot(idx, r);
    var (out, memo1) := Scan(idx, ItemsOf(idx, r), map[], {r}, []);
    assert After(idx, [r]) == memo1[r := out];
    assert p in memo1 && Within(idx, memo1[p], area(p));
    assert DrawnFrom(idx, memo1[p], mods) by { WithinMeans(idx, memo1[p], mods); }
  }

  lemma WithinMeans(idx: Index, ns: Namespace, area: set<Id>)
    requires Within(idx, ns, area)
    ensures DrawnFrom(idx, ns, area)
  {
  }

  lemma AreaBehind(idx: Index, mods: set<Id>, p: Id, r: Id)
    requires Behind(idx, mods, p, r)
    ensures Nested(idx, (k: Id) => if k in mods then mods else idx.Keys + {k}, {r})
  {
    var area := (k: Id) => if k in mods then mods else idx.Keys + {k};
    forall m ensures m in area(m) && forall t <- Globs(idx, m) :: t in {r} || area(t) <= area(m) {
      forall t | t in Globs(idx, m) && t != r ensures area(t) <= area(m) {
        assert t in idx.Keys;
        if m in mods { assert t in mods; }
      }
    }
  }

  /** A name of `r` that nothing behind `r` defines is lost to a module that glob-reaches `r`,
      when it is resolved after `r`. */
  lemma NameIsLost(idx: Index, r: Id, p: Id, mods: set<Id>, n: string)
    requires Tangled(idx, p, r) && Behind(idx, mods, p, r)
    requires OwnsName(idx, r, n) && forall k <- mods :: !OwnsName(idx, k, n)
    ensures n in Names(Scratch(idx, p)) && n !in Names(Second(idx, r, p))
  {
    hide Resolve, Globs, Reach, Second, Scratch;
    TangledAreModules(idx, p, r);
    SecondStaysBehind(idx, r, p, mods);
    ReachIsLeast(idx, p);
    var ns := Second(idx, r, p);
    forall i | 0 <= i < |ns| ensures ns[i].name != n {
      assert ns[i] in ns;
      var k :| k in mods && Owns(idx, k, ns[i]);
      assert !OwnsName(idx, k, n);
    }
  }

  lemma LoneReach(idx: Index, r: Id)
    requires !IsModule(idx, r)
    ensures Reach(idx, r) == {r}
  {
    hide Reach;
    ReachIsLeast(idx, r);
    assert Closed(idx, {r});
  }

  lemma TangledAreModules(idx: Index, p: Id, r: Id)
    requires Tangled(idx, p, r)
    ensures IsModule(idx, r) && Reach(idx, p) == Reach(idx, r) && Reach(idx, r) <= idx.Keys
  {
    hide Reach;
    ReachNests(idx, p, r);
    ReachNests(idx, r, p);
    ReachIsLeast(idx, r);
    ReachIsLeast(idx, p);
    if !IsModule(idx, r) { LoneReach(idx, r); }
    var inside := Reach(idx, r) * idx.Keys;
    assert Closed(idx, inside) && r in inside;
  }

  /** In particular a name that `r` alone among the reachable modules defines is lost. */
  lemma OwnNameIsLost(idx: Index, r: Id, p: Id, n: string)
    requires Tangled(idx, p, r) && OwnsName(idx, r, n)
    requires forall k <- Reach(idx, r) :: k != r ==> !OwnsName(idx, k, n)
    ensures n in Names(Scratch(idx, p)) && n !in Names(Second(idx, r, p)) && !CompleteAfter(idx, [r], p)
  {
    hide Resolve, Globs, Reach;
    TangledAreModules(idx, p, r);
    ReachIsLeast(idx, r);
    var mods := Reach(idx, r) - {r};
    forall m | m in mods ensures Globs(idx, m) <= mods + {r} {
      assert mods + {r} == Reach(idx, r);
    }
    NameIsLost(idx, r, p, mods, n);
  }

  /** Each module in a tangle defines a name that no other module it reaches does. */
  ghost predicate Distinctive(idx: Index) {
    forall p, r :: Tangled(idx, p, r) ==> exists n :: OwnsAlone(idx, r, n)
  }

  ghost predicate OwnsAlone(idx: Index, r: Id, n: string) {
    OwnsName(idx, r, n) && forall k <- Reach(idx, r) :: k != r ==> !OwnsName(idx, k, n)
  }

  /** Where names tell the tangled modules apart, one memo is always complete if and only if no
      two modules glob-reach each other. */
  lemma CompleteIffUntangled(idx: Index)
    requires Distinctive(idx)
    ensures AlwaysComplete(idx) <==> Untangled(idx)
  {
    hide Reach, OwnsName;
    if Untangled(idx) { UntangledIsComplete(idx); }
    if p, r :| Tangled(idx, p, r) {
      var n :| OwnsAlone(idx, r, n);
      OwnNameIsLost(idx, r, p, n);
    }
  }

  // ---- the glob graph decides -------------------------------------------------------

  ghost predicate SameGlobs(idx: Index, named: Index) {
    forall m :: Globs(idx, m) == Globs(named, m)
  }

  lemma SameReach(idx: Index, named: Index, m: Id)
    requires SameGlobs(idx, named)
    ensures Reach(idx, m) == Reach(named, m)
  {
    hide Reach, Globs;
    ReachIsLeast(idx, m);
    ReachIsLeast(named, m);
    assert Closed(idx, Reach(named, m)) && Closed(named, Reach(idx, m));
  }

  /** The items that glob-import a module. */
  function GlobItems(idx: Index, ids: seq<Id>): seq<Id> {
    if ids == [] then []
    else (if GlobOf(idx, ids[0]).Some? then [ids[0]] else []) + GlobItems(idx, ids[1..])
  }

  lemma {:induction false} GlobItemsMeans(idx: Index, ids: seq<Id>)
    ensures forall c :: c in GlobItems(idx, ids) <==> c in ids && GlobOf(idx, c).Some?
  {
    if ids != [] {
      GlobItemsMeans(idx, ids[1..]);
      assert ids == [ids[0]] + ids[1..];
    }
  }

  /** The same glob imports, and no name anywhere but one that `r` defines. */
  ghost function NamedOnlyAt(idx: Index, r: Id): Index {
    map id | id in idx ::
      if idx[id].inner.Module? then
        Item(Some("x"), Module((if id == r then [r] else []) + GlobItems(idx, idx[id].inner.items)))
      else idx[id]
  }

  lemma NamedItems(idx: Index, r: Id, m: Id)
    requires IsModule(idx, r)
    ensures var named := NamedOnlyAt(idx, r);
      && (forall c :: GlobOf(named, c) == GlobOf(idx, c))
      && (forall c :: c in ItemsOf(named, m) <==> (m == r && c == r) || (c in ItemsOf(idx, m) && GlobOf(idx, c).Some?))
  {
    var named := NamedOnlyAt(idx, r);
    forall c ensures GlobOf(named, c) == GlobOf(idx, c) {
      assert forall id :: IsModule(named, id) <==> IsModule(idx, id);
    }
    GlobItemsMeans(idx, ItemsOf(idx, m));
  }

  lemma GlobsByItem(idx: Index, m: Id, t: Id)
    ensures t in Globs(idx, m) <==> exists c :: c in ItemsOf(idx, m) && GlobOf(idx, c) == Some(t)
  {
    if t in Globs(idx, m) {
      var i :| 0 <= i < |ItemsOf(idx, m)| && GlobOf(idx, ItemsOf(idx, m)[i]).Some? && GlobOf(idx, ItemsOf(idx, m)[i]).value == t;
      assert ItemsOf(idx, m)[i] in ItemsOf(idx, m);
    }
    if c :| c in ItemsOf(idx, m) && GlobOf(idx, c) == Some(t) {
      var i :| 0 <= i < |ItemsOf(idx, m)| && ItemsOf(idx, m)[i] == c;
    }
  }

  lemma NamedKeepsGlobs(idx: Index, r: Id)
    requires IsModule(idx, r)
    ensures SameGlobs(idx, NamedOnlyAt(idx, r))
  {
    hide NamedOnlyAt, Globs, GlobOf, ItemsOf;
    var named := NamedOnlyAt(idx, r);
    forall m ensures Globs(idx, m) == Globs(named, m) {
      NamedItems(idx, r, m);
      NoGlobAtModule(idx, r);
      forall t ensures t in Globs(idx, m) <==> t in Globs(named, m) {
        GlobsByItem(idx, m, t);
        GlobsByItem(named, m, t);
      }
    }
  }

  lemma NoGlobAtModule(idx: Index, r: Id)
    requires IsModule(idx, r)
    ensures GlobOf(idx, r).None?
  {
  }

  lemma NamedOwners(idx: Index, r: Id, k: Id)
    requires IsModule(idx, r)
    ensures OwnsName(NamedOnlyAt(idx, r), k, "x") <==> k == r
  {
    var named := NamedOnlyAt(idx, r);
    NamedItems(idx, r, k);
    NoGlobAtModule(idx, r);
    var b := Binding("x", ModuleKind, Some(r));
    if k == r {
      assert r in ItemsOf(named, r);
      var i :| 0 <= i < |ItemsOf(named, r)| && ItemsOf(named, r)[i] == r;
      assert Defines(named, ItemsOf(named, r)[i], b);
      assert Owns(named, r, b);
    } else {
      forall i | 0 <= i < |ItemsOf(named, k)| ensures GlobOf(named, ItemsOf(named, k)[i]).Some? {
        assert ItemsOf(named, k)[i] in ItemsOf(named, k);
      }
    }
  }

  /** On every glob graph: one memo is complete for every order of roots, whatever the modules
      define, if and only if no two modules glob-reach each other. */
  lemma GraphDecides(idx: Index)
    ensures (forall named :: SameGlobs(idx, named) ==> AlwaysComplete(named)) <==> Untangled(idx)
  {
    hide Reach, SameGlobs, AlwaysComplete, NamedOnlyAt, OwnsName;
    if Untangled(idx) {
      forall named | SameGlobs(idx, named) ensures AlwaysComplete(named) {
        forall p, r ensures !Tangled(named, p, r) {
          SameReach(idx, named, p);
          SameReach(idx, named, r);
          assert !Tangled(idx, p, r);
        }
        UntangledIsComplete(named);
      }
    }
    if p, r :| Tangled(idx, p, r) {
      var named := NamedOnlyAt(idx, r);
      TangledAreModules(idx, p, r);
      NamedKeepsGlobs(idx, r);
      SameReach(idx, named, p);
      SameReach(idx, named, r);
      NamedOwners(idx, r, r);
      forall k | k in Reach(named, r) && k != r ensures !OwnsName(named, k, "x") {
        NamedOwners(idx, r, k);
      }
      OwnNameIsLost(named, r, p, "x");
      NotAlways(named, [r], p);
    }
  }

  lemma NotAlways(idx: Index, roots: seq<Id>, p: Id)
    requires !CompleteAfter(idx, roots, p)
    ensures !AlwaysComplete(idx)
  {
  }

  // ---- what is never lost -----------------------------------------------------------

  ghost predicate MemoOwns(idx: Index, memo: Memo) {
    forall k <- memo.Keys :: Covers(idx, memo[k], {k})
  }

  /** Of the first `i` items, the names they define are there. */
  ghost predicate OwnHandled(idx: Index, m: Id, i: nat, names: set<string>)
    requires i <= |ItemsOf(idx, m)|
  {
    forall k :: 0 <= k < i ==> OwnThere(idx, ItemsOf(idx, m)[k], names)
  }

  ghost predicate OwnThere(idx: Index, c: Id, names: set<string>) {
    GlobOf(idx, c).None? && OwnOf(idx, c).Some? ==> OwnOf(idx, c).value.name in names
  }

  lemma {:induction false} ResolveKeepsOwn(idx: Index, m: Id, memo: Memo, stack: set<Id>)
    requires MemoOwns(idx, memo)
    ensures var (out, memo') := Resolve(idx, m, memo, stack);
      MemoOwns(idx, memo') && (m !in stack ==> Covers(idx, out, {m}))
    decreases idx.Keys - stack, 0, 0
  {
    hide Scan, Covers;
    if m !in memo && m !in stack {
      var items := ItemsOf(idx, m);
      assert items[0..] == items;
      if IsModule(idx, m) { ScanKeepsOwn(idx, m, 0, memo, stack + {m}, []); }
      var out := if IsModule(idx, m) then Scan(idx, items, memo, stack + {m}, []).0 else [];
      OwnHandledMeans(idx, m, out);
    }
  }

  lemma OwnHandledMeans(idx: Index, m: Id, out: Namespace)
    requires OwnHandled(idx, m, |ItemsOf(idx, m)|, Names(out))
    ensures Covers(idx, out, {m})
  {
    hide Names;
    forall n | OwnsName(idx, m, n) ensures n in Names(out) {
      var b: Binding :| b.name == n && Owns(idx, m, b);
      var i :| 0 <= i < |ItemsOf(idx, m)| && Defines(idx, ItemsOf(idx, m)[i], b);
      assert OwnThere(idx, ItemsOf(idx, m)[i], Names(out));
    }
  }

  lemma {:induction false} ScanKeepsOwn(idx: Index, m: Id, i: nat, memo: Memo, stack: set<Id>, out: Namespace)
    requires i <= |ItemsOf(idx, m)| && MemoOwns(idx, memo) && OwnHandled(idx, m, i, Names(out))
    ensures var (out', memo') := Scan(idx, ItemsOf(idx, m)[i..], memo, stack, out);
      MemoOwns(idx, memo') && OwnHandled(idx, m, |ItemsOf(idx, m)|, Names(out'))
    decreases idx.Keys - stack, 1, |ItemsOf(idx, m)| - i
  {
    hide Resolve, Covers, Names, Merge, SetDefault, OwnOf, GlobOf, ItemsOf;
    var items := ItemsOf(idx, m);
    if i == |items| { return; }
    assert items[i..][0] == items[i] && items[i..][1..] == items[i + 1..];
    match GlobOf(idx, items[i])
    case Some(t) =>
      var (ns, memo2) := Resolve(idx, t, memo, stack);
      ResolveKeepsOwn(idx, t, memo, stack);
      MergeMeans(out, ns);
      OwnHandledGrows(idx, m, i, Names(out), Names(Merge(out, ns)));
      ScanKeepsOwn(idx, m, i + 1, memo2, stack, Merge(out, ns));
    case None =>
      var out2 := if OwnOf(idx, items[i]).Some? then SetDefault(out, OwnOf(idx, items[i]).value) else out;
      if OwnOf(idx, items[i]).Some? { SetDefaultMeans(out, OwnOf(idx, items[i]).value); }
      OwnHandledGrows(idx, m, i, Names(out), Names(out2));
      ScanKeepsOwn(idx, m, i + 1, memo, stack, out2);
  }

  lemma OwnHandledGrows(idx: Index, m: Id, i: nat, names: set<string>, names': set<string>)
    requires i < |ItemsOf(idx, m)| && OwnHandled(idx, m, i, names) && names <= names'
    requires OwnThere(idx, ItemsOf(idx, m)[i], names')
    ensures OwnHandled(idx, m, i + 1, names')
  {
    forall k | 0 <= k < i + 1 ensures OwnThere(idx, ItemsOf(idx, m)[k], names') {
      if k < i { assert OwnThere(idx, ItemsOf(idx, m)[k], names); }
    }
  }

  /** On every glob graph, and whatever was resolved before, a module keeps its own names. */
  lemma {:induction false} OwnNamesStay(idx: Index, roots: seq<Id>, p: Id)
    ensures MemoOwns(idx, After(idx, roots))
    ensures Covers(idx, Resolve(idx, p, After(idx, roots), {}).0, {p})
    decreases |roots|
  {
    hide Resolve, Covers;
    if roots != [] {
      OwnNamesStay(idx, Front(roots), p);
      ResolveKeepsOwn(idx, Last(roots), After(idx, Front(roots)), {});
    }
    ResolveKeepsOwn(idx, p, After(idx, roots), {});
  }

  // ---- the smallest tangle ----------------------------------------------------------

  /** `a` and `b` glob-import each other and nothing else. */
  ghost predicate Twins(idx: Index, a: Id, b: Id) {
    a != b && IsModule(idx, a) && IsModule(idx, b) && Globs(idx, a) == {b} && Globs(idx, b) == {a}
  }

  lemma TwinsReach(idx: Index, a: Id, b: Id)
    requires Twins(idx, a, b)
    ensures Reach(idx, a) == {a, b} && Reach(idx, b) == {a, b}
  {
    hide Reach;
    ReachIsLeast(idx, a);
    ReachIsLeast(idx, b);
    assert Closed(idx, {a, b}) && b in Globs(idx, a) && a in Globs(idx, b);
  }

  /** Two modules that glob-import each other, the second resolved after the first with one memo:
      it gets exactly its own names, and is complete exactly when they include the first one's. */
  lemma CycleLeavesSecondShort(idx: Index, a: Id, b: Id)
    requires Twins(idx, a, b)
    ensures forall n :: n in Names(Second(idx, a, b)) <==> OwnsName(idx, b, n)
    ensures CompleteAfter(idx, [a], b) <==> forall n :: OwnsName(idx, a, n) ==> OwnsName(idx, b, n)
  {
    hide Resolve, Reach, OwnsName;
    TwinsReach(idx, a, b);
    var ns := Second(idx, a, b);
    assert Behind(idx, {b}, b, a);
    SecondStaysBehind(idx, a, b, {b});
    OwnNamesStay(idx, [a], b);
    forall n ensures n in Names(ns) <==> OwnsName(idx, b, n) {
      if n in Names(ns) { NameIsDrawn(idx, ns, {b}, n); }
    }
    ReachIsLeast(idx, b);
  }

  lemma NameIsDrawn(idx: Index, ns: Namespace, mods: set<Id>, n: string)
    requires DrawnFrom(idx, ns, mods) && n in Names(ns)
    ensures exists k :: k in mods && OwnsName(idx, k, n)
  {
    var i :| 0 <= i < |ns| && ns[i].name == n;
    assert ns[i] in ns;
    var k :| k in mods && Owns(idx, k, ns[i]);
    assert OwnsName(idx, k, n);
  }

  /** Modules 0 and 1 glob-import each other; 0 defines `f` and 1 defines `g`. */
  function Example(): Index {
    map[
      0 := Item(Some("a"), Module([2, 3])), 1 := Item(Some("b"), Module([4, 5])),
      2 := Item(None, Use(true, None, Some(1))), 3 := Item(Some("f"), Other("function")),
      4 := Item(None, Use(true, None, Some(0))), 5 := Item(Some("g"), Other("function"))]
  }

  lemma OneGlob(idx: Index, m: Id, t: Id)
    requires |ItemsOf(idx, m)| == 2
    requires GlobOf(idx, ItemsOf(idx, m)[0]) == Some(t) && GlobOf(idx, ItemsOf(idx, m)[1]).None?
    ensures Globs(idx, m) == {t}
  {
    assert GlobOf(idx, ItemsOf(idx, m)[0]).value in Globs(idx, m);
  }

  lemma ExampleLosesAName()
    ensures var idx := Example();
      "f" in Names(Scratch(idx, 1)) && "f" !in Names(Second(idx, 0, 1))
  {
    hide Resolve, Names, Scratch, Second, Reach;
    var idx := Example();
    var f := Binding("f", OtherKind("function"), None);
    var items0, items1 := ItemsOf(idx, 0), ItemsOf(idx, 1);
    assert items0 == [2, 3] && items1 == [4, 5];
    assert GlobOf(idx, 2) == Some(1) && GlobOf(idx, 4) == Some(0) && GlobOf(idx, 3).None? && GlobOf(idx, 5).None?;
    OneGlob(idx, 0, 1);
    OneGlob(idx, 1, 0);
    assert Defines(idx, items0[1], f);
    assert Owns(idx, 0, f);
    assert OwnsName(idx, 0, "f");
    assert !OwnsName(idx, 1, "f") by {
      forall b: Binding | Owns(idx, 1, b) ensures b.name != "f" {
        assert b.name == "g";
        assert "g"[0] != "f"[0];
      }
    }
    TwinsReach(idx, 0, 1);
    NameIsLost(idx, 0, 1, {1}, "f");
  }
}
