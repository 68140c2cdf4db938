/** The walk over public modules, which resolves every module it visits with one memo: what it
    lists, and exactly when it ends. */
module SurfaceWalk {
  import opened Sequences
  import opened Wrappers
  import opened SurfaceBinding
  import opened SurfaceDiff
  import opened SurfaceMemo
  import opened SurfaceView

  // ---- the memo of the walk ---------------------------------------------------------

  lemma {:induction false} ResolveExtends(idx: Index, m: Id, memo: Memo, stack: set<Id>)
    ensures Extends(memo, Resolve(idx, m, memo, stack).1)
    ensures m !in stack ==> m in Resolve(idx, m, memo, stack).1 && Resolve(idx, m, memo, stack).1[m] == Resolve(idx, m, memo, stack).0
    decreases idx.Keys - stack, 0, 0
  {
    hide Scan;
    if m !in memo && m !in stack && IsModule(idx, m) {
      ScanExtends(idx, ItemsOf(idx, m), memo, stack + {m}, []);
    }
  }

  lemma {:induction false} ScanExtends(idx: Index, ids: seq<Id>, memo: Memo, stack: set<Id>, out: Namespace)
    ensures Extends(memo, Scan(idx, ids, memo, stack, out).1)
    decreases idx.Keys - stack, 1, |ids|
  {
    hide Resolve, Merge, SetDefault, OwnOf, GlobOf;
    if ids != [] {
      match GlobOf(idx, ids[0])
      case Some(t) =>
        var (ns, memo') := Resolve(idx, t, memo, stack);
        ResolveExtends(idx, t, memo, stack);
        ScanExtends(idx, ids[1..], memo', stack, Merge(out, ns));
      case None =>
        var own := OwnOf(idx, ids[0]);
        ScanExtends(idx, ids[1..], memo, stack, if own.Some? then SetDefault(out, own.value) else out);
    }
  }

  /** What the walk keeps of the memo: its namespaces come from reachable modules, and on an
      untangled graph they are those from scratch. */
  ghost predicate MemoKept(idx: Index, memo: Memo) {
    MemoSound(idx, memo) && (Untangled(idx) ==> MemoScratch(idx, memo))
  }

  lemma ResolveKept(idx: Index, m: Id, memo: Memo)
    requires MemoKept(idx, memo)
    ensures var (ns, memo') := Resolve(idx, m, memo, {});
      MemoKept(idx, memo') && Extends(memo, memo') && m in memo' && memo'[m] == ns && Within(idx, ns, Reach(idx, m))
  {
    hide Resolve, Untangled, Reach, Within, Extends;
    ResolveSound(idx, m, memo);
    ResolveExtends(idx, m, memo, {});
    if Untangled(idx) { UntangledIsExact(idx, m, memo); }
  }

  lemma ExtendsTwice(a: Memo, b: Memo, c: Memo)
    requires Extends(a, b) && Extends(b, c)
    ensures Extends(a, c)
  {
  }

  lemma WithinDistinct(idx: Index, ns: Namespace, area: set<Id>)
    requires Within(idx, ns, area)
    ensures DistinctNames(ns)
  {
  }

  lemma ExtendsAt(view: Memo, view': Memo, m: Id)
    requires Extends(view, view') && m in view
    ensures m in view' && view'[m] == view[m]
  {
  }

  lemma NothingKept(idx: Index)
    ensures MemoKept(idx, map[])
  {
  }

  // ---- the walk, level by level -----------------------------------------------------

  /** The memo after the walk of the tree below `m`, stopped if it goes `limit` levels deep, and
      whether it came to its end. */
  ghost function Walked(idx: Index, m: Id, memo: Memo, limit: nat): (Memo, bool)
    decreases limit, 0
  {
    if limit == 0 then (memo, false)
    else
      var (ns, memo') := Resolve(idx, m, memo, {});
      WalkedNames(idx, ns, memo', limit - 1)
  }

  ghost function WalkedNames(idx: Index, ns: Namespace, memo: Memo, limit: nat): (Memo, bool)
    decreases limit, |ns| + 1
  {
    if ns == [] then (memo, true)
    else if ns[0].sub.None? then WalkedNames(idx, ns[1..], memo, limit)
    else
      var (memo', done) := Walked(idx, ns[0].sub.value, memo, limit);
      if done then WalkedNames(idx, ns[1..], memo', limit) else (memo', false)
  }

  /** The walk from the root ends: some number of levels is enough for it. */
  ghost predicate Ends(idx: Index, root: Id) {
    exists limit: nat :: Walked(idx, root, map[], limit).1
  }

  /** The memo of the walk, stopped if it goes deeper than there are items. */
  ghost function WalkView(idx: Index, root: Id): Memo {
    Walked(idx, root, map[], |idx.Keys| + 1).0
  }

  lemma {:induction false} WalkedKept(idx: Index, m: Id, memo: Memo, limit: nat)
    requires MemoKept(idx, memo)
    ensures var view := Walked(idx, m, memo, limit).0; MemoKept(idx, view) && Extends(memo, view)
    decreases limit, 0
  {
    hide MemoKept, Resolve, Extends;
    ExtendsItself(memo);
    if limit > 0 {
      var (ns, memo') := Resolve(idx, m, memo, {});
      ResolveKept(idx, m, memo);
      NamesKept(idx, ns, memo', limit - 1);
      ExtendsTwice(memo, memo', Walked(idx, m, memo, limit).0);
    }
  }

  lemma {:induction false} NamesKept(idx: Index, ns: Namespace, memo: Memo, limit: nat)
    requires MemoKept(idx, memo)
    ensures var view := WalkedNames(idx, ns, memo, limit).0; MemoKept(idx, view) && Extends(memo, view)
    decreases limit, |ns| + 1
  {
    hide MemoKept, Extends, Walked;
    ExtendsItself(memo);
    if ns != [] {
      if ns[0].sub.None? {
        NamesKept(idx, ns[1..], memo, limit);
      } else {
        var (memo', done) := Walked(idx, ns[0].sub.value, memo, limit);
        WalkedKept(idx, ns[0].sub.value, memo, limit);
        if done {
          NamesKept(idx, ns[1..], memo', limit);
          ExtendsTwice(memo, memo', WalkedNames(idx, ns, memo, limit).0);
        }
      }
    }
  }

  lemma ExtendsItself(memo: Memo)
    ensures Extends(memo, memo)
  {
  }

  // ---- a walk that ends, and one that is stopped ------------------------------------

  lemma BoundedStays(view: Memo, view': Memo, m: Id, limit: nat)
    requires Extends(view, view') && Bounded(view, m, limit)
    ensures Bounded(view', m, limit)
  {
    hide Follow;
    forall rest: Path | Follow(view', m, rest).Some? ensures |rest| < limit && Follow(view', m, rest).value in view' {
      FollowStays(view, view', m, rest);
    }
  }

  lemma {:induction false} SubIsThere(ns: Namespace, name: string) returns (i: nat)
    requires SubOf(ns, name).Some?
    ensures i < |ns| && ns[i].name == name && ns[i].sub == SubOf(ns, name)
  {
    i := 0;
    if ns[0].name != name {
      i := SubIsThere(ns[1..], name);
      i := i + 1;
    }
  }

  /** The submodules named have bounded paths. */
  ghost predicate SubsBounded(view: Memo, ns: Namespace, limit: nat) {
    forall i :: 0 <= i < |ns| && ns[i].sub.Some? ==> Bounded(view, ns[i].sub.value, limit)
  }

  lemma SubsThenModule(view: Memo, m: Id, limit: nat)
    requires m in view && SubsBounded(view, view[m], limit)
    ensures Bounded(view, m, limit + 1)
  {
    hide SubOf;
    forall rest: Path | Follow(view, m, rest).Some? ensures |rest| < limit + 1 && Follow(view, m, rest).value in view {
      if rest != [] {
        var i := SubIsThere(view[m], rest[0]);
        assert Bounded(view, view[m][i].sub.value, limit);
        assert Follow(view, view[m][i].sub.value, rest[1..]).Some?;
      }
    }
  }

  /** A walk that came to its end has no path as long as it had levels. */
  lemma {:induction false} DoneIsBounded(idx: Index, m: Id, memo: Memo, limit: nat)
    requires MemoKept(idx, memo) && Walked(idx, m, memo, limit).1
    ensures Bounded(Walked(idx, m, memo, limit).0, m, limit)
    decreases limit, 0
  {
    hide MemoKept, Resolve, Extends, SubsBounded, Bounded;
    var (ns, memo') := Resolve(idx, m, memo, {});
    var view := Walked(idx, m, memo, limit).0;
    ResolveKept(idx, m, memo);
    NamesKept(idx, ns, memo', limit - 1);
    ExtendsAt(memo', view, m);
    NamesAreBounded(idx, ns, memo', limit - 1);
    SubsThenModule(view, m, limit - 1);
  }

  lemma {:induction false} NamesAreBounded(idx: Index, ns: Namespace, memo: Memo, limit: nat)
    requires MemoKept(idx, memo) && WalkedNames(idx, ns, memo, limit).1
    ensures SubsBounded(WalkedNames(idx, ns, memo, limit).0, ns, limit)
    decreases limit, |ns| + 1
  {
    hide MemoKept, Extends, Walked, Bounded;
    if ns != [] {
      var view := WalkedNames(idx, ns, memo, limit).0;
      if ns[0].sub.None? {
        NamesAreBounded(idx, ns[1..], memo, limit);
      } else {
        var sub := ns[0].sub.value;
        var memo' := Walked(idx, sub, memo, limit).0;
        WalkedKept(idx, sub, memo, limit);
        DoneIsBounded(idx, sub, memo, limit);
        NamesKept(idx, ns[1..], memo', limit);
        BoundedStays(memo', view, sub, limit);
        NamesAreBounded(idx, ns[1..], memo', limit);
      }
      forall i | 0 <= i < |ns| && ns[i].sub.Some? ensures Bounded(view, ns[i].sub.value, limit) {
        if i > 0 { assert ns[1..][i - 1] == ns[i]; }
      }
    }
  }

  /** A walk that was stopped has a path as long as it had levels. */
  lemma {:induction false} StoppedHasPath(idx: Index, m: Id, memo: Memo, limit: nat) returns (rest: Path)
    requires MemoKept(idx, memo) && !Walked(idx, m, memo, limit).1
    ensures |rest| == limit && Follow(Walked(idx, m, memo, limit).0, m, rest).Some?
    decreases limit, 0
  {
    hide MemoKept, Resolve, Extends, SubOf, Within, Reach;
    rest := [];
    if limit > 0 {
      var (ns, memo') := Resolve(idx, m, memo, {});
      var view := Walked(idx, m, memo, limit).0;
      ResolveKept(idx, m, memo);
      NamesKept(idx, ns, memo', limit - 1);
      ExtendsAt(memo', view, m);
      WithinDistinct(idx, ns, Reach(idx, m));
      var i, more := NamesHavePath(idx, ns, memo', limit - 1);
      SubOfMeans(ns, i);
      rest := [ns[i].name] + more;
      assert rest[0] == ns[i].name && rest[1..] == more;
    }
  }

  lemma {:induction false} NamesHavePath(idx: Index, ns: Namespace, memo: Memo, limit: nat) returns (i: nat, rest: Path)
    requires MemoKept(idx, memo) && !WalkedNames(idx, ns, memo, limit).1
    ensures i < |ns| && ns[i].sub.Some? && |rest| == limit
    ensures Follow(WalkedNames(idx, ns, memo, limit).0, ns[i].sub.value, rest).Some?
    decreases limit, |ns| + 1
  {
    hide MemoKept, Extends, Walked, Follow;
    if ns[0].sub.None? {
      i, rest := NamesHavePath(idx, ns[1..], memo, limit);
      i := i + 1;
    } else {
      var (memo', done) := Walked(idx, ns[0].sub.value, memo, limit);
      WalkedKept(idx, ns[0].sub.value, memo, limit);
      if done {
        i, rest := NamesHavePath(idx, ns[1..], memo', limit);
        i := i + 1;
      } else {
        rest := StoppedHasPath(idx, ns[0].sub.value, memo, limit);
        i := 0;
      }
    }
  }

  // ---- more levels ------------------------------------------------------------------

  /** With more levels a walk that ended ends the same, and one that was stopped goes on from there. */
  lemma {:induction false} MoreLevels(idx: Index, m: Id, memo: Memo, limit: nat, more: nat)
    requires MemoKept(idx, memo) && limit <= more
    ensures var (a, b) := (Walked(idx, m, memo, limit), Walked(idx, m, memo, more));
      Extends(a.0, b.0) && (a.1 ==> a == b)
    decreases limit, 0
  {
    hide MemoKept, Resolve, Extends;
    if limit == 0 {
      WalkedKept(idx, m, memo, more);
    } else {
      ResolveKept(idx, m, memo);
      MoreLevelsForNames(idx, Resolve(idx, m, memo, {}).0, Resolve(idx, m, memo, {}).1, limit - 1, more - 1);
    }
  }

  lemma {:induction false} MoreLevelsForNames(idx: Index, ns: Namespace, memo: Memo, limit: nat, more: nat)
    requires MemoKept(idx, memo) && limit <= more
    ensures var (a, b) := (WalkedNames(idx, ns, memo, limit), WalkedNames(idx, ns, memo, more));
      Extends(a.0, b.0) && (a.1 ==> a == b)
    decreases limit, |ns| + 1
  {
    hide MemoKept, Extends, Walked;
    if ns == [] {
      ExtendsItself(memo);
    } else if ns[0].sub.None? {
      MoreLevelsForNames(idx, ns[1..], memo, limit, more);
    } else {
      var sub := ns[0].sub.value;
      var (memo1, done) := Walked(idx, sub, memo, limit);
      var memo2 := Walked(idx, sub, memo, more).0;
      MoreLevels(idx, sub, memo, limit, more);
      WalkedKept(idx, sub, memo, limit);
      WalkedKept(idx, sub, memo, more);
      if done {
        MoreLevelsForNames(idx, ns[1..], memo1, limit, more);
      } else {
        NamesKept(idx, ns[1..], memo2, more);
        ExtendsTwice(memo1, memo2, WalkedNames(idx, ns, memo, more).0);
      }
    }
  }

  // ---- exactly when the walk ends ---------------------------------------------------

  lemma NothingReachedOutside(idx: Index, k: Id)
    requires k !in idx
    ensures forall o, b :: o in Reach(idx, k) ==> !Owns(idx, o, b)
  {
    hide Reach;
    ReachIsLeast(idx, k);
    assert Closed(idx, {k});
  }

  /** What lies outside the index has no names. */
  lemma NamedInIndex(idx: Index, memo: Memo)
    requires MemoKept(idx, memo)
    ensures NamedWithin(memo, idx.Keys)
  {
    hide Reach, Untangled, Owns;
    forall k <- memo.Keys | memo[k] != [] ensures k in idx {
      assert memo[k][0] in memo[k];
      var o :| o in Reach(idx, k) && Owns(idx, o, memo[k][0]);
      if k !in idx { NothingReachedOutside(idx, k); }
    }
  }

  /** The names of `view` are those of `view'`. */
  ghost predicate NamesAgree(view: Memo, view': Memo) {
    forall k <- view.Keys :: view[k] != [] ==> k in view' && view'[k] == view[k]
  }

  lemma {:induction false} FollowAgrees(view: Memo, view': Memo, m: Id, rest: Path)
    requires NamesAgree(view, view') && Follow(view, m, rest).Some?
    ensures Follow(view', m, rest) == Follow(view, m, rest)
    decreases |rest|
  {
    hide SubOf;
    if rest != [] {
      LeadsOn(view, m, rest);
      FollowAgrees(view, view', SubOf(view[m], rest[0]).value, rest[1..]);
    }
  }

  lemma CyclicBy(view: Memo, k: Id, more: Path)
    requires more != [] && Follow(view, k, more) == Some(k)
    ensures Cyclic(view, k)
  {
  }

  /** A cycle stays one. */
  lemma CycleStays(view: Memo, view': Memo, m: Id)
    requires NamesAgree(view, view') && NoCycleFrom(view', m)
    ensures NoCycleFrom(view, m)
  {
    hide Follow, NamesAgree;
    forall rest: Path, more: Path | Follow(view, m, rest).Some? && more != []
      ensures Follow(view, Follow(view, m, rest).value, more) != Some(Follow(view, m, rest).value)
    {
      var k := Follow(view, m, rest).value;
      FollowAgrees(view, view', m, rest);
      if Follow(view, k, more) == Some(k) {
        FollowAgrees(view, view', k, more);
        CyclicBy(view', k, more);
      }
    }
  }

  /** On every index: the walk ends if and only if names lead along no cycle from the root, by what
      it resolves within as many levels as there are items; and then that many are enough. */
  lemma WalkEndsIff(idx: Index, root: Id)
    ensures Ends(idx, root) <==> NoCycleFrom(WalkView(idx, root), root)
    ensures Ends(idx, root) <==> Walked(idx, root, map[], |idx.Keys| + 1).1
  {
    hide Walked, NoCycleFrom, MemoKept;
    var levels, empty: Memo := |idx.Keys| + 1, map[];
    NothingKept(idx);
    WalkedKept(idx, root, empty, levels);
    if Walked(idx, root, empty, levels).1 {
      DoneIsBounded(idx, root, empty, levels);
      BoundedHasNoCycle(WalkView(idx, root), root, levels);
    } else {
      var rest := StoppedHasPath(idx, root, empty, levels);
      NamedInIndex(idx, WalkView(idx, root));
      LongPathTurns(WalkView(idx, root), root, rest, idx.Keys);
    }
    if limit: nat :| Walked(idx, root, empty, limit).1 {
      var view := Walked(idx, root, empty, limit).0;
      DoneIsBounded(idx, root, empty, limit);
      BoundedHasNoCycle(view, root, limit);
      if levels <= limit {
        MoreLevels(idx, root, empty, levels, limit);
        CycleStays(WalkView(idx, root), view, root);
      } else {
        MoreLevels(idx, root, empty, limit, levels);
      }
    }
  }

  // ---- the namespaces from scratch --------------------------------------------------

  /** Every module of the index with its namespace from scratch. */
  ghost function ScratchView(idx: Index): Memo {
    map m | m in idx.Keys :: Scratch(idx, m)
  }

  lemma ScratchIsSound(idx: Index)
    ensures MemoSound(idx, ScratchView(idx))
  {
    hide Resolve, Within, Reach;
    forall m | m in idx.Keys ensures Within(idx, Scratch(idx, m), Reach(idx, m)) {
      ResolveSound(idx, m, map[]);
    }
  }

  lemma SubInIndex(idx: Index, m: Id, ns: Namespace, name: string)
    requires Within(idx, ns, Reach(idx, m)) && SubOf(ns, name).Some?
    ensures SubOf(ns, name).value in idx
  {
    hide Reach, SubOf;
    var i := SubIsThere(ns, name);
    assert ns[i] in ns;
    var k :| k in Reach(idx, m) && Owns(idx, k, ns[i]);
  }

  lemma {:induction false} ScratchLeadsInside(idx: Index, m: Id, rest: Path)
    requires m in idx && MemoSound(idx, ScratchView(idx)) && Follow(ScratchView(idx), m, rest).Some?
    ensures Follow(ScratchView(idx), m, rest).value in idx
    decreases |rest|
  {
    hide SubOf, Scratch, Within, Reach;
    if rest != [] {
      var ns := ScratchView(idx)[m];
      SubInIndex(idx, m, ns, rest[0]);
      ScratchLeadsInside(idx, SubOf(ns, rest[0]).value, rest[1..]);
    }
  }

  /** By the namespaces from scratch, the tree below a module can be listed if and only if names
      lead along no cycle from it. */
  lemma ScratchListedIff(idx: Index, root: Id, path: Path)
    requires root in idx
    ensures (exists out :: ListsTree(ScratchView(idx), root, path, out)) <==> NoCycleFrom(ScratchView(idx), root)
  {
    hide Follow, Scratch, Reach, ListsTree, NoCycleFrom, DrawnFrom;
    var view := ScratchView(idx);
    ScratchIsSound(idx);
    forall rest: Path | Follow(view, root, rest).Some? ensures Follow(view, root, rest).value in view {
      ScratchLeadsInside(idx, root, rest);
    }
    ListedIffNoCycle(view, root, path);
  }

  lemma {:induction false} FollowBack(view: Memo, view': Memo, m: Id, rest: Path)
    requires Known(view, m) && (forall k <- view.Keys :: k in view' ==> view'[k] == view[k])
    requires Follow(view', m, rest).Some?
    ensures Follow(view, m, rest) == Follow(view', m, rest)
    decreases |rest|
  {
    hide SubOf;
    assert Follow(view, m, []) == Some(m);
    if rest != [] {
      KnownSub(view, m, rest[0], SubOf(view[m], rest[0]).value);
      FollowBack(view, view', SubOf(view[m], rest[0]).value, rest[1..]);
    }
  }

  lemma NoCycleBack(view: Memo, view': Memo, m: Id)
    requires Known(view, m) && NoCycleFrom(view, m) && (forall k <- view.Keys :: k in view' ==> view'[k] == view[k])
    ensures NoCycleFrom(view', m)
  {
    hide Follow, Known;
    forall rest: Path, more: Path | Follow(view', m, rest).Some? && more != []
      ensures Follow(view', Follow(view', m, rest).value, more) != Some(Follow(view', m, rest).value)
    {
      var k := Follow(view', m, rest).value;
      FollowBack(view, view', m, rest);
      if Follow(view', k, more) == Some(k) {
        FollowThrough(view', m, rest, more);
        FollowBack(view, view', m, rest + more);
        FollowThrough(view, m, rest, more);
        CyclicBy(view, k, more);
      }
    }
  }

  /** Where no two modules glob-reach each other: the walk ends if and only if names lead along no
      cycle from the root by the namespaces from scratch. */
  lemma UntangledWalkEndsIff(idx: Index, root: Id)
    requires Untangled(idx)
    ensures Ends(idx, root) <==> NoCycleFrom(ScratchView(idx), root)
  {
    hide Walked, NoCycleFrom, Untangled, Scratch, MemoSound;
    var levels, empty: Memo := |idx.Keys| + 1, map[];
    var view := WalkView(idx, root);
    NothingKept(idx);
    WalkedKept(idx, root, empty, levels);
    NamedInIndex(idx, view);
    WalkEndsIff(idx, root);
    if NoCycleFrom(ScratchView(idx), root) {
      CycleStays(view, ScratchView(idx), root);
    }
    if Ends(idx, root) {
      DoneIsBounded(idx, root, empty, levels);
      BoundedHasNoCycle(view, root, levels);
      NoCycleBack(view, ScratchView(idx), root);
    }
  }

  // ---- depth is enough --------------------------------------------------------------

  /** Within `mods`, every name that a module can get names a module of `mods` that is deeper. */
  ghost predicate Descends(idx: Index, mods: set<Id>, depth: Id -> nat) {
    forall m, k, b :: m in mods && k in Reach(idx, m) && Owns(idx, k, b) && b.sub.Some? ==>
      b.sub.value in mods && depth(b.sub.value) < depth(m)
  }

  lemma {:induction false} FollowDescends(idx: Index, mods: set<Id>, depth: Id -> nat, view: Memo, m: Id, rest: Path)
    requires Descends(idx, mods, depth) && MemoSound(idx, view) && m in mods && Follow(view, m, rest).Some?
    ensures var k := Follow(view, m, rest).value; k in mods && depth(k) + |rest| <= depth(m)
    decreases |rest|
  {
    hide SubOf, Reach, Owns;
    if rest != [] {
      var i := SubIsThere(view[m], rest[0]);
      var b := view[m][i];
      assert b in view[m];
      var k :| k in Reach(idx, m) && Owns(idx, k, b);
      FollowDescends(idx, mods, depth, view, b.sub.value, rest[1..]);
    }
  }

  /** On every glob graph, whatever the memo loses: if what the root leads to descends, the walk
      ends. */
  lemma DescendingWalkEnds(idx: Index, root: Id, mods: set<Id>, depth: Id -> nat)
    requires root in mods && Descends(idx, mods, depth)
    ensures Ends(idx, root)
  {
    hide Walked, Follow, Descends, Untangled;
    var view := WalkView(idx, root);
    NothingKept(idx);
    WalkedKept(idx, root, map[], |idx.Keys| + 1);
    forall rest: Path, more: Path | Follow(view, root, rest).Some? && more != []
      ensures Follow(view, Follow(view, root, rest).value, more) != Some(Follow(view, root, rest).value)
    {
      FollowDescends(idx, mods, depth, view, root, rest);
      var k := Follow(view, root, rest).value;
      if Follow(view, k, more).Some? { FollowDescends(idx, mods, depth, view, k, more); }
    }
    WalkEndsIff(idx, root);
  }

  // ---- the walker -------------------------------------------------------------------

  ghost predicate SeenListed(seen: set<(Id, Path)>, out: Found) {
    forall s <- seen :: s.1 in out
  }

  /** The rest of a module's names, walked from this memo, ends the walk of the module. */
  ghost predicate OnTheWay(idx: Index, ns: Namespace, i: nat, memo: Memo, limit: nat, end: Memo) {
    i <= |ns| && WalkedNames(idx, ns[i..], memo, limit) == (end, true)
  }

  lemma OneNameOn(idx: Index, ns: Namespace, i: nat, memo: Memo, limit: nat, end: Memo)
    requires OnTheWay(idx, ns, i, memo, limit, end) && i < |ns|
    ensures if ns[i].sub.None? then OnTheWay(idx, ns, i + 1, memo, limit, end)
            else var (memo', done) := Walked(idx, ns[i].sub.value, memo, limit);
              done && OnTheWay(idx, ns, i + 1, memo', limit, end)
  {
    hide Walked;
    assert ns[i..][0] == ns[i] && ns[i..][1..] == ns[i + 1..];
  }

  lemma AllNamesOn(idx: Index, ns: Namespace, memo: Memo, limit: nat, end: Memo)
    requires OnTheWay(idx, ns, |ns|, memo, limit, end)
    ensures memo == end
  {
  }

  lemma WayBegins(idx: Index, m: Id, memo: Memo, limit: nat)
    requires Walked(idx, m, memo, limit).1
    ensures limit > 0
    ensures var (ns, memo') := Resolve(idx, m, memo, {});
      OnTheWay(idx, ns, 0, memo', limit - 1, Walked(idx, m, memo, limit).0)
  {
    hide Resolve, WalkedNames;
    var ns := Resolve(idx, m, memo, {}).0;
    assert ns[0..] == ns;
  }

  class Walker {
    const resolver: Resolver
    var seen: set<(Id, Path)>
    var out: Found

    constructor (resolver: Resolver)
      ensures this.resolver == resolver && seen == {} && out == map[]
    {
      this.resolver := resolver;
      seen := {};
      out := map[];
    }

    ghost predicate Ready()
      reads this, resolver
    {
      resolver.stack == {} && MemoKept(resolver.idx, resolver.memo) && SeenListed(seen, out)
    }

    /** `visit`, for a path under which nothing is listed yet, where `limit` levels are enough:
        afterwards the tree below it is listed as the memo resolves it, and nothing else has
        changed. */
    method Visit(m: Id, path: Path, ghost limit: nat)
      requires Ready() && Walked(resolver.idx, m, resolver.memo, limit).1 && Unlisted(path, out)
      modifies this, resolver
      ensures Ready() && resolver.memo == Walked(resolver.idx, m, old(resolver.memo), limit).0
      ensures ListsTree(resolver.memo, m, path, out) && Apart(path, old(out), out)
      ensures old(out).Keys <= out.Keys
      decreases limit
    {
      hide MemoKept, Resolve, ListsTree, Walking, Apart, Within, Reach, Walked, OnTheWay, Extends;
      assert (m, path) !in seen && path !in out;
      if (m, path) in seen { return; }
      ghost var out0, memo0, idx := out, resolver.memo, resolver.idx;
      ghost var end := Walked(idx, m, memo0, limit).0;
      seen := seen + {(m, path)};
      if path !in out { out := out[path := map[]]; }
      WayBegins(idx, m, memo0, limit);
      ResolveKept(idx, m, resolver.memo);
      var ns := resolver.Namespace(m);
      WalkBegins(resolver.memo, m, path, out0);
      var i := 0;
      while i < |ns|
        invariant 0 <= i <= |ns| && path in out && Ready()
        invariant m in resolver.memo && resolver.memo[m] == ns && Within(idx, ns, Reach(idx, m))
        invariant Walking(resolver.memo, m, i, path, out) && OnTheWay(idx, ns, i, resolver.memo, limit - 1, end)
        invariant Apart(path, out0, out) && out0.Keys <= out.Keys
      {
        var b := ns[i];
        ghost var before, view := out, resolver.memo;
        WithinDistinct(idx, ns, Reach(idx, m));
        StepIsFresh(view, m, i, path, out);
        RecordIsApart(path, out0, out, b);
        OneNameOn(idx, ns, i, view, limit - 1, end);
        if b.name !in out[path] { out := out[path := out[path][b.name := b.kind]]; }
        ghost var recorded := out;
        assert recorded == Record(before, path, b);
        if b.sub.Some? {
          WalkedKept(idx, b.sub.value, view, limit - 1);
          Visit(b.sub.value, path + [b.name], limit - 1);
          ApartTwice(path, path + [b.name], out0, recorded, out);
          WalkingStays(view, resolver.memo, m, i, path, before);
          ExtendsAt(view, resolver.memo, m);
        }
        StepDone(resolver.memo, m, i, path, before, out);
        i := i + 1;
      }
      AllNamesOn(idx, ns, resolver.memo, limit - 1, end);
      WalkEnds(resolver.memo, m, path, out);
    }
  }

  /** Every name listed under a path is bound, with that kind, by an item that some module lists
      which the module at the path imports, directly or not, or is. */
  ghost predicate KindsAreBound(idx: Index, view: Memo, root: Id, crate: string, out: Found) {
    forall rest: Path, n: string :: Follow(view, root, rest).Some? && [crate] + rest in out && n in out[[crate] + rest] ==>
      KindIsBound(idx, Reach(idx, Follow(view, root, rest).value), n, out[[crate] + rest][n])
  }

  ghost predicate KindIsBound(idx: Index, mods: set<Id>, n: string, kind: Kind) {
    exists k, c, sub :: k in mods && Lists(idx, k, c) && Binds(idx, c, Binding(n, kind, sub))
  }

  lemma ListedKindsAreBound(idx: Index, view: Memo, root: Id, crate: string, out: Found)
    requires ListsTree(view, root, [crate], out) && MemoSound(idx, view)
    ensures KindsAreBound(idx, view, root, crate, out)
  {
    hide Follow, Reach, Lists, Binds, Owns;
    forall rest: Path, n: string | Follow(view, root, rest).Some? && [crate] + rest in out && n in out[[crate] + rest]
      ensures KindIsBound(idx, Reach(idx, Follow(view, root, rest).value), n, out[[crate] + rest][n])
    {
      var m := Follow(view, root, rest).value;
      assert Listed(view, root, rest, [crate] + rest, out);
      var b := NamedBinding(view[m], n);
      var k :| k in Reach(idx, m) && Owns(idx, k, b);
      OwnsIff(idx, k, b);
      var c :| Lists(idx, k, c) && Binds(idx, c, b);
      assert b == Binding(n, out[[crate] + rest][n], b.sub);
    }
  }

  /** `walk_modules`, on every glob graph, for every root from which names lead along no cycle: the
      condition under which it ends.  The paths listed are exactly those that lead from the root,
      name by name, to a module, each with exactly the names and kinds that module resolved to;
      every such name is one that a glob-reachable module defines; and on an untangled graph each
      module resolved to its namespace from scratch. */
  method WalkModules(idx: Index, root: Id, crate: string) returns (out: Found, ghost view: Memo)
    requires NoCycleFrom(WalkView(idx, root), root)
    ensures view == WalkView(idx, root) && ListsTree(view, root, [crate], out)
    ensures forall p <- out.Keys :: [crate] <= p
    ensures KindsAreBound(idx, view, root, crate, out)
    ensures forall k <- view.Keys :: Within(idx, view[k], Reach(idx, k))
    ensures Untangled(idx) ==> forall k <- view.Keys :: view[k] == Scratch(idx, k)
  {
    hide ListsTree, Within, Reach, Untangled, Scratch, Walked, NoCycleFrom, KindsAreBound;
    NothingKept(idx);
    WalkEndsIff(idx, root);
    var resolver := new Resolver(idx);
    var walker := new Walker(resolver);
    walker.Visit(root, [crate], |idx.Keys| + 1);
    out, view := walker.out, resolver.memo;
    ListedKindsAreBound(idx, view, root, crate, out);
  }

  // ---- a walk without an end --------------------------------------------------------

  /** `pub use crate as me`. */
  function CrateNamesItself(): Index {
    map[0 := Item(Some("root"), Module([1])), 1 := Item(None, Use(false, Some("me"), Some(0)))]
  }

  /** The root is resolved with an empty memo. */
  lemma RootIsFromScratch(idx: Index, root: Id)
    ensures root in WalkView(idx, root) && WalkView(idx, root)[root] == Scratch(idx, root)
  {
    hide Resolve, MemoKept, Extends;
    var (ns, memo) := Resolve(idx, root, map[], {});
    NothingKept(idx);
    ResolveKept(idx, root, map[]);
    NamesKept(idx, ns, memo, |idx.Keys|);
    ExtendsAt(memo, WalkView(idx, root), root);
  }

  lemma CrateHasItself()
    ensures Scratch(CrateNamesItself(), 0) == [Binding("me", ModuleKind, Some(0))]
  {
    var idx, me := CrateNamesItself(), Binding("me", ModuleKind, Some(0));
    assert [1][1..] == [];
    assert SetDefault([], me) == [me];
    var empty: Memo := map[];
    assert {} + {0} == {0} && ItemsOf(idx, 0) == [1];
    assert Scan(idx, [], empty, {0}, [me]) == ([me], empty);
    assert Scan(idx, [1], empty, {0}, []) == ([me], empty);
  }

  lemma NameLeadsBack(view: Memo, k: Id, b: Binding)
    requires k in view && view[k] == [b] && b.sub == Some(k)
    ensures !NoCycleFrom(view, k)
  {
    assert [b.name][1..] == [];
    assert Follow(view, k, [b.name]) == Some(k);
    assert Follow(view, k, []) == Some(k);
  }

  /** There the walk goes on for ever: `me::me::me` and so on. */
  lemma CrateThatNamesItself()
    ensures !Ends(CrateNamesItself(), 0)
  {
    hide Scratch, NoCycleFrom, Ends, WalkView;
    RootIsFromScratch(CrateNamesItself(), 0);
    CrateHasItself();
    NameLeadsBack(WalkView(CrateNamesItself(), 0), 0, Binding("me", ModuleKind, Some(0)));
    WalkEndsIff(CrateNamesItself(), 0);
  }

  /** A root without names ends the walk, whatever cycles of names the index holds elsewhere. */
  lemma EmptyRootEnds(idx: Index, root: Id)
    requires Scratch(idx, root) == []
    ensures Ends(idx, root)
  {
    hide Resolve;
    assert Walked(idx, root, map[], 1).1;
  }
}
