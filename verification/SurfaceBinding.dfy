/** What an item of a module binds, said outright, and which of several definitions wins. */
module SurfaceBinding {
  import opened Wrappers
  import opened SurfaceDiff

  // ---- what an item binds -----------------------------------------------------------

  /** The binding shows the item: its kind, and the item itself if it is a module. */
  ghost predicate Shows(idx: Index, t: Id, b: Binding)
    requires t in idx
  {
    match idx[t].inner
    case Module(_) => b.kind == ModuleKind && b.sub == Some(t)
    case Use(_, _, _) => b.kind == UseKind && b.sub == None
    case Other(k) => b.kind == OtherKind(k) && b.sub == None
  }

  /** The item binds a name: a named re-export what it points at, any other item itself; a
      re-export of what the index does not hold is a bare `use`. */
  ghost predicate Binds(idx: Index, c: Id, b: Binding) {
    && c in idx && b.name != []
    && match idx[c].inner
       case Use(glob, alias, target) =>
         && !glob && alias == Some(b.name)
         && if target.Some? && target.value in idx then Shows(idx, target.value, b) else b.kind == UseKind && b.sub == None
       case _ => idx[c].name == Some(b.name) && Shows(idx, c, b)
  }

  /** The item imports all of a module. */
  ghost predicate Imports(idx: Index, c: Id, t: Id) {
    && c in idx && idx[c].inner.Use? && idx[c].inner.glob && idx[c].inner.target == Some(t)
    && t in idx && idx[t].inner.Module?
  }

  lemma BindsIff(idx: Index, c: Id, b: Binding)
    ensures Binds(idx, c, b) <==> OwnOf(idx, c) == Some(b)
    ensures Binds(idx, c, b) <==> Defines(idx, c, b)
  {
  }

  lemma ImportsIff(idx: Index, c: Id, t: Id)
    ensures Imports(idx, c, t) <==> GlobOf(idx, c) == Some(t)
  {
  }

  /** A module lists the item. */
  ghost predicate Lists(idx: Index, m: Id, c: Id) {
    m in idx && idx[m].inner.Module? && c in idx[m].inner.items
  }

  lemma OwnsIff(idx: Index, m: Id, b: Binding)
    ensures Owns(idx, m, b) <==> exists c :: Lists(idx, m, c) && Binds(idx, c, b)
  {
    hide Binds, Defines;
    forall c ensures Binds(idx, c, b) <==> Defines(idx, c, b) { BindsIff(idx, c, b); }
    if c :| Lists(idx, m, c) && Binds(idx, c, b) {
      var i :| 0 <= i < |ItemsOf(idx, m)| && ItemsOf(idx, m)[i] == c;
      assert Defines(idx, ItemsOf(idx, m)[i], b);
    }
    if Owns(idx, m, b) {
      var i :| 0 <= i < |ItemsOf(idx, m)| && Defines(idx, ItemsOf(idx, m)[i], b);
      assert Lists(idx, m, ItemsOf(idx, m)[i]);
    }
  }

  lemma GlobsIff(idx: Index, m: Id, t: Id)
    ensures t in Globs(idx, m) <==> exists c :: Lists(idx, m, c) && Imports(idx, c, t)
  {
    hide Imports;
    forall c ensures Imports(idx, c, t) <==> GlobOf(idx, c) == Some(t) { ImportsIff(idx, c, t); }
    if c :| Lists(idx, m, c) && Imports(idx, c, t) {
      var i :| 0 <= i < |ItemsOf(idx, m)| && ItemsOf(idx, m)[i] == c;
      assert GlobOf(idx, ItemsOf(idx, m)[i]) == Some(t);
    }
  }

  /** A set of modules that holds whatever its modules import. */
  ghost predicate ImportClosed(idx: Index, mods: set<Id>) {
    forall m, c, t :: m in mods && Lists(idx, m, c) && Imports(idx, c, t) ==> t in mods
  }

  /** What a module resolves to from scratch: what is listed in it and in the modules it imports,
      directly or not, each name bound as one of their items binds it. */
  lemma NamespaceIsListed(idx: Index, m: Id)
    ensures m in Reach(idx, m) && ImportClosed(idx, Reach(idx, m))
    ensures forall mods: set<Id> :: m in mods && ImportClosed(idx, mods) ==> Reach(idx, m) <= mods
    ensures forall b <- Scratch(idx, m) :: exists k, c :: k in Reach(idx, m) && Lists(idx, k, c) && Binds(idx, c, b)
    ensures forall k, c, b :: k in Reach(idx, m) && Lists(idx, k, c) && Binds(idx, c, b) ==> b.name in Names(Scratch(idx, m))
  {
    hide Resolve, Lists, Imports, Binds, Globs, Owns;
    ScratchIsExact(idx, m);
    forall k, t ensures t in Globs(idx, k) <==> exists c :: Lists(idx, k, c) && Imports(idx, c, t) { GlobsIff(idx, k, t); }
    forall k, b ensures Owns(idx, k, b) <==> exists c :: Lists(idx, k, c) && Binds(idx, c, b) { OwnsIff(idx, k, b); }
    forall mods: set<Id> ensures ImportClosed(idx, mods) <==> Closed(idx, mods) {}
    forall k, c, b | k in Reach(idx, m) && Lists(idx, k, c) && Binds(idx, c, b) ensures b.name in Names(Scratch(idx, m)) {
      assert Owns(idx, k, b);
      assert OwnsName(idx, k, b.name);
    }
  }

  /** A named re-export binds what its target would bind if it stood there itself under that name;
      one whose target the index does not hold is a bare `use`. */
  lemma ReexportIsListing(idx: Index, c: Id, n: string, t: Id, b: Binding)
    requires c in idx && idx[c].inner == Use(false, Some(n), Some(t)) && n != []
    ensures t in idx && !idx[t].inner.Use? ==>
      (OwnOf(idx, c) == Some(b) <==> OwnOf(idx[t := Item(Some(n), idx[t].inner)], t) == Some(b))
    ensures t !in idx ==> (OwnOf(idx, c) == Some(b) <==> b == Binding(n, UseKind, None))
  {
  }

  // ---- which definition wins --------------------------------------------------------

  /** What an item can give the module that lists it: what it binds, or what a module that it
      imports, directly or not, lists. */
  ghost predicate Gives(idx: Index, c: Id, b: Binding) {
    match GlobOf(idx, c)
    case Some(t) => exists k :: k in Reach(idx, t) && Owns(idx, k, b)
    case None => OwnOf(idx, c) == Some(b)
  }

  /** Every binding is given by one of the first `i` items. */
  ghost predicate GivenBy(idx: Index, items: seq<Id>, i: nat, out: Namespace)
    requires i <= |items|
  {
    forall b <- out :: exists j :: 0 <= j < i && Gives(idx, items[j], b)
  }

  /** What has been resolved is what the first `i` items reach. */
  ghost predicate KnownBy(idx: Index, items: seq<Id>, i: nat, memo0: Memo, memo: Memo)
    requires i <= |items|
  {
    forall k <- memo.Keys :: k in memo0 || exists j :: 0 <= j < i && GlobOf(idx, items[j]).Some? && k in Reach(idx, GlobOf(idx, items[j]).value)
  }

  lemma {:induction false} ResolveStaysNear(idx: Index, t: Id, memo: Memo, stack: set<Id>)
    ensures Resolve(idx, t, memo, stack).1.Keys <= memo.Keys + Reach(idx, t)
    decreases idx.Keys - stack, 0, 0
  {
    hide Scan, Reach;
    ReachIsLeast(idx, t);
    if t !in memo && t !in stack && IsModule(idx, t) {
      assert ItemsOf(idx, t)[0..] == ItemsOf(idx, t);
      ScanStaysNear(idx, t, 0, memo, stack + {t}, [], Reach(idx, t));
    }
  }

  lemma {:induction false} ScanStaysNear(idx: Index, m: Id, i: nat, memo: Memo, stack: set<Id>, out: Namespace,
      area: set<Id>)
    requires i <= |ItemsOf(idx, m)| && Closed(idx, area) && m in area
    ensures Scan(idx, ItemsOf(idx, m)[i..], memo, stack, out).1.Keys <= memo.Keys + area
    decreases idx.Keys - stack, 1, |ItemsOf(idx, m)| - i
  {
    hide Resolve, Merge, SetDefault, OwnOf, GlobOf, ItemsOf, Reach;
    var items := ItemsOf(idx, m);
    if i == |items| { return; }
    assert items[i..][0] == items[i] && items[i..][1..] == items[i + 1..];
    match GlobOf(idx, items[i])
    case Some(t) =>
      assert t in Globs(idx, m);
      ResolveStaysNear(idx, t, memo, stack);
      ReachIsLeast(idx, t);
      assert Reach(idx, t) <= area;
      var (ns, memo2) := Resolve(idx, t, memo, stack);
      ScanStaysNear(idx, m, i + 1, memo2, stack, Merge(out, ns), area);
    case None =>
      var own := OwnOf(idx, items[i]);
      ScanStaysNear(idx, m, i + 1, memo, stack, if own.Some? then SetDefault(out, own.value) else out, area);
  }

  lemma ResolveIsSound(idx: Index, t: Id, memo: Memo, stack: set<Id>)
    requires MemoSound(idx, memo)
    ensures var (ns, memo') := Resolve(idx, t, memo, stack); Within(idx, ns, Reach(idx, t)) && MemoSound(idx, memo')
  {
    hide Resolve, Reach, Globs, Within;
    var area := (k: Id) => Reach(idx, k);
    forall k ensures k in area(k) && forall u <- Globs(idx, k) :: u in {} || area(u) <= area(k) {
      ReachIsLeast(idx, k);
      forall u | u in Globs(idx, k) ensures area(u) <= area(k) { GlobIsReached(idx, k, u); }
    }
    ResolveWithin(idx, t, memo, stack, area, {});
  }

  /** Taking the first `i` items and then the rest. */
  lemma {:induction false} ScanSplits(idx: Index, a: seq<Id>, b: seq<Id>, memo: Memo, stack: set<Id>, out: Namespace)
    ensures var (out', memo') := Scan(idx, a, memo, stack, out);
      Scan(idx, a + b, memo, stack, out) == Scan(idx, b, memo', stack, out')
    decreases |a|
  {
    hide Resolve, Merge, SetDefault, OwnOf, GlobOf;
    if a == [] {
      assert a + b == b;
    } else {
      FirstItem(a, b);
      match GlobOf(idx, a[0])
      case Some(t) =>
        var (ns, memo2) := Resolve(idx, t, memo, stack);
        ScanSplits(idx, a[1..], b, memo2, stack, Merge(out, ns));
      case None =>
        var own := OwnOf(idx, a[0]);
        ScanSplits(idx, a[1..], b, memo, stack, if own.Some? then SetDefault(out, own.value) else out);
    }
  }

  lemma FirstItem(a: seq<Id>, b: seq<Id>)
    requires a != []
    ensures (a + b)[0] == a[0] && (a + b)[1..] == a[1..] + b
  {
  }

  /** Nothing bound is rebound later. */
  lemma {:induction false} ScanKeeps(idx: Index, items: seq<Id>, memo: Memo, stack: set<Id>, out: Namespace)
    ensures out <= Scan(idx, items, memo, stack, out).0
    decreases |items|
  {
    hide Resolve, Merge, SetDefault, OwnOf, GlobOf;
    if items != [] {
      match GlobOf(idx, items[0])
      case Some(t) =>
        var (ns, memo2) := Resolve(idx, t, memo, stack);
        MergeMeans(out, ns);
        ScanKeeps(idx, items[1..], memo2, stack, Merge(out, ns));
      case None =>
        var own := OwnOf(idx, items[0]);
        if own.Some? { SetDefaultMeans(out, own.value); }
        ScanKeeps(idx, items[1..], memo, stack, if own.Some? then SetDefault(out, own.value) else out);
    }
  }

  lemma OneItem(idx: Index, c: Id, memo: Memo, stack: set<Id>, out: Namespace)
    ensures Scan(idx, [c], memo, stack, out) ==
      match GlobOf(idx, c)
      case Some(t) => (Merge(out, Resolve(idx, t, memo, stack).0), Resolve(idx, t, memo, stack).1)
      case None => (if OwnOf(idx, c).Some? then SetDefault(out, OwnOf(idx, c).value) else out, memo)
  {
    hide Resolve, Merge, SetDefault, OwnOf, GlobOf;
    assert [c][1..] == [];
  }

  /** The state of the scan after the first `i` items. */
  lemma {:induction false} PrefixIsGiven(idx: Index, items: seq<Id>, i: nat, memo: Memo, stack: set<Id>)
    requires i <= |items| && MemoSound(idx, memo)
    ensures var (out, memo') := Scan(idx, items[..i], memo, stack, []);
      GivenBy(idx, items, i, out) && KnownBy(idx, items, i, memo, memo') && MemoSound(idx, memo')
    decreases i
  {
    hide Scan, Resolve, Merge, SetDefault, OwnOf, GlobOf, Reach, Within, Gives;
    if i == 0 {
      NothingScanned(idx, memo, stack);
      assert items[..0] == [];
    } else {
      var c := items[i - 1];
      var (out, memo1) := Scan(idx, items[..i - 1], memo, stack, []);
      PrefixIsGiven(idx, items, i - 1, memo, stack);
      assert items[..i] == items[..i - 1] + [c];
      ScanSplits(idx, items[..i - 1], [c], memo, stack, []);
      OneItem(idx, c, memo1, stack, out);
      match GlobOf(idx, c)
      case Some(t) =>
        var (ns, memo2) := Resolve(idx, t, memo1, stack);
        ResolveIsSound(idx, t, memo1, stack);
        ResolveStaysNear(idx, t, memo1, stack);
        MergeMeans(out, ns);
        forall b <- ns ensures Gives(idx, c, b) { GivesImported(idx, c, t, ns, b); }
      case None =>
        var own := OwnOf(idx, c);
        if own.Some? {
          SetDefaultMeans(out, own.value);
          GivesOwn(idx, c, own.value);
        }
    }
  }

  lemma NothingScanned(idx: Index, memo: Memo, stack: set<Id>)
    ensures Scan(idx, [], memo, stack, []) == ([], memo)
  {
  }

  lemma GivesOwn(idx: Index, c: Id, b: Binding)
    requires GlobOf(idx, c).None? && OwnOf(idx, c) == Some(b)
    ensures Gives(idx, c, b)
  {
  }

  lemma GivesImported(idx: Index, c: Id, t: Id, ns: Namespace, b: Binding)
    requires GlobOf(idx, c) == Some(t) && Within(idx, ns, Reach(idx, t)) && b in ns
    ensures Gives(idx, c, b)
  {
    hide Reach, Owns;
  }

  /** None of the first `i` items gives the name. */
  ghost predicate NotBefore(idx: Index, items: seq<Id>, i: nat, name: string)
    requires i <= |items|
  {
    forall j, b: Binding :: 0 <= j < i && Gives(idx, items[j], b) ==> b.name != name
  }

  lemma NotGiven(idx: Index, items: seq<Id>, i: nat, name: string, out: Namespace)
    requires i <= |items| && NotBefore(idx, items, i, name) && GivenBy(idx, items, i, out)
    ensures name !in Names(out)
  {
    hide Gives;
    forall x | x in out ensures x.name != name {
      var j :| 0 <= j < i && Gives(idx, items[j], x);
    }
  }

  lemma InPrefix(a: Namespace, b: Namespace, x: Binding)
    requires a <= b && x in a
    ensures x in b
  {
  }

  /** In any search that does not cut the module: a name goes to the first item that gives it. */
  lemma FirstItemWins(idx: Index, m: Id, memo: Memo, stack: set<Id>, i: nat, b: Binding)
    requires m !in memo && m !in stack && MemoSound(idx, memo)
    requires IsModule(idx, m) && i < |ItemsOf(idx, m)| && NotBefore(idx, ItemsOf(idx, m), i, b.name)
    requires Binds(idx, ItemsOf(idx, m)[i], b)
    ensures b in Resolve(idx, m, memo, stack).0
  {
    hide Scan, Reach, Binds, OwnOf, GlobOf, Gives, SetDefault, Merge, MemoSound, ItemsOf, IsModule;
    var items := ItemsOf(idx, m);
    var c := items[i];
    var (out, memo1) := Scan(idx, items[..i], memo, stack + {m}, []);
    PrefixIsGiven(idx, items, i, memo, stack + {m});
    NotGiven(idx, items, i, b.name, out);
    BindsIff(idx, c, b);
    OneItem(idx, c, memo1, stack + {m}, out);
    AppendsNew(out, b);
    ItemsAround(idx, items, i, memo, stack + {m});
    InPrefix(Scan(idx, [c], memo1, stack + {m}, out).0, Scan(idx, items, memo, stack + {m}, []).0, b);
  }

  lemma AppendsNew(out: Namespace, b: Binding)
    requires b.name !in Names(out)
    ensures b in SetDefault(out, b)
  {
  }

  lemma ItemsAround(idx: Index, items: seq<Id>, i: nat, memo: Memo, stack: set<Id>)
    requires i < |items|
    ensures var (out, memo1) := Scan(idx, items[..i], memo, stack, []);
      Scan(idx, [items[i]], memo1, stack, out).0 <= Scan(idx, items, memo, stack, []).0
  {
    hide Scan;
    var (out, memo1) := Scan(idx, items[..i], memo, stack, []);
    var (out2, memo2) := Scan(idx, [items[i]], memo1, stack, out);
    assert items == items[..i] + ([items[i]] + items[i + 1..]);
    ScanSplits(idx, items[..i], [items[i]] + items[i + 1..], memo, stack, []);
    ScanSplits(idx, [items[i]], items[i + 1..], memo1, stack, out);
    ScanKeeps(idx, items[i + 1..], memo2, stack, out2);
  }

  /** The same across an import: if none of the module's items before the import gives the name,
      and none of the imported module's before the item that binds it, that item's binding wins. */
  lemma FirstImportWins(idx: Index, m: Id, i: nat, t: Id, j: nat, b: Binding)
    requires IsModule(idx, m) && i < |ItemsOf(idx, m)| && Imports(idx, ItemsOf(idx, m)[i], t) && t != m
    requires NotBefore(idx, ItemsOf(idx, m), i, b.name)
    requires j < |ItemsOf(idx, t)| && NotBefore(idx, ItemsOf(idx, t), j, b.name) && Binds(idx, ItemsOf(idx, t)[j], b)
    ensures b in Scratch(idx, m)
  {
    ImportsIff(idx, ItemsOf(idx, m)[i], t);
    hide Scan, Reach, Binds, Gives, SetDefault, Merge, Imports, NotBefore, GivenBy, KnownBy;
    var items, empty: Memo := ItemsOf(idx, m), map[];
    var c := items[i];
    var (out, memo1) := Scan(idx, items[..i], empty, {m}, []);
    PrefixIsGiven(idx, items, i, empty, {m});
    NotGiven(idx, items, i, b.name, out);
    NotYetKnown(idx, items, i, memo1, t, j, b);
    var ns := Resolve(idx, t, memo1, {m}).0;
    FirstItemWins(idx, t, memo1, {m}, j, b);
    ResolveIsSound(idx, t, memo1, {m});
    OneItem(idx, c, memo1, {m}, out);
    MergeTakes(out, ns, b);
    ItemsAround(idx, items, i, empty, {m});
    InPrefix(Scan(idx, [c], memo1, {m}, out).0, Scan(idx, items, empty, {m}, []).0, b);
    assert {} + {m} == {m};
  }

  lemma NotYetKnown(idx: Index, items: seq<Id>, i: nat, memo: Memo, t: Id, j: nat, b: Binding)
    requires i <= |items| && KnownBy(idx, items, i, map[], memo) && NotBefore(idx, items, i, b.name)
    requires j < |ItemsOf(idx, t)| && Binds(idx, ItemsOf(idx, t)[j], b)
    ensures t !in memo
  {
    hide Reach, Binds, Defines, GlobOf;
    BindsIff(idx, ItemsOf(idx, t)[j], b);
    assert Owns(idx, t, b);
  }

  lemma MergeTakes(out: Namespace, more: Namespace, b: Binding)
    requires b in more && b.name !in Names(out) && DistinctNames(more)
    ensures b in Merge(out, more)
  {
    hide Merge;
    MergeMeans(out, more);
    NameIsThere(more, b);
    var x := NamedBinding(Merge(out, more), b.name);
    if x in out {
      NameIsThere(out, x);
    } else {
      var y, z :| 0 <= y < |more| && more[y] == b && 0 <= z < |more| && more[z] == x;
    }
  }

  lemma NameIsThere(ns: Namespace, b: Binding)
    requires b in ns
    ensures b.name in Names(ns)
  {
    var i :| 0 <= i < |ns| && ns[i] == b;
    assert ns[i].name in Names(ns);
  }

  lemma NamedBinding(ns: Namespace, name: string) returns (b: Binding)
    requires name in Names(ns)
    ensures b in ns && b.name == name
  {
    var i :| 0 <= i < |ns| && ns[i].name == name;
    b := ns[i];
  }
}
