/** Memoised glob resolution over a rustdoc index, first definition winning, with a cut at the
    modules on the stack. */
module SurfaceDiff {
  import opened Wrappers

  type Id = nat
  type Index = map<Id, Item>

  datatype Inner =
    | Module(items: seq<Id>)
    | Use(glob: bool, alias: Option<string>, target: Option<Id>)
    | Other(kind: string)

  datatype Item = Item(name: Option<string>, inner: Inner)

  datatype Kind = ModuleKind | UseKind | OtherKind(kind: string)

  /** One name of a namespace: what it is, and the module it names if it names one. */
  datatype Binding = Binding(name: string, kind: Kind, sub: Option<Id>)

  /** An insertion-ordered dictionary from names. */
  type Namespace = seq<Binding>

  predicate Truthy(name: Option<string>) {
    name.Some? && name.value != []
  }

  predicate IsModule(idx: Index, id: Id) {
    id in idx && idx[id].inner.Module?
  }

  function KindOf(item: Item): Kind {
    match item.inner
    case Module(_) => ModuleKind
    case Use(_, _, _) => UseKind
    case Other(k) => OtherKind(k)
  }

  /** The ids a module lists; none for anything else. */
  function ItemsOf(idx: Index, m: Id): seq<Id> {
    if IsModule(idx, m) then idx[m].inner.items else []
  }

  /** The module a child glob-imports, if it does. */
  function GlobOf(idx: Index, c: Id): Option<Id> {
    if c in idx && idx[c].inner.Use? && idx[c].inner.glob && idx[c].inner.target.Some?
       && IsModule(idx, idx[c].inner.target.value)
    then idx[c].inner.target
    else None
  }

  /** The name a child itself defines, if it does: a named re-export, or an item with a name. */
  function OwnOf(idx: Index, c: Id): Option<Binding> {
    if c !in idx then None
    else
      match idx[c].inner
      case Use(glob, alias, target) =>
        if glob || !Truthy(alias) then None
        else if target.Some? && target.value in idx then
          Some(Binding(alias.value, KindOf(idx[target.value]), if IsModule(idx, target.value) then target else None))
        else Some(Binding(alias.value, UseKind, None))
      case _ =>
        if !Truthy(idx[c].name) then None
        else Some(Binding(idx[c].name.value, KindOf(idx[c]), if IsModule(idx, c) then Some(c) else None))
  }

  // ---- dictionaries -----------------------------------------------------------------

  function Names(ns: Namespace): set<string> {
    set i | 0 <= i < |ns| :: ns[i].name
  }

  function SetDefault(out: Namespace, b: Binding): Namespace {
    if b.name in Names(out) then out else out + [b]
  }

  /** `setdefault` of every binding of `more`, in order. */
  function Merge(out: Namespace, more: Namespace): Namespace
    decreases |more|
  {
    if more == [] then out else Merge(SetDefault(out, more[0]), more[1..])
  }

  predicate DistinctNames(ns: Namespace) {
    forall i, j :: 0 <= i < j < |ns| ==> ns[i].name != ns[j].name
  }

  lemma SetDefaultMeans(out: Namespace, b: Binding)
    ensures var r := SetDefault(out, b);
      Names(r) == Names(out) + {b.name} && out <= r && (forall x <- r :: x in out || x == b)
      && (DistinctNames(out) ==> DistinctNames(r))
  {
    if b.name !in Names(out) {
      var r := out + [b];
      forall n ensures n in Names(r) <==> n in Names(out) + {b.name} {
        if n in Names(out) {
          var i :| 0 <= i < |out| && out[i].name == n;
          assert r[i].name == n;
        }
        assert r[|out|].name == b.name;
      }
      if DistinctNames(out) {
        forall i, j | 0 <= i < j < |r| ensures r[i].name != r[j].name {
          assert out[i].name in Names(out);
        }
      }
    }
  }

  /** Merging adds exactly the new names and never rebinds an old one. */
  lemma {:induction false} MergeMeans(out: Namespace, more: Namespace)
    ensures var r := Merge(out, more);
      Names(r) == Names(out) + Names(more) && out <= r && (forall x <- r :: x in out || x in more)
      && (DistinctNames(out) ==> DistinctNames(r))
    decreases more
  {
    if more == [] {
      assert Names(more) == {};
    } else {
      SetDefaultMeans(out, more[0]);
      MergeMeans(SetDefault(out, more[0]), more[1..]);
      NamesCons(more);
    }
  }

  lemma NamesCons(ns: Namespace)
    requires ns != []
    ensures Names(ns) == {ns[0].name} + Names(ns[1..])
  {
    forall n | n in Names(ns) ensures n in {ns[0].name} + Names(ns[1..]) {
      var i :| 0 <= i < |ns| && ns[i].name == n;
      if i > 0 { assert ns[1..][i - 1].name == n; }
    }
    forall n | n in Names(ns[1..]) ensures n in Names(ns) {
      var i :| 0 <= i < |ns[1..]| && ns[1..][i].name == n;
      assert ns[i + 1].name == n;
    }
  }

  // ---- the search -------------------------------------------------------------------

  type Memo = map<Id, Namespace>

  /** `namespace`: the namespace of `m` and the memo afterwards. */
  function Resolve(idx: Index, m: Id, memo: Memo, stack: set<Id>): (Namespace, Memo)
    decreases idx.Keys - stack, 0, 0
  {
    if m in memo then (memo[m], memo)
    else if m in stack then ([], memo)
    else if !IsModule(idx, m) then ([], memo[m := []])
    else
      var (out, memo') := Scan(idx, ItemsOf(idx, m), memo, stack + {m}, []);
      (out, memo'[m := out])
  }

  /** The loop over a module's items. */
  function Scan(idx: Index, ids: seq<Id>, memo: Memo, stack: set<Id>, out: Namespace): (Namespace, Memo)
    decreases idx.Keys - stack, 1, |ids|
  {
    if ids == [] then (out, memo)
    else
      match GlobOf(idx, ids[0])
      case Some(t) =>
        var (ns, memo') := Resolve(idx, t, memo, stack);
        Scan(idx, ids[1..], memo', stack, Merge(out, ns))
      case None =>
        var own := OwnOf(idx, ids[0]);
        Scan(idx, ids[1..], memo, stack, if own.Some? then SetDefault(out, own.value) else out)
  }

  class Resolver {
    const idx: Index
    var memo: Memo
    var stack: set<Id>

    constructor (idx: Index)
      ensures this.idx == idx && memo == map[] && stack == {}
    {
      this.idx := idx;
      memo := map[];
      stack := {};
    }

    method Namespace(m: Id) returns (out: Namespace)
      modifies this
      ensures (out, memo) == Resolve(idx, m, old(memo), old(stack)) && stack == old(stack)
      decreases idx.Keys - stack
    {
      if m in memo { return memo[m]; }
      if m in stack { return []; }
      ghost var memo0, stack0 := memo, stack;
      stack := stack + {m};
      out := [];
      var items := ItemsOf(idx, m);
      var i := 0;
      while i < |items|
        invariant 0 <= i <= |items|
        invariant IsModule(idx, m) || items == []
        invariant stack == stack0 + {m}
        invariant items == [] ==> memo == memo0 && out == []
        invariant Scan(idx, items[i..], memo, stack, out) == Scan(idx, items, memo0, stack, [])
      {
        assert items[i..][1..] == items[i + 1..];
        var glob := GlobOf(idx, items[i]);
        if glob.Some? {
          var more := Namespace(glob.value);
          var k := 0;
          ghost var out0 := out;
          while k < |more|
            invariant 0 <= k <= |more|
            invariant Merge(out, more[k..]) == Merge(out0, more)
          {
            assert more[k..][1..] == more[k + 1..];
            out := SetDefault(out, more[k]);
            k := k + 1;
          }
        } else {
          var own := OwnOf(idx, items[i]);
          if own.Some? { out := SetDefault(out, own.value); }
        }
        i := i + 1;
      }
      stack := stack - {m};
      memo := memo[m := out];
    }
  }

  // ---- any graph: exactly the reachable names ---------------------------------------

  /** The modules a module glob-imports. */
  ghost function Globs(idx: Index, m: Id): set<Id> {
    set i | 0 <= i < |ItemsOf(idx, m)| && GlobOf(idx, ItemsOf(idx, m)[i]).Some? :: GlobOf(idx, ItemsOf(idx, m)[i]).value
  }

  /** The module defines the name itself. */
  ghost predicate Owns(idx: Index, m: Id, b: Binding) {
    exists i :: 0 <= i < |ItemsOf(idx, m)| && Defines(idx, ItemsOf(idx, m)[i], b)
  }

  ghost predicate Defines(idx: Index, c: Id, b: Binding) {
    GlobOf(idx, c).None? && OwnOf(idx, c) == Some(b)
  }

  ghost predicate OwnsName(idx: Index, m: Id, name: string) {
    exists b: Binding :: b.name == name && Owns(idx, m, b)
  }

  /** Every binding is one that some module of `mods` defines. */
  ghost predicate DrawnFrom(idx: Index, ns: Namespace, mods: set<Id>) {
    forall b <- ns :: exists m :: m in mods && Owns(idx, m, b)
  }

  ghost predicate MemoDrawn(idx: Index, memo: Memo) {
    forall k <- memo.Keys :: DrawnFrom(idx, memo[k], memo.Keys)
  }

  /** Every name a module of `mods` defines is there. */
  ghost predicate Covers(idx: Index, ns: Namespace, mods: set<Id>) {
    forall m, name :: m in mods && OwnsName(idx, m, name) ==> name in Names(ns)
  }

  ghost predicate Closed(idx: Index, mods: set<Id>) {
    forall m <- mods :: Globs(idx, m) <= mods
  }

  /** The modules of `added` glob-import only modules of `known`. */
  ghost predicate LeadsInto(idx: Index, added: set<Id>, known: set<Id>) {
    forall m <- added :: Globs(idx, m) <= known
  }

  /** What one search adds: the modules it visits are new, not on the stack, and lead only to
      visited modules and to the stack; the namespace covers them and is drawn from them. */
  ghost predicate Searched(idx: Index, memo: Memo, stack: set<Id>, out: Namespace, memo': Memo) {
    && memo.Keys <= memo'.Keys && memo'.Keys !! stack && MemoDrawn(idx, memo')
    && LeadsInto(idx, memo'.Keys - memo.Keys, memo'.Keys + stack)
    && Covers(idx, out, memo'.Keys - memo.Keys)
  }

  lemma DrawnFromMore(idx: Index, ns: Namespace, mods: set<Id>, more: set<Id>)
    requires DrawnFrom(idx, ns, mods) && mods <= more
    ensures DrawnFrom(idx, ns, more)
  {
    forall b | b in ns ensures exists m :: m in more && Owns(idx, m, b) {
      var m :| m in mods && Owns(idx, m, b);
      assert m in more;
    }
  }

  /** Of the first `i` items, the globs lead to known modules and the names are there. */
  ghost predicate Handled(idx: Index, m: Id, i: nat, known: set<Id>, out: Namespace)
    requires i <= |ItemsOf(idx, m)|
  {
    forall k :: 0 <= k < i ==> HandledOne(idx, ItemsOf(idx, m)[k], known, Names(out))
  }

  ghost predicate HandledOne(idx: Index, c: Id, known: set<Id>, names: set<string>) {
    match GlobOf(idx, c)
    case Some(t) => t in known
    case None => OwnOf(idx, c).Some? ==> OwnOf(idx, c).value.name in names
  }

  /** A module all of whose items are handled leads into the known modules and is covered. */
  lemma HandledMeans(idx: Index, m: Id, known: set<Id>, out: Namespace)
    requires Handled(idx, m, |ItemsOf(idx, m)|, known, out)
    ensures Globs(idx, m) <= known && Covers(idx, out, {m})
  {
    var items := ItemsOf(idx, m);
    forall t | t in Globs(idx, m) ensures t in known {
      var i :| 0 <= i < |items| && GlobOf(idx, items[i]).Some? && GlobOf(idx, items[i]).value == t;
      assert HandledOne(idx, items[i], known, Names(out));
    }
    forall n | OwnsName(idx, m, n) ensures n in Names(out) {
      var b: Binding :| b.name == n && Owns(idx, m, b);
      var i :| 0 <= i < |items| && Defines(idx, items[i], b);
      assert HandledOne(idx, items[i], known, Names(out));
    }
  }

  lemma HandledGrows(idx: Index, m: Id, i: nat, known: set<Id>, out: Namespace, known': set<Id>, out': Namespace)
    requires i < |ItemsOf(idx, m)| && Handled(idx, m, i, known, out)
    requires known <= known' && Names(out) <= Names(out')
    requires HandledOne(idx, ItemsOf(idx, m)[i], known', Names(out'))
    ensures Handled(idx, m, i + 1, known', out')
  {
    forall k | 0 <= k < i + 1 ensures HandledOne(idx, ItemsOf(idx, m)[k], known', Names(out')) {
      if k < i { assert HandledOne(idx, ItemsOf(idx, m)[k], known, Names(out)); }
    }
  }

  /** One search after another. */
  lemma SearchedTwice(idx: Index, memo0: Memo, memo1: Memo, memo2: Memo, stack: set<Id>,
      out1: Namespace, more: Namespace, out2: Namespace)
    requires Searched(idx, memo0, stack, out1, memo1) && Searched(idx, memo1, stack, more, memo2)
    requires Names(out2) == Names(out1) + Names(more)
    ensures Searched(idx, memo0, stack, out2, memo2)
  {
    hide Globs, OwnsName, DrawnFrom, Names;
    forall m | m in memo2.Keys - memo0.Keys ensures Globs(idx, m) <= memo2.Keys + stack {
      if m in memo1.Keys {
        assert m in memo1.Keys - memo0.Keys;
        assert Globs(idx, m) <= memo1.Keys + stack;
      } else {
        assert m in memo2.Keys - memo1.Keys;
      }
    }
    forall m, n | m in memo2.Keys - memo0.Keys && OwnsName(idx, m, n) ensures n in Names(out2) {
      if m in memo1.Keys {
        assert m in memo1.Keys - memo0.Keys;
      } else {
        assert m in memo2.Keys - memo1.Keys;
      }
    }
  }

  lemma DrawnFromBoth(idx: Index, a: Namespace, b: Namespace, c: Namespace, mods: set<Id>)
    requires DrawnFrom(idx, a, mods) && DrawnFrom(idx, b, mods) && forall x <- c :: x in a || x in b
    ensures DrawnFrom(idx, c, mods)
  {
  }

  /** Closing a module: its namespace goes into the memo. */
  lemma ModuleDone(idx: Index, m: Id, memo: Memo, stack: set<Id>, out: Namespace, memo1: Memo)
    requires m !in memo && m !in stack && Searched(idx, memo, stack + {m}, out, memo1)
    requires DrawnFrom(idx, out, memo1.Keys + {m})
    requires Globs(idx, m) <= memo1.Keys + (stack + {m}) && Covers(idx, out, {m})
    ensures Searched(idx, memo, stack, out, memo1[m := out]) && DrawnFrom(idx, out, memo1[m := out].Keys)
  {
    hide Globs, OwnsName, DrawnFrom, Names;
    var memo' := memo1[m := out];
    assert memo'.Keys == memo1.Keys + {m};
    forall k | k in memo' ensures DrawnFrom(idx, memo'[k], memo'.Keys) {
      if k != m {
        assert k in memo1.Keys;
        DrawnFromMore(idx, memo1[k], memo1.Keys, memo'.Keys);
      }
    }
    forall k | k in memo'.Keys - memo.Keys ensures Globs(idx, k) <= memo'.Keys + stack {
      if k != m { assert k in memo1.Keys - memo.Keys; }
    }
    forall k, n | k in memo'.Keys - memo.Keys && OwnsName(idx, k, n) ensures n in Names(out) {
      if k != m {
        assert k in memo1.Keys - memo.Keys;
      } else {
        assert k in {m};
      }
    }
  }

  lemma NothingSearched(idx: Index, memo: Memo, stack: set<Id>)
    requires memo.Keys !! stack && MemoDrawn(idx, memo)
    ensures Searched(idx, memo, stack, [], memo)
  {
  }

  lemma {:induction false} ResolveSearches(idx: Index, m: Id, memo: Memo, stack: set<Id>)
    requires memo.Keys !! stack && MemoDrawn(idx, memo)
    ensures var (out, memo') := Resolve(idx, m, memo, stack);
      Searched(idx, memo, stack, out, memo') && DrawnFrom(idx, out, memo'.Keys) && (m in memo'.Keys || m in stack)
    decreases idx.Keys - stack, 0, 0
  {
    hide Scan, Searched, Handled, Globs, Covers, MemoDrawn;
    if m in memo {
      KnownSearched(idx, m, memo, stack);
    } else if m in stack {
      NothingSearched(idx, memo, stack);
    } else if !IsModule(idx, m) {
      NothingSearched(idx, memo, stack + {m});
      NoItems(idx, m, memo.Keys + (stack + {m}));
      ModuleDone(idx, m, memo, stack, [], memo);
    } else {
      var (out, memo1) := Scan(idx, ItemsOf(idx, m), memo, stack + {m}, []);
      NothingSearched(idx, memo, stack + {m});
      NoneHandled(idx, m, memo.Keys + (stack + {m}));
      ScanSearches(idx, m, 0, memo, memo, stack + {m}, []);
      assert ItemsOf(idx, m)[0..] == ItemsOf(idx, m);
      HandledMeans(idx, m, memo1.Keys + (stack + {m}), out);
      ModuleDone(idx, m, memo, stack, out, memo1);
    }
  }

  lemma KnownSearched(idx: Index, m: Id, memo: Memo, stack: set<Id>)
    requires memo.Keys !! stack && MemoDrawn(idx, memo) && m in memo
    ensures Searched(idx, memo, stack, memo[m], memo) && DrawnFrom(idx, memo[m], memo.Keys)
  {
  }

  lemma NoneHandled(idx: Index, m: Id, known: set<Id>)
    ensures Handled(idx, m, 0, known, [])
  {
  }

  lemma NoItems(idx: Index, m: Id, known: set<Id>)
    requires !IsModule(idx, m)
    ensures Globs(idx, m) <= known && Covers(idx, [], {m})
  {
    HandledMeans(idx, m, known, []);
  }

  /** The invariant of the loop over the items of `m`, from item `i`. */
  lemma {:induction false} ScanSearches(idx: Index, m: Id, i: nat, memo0: Memo, memo: Memo, stack: set<Id>,
      out: Namespace)
    requires i <= |ItemsOf(idx, m)| && m in stack
    requires Searched(idx, memo0, stack, out, memo) && DrawnFrom(idx, out, memo.Keys + {m})
    requires Handled(idx, m, i, memo.Keys + stack, out)
    ensures var (out', memo') := Scan(idx, ItemsOf(idx, m)[i..], memo, stack, out);
      && Searched(idx, memo0, stack, out', memo') && DrawnFrom(idx, out', memo'.Keys + {m})
      && Handled(idx, m, |ItemsOf(idx, m)|, memo'.Keys + stack, out')
    decreases idx.Keys - stack, 1, |ItemsOf(idx, m)| - i
  {
    hide Resolve, Handled, Globs, Covers, MemoDrawn, LeadsInto, DrawnFrom, Names, Merge, SetDefault, OwnOf, GlobOf, Owns, ItemsOf;
    var items := ItemsOf(idx, m);
    if i == |items| { return; }
    assert items[i..][0] == items[i] && items[i..][1..] == items[i + 1..];
    match GlobOf(idx, items[i])
    case Some(t) =>
      var (ns, memo2) := Resolve(idx, t, memo, stack);
      var out2 := Merge(out, ns);
      ResolveSearches(idx, t, memo, stack);
      MergeMeans(out, ns);
      SearchedTwice(idx, memo0, memo, memo2, stack, out, ns, out2);
      DrawnFromMore(idx, out, memo.Keys + {m}, memo2.Keys + {m});
      DrawnFromMore(idx, ns, memo2.Keys, memo2.Keys + {m});
      DrawnFromBoth(idx, out, ns, out2, memo2.Keys + {m});
      HandledGrows(idx, m, i, memo.Keys + stack, out, memo2.Keys + stack, out2);
      ScanSearches(idx, m, i + 1, memo0, memo2, stack, out2);
    case None =>
      var out2 := match OwnOf(idx, items[i]) case Some(b) => SetDefault(out, b) case None => out;
      ItemTaken(idx, m, i, out, memo.Keys + {m});
      SearchedStays(idx, memo0, stack, out, memo, out2);
      HandledGrows(idx, m, i, memo.Keys + stack, out, memo.Keys + stack, out2);
      ScanSearches(idx, m, i + 1, memo0, memo, stack, out2);
  }

  lemma SearchedStays(idx: Index, memo0: Memo, stack: set<Id>, out: Namespace, memo: Memo, out': Namespace)
    requires Searched(idx, memo0, stack, out, memo) && Names(out) <= Names(out')
    ensures Searched(idx, memo0, stack, out', memo)
  {
  }

  /** An item's own name goes in, unless the name is there. */
  lemma ItemTaken(idx: Index, m: Id, i: nat, out: Namespace, mods: set<Id>)
    requires i < |ItemsOf(idx, m)| && m in mods && DrawnFrom(idx, out, mods)
    requires GlobOf(idx, ItemsOf(idx, m)[i]).None?
    ensures var own := OwnOf(idx, ItemsOf(idx, m)[i]);
      var out' := match own case Some(b) => SetDefault(out, b) case None => out;
      && Names(out) <= Names(out') && DrawnFrom(idx, out', mods)
      && (own.Some? ==> own.value.name in Names(out'))
  {
    var c := ItemsOf(idx, m)[i];
    if OwnOf(idx, c).Some? {
      var b := OwnOf(idx, c).value;
      SetDefaultMeans(out, b);
      assert Defines(idx, c, b);
      assert Owns(idx, m, b);
    }
  }

  /** Nothing is visited outside a closed set that holds the module and what was visited before. */
  lemma {:induction false} ResolveStaysInside(idx: Index, m: Id, memo: Memo, stack: set<Id>, mods: set<Id>)
    requires Closed(idx, mods) && m in mods && memo.Keys <= mods
    ensures Resolve(idx, m, memo, stack).1.Keys <= mods
    decreases idx.Keys - stack, 0, 0
  {
    if m !in memo && m !in stack && IsModule(idx, m) {
      assert ItemsOf(idx, m)[0..] == ItemsOf(idx, m);
      ScanStaysInside(idx, m, 0, memo, stack + {m}, [], mods);
    }
  }

  lemma {:induction false} ScanStaysInside(idx: Index, m: Id, i: nat, memo: Memo, stack: set<Id>,
      out: Namespace, mods: set<Id>)
    requires i <= |ItemsOf(idx, m)| && Closed(idx, mods) && m in mods && memo.Keys <= mods
    ensures Scan(idx, ItemsOf(idx, m)[i..], memo, stack, out).1.Keys <= mods
    decreases idx.Keys - stack, 1, |ItemsOf(idx, m)| - i
  {
    hide Resolve, Merge, SetDefault, OwnOf, GlobOf, ItemsOf;
    var items := ItemsOf(idx, m);
    if i == |items| { return; }
    assert items[i..][0] == items[i] && items[i..][1..] == items[i + 1..];
    match GlobOf(idx, items[i])
    case Some(t) =>
      assert t in Globs(idx, m);
      ResolveStaysInside(idx, t, memo, stack, mods);
      var (ns, memo2) := Resolve(idx, t, memo, stack);
      ScanStaysInside(idx, m, i + 1, memo2, stack, Merge(out, ns), mods);
    case None =>
      var own := OwnOf(idx, items[i]);
      ScanStaysInside(idx, m, i + 1, memo, stack, if own.Some? then SetDefault(out, own.value) else out, mods);
  }

  /** `mods` is the least closed set of modules holding `m`. */
  ghost predicate Reachable(idx: Index, m: Id, mods: set<Id>) {
    m in mods && Closed(idx, mods) && forall more: set<Id> :: m in more && Closed(idx, more) ==> mods <= more
  }

  /** On any graph, cycles included, a search from scratch visits exactly the modules reachable
      by globs, and returns exactly the names they define, each bound as one of them binds it. */
  lemma ScratchIsExact(idx: Index, m: Id)
    ensures var (out, memo) := Resolve(idx, m, map[], {});
      && Reachable(idx, m, memo.Keys)
      && (forall n :: n in Names(out) <==> exists k :: k in memo.Keys && OwnsName(idx, k, n))
      && DrawnFrom(idx, out, memo.Keys)
  {
    hide Resolve, Globs;
    var empty: Memo := map[];
    var (out, memo) := Resolve(idx, m, empty, {});
    ResolveSearches(idx, m, empty, {});
    assert memo.Keys + {} == memo.Keys && memo.Keys - empty.Keys == memo.Keys;
    forall more: set<Id> | m in more && Closed(idx, more) ensures memo.Keys <= more {
      ResolveStaysInside(idx, m, map[], {}, more);
    }
    forall n ensures n in Names(out) <==> exists k :: k in memo.Keys && OwnsName(idx, k, n) {
      if n in Names(out) {
        var i :| 0 <= i < |out| && out[i].name == n;
        assert out[i] in out;
        var k :| k in memo.Keys && Owns(idx, k, out[i]);
        assert OwnsName(idx, k, n);
      }
    }
  }

  // ---- what glob reachability is ----------------------------------------------------

  /** The modules a module reaches by globs, itself included. */
  ghost function Reach(idx: Index, m: Id): set<Id> {
    Resolve(idx, m, map[], {}).1.Keys
  }

  /** The namespace of a module resolved with an empty memo. */
  ghost function Scratch(idx: Index, m: Id): Namespace {
    Resolve(idx, m, map[], {}).0
  }

  lemma ReachIsLeast(idx: Index, m: Id)
    ensures Reachable(idx, m, Reach(idx, m))
    ensures forall n :: n in Names(Scratch(idx, m)) <==> exists k :: k in Reach(idx, m) && OwnsName(idx, k, n)
  {
    hide Resolve;
    ScratchIsExact(idx, m);
  }

  lemma ReachNests(idx: Index, m: Id, t: Id)
    requires t in Reach(idx, m)
    ensures Reach(idx, t) <= Reach(idx, m)
  {
    hide Reach;
    ReachIsLeast(idx, m);
    ReachIsLeast(idx, t);
  }

  lemma GlobIsReached(idx: Index, m: Id, t: Id)
    requires t in Globs(idx, m)
    ensures t in Reach(idx, m) && Reach(idx, t) <= Reach(idx, m)
  {
    hide Reach;
    ReachIsLeast(idx, m);
    ReachNests(idx, m, t);
  }

  // ---- where the bindings of a namespace come from ----------------------------------

  /** `area` gives each module a set around it that contains the areas of the modules it
      glob-imports, those in `cut` aside. */
  ghost predicate Nested(idx: Index, area: Id -> set<Id>, cut: set<Id>) {
    forall m :: m in area(m) && forall t <- Globs(idx, m) :: t in cut || area(t) <= area(m)
  }

  /** One binding a name, each from a module of the area. */
  ghost predicate Within(idx: Index, ns: Namespace, area: set<Id>) {
    DistinctNames(ns) && DrawnFrom(idx, ns, area)
  }

  ghost predicate MemoWithin(idx: Index, memo: Memo, area: Id -> set<Id>) {
    forall k <- memo.Keys :: Within(idx, memo[k], area(k))
  }

  /** A search that starts with `cut` on the stack stays within the areas. */
  lemma {:induction false} ResolveWithin(idx: Index, m: Id, memo: Memo, stack: set<Id>, area: Id -> set<Id>,
      cut: set<Id>)
    requires Nested(idx, area, cut) && cut <= stack && memo.Keys !! cut && MemoWithin(idx, memo, area)
    ensures var (out, memo') := Resolve(idx, m, memo, stack);
      Within(idx, out, area(m)) && MemoWithin(idx, memo', area) && memo'.Keys !! cut
    decreases idx.Keys - stack, 0, 0
  {
    hide Scan, Nested, Within;
    assert Within(idx, [], area(m)) by { NothingWithin(idx, area(m)); }
    if m !in memo && m !in stack && IsModule(idx, m) {
      assert ItemsOf(idx, m)[0..] == ItemsOf(idx, m);
      ScanWithin(idx, m, 0, memo, stack + {m}, [], area, cut);
    }
  }

  lemma NothingWithin(idx: Index, area: set<Id>)
    ensures Within(idx, [], area)
  {
  }

  lemma {:induction false} ScanWithin(idx: Index, m: Id, i: nat, memo: Memo, stack: set<Id>, out: Namespace,
      area: Id -> set<Id>, cut: set<Id>)
    requires i <= |ItemsOf(idx, m)| && Within(idx, out, area(m))
    requires Nested(idx, area, cut) && cut <= stack && memo.Keys !! cut && MemoWithin(idx, memo, area)
    ensures var (out', memo') := Scan(idx, ItemsOf(idx, m)[i..], memo, stack, out);
      Within(idx, out', area(m)) && MemoWithin(idx, memo', area) && memo'.Keys !! cut
    decreases idx.Keys - stack, 1, |ItemsOf(idx, m)| - i
  {
    hide Resolve, Within, Nested, MemoWithin, Merge, SetDefault, OwnOf, GlobOf, ItemsOf;
    var items := ItemsOf(idx, m);
    if i == |items| { return; }
    assert items[i..][0] == items[i] && items[i..][1..] == items[i + 1..];
    match GlobOf(idx, items[i])
    case Some(t) =>
      var (ns, memo2) := Resolve(idx, t, memo, stack);
      ResolveWithin(idx, t, memo, stack, area, cut);
      if t in cut {
        CutIsEmpty(idx, t, memo, stack);
        MergeNothing(out);
      } else {
        MergeWithin(idx, m, i, out, ns, area, cut);
      }
      assert Within(idx, Merge(out, ns), area(m));
      ScanWithin(idx, m, i + 1, memo2, stack, Merge(out, ns), area, cut);
    case None =>
      var own := OwnOf(idx, items[i]);
      OwnWithin(idx, m, i, out, area, cut);
      ScanWithin(idx, m, i + 1, memo, stack, if own.Some? then SetDefault(out, own.value) else out, area, cut);
  }

  lemma MergeNothing(out: Namespace)
    ensures Merge(out, []) == out
  {
  }

  lemma CutIsEmpty(idx: Index, t: Id, memo: Memo, stack: set<Id>)
    requires t in stack && t !in memo
    ensures Resolve(idx, t, memo, stack) == ([], memo)
  {
  }

  lemma MergeWithin(idx: Index, m: Id, i: nat, out: Namespace, ns: Namespace, area: Id -> set<Id>, cut: set<Id>)
    requires i < |ItemsOf(idx, m)| && GlobOf(idx, ItemsOf(idx, m)[i]).Some? && Nested(idx, area, cut)
    requires var t := GlobOf(idx, ItemsOf(idx, m)[i]).value; t !in cut && Within(idx, ns, area(t))
    requires Within(idx, out, area(m))
    ensures Within(idx, Merge(out, ns), area(m))
  {
    hide DrawnFrom, DistinctNames, Merge;
    var t := GlobOf(idx, ItemsOf(idx, m)[i]).value;
    assert t in Globs(idx, m);
    MergeMeans(out, ns);
    DrawnFromMore(idx, ns, area(t), area(m));
    DrawnFromBoth(idx, out, ns, Merge(out, ns), area(m));
  }

  lemma OwnWithin(idx: Index, m: Id, i: nat, out: Namespace, area: Id -> set<Id>, cut: set<Id>)
    requires i < |ItemsOf(idx, m)| && GlobOf(idx, ItemsOf(idx, m)[i]).None? && Nested(idx, area, cut)
    requires Within(idx, out, area(m))
    ensures var own := OwnOf(idx, ItemsOf(idx, m)[i]);
      Within(idx, if own.Some? then SetDefault(out, own.value) else out, area(m))
  {
    hide DrawnFrom, DistinctNames, SetDefault;
    var own := OwnOf(idx, ItemsOf(idx, m)[i]);
    ItemTaken(idx, m, i, out, area(m));
    if own.Some? { SetDefaultMeans(out, own.value); }
  }

  /** Every memoised namespace is drawn from the modules its module reaches. */
  ghost predicate MemoSound(idx: Index, memo: Memo) {
    forall k <- memo.Keys :: Within(idx, memo[k], Reach(idx, k))
  }

  /** On every glob graph, and whatever was resolved before: each binding returned is one that a
      glob-reachable module defines, and no name is bound twice. */
  lemma ResolveSound(idx: Index, m: Id, memo: Memo)
    requires MemoSound(idx, memo)
    ensures var (out, memo') := Resolve(idx, m, memo, {});
      Within(idx, out, Reach(idx, m)) && MemoSound(idx, memo')
  {
    hide Resolve, Reach, Globs, Within;
    var area := (k: Id) => Reach(idx, k);
    forall k ensures k in area(k) && forall t <- Globs(idx, k) :: t in {} || area(t) <= area(k) {
      ReachIsLeast(idx, k);
      forall t | t in Globs(idx, k) ensures area(t) <= area(k) {
        GlobIsReached(idx, k, t);
      }
    }
    ResolveWithin(idx, m, memo, {}, area, {});
  }
}
