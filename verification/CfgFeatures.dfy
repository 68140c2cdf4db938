/** The crate's feature graph: what enabling a seed of features turns on. */
module CfgFeatures {
  import opened Wrappers

  /** Declared features and, for each, the entries of its enabling list. */
  type FeatureMap = map<string, seq<string>>

  predicate StartsWith(s: string, prefix: string) { prefix <= s }

  /** `s.split("/", 1)[0]`. */
  function BeforeSlash(s: string): string {
    if s == [] || s[0] == '/' then [] else [s[0]] + BeforeSlash(s[1..])
  }

  /** The feature of this crate an entry turns on, if any: not `dep:x`, not `pkg?/feat`, and
      `pkg/feat` only when this crate has a feature called `pkg`. */
  function Target(entry: string, fmap: FeatureMap): Option<string> {
    if StartsWith(entry, "dep:") then None
    else if '/' in entry then
      var pkg := BeforeSlash(entry);
      if (pkg == [] || pkg[|pkg| - 1] != '?') && pkg in fmap then Some(pkg) else None
    else Some(entry)
  }

  function Targets(entries: seq<string>, fmap: FeatureMap): seq<string> {
    if entries == [] then []
    else
      Targets(entries[..|entries| - 1], fmap) +
      match Target(entries[|entries| - 1], fmap) case Some(f) => [f] case None => []
  }

  ghost predicate Closed(s: set<string>, fmap: FeatureMap) {
    forall f, g :: f in s && f in fmap && g in Targets(fmap[f], fmap) ==> g in s
  }

  ghost predicate Encloses(s: set<string>, seed: set<string>, fmap: FeatureMap) {
    seed <= s && Closed(s, fmap)
  }

  /** Nothing the seed reaches is undeclared. */
  ghost predicate Legal(seed: set<string>, fmap: FeatureMap) {
    exists s :: Encloses(s, seed, fmap) && s <= fmap.Keys
  }

  /** The least set containing the seed and closed under the crate's enabling edges. */
  ghost function Enabled(seed: set<string>, fmap: FeatureMap): set<string>
    requires Legal(seed, fmap)
  {
    set f | f in fmap.Keys && forall s :: Encloses(s, seed, fmap) ==> f in s
  }

  lemma EnabledIsLeast(seed: set<string>, fmap: FeatureMap)
    requires Legal(seed, fmap)
    ensures Encloses(Enabled(seed, fmap), seed, fmap)
    ensures forall s :: Encloses(s, seed, fmap) ==> Enabled(seed, fmap) <= s
  {
    var top :| Encloses(top, seed, fmap) && top <= fmap.Keys;
    var e := Enabled(seed, fmap);
    forall f, g | f in e && f in fmap && g in Targets(fmap[f], fmap) ensures g in e {
      assert g in top;
    }
  }

  lemma LeastIsEnabled(out: set<string>, seed: set<string>, fmap: FeatureMap)
    requires Encloses(out, seed, fmap) && out <= fmap.Keys
    requires forall s :: Encloses(s, seed, fmap) ==> out <= s
    ensures Legal(seed, fmap) && out == Enabled(seed, fmap)
  {
    EnabledIsLeast(seed, fmap);
  }

  function Elements(s: seq<string>): set<string> { set x | x in s }

  method Closure(seed: seq<string>, fmap: FeatureMap) returns (r: Result<set<string>, string>)
    ensures r.Ok? <==> Legal(Elements(seed), fmap)
    ensures r.Ok? ==> r.value == Enabled(Elements(seed), fmap)
    ensures r.Err? ==> r.error !in fmap && forall s :: Encloses(s, Elements(seed), fmap) ==> r.error in s
  {
    var out: set<string> := {};
    var stack := seed;
    while stack != []
      invariant out <= fmap.Keys
      invariant Elements(seed) <= out + Elements(stack)
      invariant forall f, g :: f in out && g in Targets(fmap[f], fmap) ==> g in out || g in stack
      invariant forall s :: Encloses(s, Elements(seed), fmap) ==> out <= s && Elements(stack) <= s
      decreases fmap.Keys - out, |stack|
    {
      ghost var was := stack;
      var feat := stack[|stack| - 1];
      stack := stack[..|stack| - 1];
      assert forall x :: x in was <==> x == feat || x in stack;
      if feat in out {
        continue;
      }
      if feat !in fmap {
        assert feat in Elements(was);
        return Err(feat);
      }
      out := out + {feat};
      var entries := fmap[feat];
      for k := 0 to |entries|
        invariant stack == was[..|was| - 1] + Targets(entries[..k], fmap)
      {
        assert entries[..k + 1][..k] == entries[..k];
        var entry := entries[k];
        if StartsWith(entry, "dep:") {
          continue;
        }
        if '/' in entry {
          var pkg := BeforeSlash(entry);
          if (pkg == [] || pkg[|pkg| - 1] != '?') && pkg in fmap {
            stack := stack + [pkg];
          }
          continue;
        }
        stack := stack + [entry];
      }
      assert entries[..|entries|] == entries;
      assert forall x :: x in stack <==> x in was[..|was| - 1] || x in Targets(entries, fmap);
      forall s | Encloses(s, Elements(seed), fmap) ensures out <= s && Elements(stack) <= s {
        assert feat in Elements(was);
      }
    }
    LeastIsEnabled(out, Elements(seed), fmap);
    r := Ok(out);
  }

  // ---- the edges of the graph -------------------------------------------------------

  /** An entry as a manifest spells it turns on the feature `g`: its own name, or the name before
      the first slash if this crate has such a feature and no question mark ends it. */
  ghost predicate TurnsOn(entry: string, fmap: FeatureMap, g: string) {
    && !(['d', 'e', 'p', ':'] <= entry)
    && if '/' !in entry then g == entry
       else '/' !in g && g + ['/'] <= entry && g in fmap && (g == [] || g[|g| - 1] != '?')
  }

  lemma {:induction false} BeforeSlashIs(entry: string)
    requires '/' in entry
    ensures '/' !in BeforeSlash(entry) && BeforeSlash(entry) + ['/'] <= entry
  {
    if entry[0] != '/' {
      BeforeSlashIs(entry[1..]);
      assert entry == [entry[0]] + entry[1..];
    }
  }

  /** Before the first slash there is but one name. */
  lemma OneBeforeSlash(entry: string, g: string, h: string)
    requires '/' !in g && g + ['/'] <= entry && '/' !in h && h + ['/'] <= entry
    ensures g == h
  {
    assert (g + ['/'])[|g|] == entry[|g|] && (h + ['/'])[|h|] == entry[|h|];
    assert g == entry[..|g|] && h == entry[..|h|];
  }

  lemma TargetIff(entry: string, fmap: FeatureMap, g: string)
    ensures Target(entry, fmap) == Some(g) <==> TurnsOn(entry, fmap, g)
  {
    if '/' in entry {
      BeforeSlashIs(entry);
      if '/' !in g && g + ['/'] <= entry { OneBeforeSlash(entry, g, BeforeSlash(entry)); }
    }
  }

  lemma {:induction false} TargetsIff(entries: seq<string>, fmap: FeatureMap, g: string)
    ensures g in Targets(entries, fmap) <==> exists entry :: entry in entries && TurnsOn(entry, fmap, g)
  {
    if entries != [] {
      var front, last := entries[..|entries| - 1], entries[|entries| - 1];
      TargetsIff(front, fmap, g);
      TargetIff(last, fmap, g);
      assert forall entry :: entry in entries <==> entry in front || entry == last;
    }
  }

  /** A set is closed when it holds what the entries of its features turn on. */
  lemma ClosedIff(s: set<string>, fmap: FeatureMap)
    ensures Closed(s, fmap) <==>
      forall f, entry, g :: f in s && f in fmap && entry in fmap[f] && TurnsOn(entry, fmap, g) ==> g in s
  {
    forall f, g | f in fmap
      ensures g in Targets(fmap[f], fmap) <==> exists entry :: entry in fmap[f] && TurnsOn(entry, fmap, g)
    {
      TargetsIff(fmap[f], fmap, g);
    }
  }

  // ---- algebra of the closure -------------------------------------------------------

  lemma EnabledMonotone(small: set<string>, large: set<string>, fmap: FeatureMap)
    requires small <= large && Legal(large, fmap)
    ensures Legal(small, fmap) && Enabled(small, fmap) <= Enabled(large, fmap)
  {
    var top :| Encloses(top, large, fmap) && top <= fmap.Keys;
    assert Encloses(top, small, fmap);
    EnabledIsLeast(small, fmap);
    EnabledIsLeast(large, fmap);
    assert Encloses(Enabled(large, fmap), small, fmap);
  }

  lemma EnabledIdempotent(seed: set<string>, fmap: FeatureMap)
    requires Legal(seed, fmap)
    ensures Legal(Enabled(seed, fmap), fmap)
    ensures Enabled(Enabled(seed, fmap), fmap) == Enabled(seed, fmap)
  {
    var e := Enabled(seed, fmap);
    EnabledIsLeast(seed, fmap);
    assert Encloses(e, e, fmap);
    LeastIsEnabled(e, e, fmap);
  }

  /** A comma-separated leg enables what its names enable one at a time. */
  lemma EnabledUnion(a: set<string>, b: set<string>, fmap: FeatureMap)
    requires Legal(a, fmap) && Legal(b, fmap)
    ensures Legal(a + b, fmap) && Enabled(a + b, fmap) == Enabled(a, fmap) + Enabled(b, fmap)
  {
    EnabledIsLeast(a, fmap);
    EnabledIsLeast(b, fmap);
    var both := Enabled(a, fmap) + Enabled(b, fmap);
    assert Encloses(both, a + b, fmap);
    forall s | Encloses(s, a + b, fmap) ensures both <= s {
      assert Encloses(s, a, fmap) && Encloses(s, b, fmap);
    }
    LeastIsEnabled(both, a + b, fmap);
  }
}
