/** The paths that names lead along through resolved namespaces, and when a table can list them. */
module SurfaceView {
  import opened Sequences
  import opened Wrappers
  import opened SurfaceDiff

  // ---- paths ------------------------------------------------------------------------

  /** A module path, as its components. */
  type Path = seq<string>
  type Kinds = map<string, Kind>
  type Found = map<Path, Kinds>

  /** The module a namespace gives a name to. */
  function SubOf(ns: Namespace, name: string): Option<Id> {
    if ns == [] then None else if ns[0].name == name then ns[0].sub else SubOf(ns[1..], name)
  }

  /** The module a relative path leads to from `m`, one name at a time, by the namespaces in
      `view`. */
  function Follow(view: Memo, m: Id, rest: Path): Option<Id>
    decreases |rest|
  {
    if rest == [] then Some(m)
    else if m !in view then None
    else
      match SubOf(view[m], rest[0])
      case None => None
      case Some(sub) => Follow(view, sub, rest[1..])
  }

  ghost predicate MatchesKinds(kinds: Kinds, ns: Namespace) {
    kinds.Keys == Names(ns) && forall b <- ns :: b.name in kinds && kinds[b.name] == b.kind
  }

  lemma {:induction false} SubOfMeans(ns: Namespace, i: nat)
    requires DistinctNames(ns) && i < |ns|
    ensures SubOf(ns, ns[i].name) == ns[i].sub
    decreases |ns|
  {
    if i > 0 {
      assert ns[0].name != ns[i].name;
      assert DistinctNames(ns[1..]) by {
        forall j, k | 0 <= j < k < |ns[1..]| ensures ns[1..][j].name != ns[1..][k].name {
          assert ns[j + 1].name != ns[k + 1].name;
        }
      }
      SubOfMeans(ns[1..], i - 1);
    }
  }

  lemma {:induction false} NoSubOutside(ns: Namespace, name: string)
    requires name !in Names(ns)
    ensures SubOf(ns, name).None?
    decreases |ns|
  {
    if ns != [] {
      NamesCons(ns);
      NoSubOutside(ns[1..], name);
    }
  }

  /** `here` is listed if and only if the path leads somewhere, with the names and kinds of the
      module it leads to. */
  ghost predicate Listed(view: Memo, m: Id, rest: Path, here: Path, out: Found) {
    && (here in out <==> Follow(view, m, rest).Some?)
    && (here in out ==> var k := Follow(view, m, rest).value; k in view && MatchesKinds(out[here], view[k]))
  }

  /** Below `path`, exactly the paths that lead somewhere are listed. */
  ghost predicate ListsTree(view: Memo, m: Id, path: Path, out: Found) {
    forall rest: Path :: Listed(view, m, rest, path + rest, out)
  }

  /** The memo only ever grows. */
  ghost predicate Extends(view: Memo, view': Memo) {
    forall k <- view.Keys :: k in view' && view'[k] == view[k]
  }

  /** Every module a path from `m` leads to has been resolved. */
  ghost predicate Known(view: Memo, m: Id) {
    forall rest: Path :: Follow(view, m, rest).Some? ==> Follow(view, m, rest).value in view
  }

  lemma {:induction false} FollowStays(view: Memo, view': Memo, m: Id, rest: Path)
    requires Extends(view, view') && Known(view, m)
    ensures Follow(view', m, rest) == Follow(view, m, rest)
    decreases |rest|
  {
    assert Follow(view, m, []) == Some(m);
    if rest != [] && SubOf(view[m], rest[0]).Some? {
      var sub := SubOf(view[m], rest[0]).value;
      KnownSub(view, m, rest[0], sub);
      FollowStays(view, view', sub, rest[1..]);
    }
  }

  lemma KnownSub(view: Memo, m: Id, name: string, sub: Id)
    requires Known(view, m) && m in view && SubOf(view[m], name) == Some(sub)
    ensures Known(view, sub)
  {
    hide SubOf;
    forall rest: Path | Follow(view, sub, rest).Some? ensures Follow(view, sub, rest).value in view {
      assert ([name] + rest)[0] == name && ([name] + rest)[1..] == rest;
      assert Follow(view, m, [name] + rest) == Follow(view, sub, rest);
    }
  }

  ghost predicate Unlisted(path: Path, out: Found) {
    forall p <- out.Keys :: !(path <= p)
  }

  /** Nothing outside `path` changed. */
  ghost predicate Apart(path: Path, out: Found, out': Found) {
    forall p: Path :: !(path <= p) ==> (p in out <==> p in out') && (p in out ==> out[p] == out'[p])
  }

  /** The state of the walk at `m` after the first `i` names. */
  ghost predicate Walking(view: Memo, m: Id, i: nat, path: Path, out: Found) {
    && m in view && i <= |view[m]| && path in out && MatchesKinds(out[path], view[m][..i])
    && (forall rest: Path :: rest != [] ==>
          if rest[0] in Names(view[m][..i]) then Listed(view, m, rest, path + rest, out) else path + rest !in out)
  }

  lemma WalkingStays(view: Memo, view': Memo, m: Id, i: nat, path: Path, out: Found)
    requires Extends(view, view') && Walking(view, m, i, path, out)
    ensures Walking(view', m, i, path, out)
  {
    hide MatchesKinds, Names, SubOf;
    forall rest: Path | rest != [] && rest[0] in Names(view[m][..i]) ensures Listed(view', m, rest, path + rest, out) {
      var sub := SubOf(view[m], rest[0]);
      assert Listed(view, m, rest, path + rest, out);
      if sub.Some? {
        forall more: Path | Follow(view, sub.value, more).Some? ensures Follow(view, sub.value, more).value in view {
          var through := [rest[0]] + more;
          assert through[0] == rest[0] && through[1..] == more;
          assert Follow(view, m, through) == Follow(view, sub.value, more);
          assert Listed(view, m, through, path + through, out);
        }
        FollowStays(view, view', sub.value, rest[1..]);
      }
    }
  }

  lemma WalkBegins(view: Memo, m: Id, path: Path, out: Found)
    requires m in view && Unlisted(path, out)
    ensures Walking(view, m, 0, path, out[path := map[]]) && Apart(path, out, out[path := map[]])
  {
    hide Follow, Listed;
    forall rest: Path | rest != [] ensures path + rest !in out[path := map[]] {
      assert path <= path + rest && |path + rest| > |path|;
    }
  }

  /** Recording one more name. */
  function Record(out: Found, path: Path, b: Binding): Found
    requires path in out
  {
    out[path := out[path][b.name := b.kind]]
  }

  lemma NamesSnoc(ns: Namespace, i: nat)
    requires i < |ns| && DistinctNames(ns)
    ensures Names(ns[..i + 1]) == Names(ns[..i]) + {ns[i].name} && ns[i].name !in Names(ns[..i])
  {
    assert ns[..i + 1][..i] == ns[..i];
    forall n | n in Names(ns[..i + 1]) ensures n in Names(ns[..i]) + {ns[i].name} {
      var k :| 0 <= k < i + 1 && ns[..i + 1][k].name == n;
      if k < i { assert ns[..i][k].name == n; }
    }
    assert ns[..i + 1][i].name == ns[i].name;
    forall n | n in Names(ns[..i]) ensures n in Names(ns[..i + 1]) {
      var k :| 0 <= k < i && ns[..i][k].name == n;
      assert ns[..i + 1][k].name == n;
    }
  }

  lemma KindsSnoc(kinds: Kinds, ns: Namespace, i: nat)
    requires i < |ns| && DistinctNames(ns) && MatchesKinds(kinds, ns[..i])
    ensures ns[i].name !in kinds && MatchesKinds(kinds[ns[i].name := ns[i].kind], ns[..i + 1])
  {
    hide Names;
    NamesSnoc(ns, i);
    forall b | b in ns[..i + 1] ensures b.name in kinds[ns[i].name := ns[i].kind]
      && kinds[ns[i].name := ns[i].kind][b.name] == b.kind
    {
      var k :| 0 <= k < i + 1 && ns[..i + 1][k] == b;
      if k < i {
        assert ns[..i][k] == b;
        assert ns[k].name != ns[i].name;
      }
    }
  }

  /** Before the step: the name is new, and nothing is listed under it. */
  lemma StepIsFresh(view: Memo, m: Id, i: nat, path: Path, out: Found)
    requires Walking(view, m, i, path, out) && i < |view[m]| && DistinctNames(view[m])
    ensures var b := view[m][i];
      b.name !in out[path] && Unlisted(path + [b.name], Record(out, path, b))
  {
    hide Follow, Listed, Names;
    var ns := view[m];
    KindsSnoc(out[path], ns, i);
    NamesSnoc(ns, i);
    var under := path + [ns[i].name];
    forall p | p in out ensures !(under <= p) {
      if path <= p && p != path {
        var rest := p[|path|..];
        assert p == path + rest;
        assert p[|path|] == rest[0] && rest[0] in Names(ns[..i]);
      }
    }
  }

  /** After the step, with the tree under the name listed if it names a module. */
  lemma StepDone(view: Memo, m: Id, i: nat, path: Path, out: Found, out': Found)
    requires Walking(view, m, i, path, out) && i < |view[m]| && DistinctNames(view[m])
    requires var b := view[m][i];
      if b.sub.None? then out' == Record(out, path, b)
      else ListsTree(view, b.sub.value, path + [b.name], out') && Apart(path + [b.name], Record(out, path, b), out')
    ensures Walking(view, m, i + 1, path, out')
  {
    hide Listed, Names, SubOf, Follow;
    var ns := view[m];
    var b := ns[i];
    var under := path + [b.name];
    KindsSnoc(out[path], ns, i);
    NamesSnoc(ns, i);
    SubOfMeans(ns, i);
    assert !(under <= path);
    forall rest: Path | rest != []
      ensures if rest[0] in Names(ns[..i + 1]) then Listed(view, m, rest, path + rest, out') else path + rest !in out'
    {
      var here := path + rest;
      if rest[0] == b.name {
        StepUnder(view, m, i, path, out, out', rest);
      } else {
        assert !(under <= here) by { assert here[|path|] == rest[0]; }
        assert here != path;
        SameListing(view, m, rest, here, out, out');
      }
    }
  }

  lemma SameListing(view: Memo, m: Id, rest: Path, here: Path, out: Found, out': Found)
    requires (here in out <==> here in out') && (here in out ==> out[here] == out'[here])
    ensures Listed(view, m, rest, here, out) <==> Listed(view, m, rest, here, out')
  {
    hide Follow, MatchesKinds;
  }

  lemma StepUnder(view: Memo, m: Id, i: nat, path: Path, out: Found, out': Found, rest: Path)
    requires Walking(view, m, i, path, out) && i < |view[m]|
    requires var b := view[m][i];
      && rest != [] && rest[0] == b.name && b.name !in Names(view[m][..i]) && SubOf(view[m], b.name) == b.sub
      && if b.sub.None? then out' == Record(out, path, b)
         else ListsTree(view, b.sub.value, path + [b.name], out')
    ensures Listed(view, m, rest, path + rest, out')
  {
    hide Names, SubOf, MatchesKinds;
    var b := view[m][i];
    var here := path + rest;
    if b.sub.None? {
      assert here !in out;
      assert here != path;
    } else {
      assert (path + [b.name]) + rest[1..] == here;
      assert Listed(view, b.sub.value, rest[1..], (path + [b.name]) + rest[1..], out');
    }
  }

  lemma WalkEnds(view: Memo, m: Id, path: Path, out: Found)
    requires m in view && Walking(view, m, |view[m]|, path, out)
    ensures ListsTree(view, m, path, out)
  {
    hide Names, SubOf, MatchesKinds;
    var ns := view[m];
    assert ns[..|ns|] == ns;
    forall rest: Path ensures Listed(view, m, rest, path + rest, out) {
      if rest == [] {
        assert path + rest == path;
      } else if rest[0] !in Names(ns) {
        NoSubOutside(ns, rest[0]);
      }
    }
  }

  lemma ApartTwice(path: Path, under: Path, out: Found, out1: Found, out2: Found)
    requires path <= under && Apart(path, out, out1) && Apart(under, out1, out2)
    ensures Apart(path, out, out2)
  {
    forall p: Path | !(path <= p) ensures (p in out <==> p in out2) && (p in out ==> out[p] == out2[p]) {
      assert under <= p ==> path <= p;
    }
  }

  lemma RecordIsApart(path: Path, out: Found, out1: Found, b: Binding)
    requires path in out1 && Apart(path, out, out1)
    ensures Apart(path, out, Record(out1, path, b))
  {
  }

  // ---- when there is a listing ------------------------------------------------------

  function Repeat(rest: Path, n: nat): Path {
    if n == 0 then [] else rest + Repeat(rest, n - 1)
  }

  lemma {:induction false} FollowThrough(view: Memo, m: Id, a: Path, b: Path)
    ensures Follow(view, m, a + b) ==
      match Follow(view, m, a) case None => None case Some(k) => Follow(view, k, b)
    decreases |a|
  {
    hide SubOf;
    if a == [] {
      assert a + b == b;
    } else {
      FirstOf(a, b);
      if m in view && SubOf(view[m], a[0]).Some? {
        FollowThrough(view, SubOf(view[m], a[0]).value, a[1..], b);
      }
    }
  }

  lemma {:induction false} RoundAndRound(view: Memo, m: Id, rest: Path, n: nat)
    requires rest != [] && Follow(view, m, rest) == Some(m)
    ensures Follow(view, m, Repeat(rest, n)) == Some(m) && |Repeat(rest, n)| >= n
    decreases n
  {
    hide Follow;
    if n > 0 {
      RoundAndRound(view, m, rest, n - 1);
      FollowThrough(view, m, rest, Repeat(rest, n - 1));
    } else {
      FollowNothing(view, m);
    }
  }

  lemma FollowNothing(view: Memo, m: Id)
    ensures Follow(view, m, []) == Some(m)
  {
  }

  lemma {:induction false} LongestPath(paths: set<Path>) returns (bound: nat)
    ensures forall p <- paths :: |p| <= bound
    decreases |paths|
  {
    bound := 0;
    if paths != {} {
      var p :| p in paths;
      bound := LongestPath(paths - {p});
      if |p| > bound { bound := |p|; }
    }
  }

  /** A module that names lead back to has infinitely many paths: no table lists its tree, so the
      walk cannot end there. */
  lemma NamedCycleHasNoListing(view: Memo, m: Id, rest: Path, path: Path, out: Found)
    requires rest != [] && Follow(view, m, rest) == Some(m)
    ensures !ListsTree(view, m, path, out)
  {
    hide Follow;
    var bound := LongestPath(out.Keys);
    var again := Repeat(rest, bound + 1);
    RoundAndRound(view, m, rest, bound + 1);
    assert |path + again| > bound;
    assert !Listed(view, m, again, path + again, out);
  }

  /** Names lead from the module back to itself. */
  ghost predicate Cyclic(view: Memo, k: Id) {
    exists more: Path :: more != [] && Follow(view, k, more) == Some(k)
  }

  /** No module that names lead to from `m` leads back to itself. */
  ghost predicate NoCycleFrom(view: Memo, m: Id) {
    forall rest: Path :: Follow(view, m, rest).Some? ==> !Cyclic(view, Follow(view, m, rest).value)
  }

  /** Paths from `m` are shorter than `limit`, and lead to resolved modules. */
  ghost predicate Bounded(view: Memo, m: Id, limit: nat) {
    forall rest: Path :: Follow(view, m, rest).Some? ==> |rest| < limit && Follow(view, m, rest).value in view
  }

  lemma {:induction false} Repeats(s: seq<Id>, mods: set<Id>) returns (i: nat, j: nat)
    requires |s| > |mods| && forall x <- s :: x in mods
    ensures i < j < |s| && s[i] == s[j]
    decreases |s|
  {
    if k :| 0 < k < |s| && s[k] == s[0] {
      i, j := 0, k;
    } else {
      assert s[0] in mods;
      forall x | x in s[1..] ensures x in mods - {s[0]} {
        var k :| 0 <= k < |s[1..]| && s[1..][k] == x;
        assert s[k + 1] == x;
      }
      i, j := Repeats(s[1..], mods - {s[0]});
      i, j := i + 1, j + 1;
    }
  }

  lemma FollowPart(view: Memo, m: Id, rest: Path, i: nat)
    requires i <= |rest| && Follow(view, m, rest).Some?
    ensures Follow(view, m, rest[..i]).Some?
    ensures Follow(view, Follow(view, m, rest[..i]).value, rest[i..]) == Follow(view, m, rest)
    ensures i < |rest| ==> var k := Follow(view, m, rest[..i]).value; k in view && view[k] != []
  {
    hide SubOf;
    assert rest[..i] + rest[i..] == rest;
    FollowThrough(view, m, rest[..i], rest[i..]);
    if i < |rest| { LeadsOn(view, Follow(view, m, rest[..i]).value, rest[i..]); }
  }

  lemma LeadsOn(view: Memo, k: Id, rest: Path)
    requires rest != [] && Follow(view, k, rest).Some?
    ensures k in view && view[k] != []
  {
  }

  /** Only modules of `mods` have names. */
  ghost predicate NamedWithin(view: Memo, mods: set<Id>) {
    forall k <- view.Keys :: view[k] != [] ==> k in mods
  }

  /** A path longer than there are modules comes by some module twice. */
  lemma LongPathTurns(view: Memo, m: Id, rest: Path, mods: set<Id>)
    requires NamedWithin(view, mods) && Follow(view, m, rest).Some? && |rest| > |mods|
    ensures !NoCycleFrom(view, m)
  {
    hide Follow;
    var visited := seq(|rest|, i requires 0 <= i < |rest| =>
      match Follow(view, m, rest[..i]) case Some(k) => k case None => m);
    forall x | x in visited ensures x in mods {
      var i :| 0 <= i < |visited| && visited[i] == x;
      FollowPart(view, m, rest, i);
    }
    var i, j := Repeats(visited, mods);
    FollowPart(view, m, rest, i);
    FollowPart(view, m, rest, j);
    assert rest[..j] == rest[..i] + rest[i..j];
    FollowThrough(view, m, rest[..i], rest[i..j]);
    assert Cyclic(view, visited[i]);
  }

  /** Without a cycle, paths are no longer than there are modules. */
  lemma NoCycleIsBounded(view: Memo, m: Id, mods: set<Id>)
    requires NamedWithin(view, mods) && NoCycleFrom(view, m) && Known(view, m)
    ensures Bounded(view, m, |mods| + 1)
  {
    hide Follow, NoCycleFrom;
    forall rest: Path | Follow(view, m, rest).Some? ensures |rest| < |mods| + 1 {
      if |rest| > |mods| { LongPathTurns(view, m, rest, mods); }
    }
  }

  /** And on a cycle they are arbitrarily long. */
  lemma BoundedHasNoCycle(view: Memo, m: Id, limit: nat)
    requires Bounded(view, m, limit)
    ensures NoCycleFrom(view, m) && Known(view, m)
  {
    hide Follow;
    forall rest: Path, more: Path | Follow(view, m, rest).Some? && more != []
      ensures Follow(view, Follow(view, m, rest).value, more) != Some(Follow(view, m, rest).value)
    {
      var k := Follow(view, m, rest).value;
      if Follow(view, k, more) == Some(k) {
        RoundAndRound(view, k, more, limit);
        FollowThrough(view, m, rest, Repeat(more, limit));
      }
    }
  }

  lemma BoundedSub(view: Memo, m: Id, limit: nat, name: string, sub: Id)
    requires Bounded(view, m, limit) && m in view && SubOf(view[m], name) == Some(sub)
    ensures limit > 0 && Bounded(view, sub, limit - 1)
  {
    hide SubOf;
    assert Follow(view, m, []) == Some(m);
    forall rest: Path | Follow(view, sub, rest).Some? ensures |rest| < limit - 1 && Follow(view, sub, rest).value in view {
      assert ([name] + rest)[0] == name && ([name] + rest)[1..] == rest;
      assert Follow(view, m, [name] + rest) == Follow(view, sub, rest);
    }
  }

  /** Bounded paths can be listed. */
  lemma {:induction false} ListingOf(view: Memo, m: Id, path: Path, out: Found, limit: nat) returns (listed: Found)
    requires (forall k <- view.Keys :: DistinctNames(view[k])) && Bounded(view, m, limit) && Unlisted(path, out)
    ensures ListsTree(view, m, path, listed) && Apart(path, out, listed)
    decreases limit
  {
    hide DistinctNames, Unlisted, Walking, Apart, ListsTree, SubOf;
    assert Follow(view, m, []) == Some(m);
    var ns := view[m];
    hide Follow, Bounded;
    listed := out[path := map[]];
    WalkBegins(view, m, path, out);
    PathStands(view, m, 0, path, listed);
    var i := 0;
    while i < |ns|
      invariant 0 <= i <= |ns| && path in listed && Walking(view, m, i, path, listed) && Apart(path, out, listed)
    {
      var b, before := ns[i], listed;
      StepIsFresh(view, m, i, path, listed);
      RecordIsApart(path, out, listed, b);
      listed := Record(listed, path, b);
      if b.sub.Some? {
        SubOfMeans(ns, i);
        BoundedSub(view, m, limit, b.name, b.sub.value);
        var recorded := listed;
        listed := ListingOf(view, b.sub.value, path + [b.name], recorded, limit - 1);
        ApartTwice(path, path + [b.name], out, recorded, listed);
      }
      StepDone(view, m, i, path, before, listed);
      i := i + 1;
      PathStands(view, m, i, path, listed);
    }
    WalkEnds(view, m, path, listed);
  }

  lemma PathStands(view: Memo, m: Id, i: nat, path: Path, out: Found)
    requires Walking(view, m, i, path, out)
    ensures path in out
  {
  }

  /** The tree below a module can be listed if and only if names lead along no cycle from it. */
  lemma ListedIffNoCycle(view: Memo, m: Id, path: Path)
    requires (forall k <- view.Keys :: DistinctNames(view[k])) && Known(view, m)
    ensures (exists out :: ListsTree(view, m, path, out)) <==> NoCycleFrom(view, m)
  {
    hide DistinctNames, ListsTree, NoCycleFrom, Known;
    if NoCycleFrom(view, m) {
      NoCycleIsBounded(view, m, view.Keys);
      var out := ListingOf(view, m, path, map[], |view.Keys| + 1);
    }
    if out :| ListsTree(view, m, path, out) {
      ListedHasNoCycle(view, m, path, out);
    }
  }

  lemma ListedHasNoCycle(view: Memo, m: Id, path: Path, out: Found)
    requires ListsTree(view, m, path, out)
    ensures NoCycleFrom(view, m)
  {
    hide Follow;
    forall rest: Path, more: Path | Follow(view, m, rest).Some? && more != []
      ensures Follow(view, Follow(view, m, rest).value, more) != Some(Follow(view, m, rest).value)
    {
      var k := Follow(view, m, rest).value;
      ListsUnder(view, m, path, out, rest);
      if Follow(view, k, more) == Some(k) { NamedCycleHasNoListing(view, k, more, path + rest, out); }
    }
  }

  lemma ListsUnder(view: Memo, m: Id, path: Path, out: Found, rest: Path)
    requires ListsTree(view, m, path, out) && Follow(view, m, rest).Some?
    ensures ListsTree(view, Follow(view, m, rest).value, path + rest, out)
  {
    hide Follow, MatchesKinds;
    forall more: Path ensures Listed(view, Follow(view, m, rest).value, more, path + rest + more, out) {
      assert path + rest + more == path + (rest + more);
      FollowThrough(view, m, rest, more);
      assert Listed(view, m, rest + more, path + (rest + more), out);
    }
  }
}
