/** Sorting by a total order, and the one fact the shard planner leans on: the sorted
    arrangement of a bag of elements is unique, so a sort does not depend on the order its
    input came in.  The order on names is the one Python's `sorted` uses on strings: character
    by character, a prefix first. */
module Sorting {
  import opened Sequences

  ghost predicate TotalOrder<T(!new)>(le: (T, T) -> bool) {
    && (forall a, b :: le(a, b) || le(b, a))
    && (forall a, b :: le(a, b) && le(b, a) ==> a == b)
    && (forall a, b, c :: le(a, b) && le(b, c) ==> le(a, c))
  }

  ghost predicate Sorted<T>(le: (T, T) -> bool, s: seq<T>) {
    forall i, j :: 0 <= i < j < |s| ==> le(s[i], s[j])
  }

  function Insert<T>(le: (T, T) -> bool, x: T, s: seq<T>): (r: seq<T>)
    ensures multiset(r) == multiset{x} + multiset(s)
  {
    if s == [] then [x]
    else if le(x, s[0]) then assert s == [s[0]] + s[1..]; [x] + s
    else assert s == [s[0]] + s[1..]; [s[0]] + Insert(le, x, s[1..])
  }

  /** Python's `sorted`: stable sorting under a total order is just sorting. */
  function Sort<T>(le: (T, T) -> bool, s: seq<T>): (r: seq<T>)
    ensures multiset(r) == multiset(s)
    ensures |r| == |s|
  {
    if s == [] then []
    else
      assert s == [s[0]] + s[1..];
      var r := Insert(le, s[0], Sort(le, s[1..]));
      assert |r| == |multiset(r)| == |multiset(s)| == |s|;
      r
  }

  lemma {:induction false} InsertSorted<T(!new)>(le: (T, T) -> bool, x: T, s: seq<T>)
    requires TotalOrder(le) && Sorted(le, s)
    ensures Sorted(le, Insert(le, x, s))
  {
    if s != [] && !le(x, s[0]) {
      InsertSorted(le, x, s[1..]);
      var t := Insert(le, x, s[1..]);
      forall y | y in t ensures le(s[0], y) {
        assert y in multiset(t);
        assert y == x || y in s[1..];
      }
    } else if s != [] {
      forall y | y in s ensures le(x, y) {
        assert le(s[0], y);
      }
    }
  }

  lemma {:induction false} SortSorted<T(!new)>(le: (T, T) -> bool, s: seq<T>)
    requires TotalOrder(le)
    ensures Sorted(le, Sort(le, s))
  {
    if s != [] {
      SortSorted(le, s[1..]);
      InsertSorted(le, s[0], Sort(le, s[1..]));
    }
  }

  lemma {:induction false} SortedUnique<T(!new)>(le: (T, T) -> bool, a: seq<T>, b: seq<T>)
    requires TotalOrder(le) && Sorted(le, a) && Sorted(le, b)
    requires multiset(a) == multiset(b)
    ensures a == b
  {
    assert |a| == |multiset(a)| == |multiset(b)| == |b|;
    if a != [] {
      HeadsAlike(le, a, b);
      BagTail(a);
      BagTail(b);
      BagCancel(a[0], multiset(a[1..]), multiset(b[1..]));
      SortedUnique(le, a[1..], b[1..]);
      HeadThenRest(a);
      HeadThenRest(b);
    }
  }

  /** Two sorted arrangements of one bag begin alike. */
  lemma HeadsAlike<T(!new)>(le: (T, T) -> bool, a: seq<T>, b: seq<T>)
    requires TotalOrder(le) && Sorted(le, a) && Sorted(le, b)
    requires multiset(a) == multiset(b) && a != [] && b != []
    ensures a[0] == b[0]
  {
    assert a[0] in multiset(b) && b[0] in multiset(a);
    assert le(a[0], b[0]) && le(b[0], a[0]);
  }

  lemma BagTail<T>(s: seq<T>)
    requires s != []
    ensures multiset(s) == multiset(s[1..]) + multiset{s[0]}
  {
    assert s == [s[0]] + s[1..];
  }

  /** Sorting forgets the order its input came in. */
  lemma SortOfPermutation<T(!new)>(le: (T, T) -> bool, a: seq<T>, b: seq<T>)
    requires TotalOrder(le) && multiset(a) == multiset(b)
    ensures Sort(le, a) == Sort(le, b)
  {
    SortSorted(le, a);
    SortSorted(le, b);
    SortedUnique(le, Sort(le, a), Sort(le, b));
  }

  // ---- the order on names -----------------------------------------------------------

  /** Code-point order on strings, the order Python compares `str` by. */
  predicate NameLe(a: string, b: string) {
    a == [] || (b != [] && (a[0] < b[0] || (a[0] == b[0] && NameLe(a[1..], b[1..]))))
  }

  lemma {:induction false} NameLeTotal(a: string, b: string)
    ensures NameLe(a, b) || NameLe(b, a)
  {
    if a != [] && b != [] { NameLeTotal(a[1..], b[1..]); }
  }

  lemma {:induction false} NameLeAntisymmetric(a: string, b: string)
    requires NameLe(a, b) && NameLe(b, a)
    ensures a == b
  {
    if a != [] && b != [] {
      NameLeAntisymmetric(a[1..], b[1..]);
      assert a == [a[0]] + a[1..] && b == [b[0]] + b[1..];
    }
  }

  lemma {:induction false} NameLeTransitive(a: string, b: string, c: string)
    requires NameLe(a, b) && NameLe(b, c)
    ensures NameLe(a, c)
  {
    if a != [] && b != [] && c != [] && a[0] == b[0] == c[0] {
      NameLeTransitive(a[1..], b[1..], c[1..]);
    }
  }

  lemma NameOrder()
    ensures TotalOrder(NameLe)
  {
    forall a, b ensures NameLe(a, b) || NameLe(b, a) { NameLeTotal(a, b); }
    forall a, b | NameLe(a, b) && NameLe(b, a) ensures a == b { NameLeAntisymmetric(a, b); }
    forall a, b, c | NameLe(a, b) && NameLe(b, c) ensures NameLe(a, c) { NameLeTransitive(a, b, c); }
  }

  function SortNames(names: seq<string>): (r: seq<string>)
    ensures multiset(r) == multiset(names)
  {
    Sort(NameLe, names)
  }

  /** Strictly increasing: sorted, and no name twice. */
  ghost predicate StrictlySorted(names: seq<string>) {
    forall i, j :: 0 <= i < j < |names| ==> NameLe(names[i], names[j]) && names[i] != names[j]
  }

  // ---- the order on names, said outright --------------------------------------------

  /** `a` is the beginning of `b`, or at the first place where they differ its character is the
      smaller. */
  ghost predicate ComesFirst(a: string, b: string) {
    a <= b || exists k: nat :: DifferAt(a, b, k) && a[k] < b[k]
  }

  /** `k` is the first place where the names differ. */
  ghost predicate DifferAt(a: string, b: string, k: nat) {
    k < |a| && k < |b| && a[..k] == b[..k] && a[k] != b[k]
  }

  lemma {:induction false} NameLeIff(a: string, b: string)
    ensures NameLe(a, b) <==> ComesFirst(a, b)
  {
    if a != [] && b != [] {
      var a', b' := a[1..], b[1..];
      NameLeIff(a', b');
      if a[0] == b[0] {
        assert a == [a[0]] + a' && b == [b[0]] + b';
        forall k: nat ensures DifferAt(a', b', k) <==> DifferAt(a, b, k + 1) { DifferOneOn(a, b, k); }
        if k: nat :| DifferAt(a, b, k) && a[k] < b[k] { assert DifferAt(a', b', k - 1); }
        if k: nat :| DifferAt(a', b', k) && a'[k] < b'[k] { assert DifferAt(a, b, k + 1); }
      } else {
        assert DifferAt(a, b, 0);
        if k: nat :| DifferAt(a, b, k) && a[k] < b[k] {
          if k > 0 { assert a[..k][0] == b[..k][0]; }
        }
      }
    }
  }

  lemma DifferOneOn(a: string, b: string, k: nat)
    requires a != [] && b != [] && a[0] == b[0]
    ensures DifferAt(a[1..], b[1..], k) <==> DifferAt(a, b, k + 1)
  {
    if k + 1 <= |a| && k + 1 <= |b| {
      assert a[..k + 1] == [a[0]] + a[1..][..k] && b[..k + 1] == [b[0]] + b[1..][..k];
      assert a[..k + 1][1..] == a[1..][..k] && b[..k + 1][1..] == b[1..][..k];
    }
  }
}
