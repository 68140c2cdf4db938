/** Sequence idioms shared by the components.  Ends and maps; sums and what they keep under
    concatenation and permutation; bags, with the step that pulls the last element of one
    arrangement out of another; and pieces that stand in place inside a longer sequence, which
    the parsers use to speak of a spelling at a position; and white space taken off a text. */
module Sequences {

  function Front<T>(s: seq<T>): seq<T>
    requires s != []
  {
    s[..|s| - 1]
  }

  function Last<T>(s: seq<T>): T
    requires s != []
  {
    s[|s| - 1]
  }

  function Map<S, T>(f: S -> T, s: seq<S>): (r: seq<T>)
    ensures |r| == |s|
  {
    seq(|s|, i requires 0 <= i < |s| => f(s[i]))
  }

  lemma MapConcat<S, T>(f: S -> T, a: seq<S>, b: seq<S>)
    ensures Map(f, a + b) == Map(f, a) + Map(f, b)
  {
  }

  function Sum(s: seq<int>): int {
    if s == [] then 0 else Sum(Front(s)) + Last(s)
  }

  lemma {:induction false} SumConcat(p: seq<int>, q: seq<int>)
    ensures Sum(p + q) == Sum(p) + Sum(q)
  {
    if q == [] {
      assert p + q == p;
    } else {
      assert Front(p + q) == p + Front(q);
      SumConcat(p, Front(q));
    }
  }

  lemma ConcatThree<T>(a: seq<T>, b: seq<T>, c: seq<T>)
    ensures a + (b + c) == (a + b) + c
  {
  }

  lemma FirstOf<T>(s: seq<T>, rest: seq<T>)
    requires s != []
    ensures (s + rest)[0] == s[0] && (s + rest)[1..] == s[1..] + rest
  {
  }

  lemma HeadThenRest<T>(s: seq<T>)
    requires s != []
    ensures [s[0]] + s[1..] == s
  {
  }

  lemma Slices<T>(s: seq<T>, i: nat, j: nat)
    requires i <= j <= |s|
    ensures s[..i] + s[i..j] == s[..j]
  {
  }

  lemma {:induction false} SumCons(x: int, p: seq<int>)
    ensures Sum([x] + p) == x + Sum(p)
    decreases |p|
  {
    if p == [] {
      assert [x] + p == [x];
    } else {
      assert Front([x] + p) == [x] + Front(p);
      SumCons(x, Front(p));
    }
  }

  lemma {:induction false} SumOfNats(p: seq<nat>)
    ensures Sum(p) >= 0
  {
    if p != [] { SumOfNats(Front(p)); }
  }

  // ---- bags -------------------------------------------------------------------------

  function Without<T>(s: seq<T>, i: nat): seq<T>
    requires i < |s|
  {
    s[..i] + s[i + 1..]
  }

  lemma BagSplit<T>(s: seq<T>, i: nat)
    requires i < |s|
    ensures multiset(s) == multiset(Without(s, i)) + multiset{s[i]}
  {
    assert s == s[..i] + [s[i]] + s[i + 1..];
  }

  lemma BagFront<T>(s: seq<T>)
    requires s != []
    ensures multiset(s) == multiset(Front(s)) + multiset{Last(s)}
  {
    assert s == Front(s) + [Last(s)];
  }

  lemma BagCancel<T>(x: T, a: multiset<T>, b: multiset<T>)
    requires a + multiset{x} == b + multiset{x}
    ensures a == b
  {
    assert a == (a + multiset{x}) - multiset{x};
    assert b == (b + multiset{x}) - multiset{x};
  }

  /** Two arrangements of one bag: where the last element of the first sits in the second. */
  lemma PullOut<T>(a: seq<T>, b: seq<T>) returns (i: nat)
    requires multiset(a) == multiset(b) && a != []
    ensures i < |b| && b[i] == Last(a)
    ensures multiset(Front(a)) == multiset(Without(b, i))
  {
    assert Last(a) in multiset(b);
    i :| 0 <= i < |b| && b[i] == Last(a);
    BagSplit(b, i);
    BagFront(a);
    BagCancel(Last(a), multiset(Front(a)), multiset(Without(b, i)));
  }

  lemma {:induction false} MapPermutes<S, T>(f: S -> T, a: seq<S>, b: seq<S>)
    requires multiset(a) == multiset(b)
    ensures multiset(Map(f, a)) == multiset(Map(f, b))
  {
    assert |a| == |multiset(a)| == |multiset(b)| == |b|;
    if a != [] {
      var i := PullOut(a, b);
      MapPermutes(f, Front(a), Without(b, i));
      BagSplit(Map(f, b), i);
      BagFront(Map(f, a));
      assert Front(Map(f, a)) == Map(f, Front(a));
      assert Without(Map(f, b), i) == Map(f, Without(b, i));
    }
  }

  lemma SumSnoc(p: seq<int>, x: int)
    ensures Sum(p + [x]) == Sum(p) + x
  {
    assert Front(p + [x]) == p;
  }

  lemma SumSplit(p: seq<int>, i: nat)
    requires i < |p|
    ensures Sum(p) == Sum(Without(p, i)) + p[i]
  {
    hide Sum;
    SumConcat(p[..i], p[i + 1..]);
    SumSnoc(p[..i], p[i]);
    SumConcat(p[..i] + [p[i]], p[i + 1..]);
    assert p[..i] + [p[i]] + p[i + 1..] == p;
  }

  lemma {:induction false} SumPermutes(p: seq<int>, q: seq<int>)
    requires multiset(p) == multiset(q)
    ensures Sum(p) == Sum(q)
  {
    assert |p| == |multiset(p)| == |multiset(q)| == |q|;
    if p != [] {
      var i := PullOut(p, q);
      SumPermutes(Front(p), Without(q, i));
      SumSplit(q, i);
    }
  }

  // ---- pieces in place --------------------------------------------------------------

  /** `piece` stands in `s` at `pos`. */
  ghost predicate At<T>(s: seq<T>, pos: nat, piece: seq<T>) {
    pos + |piece| <= |s| && forall i {:trigger piece[i]} :: 0 <= i < |piece| ==> s[pos + i] == piece[i]
  }

  lemma AtParts<T>(s: seq<T>, pos: nat, a: seq<T>, b: seq<T>)
    ensures At(s, pos, a + b) <==> At(s, pos, a) && At(s, pos + |a|, b)
  {
    if At(s, pos, a + b) {
      forall i | 0 <= i < |a| ensures s[pos + i] == a[i] {
        assert (a + b)[i] == a[i];
      }
      forall i | 0 <= i < |b| ensures s[pos + |a| + i] == b[i] {
        assert (a + b)[|a| + i] == b[i];
      }
    }
    if At(s, pos, a) && At(s, pos + |a|, b) {
      forall i | 0 <= i < |a + b| ensures s[pos + i] == (a + b)[i] {
        if i >= |a| { assert s[pos + |a| + (i - |a|)] == b[i - |a|]; }
      }
    }
  }

  lemma AtHead<T>(s: seq<T>, pos: nat, piece: seq<T>)
    requires At(s, pos, piece) && piece != []
    ensures pos < |s| && s[pos] == piece[0]
  {
  }

  lemma AtOne<T>(s: seq<T>, pos: nat, x: T)
    ensures At(s, pos, [x]) <==> pos < |s| && s[pos] == x
  {
    if At(s, pos, [x]) { assert [x][0] == x; }
  }

  // ---- white space ------------------------------------------------------------------

  /** The text behind the white space it begins with. */
  function Trim(s: string, blank: char -> bool): (r: string)
    ensures |r| <= |s| && (r != [] ==> !blank(r[0]))
  {
    if s != [] && blank(s[0]) then Trim(s[1..], blank) else s
  }

  /** The text without the white space at its ends. */
  function Strip(s: string, blank: char -> bool): string
    decreases |s|
  {
    if s == [] then []
    else if blank(s[0]) then Strip(s[1..], blank)
    else if blank(Last(s)) then Strip(Front(s), blank)
    else s
  }

  /** `[a, b)` is what is left of a text without the white space at its ends. */
  ghost predicate Stripped(s: string, blank: char -> bool, a: nat, b: nat) {
    && a <= b <= |s|
    && (forall i :: 0 <= i < a || b <= i < |s| ==> blank(s[i]))
    && (a < b ==> !blank(s[a]) && !blank(s[b - 1]))
  }

  lemma {:induction false} StripIs(s: string, blank: char -> bool) returns (a: nat, b: nat)
    ensures Stripped(s, blank, a, b) && Strip(s, blank) == s[a..b]
    decreases |s|
  {
    if s == [] {
      a, b := 0, 0;
    } else if blank(s[0]) {
      a, b := StripIs(s[1..], blank);
      a, b := a + 1, b + 1;
      assert forall i :: 0 < i < |s| ==> s[i] == s[1..][i - 1];
    } else if blank(Last(s)) {
      a, b := StripIs(Front(s), blank);
      assert forall i :: 0 <= i < |s| - 1 ==> s[i] == Front(s)[i];
    } else {
      a, b := 0, |s|;
    }
  }

  lemma {:induction false} TrimIs(s: string, blank: char -> bool) returns (n: nat)
    ensures n <= |s| && Trim(s, blank) == s[n..]
    ensures (forall i :: 0 <= i < n ==> blank(s[i])) && (n < |s| ==> !blank(s[n]))
  {
    if s != [] && blank(s[0]) {
      n := TrimIs(s[1..], blank);
      n := n + 1;
      assert forall i :: 0 < i < |s| ==> s[i] == s[1..][i - 1];
    } else {
      n := 0;
    }
  }

  // ---- alphabets --------------------------------------------------------------------

  const LOWER := "abcdefghijklmnopqrstuvwxyz"
  const UPPER := "ABCDEFGHIJKLMNOPQRSTUVWXYZ"
  const DIGITS := "0123456789"

  lemma LetterIff(c: char)
    ensures 'a' <= c <= 'z' <==> c in LOWER
    ensures 'A' <= c <= 'Z' <==> c in UPPER
    ensures '0' <= c <= '9' <==> c in DIGITS
  {
    InAlphabet(c, 'a', LOWER);
    InAlphabet(c, 'A', UPPER);
    InAlphabet(c, '0', DIGITS);
  }

  lemma InAlphabet(c: char, first: char, alphabet: string)
    requires |alphabet| > 0 && forall i :: 0 <= i < |alphabet| ==> alphabet[i] as int == first as int + i
    ensures c in alphabet <==> first as int <= c as int < first as int + |alphabet|
  {
    if first as int <= c as int < first as int + |alphabet| {
      assert alphabet[c as int - first as int] == c;
    }
  }
}
