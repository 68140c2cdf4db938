/** Regular expressions over characters and the language each denotes. */
module Regex {

  /** A bracketed class: inclusive ranges, possibly complemented. */
  datatype Class = Class(negated: bool, ranges: seq<(char, char)>) {
    predicate Has(c: char) {
      negated != exists r :: r in ranges && r.0 <= c <= r.1
    }
  }

  datatype Re =
    | One(chars: Class)
    | Cat(first: Re, second: Re)
    | Alt(left: Re, right: Re)
    | Star(body: Re)

  ghost predicate Matches(re: Re, s: string)
    decreases re, |s|
  {
    match re
    case One(c) => |s| == 1 && c.Has(s[0])
    case Cat(a, b) => exists k :: 0 <= k <= |s| && Matches(a, s[..k]) && Matches(b, s[k..])
    case Alt(a, b) => Matches(a, s) || Matches(b, s)
    case Star(a) => s == [] || exists k :: 0 < k <= |s| && Matches(a, s[..k]) && Matches(re, s[k..])
  }

  /** Classes one after another. */
  function Chain(classes: seq<Class>): Re
    requires classes != []
  {
    if |classes| == 1 then One(classes[0]) else Cat(One(classes[0]), Chain(classes[1..]))
  }

  lemma CatOne(c: Class, re: Re, s: string)
    ensures Matches(Cat(One(c), re), s) <==> s != [] && c.Has(s[0]) && Matches(re, s[1..])
  {
    if s != [] && c.Has(s[0]) && Matches(re, s[1..]) {
      assert Matches(One(c), s[..1]);
    }
  }

  lemma {:induction false} ChainMatches(classes: seq<Class>, s: string)
    requires classes != []
    ensures Matches(Chain(classes), s) <==> |s| == |classes| && forall i :: 0 <= i < |s| ==> classes[i].Has(s[i])
  {
    if |classes| > 1 {
      CatOne(classes[0], Chain(classes[1..]), s);
      if s != [] {
        ChainMatches(classes[1..], s[1..]);
        assert (forall i :: 0 <= i < |s| && |s| == |classes| ==> classes[i].Has(s[i])) <==>
          (|s| == |classes| ==> classes[0].Has(s[0]) && forall i :: 0 <= i < |s| - 1 ==> classes[1..][i].Has(s[1..][i])) by {
          if |s| == |classes| && classes[0].Has(s[0]) && forall i :: 0 <= i < |s| - 1 ==> classes[1..][i].Has(s[1..][i]) {
            forall i | 0 <= i < |s| ensures classes[i].Has(s[i]) {
              if i > 0 { assert classes[1..][i - 1].Has(s[1..][i - 1]); }
            }
          }
        }
      }
    }
  }

  /** A chain cut in two reads its halves off the two parts of the text. */
  lemma ChainSplit(a: seq<Class>, b: seq<Class>, s: string)
    requires a != [] && b != [] && |s| >= |a|
    ensures Matches(Chain(a + b), s) <==> Matches(Chain(a), s[..|a|]) && Matches(Chain(b), s[|a|..])
  {
    hide Chain, Class.Has, Matches;
    ChainMatches(a + b, s);
    ChainMatches(a, s[..|a|]);
    ChainMatches(b, s[|a|..]);
    if Matches(Chain(a), s[..|a|]) && Matches(Chain(b), s[|a|..]) {
      forall i | 0 <= i < |s| ensures (a + b)[i].Has(s[i]) {
        if i < |a| { assert a[i].Has(s[..|a|][i]); } else { assert b[i - |a|].Has(s[|a|..][i - |a|]); }
      }
    }
    if Matches(Chain(a + b), s) {
      forall i | 0 <= i < |b| ensures b[i].Has(s[|a|..][i]) { assert (a + b)[|a| + i].Has(s[|a| + i]); }
      forall i | 0 <= i < |a| ensures a[i].Has(s[..|a|][i]) { assert (a + b)[i].Has(s[i]); }
    }
  }

  lemma StarCons(re: Re, x: string, rest: string)
    requires x != [] && Matches(re, x) && Matches(Star(re), rest)
    ensures Matches(Star(re), x + rest)
  {
    assert (x + rest)[..|x|] == x && (x + rest)[|x|..] == rest;
  }

  lemma StarHead(re: Re, s: string) returns (k: nat)
    requires s != [] && Matches(Star(re), s)
    ensures 0 < k <= |s| && Matches(re, s[..k]) && Matches(Star(re), s[k..])
  {
    k :| 0 < k <= |s| && Matches(re, s[..k]) && Matches(Star(re), s[k..]);
  }

  /** `open body close` on a text delimited by single characters. */
  lemma Delimited(open: Class, body: Re, close: Class, s: string)
    ensures Matches(Cat(One(open), Cat(body, One(close))), s) <==>
      |s| >= 2 && open.Has(s[0]) && close.Has(s[|s| - 1]) && Matches(body, s[1..|s| - 1])
  {
    CatOne(open, Cat(body, One(close)), s);
    if s != [] {
      var t := s[1..];
      if Matches(Cat(body, One(close)), t) {
        var k :| 0 <= k <= |t| && Matches(body, t[..k]) && Matches(One(close), t[k..]);
        assert k == |t| - 1 && t[..k] == s[1..|s| - 1];
      }
      if |s| >= 2 && close.Has(s[|s| - 1]) && Matches(body, s[1..|s| - 1]) {
        assert t[..|t| - 1] == s[1..|s| - 1] && t[|t| - 1..] == [s[|s| - 1]];
      }
    }
  }
}
