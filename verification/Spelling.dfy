/** The path-dropping loop of `spell`: `lowercase ::` is drained wherever it opens a path, first
    match first, until nothing matches. */
module Spelling {
  import opened Sequences

  type Word = string

  const SEPARATOR: Word := "::"

  /** The placeholder that survives although it opens a path. */
  const ELIDED: Word := "__Elided"

  predicate IsLower(c: char) {
    'a' <= c <= 'z'
  }

  predicate IsIdentChar(c: char) {
    IsLower(c) || 'A' <= c <= 'Z' || '0' <= c <= '9' || c == '_'
  }

  predicate IsSep(w: Word) {
    w == SEPARATOR
  }

  /** A lowercase identifier that may be dropped. */
  predicate IsSegment(w: Word) {
    && w != [] && (IsLower(w[0]) || w[0] == '_')
    && (forall i :: 0 <= i < |w| ==> IsIdentChar(w[i]))
    && w != ELIDED
  }

  lemma SegmentIsNoSep(w: Word)
    ensures !(IsSegment(w) && IsSep(w))
  {
    if IsSegment(w) { assert w[0] != SEPARATOR[0]; }
  }

  /** A segment and a separator stand at `i`, and not after a separator. */
  predicate CanCut(words: seq<Word>, i: nat) {
    i + 1 < |words| && IsSegment(words[i]) && IsSep(words[i + 1]) && !(i > 0 && IsSep(words[i - 1]))
  }

  function Cut(words: seq<Word>, i: nat): seq<Word>
    requires i + 1 < |words|
  {
    words[..i] + words[i + 2..]
  }

  predicate Irreducible(words: seq<Word>) {
    forall i: nat :: i < |words| ==> !CanCut(words, i)
  }

  // ---- the normal form --------------------------------------------------------------

  /** The kept words end in a segment that opens a path. */
  predicate Opens(kept: seq<Word>) {
    kept != [] && IsSegment(Last(kept)) && !(|kept| > 1 && IsSep(kept[|kept| - 2]))
  }

  /** One pass from left to right over `words`, the words kept so far being a stack: a separator
      takes an opening segment with it. */
  function Settle(kept: seq<Word>, words: seq<Word>): seq<Word>
    decreases |words|
  {
    if words == [] then kept
    else if IsSep(words[0]) && Opens(kept) then Settle(Front(kept), words[1..])
    else Settle(kept + [words[0]], words[1..])
  }

  lemma {:induction false} SettleParts(kept: seq<Word>, a: seq<Word>, b: seq<Word>)
    ensures Settle(kept, a + b) == Settle(Settle(kept, a), b)
    decreases |a|
  {
    hide IsSegment, IsSep;
    if a == [] {
      assert a + b == b;
    } else {
      FirstOf(a, b);
      if IsSep(a[0]) && Opens(kept) {
        SettleParts(Front(kept), a[1..], b);
      } else {
        SettleParts(kept + [a[0]], a[1..], b);
      }
    }
  }

  /** Any one cut leaves the normal form as it was. */
  lemma CutKeepsForm(words: seq<Word>, i: nat)
    requires CanCut(words, i)
    ensures Settle([], Cut(words, i)) == Settle([], words)
  {
    hide IsSegment, IsSep, Opens;
    var before, pair, after := words[..i], [words[i], words[i + 1]], words[i + 2..];
    assert words == before + (pair + after);
    SettleParts([], before, pair + after);
    SettleParts(Settle([], before), pair, after);
    SettleParts([], before, after);
    if i > 0 { EndsInItsLastWord(before); }
    PairVanishes(Settle([], before), words[i], words[i + 1]);
  }

  lemma EndsInItsLastWord(words: seq<Word>)
    requires words != [] && !IsSep(Last(words))
    ensures Settle([], words) != [] && Last(Settle([], words)) == Last(words)
  {
    hide IsSep, Opens;
    assert words == Front(words) + [Last(words)];
    SettleParts([], Front(words), [Last(words)]);
    assert [Last(words)][1..] == [];
  }

  lemma PairVanishes(kept: seq<Word>, segment: Word, sep: Word)
    requires IsSegment(segment) && IsSep(sep) && !(kept != [] && IsSep(Last(kept)))
    ensures Settle(kept, [segment, sep]) == kept
  {
    SegmentIsNoSep(segment);
    var pushed := kept + [segment];
    hide IsSegment, IsSep;
    assert kept != [] ==> pushed[|pushed| - 2] == Last(kept);
    assert Front(pushed) == kept;
    assert [segment, sep][1..] == [sep] && [sep][1..] == [];
    assert Settle(pushed, [sep]) == Settle(kept, [sep][1..]);
  }

  /** What cannot be cut is its own normal form. */
  lemma {:induction false} IrreducibleStands(kept: seq<Word>, words: seq<Word>)
    requires Irreducible(kept + words)
    ensures Settle(kept, words) == kept + words
    decreases |words|
  {
    hide IsSegment, IsSep;
    if words == [] {
    } else {
      if kept != [] { assert !CanCut(kept + words, |kept| - 1); }
      assert (kept + [words[0]]) + words[1..] == kept + words;
      IrreducibleStands(kept + [words[0]], words[1..]);
    }
  }

  /** Normal forms cannot be cut. */
  lemma {:induction false} FormIsIrreducible(kept: seq<Word>, words: seq<Word>)
    requires Irreducible(kept)
    ensures Irreducible(Settle(kept, words))
    decreases |words|
  {
    hide IsSegment, IsSep;
    if words != [] {
      if IsSep(words[0]) && Opens(kept) {
        forall i: nat | i < |Front(kept)| ensures !CanCut(Front(kept), i) {
          assert !CanCut(kept, i);
        }
        FormIsIrreducible(Front(kept), words[1..]);
      } else {
        var more := kept + [words[0]];
        forall i: nat | i < |more| ensures !CanCut(more, i) {
          if i < |kept| { assert !CanCut(kept, i); }
        }
        FormIsIrreducible(more, words[1..]);
      }
    }
  }

  /** A run of removals, each wherever it pleases. */
  ghost predicate Run(words: seq<Word>, cuts: seq<nat>, result: seq<Word>)
    decreases |cuts|
  {
    if cuts == [] then result == words
    else CanCut(words, cuts[0]) && Run(Cut(words, cuts[0]), cuts[1..], result)
  }

  /** Every order of removals that goes on until none is left ends in the same words. */
  lemma {:induction false} EveryOrderEndsAlike(words: seq<Word>, cuts: seq<nat>, result: seq<Word>)
    requires Run(words, cuts, result) && Irreducible(result)
    ensures result == Settle([], words)
    decreases |cuts|
  {
    hide Settle, IsSegment, IsSep, Irreducible;
    if cuts == [] {
      assert [] + words == words;
      IrreducibleStands([], words);
    } else {
      CutKeepsForm(words, cuts[0]);
      EveryOrderEndsAlike(Cut(words, cuts[0]), cuts[1..], result);
    }
  }

  /** The drain loop. */
  method DropPaths(raw: seq<Word>) returns (words: seq<Word>)
    ensures words == Settle([], raw) && Irreducible(words)
  {
    hide IsSegment, IsSep, Settle;
    words := raw;
    while true
      invariant Settle([], words) == Settle([], raw)
      decreases |words|
    {
      var cut: nat := 0;
      while cut + 1 < |words| && !CanCut(words, cut)
        invariant forall i: nat :: i < cut ==> !CanCut(words, i)
      {
        cut := cut + 1;
      }
      if cut + 1 >= |words| {
        assert [] + words == words;
        IrreducibleStands([], words);
        return;
      }
      CutKeepsForm(words, cut);
      words := Cut(words, cut);
    }
  }

  /** Dropping paths from what it returned changes nothing. */
  lemma DropIsIdempotent(raw: seq<Word>)
    ensures Settle([], Settle([], raw)) == Settle([], raw)
  {
    FormIsIrreducible([], raw);
    assert [] + Settle([], raw) == Settle([], raw);
    IrreducibleStands([], Settle([], raw));
  }

  // ---- a pass without a stack -------------------------------------------------------

  /** The plain pass: drop `segment ::` unless the word kept last is a separator, never looking
      back at what was kept. */
  function Pass(words: seq<Word>, afterSep: bool): seq<Word>
    decreases |words|
  {
    if words == [] then []
    else if Droppable(words, afterSep) then Pass(words[2..], false)
    else [words[0]] + Pass(words[1..], IsSep(words[0]))
  }

  predicate Droppable(words: seq<Word>, afterSep: bool) {
    |words| >= 2 && !afterSep && IsSegment(words[0]) && IsSep(words[1])
  }

  /** `segment ::` some number of times, and then one separator more. */
  predicate LeadsToSep(words: seq<Word>)
    decreases |words|
  {
    words != [] && (IsSep(words[0]) || (Droppable(words, false) && LeadsToSep(words[2..])))
  }

  /** An opening segment stands before `segment ::` once or more and one separator more. */
  predicate Stutters(words: seq<Word>, afterSep: bool)
    decreases |words|
  {
    if words == [] then false
    else if Droppable(words, afterSep) then Stutters(words[2..], false)
    else (IsSegment(words[0]) && !afterSep && LeadsToSep(words[1..])) || Stutters(words[1..], IsSep(words[0]))
  }

  /** A cut at `i` of a list that follows a separator or not. */
  predicate CanCutAfter(words: seq<Word>, i: nat, afterSep: bool) {
    && i + 1 < |words| && IsSegment(words[i]) && IsSep(words[i + 1])
    && !(if i > 0 then IsSep(words[i - 1]) else afterSep)
  }

  ghost predicate HasCut(words: seq<Word>, afterSep: bool) {
    exists i: nat :: CanCutAfter(words, i, afterSep)
  }

  lemma {:induction false} PassHead(words: seq<Word>)
    ensures (Pass(words, false) != [] && IsSep(Pass(words, false)[0])) <==> LeadsToSep(words)
    decreases |words|
  {
    if words != [] {
      SegmentIsNoSep(words[0]);
      hide IsSegment, IsSep;
      if Droppable(words, false) { PassHead(words[2..]); }
    }
  }

  /** The plain pass leaves something to cut exactly on a stutter. */
  lemma {:induction false} PassLeavesACut(words: seq<Word>, afterSep: bool)
    ensures HasCut(Pass(words, afterSep), afterSep) <==> Stutters(words, afterSep)
    decreases |words|
  {
    hide HasCut, IsSep;
    if words == [] {
      NothingToCut(afterSep);
    } else if Droppable(words, afterSep) {
      PassLeavesACut(words[2..], false);
    } else {
      var rest := Pass(words[1..], IsSep(words[0]));
      PassLeavesACut(words[1..], IsSep(words[0]));
      SegmentIsNoSep(words[0]);
      if IsSegment(words[0]) { PassHead(words[1..]); }
      CutOfCons(words[0], rest, afterSep);
    }
  }

  lemma NothingToCut(afterSep: bool)
    ensures !HasCut([], afterSep)
  {
  }

  lemma CutOfCons(w: Word, rest: seq<Word>, afterSep: bool)
    ensures HasCut([w] + rest, afterSep) <==>
      (IsSegment(w) && !afterSep && rest != [] && IsSep(rest[0])) || HasCut(rest, IsSep(w))
  {
    hide IsSegment, IsSep;
    var all := [w] + rest;
    if i: nat :| CanCutAfter(all, i, afterSep) {
      if i > 0 { assert CanCutAfter(rest, i - 1, IsSep(w)); }
    }
    if i: nat :| CanCutAfter(rest, i, IsSep(w)) {
      assert CanCutAfter(all, i + 1, afterSep);
    }
    if IsSegment(w) && !afterSep && rest != [] && IsSep(rest[0]) {
      assert CanCutAfter(all, 0, afterSep);
    }
  }

  /** The plain pass only makes cuts, so it has the same normal form. */
  lemma {:induction false} PassKeepsForm(kept: seq<Word>, words: seq<Word>)
    ensures Settle([], kept + Pass(words, kept != [] && IsSep(Last(kept)))) == Settle([], kept + words)
    decreases |words|
  {
    hide IsSegment, IsSep, Settle;
    var after := kept != [] && IsSep(Last(kept));
    if words == [] {
    } else if Droppable(words, after) {
      PassKeepsForm(kept, words[2..]);
      assert CanCut(kept + words, |kept|);
      CutKeepsForm(kept + words, |kept|);
      assert Cut(kept + words, |kept|) == kept + words[2..];
    } else {
      var more := kept + [words[0]];
      PassKeepsForm(more, words[1..]);
      assert more + words[1..] == kept + words;
      ConcatThree(kept, [words[0]], Pass(words[1..], IsSep(words[0])));
    }
  }

  /** The loop is the plain pass exactly when nothing stutters. */
  lemma LoopIsPassIff(words: seq<Word>)
    ensures Settle([], words) == Pass(words, false) <==> !Stutters(words, false)
  {
    hide IsSegment, IsSep, Settle, Pass, Stutters;
    var passed := Pass(words, false);
    PassKeepsForm([], words);
    assert [] + words == words && [] + passed == passed;
    PassLeavesACut(words, false);
    FormIsIrreducible([], words);
    assert forall i: nat :: CanCut(passed, i) <==> CanCutAfter(passed, i, false);
    if !Stutters(words, false) {
      IrreducibleStands([], passed);
    }
  }

  /** Where two separators follow each other the plain pass can stop short of the loop. */
  lemma StutterExample()
    ensures var words := ["a", "b", "::", "::", "X"];
      Pass(words, false) == ["a", "::", "X"] && Settle([], words) == ["X"]
  {
  }

  // ---- what is dropped, said outright -----------------------------------------------

  /** A word that may be dropped: a lower-case letter or an underscore, then letters, digits and
      underscores, and not the placeholder. */
  ghost predicate LowerIdentifier(w: Word) {
    && w != [] && (w[0] in LOWER || w[0] == '_') && w != "__Elided"
    && forall c <- w :: c in LOWER || c in UPPER || c in DIGITS || c == '_'
  }

  /** The plain pass drops a lower-case identifier with the separator behind it, unless a separator
      was kept just before, and keeps any other word. */
  lemma PassIs(words: seq<Word>, afterSep: bool)
    ensures Pass([], afterSep) == []
    ensures words != [] && !afterSep && LowerIdentifier(words[0]) && ["::"] <= words[1..] ==>
      Pass(words, afterSep) == Pass(words[2..], false)
    ensures words != [] && !(!afterSep && LowerIdentifier(words[0]) && ["::"] <= words[1..]) ==>
      Pass(words, afterSep) == [words[0]] + Pass(words[1..], words[0] == "::")
  {
    if words != [] {
      SegmentIff(words[0]);
      assert ["::"] <= words[1..] <==> |words| >= 2 && words[1] == "::";
      hide IsSegment, LowerIdentifier;
    }
  }

  lemma SegmentIff(w: Word)
    ensures IsSegment(w) <==> LowerIdentifier(w)
  {
    forall c: char ensures IsIdentChar(c) <==> c in LOWER || c in UPPER || c in DIGITS || c == '_' { LetterIff(c); }
    forall c: char ensures IsLower(c) <==> c in LOWER { LetterIff(c); }
    hide IsLower, IsIdentChar;
    assert (forall i :: 0 <= i < |w| ==> IsIdentChar(w[i])) <==> forall c <- w :: IsIdentChar(c);
  }

  /** A word that may be dropped opens a path at `i`: a separator follows it and none precedes it. */
  lemma CanCutIff(words: seq<Word>, i: nat)
    ensures CanCut(words, i) <==>
      i + 1 < |words| && LowerIdentifier(words[i]) && words[i + 1] == "::" && (i == 0 || words[i - 1] != "::")
  {
    if i < |words| { SegmentIff(words[i]); }
  }

  /** The words that are never dropped, in order. */
  ghost function Lasting(words: seq<Word>): seq<Word> {
    if words == [] then []
    else Lasting(Front(words)) + if LowerIdentifier(Last(words)) || Last(words) == "::" then [] else [Last(words)]
  }

  lemma {:induction false} LastingConcat(a: seq<Word>, b: seq<Word>)
    ensures Lasting(a + b) == Lasting(a) + Lasting(b)
    decreases |b|
  {
    hide LowerIdentifier;
    if b == [] {
      assert a + b == a;
    } else {
      assert Front(a + b) == a + Front(b);
      LastingConcat(a, Front(b));
    }
  }

  lemma {:induction false} SettleLasts(kept: seq<Word>, words: seq<Word>)
    ensures Lasting(Settle(kept, words)) == Lasting(kept) + Lasting(words)
    decreases |words|
  {
    hide LowerIdentifier;
    if words != [] {
      HeadThenRest(words);
      LastingConcat([words[0]], words[1..]);
      OneLasting(words[0]);
      if IsSep(words[0]) && Opens(kept) {
        SegmentIff(Last(kept));
        SettleLasts(Front(kept), words[1..]);
      } else {
        SettleLasts(kept + [words[0]], words[1..]);
        LastingConcat(kept, [words[0]]);
        ConcatThree(Lasting(kept), Lasting([words[0]]), Lasting(words[1..]));
      }
    }
  }

  lemma OneLasting(w: Word)
    ensures Lasting([w]) == if LowerIdentifier(w) || w == "::" then [] else [w]
  {
    assert Front([w]) == [];
  }

  /** Every other word is kept, in its place among them: what begins with an upper-case letter or a
      digit, punctuation, and the placeholder. */
  lemma OtherWordsLast(raw: seq<Word>)
    ensures Lasting(Settle([], raw)) == Lasting(raw)
    ensures forall w :: (w != [] && w[0] !in LOWER && w[0] != '_' && w != "::") || w == "__Elided" ==>
      multiset(Settle([], raw))[w] == multiset(raw)[w]
  {
    SettleLasts([], raw);
    assert [] + Lasting(raw) == Lasting(raw);
    hide Settle, Lasting;
    forall w | (w != [] && w[0] !in LOWER && w[0] != '_' && w != "::") || w == "__Elided"
      ensures multiset(Settle([], raw))[w] == multiset(raw)[w]
    {
      CountLasting(raw, w);
      CountLasting(Settle([], raw), w);
    }
  }

  lemma {:induction false} CountLasting(words: seq<Word>, w: Word)
    requires !LowerIdentifier(w) && w != "::"
    ensures multiset(words)[w] == multiset(Lasting(words))[w]
  {
    if words != [] {
      CountLasting(Front(words), w);
      BagFront(words);
    }
  }

  /** A path that begins with a word that is not dropped is kept whole: `Self :: token :: X`. */
  lemma PathIsKept(words: seq<Word>)
    requires words != [] && !LowerIdentifier(words[0])
    requires forall i :: 0 <= i < |words| && i % 2 == 1 ==> words[i] == "::"
    ensures Settle([], words) == words
  {
    hide LowerIdentifier, Settle, CanCut;
    forall i: nat | i < |words| ensures !CanCut(words, i) {
      if i % 2 == 1 { SeparatorIsNoIdentifier(words[i]); }
      NoCutInPath(words, i);
    }
    assert [] + words == words;
    IrreducibleStands([], words);
  }

  lemma SeparatorIsNoIdentifier(w: Word)
    requires w == "::"
    ensures !LowerIdentifier(w)
  {
    SegmentIsNoSep(w);
    SegmentIff(w);
  }

  lemma NoCutInPath(words: seq<Word>, i: nat)
    requires i < |words| && (!LowerIdentifier(words[i]) || (i > 0 && words[i - 1] == "::"))
    ensures !CanCut(words, i)
  {
    hide LowerIdentifier;
    CanCutIff(words, i);
  }
}
