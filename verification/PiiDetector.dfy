/** Overlap removal and masking of `PIIDetector` (adapter_pii_detector.py), on given matches. */
module PiiDetector {
  datatype Match = Match(start: int, end: int, confidence: real, masked: string)

  // ---------- Sorting ----------

  datatype Order = ByStartThenConfidence | ByStart | ByStartReversed

  /** `a` may stay before `b`. */
  predicate Leq(o: Order, a: Match, b: Match) {
    match o
    case ByStartThenConfidence => a.start < b.start || (a.start == b.start && a.confidence >= b.confidence)
    case ByStart => a.start <= b.start
    case ByStartReversed => a.start >= b.start
  }

  function InsertLast(o: Order, s: seq<Match>, m: Match): seq<Match> {
    if s == [] then [m]
    else if Leq(o, s[0], m) then [s[0]] + InsertLast(o, s[1..], m)
    else [m] + s
  }

  /** Python's `sort`: stable, in the given order. */
  function Sort(o: Order, ms: seq<Match>): seq<Match> {
    if ms == [] then [] else InsertLast(o, Sort(o, ms[..|ms| - 1]), ms[|ms| - 1])
  }

  ghost predicate Sorted(o: Order, s: seq<Match>) {
    forall i, k :: 0 <= i < k < |s| ==> Leq(o, s[i], s[k])
  }

  lemma {:induction false} InsertMembers(o: Order, s: seq<Match>, m: Match)
    ensures multiset(InsertLast(o, s, m)) == multiset(s) + multiset{m}
    ensures forall x :: x in InsertLast(o, s, m) <==> x in s || x == m
  {
    if s != [] {
      assert s == [s[0]] + s[1..];
      InsertMembers(o, s[1..], m);
    }
  }

  /** Nothing in `s` must come before `m`. */
  ghost predicate FirstOf(o: Order, m: Match, s: seq<Match>) {
    forall x :: x in s ==> Leq(o, m, x)
  }

  lemma ConsSorted(o: Order, m: Match, s: seq<Match>)
    requires Sorted(o, s) && FirstOf(o, m, s)
    ensures Sorted(o, [m] + s)
  {
    assert forall i :: 0 <= i < |s| ==> s[i] in s;
  }

  lemma TailSorted(o: Order, s: seq<Match>)
    requires Sorted(o, s) && s != []
    ensures Sorted(o, s[1..]) && FirstOf(o, s[0], s[1..])
  {
  }

  lemma LeqTransitive(o: Order, a: Match, b: Match, c: Match)
    requires Leq(o, a, b) && Leq(o, b, c)
    ensures Leq(o, a, c)
  {
  }

  lemma {:induction false} InsertSorted(o: Order, s: seq<Match>, m: Match)
    requires Sorted(o, s)
    ensures Sorted(o, InsertLast(o, s, m))
  {
    if s != [] {
      TailSorted(o, s);
      if Leq(o, s[0], m) {
        InsertSorted(o, s[1..], m);
        InsertMembers(o, s[1..], m);
        ConsSorted(o, s[0], InsertLast(o, s[1..], m));
      } else {
        forall x | x in s ensures Leq(o, m, x) {
          assert Leq(o, m, s[0]) && (x == s[0] || x in s[1..]);
          if x != s[0] {
            LeqTransitive(o, m, s[0], x);
          }
        }
        ConsSorted(o, m, s);
      }
    }
  }

  /** Stability: a match goes after everything it may stay behind, and first if there is nothing. */
  lemma {:induction false} InsertEnds(o: Order, s: seq<Match>, m: Match)
    ensures (forall x :: x in s ==> Leq(o, x, m)) ==> InsertLast(o, s, m) == s + [m]
    ensures (forall x :: x in s ==> !Leq(o, x, m)) ==> InsertLast(o, s, m) == [m] + s
  {
    if s != [] {
      assert s == [s[0]] + s[1..];
      InsertEnds(o, s[1..], m);
    }
  }

  lemma {:induction false} SortFacts(o: Order, ms: seq<Match>)
    ensures Sorted(o, Sort(o, ms)) && multiset(Sort(o, ms)) == multiset(ms)
  {
    if ms != [] {
      var n := |ms| - 1;
      assert ms == ms[..n] + [ms[n]];
      SortFacts(o, ms[..n]);
      InsertSorted(o, Sort(o, ms[..n]), ms[n]);
      InsertMembers(o, Sort(o, ms[..n]), ms[n]);
    }
  }

  predicate Tie(o: Order, m: Match, x: Match) {
    Leq(o, m, x) && Leq(o, x, m)
  }

  /** The matches that may stand on either side of `x`, in order. */
  function Ties(o: Order, s: seq<Match>, x: Match): seq<Match> {
    if s == [] then []
    else (if Tie(o, s[0], x) then [s[0]] else []) + Ties(o, s[1..], x)
  }

  lemma {:induction false} TiesAppend(o: Order, s: seq<Match>, m: Match, x: Match)
    ensures Ties(o, s + [m], x) == Ties(o, s, x) + if Tie(o, m, x) then [m] else []
  {
    if s != [] {
      assert (s + [m])[1..] == s[1..] + [m];
      TiesAppend(o, s[1..], m, x);
    }
  }

  lemma {:induction false} NoTies(o: Order, s: seq<Match>, x: Match)
    requires forall y :: y in s ==> !Leq(o, y, x)
    ensures Ties(o, s, x) == []
  {
    if s != [] {
      assert s[0] in s;
      NoTies(o, s[1..], x);
    }
  }

  lemma TiesCons(o: Order, m: Match, s: seq<Match>, x: Match)
    ensures Ties(o, [m] + s, x) == (if Tie(o, m, x) then [m] else []) + Ties(o, s, x)
  {
    assert ([m] + s)[1..] == s;
  }

  /** Past the first match that must stand after `m` there is no tie with `m`. */
  lemma NoTiesBehind(o: Order, s: seq<Match>, m: Match, x: Match)
    requires s != [] && FirstOf(o, s[0], s[1..]) && !Leq(o, s[0], m) && Tie(o, m, x)
    ensures Ties(o, s, x) == []
  {
    forall y | y in s ensures !Leq(o, y, x) {
      assert y == s[0] || y in s[1..];
      if Leq(o, y, x) {
        LeqTransitive(o, y, x, m);
        if y != s[0] {
          LeqTransitive(o, s[0], y, m);
        }
      }
    }
    NoTies(o, s, x);
  }

  lemma {:induction false} InsertTies(o: Order, s: seq<Match>, m: Match, x: Match)
    requires Sorted(o, s)
    ensures Ties(o, InsertLast(o, s, m), x) == Ties(o, s, x) + if Tie(o, m, x) then [m] else []
  {
    hide Ties, Sorted, FirstOf, Tie, Leq;
    if s == [] {
      TiesCons(o, m, [], x);
      NoTies(o, [], x);
      assert [m] + [] == [m];
    } else {
      TailSorted(o, s);
      if Leq(o, s[0], m) {
        InsertTies(o, s[1..], m, x);
        TiesCons(o, s[0], InsertLast(o, s[1..], m), x);
        TiesCons(o, s[0], s[1..], x);
        assert s == [s[0]] + s[1..];
      } else {
        TiesCons(o, m, s, x);
        if Tie(o, m, x) {
          NoTiesBehind(o, s, m, x);
        }
      }
    }
  }

  /** The sort is stable: what may stand either way keeps its order. */
  lemma {:induction false} SortStable(o: Order, ms: seq<Match>, x: Match)
    ensures Ties(o, Sort(o, ms), x) == Ties(o, ms, x)
  {
    if ms != [] {
      var n := |ms| - 1;
      assert ms == ms[..n] + [ms[n]];
      SortFacts(o, ms[..n]);
      SortStable(o, ms[..n], x);
      InsertTies(o, Sort(o, ms[..n]), ms[n], x);
      TiesAppend(o, ms[..n], ms[n], x);
    }
  }

  lemma {:induction false} SortFixesSorted(o: Order, ms: seq<Match>)
    requires Sorted(o, ms)
    ensures Sort(o, ms) == ms
  {
    if ms != [] {
      var n := |ms| - 1;
      SortFixesSorted(o, ms[..n]);
      assert forall x :: x in ms[..n] ==> Leq(o, x, ms[n]);
      InsertEnds(o, ms[..n], ms[n]);
    }
  }

  function Reverse(ms: seq<Match>): (r: seq<Match>)
    ensures |r| == |ms|
  {
    if ms == [] then [] else [ms[|ms| - 1]] + Reverse(ms[..|ms| - 1])
  }

  lemma {:induction false} ReverseAt(ms: seq<Match>, i: nat)
    requires i < |ms|
    ensures Reverse(ms)[i] == ms[|ms| - 1 - i]
  {
    if i > 0 {
      ReverseAt(ms[..|ms| - 1], i - 1);
    }
  }

  lemma {:induction false} ReverseMembers(ms: seq<Match>)
    ensures forall m :: m in Reverse(ms) ==> m in ms
  {
    if ms != [] {
      ReverseMembers(ms[..|ms| - 1]);
    }
  }

  lemma {:induction false} SortReverses(ms: seq<Match>)
    requires forall i, k :: 0 <= i < k < |ms| ==> ms[i].start < ms[k].start
    ensures Sort(ByStartReversed, ms) == Reverse(ms)
  {
    if ms != [] {
      var n := |ms| - 1;
      SortReverses(ms[..n]);
      ReverseMembers(ms[..n]);
      InsertEnds(ByStartReversed, Reverse(ms[..n]), ms[n]);
    }
  }

  // ---------- Overlap removal ----------

  predicate Overlaps(a: Match, b: Match) {
    a.start < b.end && a.end > b.start
  }

  predicate OverlapsAny(m: Match, kept: seq<Match>) {
    exists i :: 0 <= i < |kept| && Overlaps(m, kept[i])
  }

  /** The greedy pass over sorted matches. */
  function Greedy(s: seq<Match>): seq<Match> {
    if s == [] then []
    else
      var kept, m := Greedy(s[..|s| - 1]), s[|s| - 1];
      if OverlapsAny(m, kept) then kept else kept + [m]
  }

  function Deduplicated(matches: seq<Match>): seq<Match> {
    Greedy(Sort(ByStartThenConfidence, matches))
  }

  method DeduplicateMatches(matches: seq<Match>) returns (deduplicated: seq<Match>)
    ensures deduplicated == Deduplicated(matches)
  {
    if matches == [] {
      return matches;
    }
    var sorted := Sort(ByStartThenConfidence, matches);
    deduplicated := [];
    for i := 0 to |sorted|
      invariant deduplicated == Greedy(sorted[..i])
    {
      var overlap := false;
      for k := 0 to |deduplicated|
        invariant !overlap && forall j :: 0 <= j < k ==> !Overlaps(sorted[i], deduplicated[j])
      {
        if sorted[i].start < deduplicated[k].end && sorted[i].end > deduplicated[k].start {
          overlap := true;
          break;
        }
      }
      assert sorted[..i + 1][..i] == sorted[..i];
      if !overlap {
        deduplicated := deduplicated + [sorted[i]];
      }
    }
    assert sorted[..|sorted|] == sorted;
  }

  ghost predicate PairwiseDisjoint(ms: seq<Match>) {
    forall i, k :: 0 <= i < k < |ms| ==> !Overlaps(ms[k], ms[i])
  }

  lemma {:induction false} GreedySubset(s: seq<Match>)
    ensures multiset(Greedy(s)) <= multiset(s)
    ensures forall m :: m in Greedy(s) ==> m in s
  {
    if s != [] {
      assert s == s[..|s| - 1] + [s[|s| - 1]];
      GreedySubset(s[..|s| - 1]);
    }
  }

  lemma AppendOrdered(kept: seq<Match>, m: Match)
    requires Sorted(ByStartThenConfidence, kept) && PairwiseDisjoint(kept) && !OverlapsAny(m, kept)
    requires forall k :: k in kept ==> Leq(ByStartThenConfidence, k, m)
    ensures Sorted(ByStartThenConfidence, kept + [m]) && PairwiseDisjoint(kept + [m])
  {
    assert forall k :: 0 <= k < |kept| ==> kept[k] in kept;
  }

  lemma {:induction false} GreedyOrdered(s: seq<Match>)
    requires Sorted(ByStartThenConfidence, s)
    ensures Sorted(ByStartThenConfidence, Greedy(s)) && PairwiseDisjoint(Greedy(s))
  {
    if s != [] {
      var front, m := s[..|s| - 1], s[|s| - 1];
      GreedyOrdered(front);
      if !OverlapsAny(m, Greedy(front)) {
        GreedySubset(front);
        assert forall k :: k in front ==> Leq(ByStartThenConfidence, k, m);
        AppendOrdered(Greedy(front), m);
      }
    }
  }

  /** `k` is why `m` was dropped. */
  predicate Beats(k: Match, m: Match) {
    Overlaps(m, k) && Leq(ByStartThenConfidence, k, m)
  }

  lemma {:induction false} GreedyDropped(s: seq<Match>, m: Match)
    requires Sorted(ByStartThenConfidence, s) && m in s && m !in Greedy(s)
    ensures exists k :: k in Greedy(s) && Beats(k, m)
  {
    var front, last := s[..|s| - 1], s[|s| - 1];
    assert s == front + [last];
    var kept := Greedy(front);
    assert forall k :: k in kept ==> k in Greedy(s);
    if m in front {
      GreedyDropped(front, m);
      var k :| k in kept && Beats(k, m);
    } else {
      var i :| 0 <= i < |kept| && Overlaps(m, kept[i]);
      GreedySubset(front);
      assert kept[i] in front;
      assert Beats(kept[i], m);
    }
  }

  /** Overlap removal returns a start-ordered, pairwise disjoint sub-collection, and every dropped
      match overlaps a kept one that starts earlier, or starts with it and is at least as
      confident. */
  lemma DedupExactly(matches: seq<Match>)
    ensures var kept := Deduplicated(matches);
            && multiset(kept) <= multiset(matches)
            && (forall i, k :: 0 <= i < k < |kept| ==> kept[i].start <= kept[k].start && !Overlaps(kept[i], kept[k]))
            && (forall m :: m in matches && m !in kept ==>
                  exists k :: k in kept && Overlaps(m, k)
                    && (k.start < m.start || (k.start == m.start && k.confidence >= m.confidence)))
  {
    var s, kept := Sort(ByStartThenConfidence, matches), Deduplicated(matches);
    SortFacts(ByStartThenConfidence, matches);
    GreedySubset(s);
    GreedyOrdered(s);
    forall i, k | 0 <= i < k < |kept| ensures kept[i].start <= kept[k].start && !Overlaps(kept[i], kept[k]) {
      assert !Overlaps(kept[k], kept[i]) && Leq(ByStartThenConfidence, kept[i], kept[k]);
    }
    forall m | m in matches && m !in kept
      ensures exists k :: k in kept && Overlaps(m, k)
                && (k.start < m.start || (k.start == m.start && k.confidence >= m.confidence))
    {
      assert m in multiset(s);
      GreedyDropped(s, m);
      var k :| k in kept && Beats(k, m);
    }
  }

  // ---------- Overlaps, said of positions ----------

  /** The match covers the character at position `p`. */
  predicate Covers(m: Match, p: int) {
    m.start <= p < m.end
  }

  ghost predicate NonEmpty(ms: seq<Match>) {
    forall m :: m in ms ==> m.start < m.end
  }

  /** Two spans overlap exactly when they share a character. */
  lemma OverlapIsSharing(a: Match, b: Match)
    requires a.start < a.end && b.start < b.end
    ensures Overlaps(a, b) <==> exists p :: Covers(a, p) && Covers(b, p)
  {
    if Overlaps(a, b) {
      assert Covers(a, if a.start >= b.start then a.start else b.start);
    }
  }

  /** No character lies in two kept matches, and every dropped match shares a character with a kept one
      that starts earlier, or starts with it and is at least as confident. */
  lemma DedupByPositions(matches: seq<Match>)
    requires NonEmpty(matches)
    ensures var kept := Deduplicated(matches);
            && (forall m :: m in kept ==> m in matches)
            && (forall i, k, p :: 0 <= i < k < |kept| && Covers(kept[i], p) ==> !Covers(kept[k], p))
            && (forall m :: m in matches && m !in kept ==>
                  exists k, p :: k in kept && Covers(m, p) && Covers(k, p)
                    && (k.start < m.start || (k.start == m.start && k.confidence >= m.confidence)))
  {
    DedupExactly(matches);
    var kept := Deduplicated(matches);
    forall m | m in kept ensures m in matches {
      assert m in multiset(kept);
    }
    forall i, k, p | 0 <= i < k < |kept| && Covers(kept[i], p) ensures !Covers(kept[k], p) {
      OverlapIsSharing(kept[i], kept[k]);
    }
    forall m | m in matches && m !in kept
      ensures exists k, p :: k in kept && Covers(m, p) && Covers(k, p)
                && (k.start < m.start || (k.start == m.start && k.confidence >= m.confidence))
    {
      var k :| k in kept && Overlaps(m, k)
               && (k.start < m.start || (k.start == m.start && k.confidence >= m.confidence));
      OverlapIsSharing(m, k);
    }
  }

  /** A match that shares no character with any other is kept. */
  lemma UndisputedIsKept(matches: seq<Match>, m: Match)
    requires NonEmpty(matches) && m in matches
    requires forall x, p :: x in matches && x != m && Covers(m, p) ==> !Covers(x, p)
    ensures m in Deduplicated(matches)
  {
    DedupByPositions(matches);
  }

  // ---------- The documented preference ----------

  /** What the documentation promises: every dropped match overlaps a kept one at least as
      confident. */
  ghost predicate PrefersConfident(ms: seq<Match>) {
    forall m :: m in ms && m !in Deduplicated(ms) ==>
      exists k :: k in Deduplicated(ms) && Overlaps(m, k) && k.confidence >= m.confidence
  }

  /** Of any two overlapping matches with different starts, the earlier is at least as confident. */
  ghost predicate EarlierIsConfident(ms: seq<Match>) {
    forall a, b :: a in ms && b in ms && a.start < b.start && Overlaps(b, a) ==> a.confidence >= b.confidence
  }

  lemma SortPair(a: Match, b: Match)
    requires a.start < b.start
    ensures Sort(ByStartThenConfidence, [b, a]) == [a, b] && Sort(ByStartThenConfidence, [a, b]) == [a, b]
  {
    assert [b, a][..1] == [b] && [a, b][..1] == [a] && [a][..0] == [] && [b][..0] == [];
    assert Sort(ByStartThenConfidence, [a]) == [a] && Sort(ByStartThenConfidence, [b]) == [b];
    assert [a] + InsertLast(ByStartThenConfidence, [a][1..], b) == [a, b];
  }

  /** It is not kept in general: of two overlapping matches the earlier one wins, whatever the
      confidences. */
  lemma EarlierBeatsMoreConfident(a: Match, b: Match)
    requires a.start < b.start && Overlaps(b, a)
    ensures Deduplicated([b, a]) == [a] && Deduplicated([a, b]) == [a]
  {
    SortPair(a, b);
    assert [a, b][..1] == [a] && [a][..0] == [];
    assert Greedy([a]) == [a];
    assert Overlaps(b, [a][0]);
    assert Greedy([a, b]) == [a];
  }

  /** For two overlapping matches it is kept if and only if the earlier is at least as confident. */
  lemma PairPrefersExactly(a: Match, b: Match)
    requires a.start < b.start && Overlaps(b, a)
    ensures PrefersConfident([a, b]) <==> a.confidence >= b.confidence
  {
    EarlierBeatsMoreConfident(a, b);
    assert b in [a, b] && b !in [a] && a in [a];
  }

  /** The kept match a dropped one lost to. */
  lemma DroppedBy(ms: seq<Match>, m: Match) returns (k: Match)
    requires m in ms && m !in Deduplicated(ms)
    ensures k in ms && k in Deduplicated(ms) && k != m && Overlaps(m, k)
    ensures k.start < m.start || (k.start == m.start && k.confidence >= m.confidence)
  {
    DedupExactly(ms);
    k :| k in Deduplicated(ms) && Overlaps(m, k)
         && (k.start < m.start || (k.start == m.start && k.confidence >= m.confidence));
    assert k in multiset(Deduplicated(ms));
  }

  /** It is kept whenever every earlier match is at least as confident as those it overlaps. */
  lemma EarlierConfidentPrefers(ms: seq<Match>)
    requires EarlierIsConfident(ms)
    ensures PrefersConfident(ms)
  {
    hide Deduplicated;
    forall m | m in ms && m !in Deduplicated(ms)
      ensures exists k :: k in Deduplicated(ms) && Overlaps(m, k) && k.confidence >= m.confidence
    {
      var k := DroppedBy(ms, m);
      assert Overlaps(m, k);
    }
  }

  ghost predicate PartOf(part: seq<Match>, ms: seq<Match>) {
    forall m :: m in part ==> m in ms
  }

  /** And that condition is exact: the preference is kept on every collection drawn from the
      matches if and only if the earlier of any two that overlap is at least as confident. */
  lemma PrefersExactly(ms: seq<Match>)
    ensures (forall part :: PartOf(part, ms) ==> PrefersConfident(part)) <==> EarlierIsConfident(ms)
  {
    if forall part :: PartOf(part, ms) ==> PrefersConfident(part) {
      forall a, b | a in ms && b in ms && a.start < b.start && Overlaps(b, a) ensures a.confidence >= b.confidence {
        assert PartOf([a, b], ms);
        PairPrefersExactly(a, b);
      }
    }
    if EarlierIsConfident(ms) {
      forall part | PartOf(part, ms) ensures PrefersConfident(part) {
        EarlierConfidentPrefers(part);
      }
    }
  }

  ghost predicate OnlyPairsOverlap(ms: seq<Match>) {
    forall x, y, z :: x in ms && y in ms && z in ms && x != y && x != z && Overlaps(x, y) && Overlaps(x, z) ==> y == z
  }

  lemma KeptIsGiven(ms: seq<Match>, k: Match)
    requires k in Deduplicated(ms)
    ensures k in ms
  {
    DedupExactly(ms);
    assert k in multiset(Deduplicated(ms));
  }

  lemma AtMostOneOther(ms: seq<Match>, x: Match, y: Match, z: Match)
    requires OnlyPairsOverlap(ms) && x in ms && y in ms && z in ms
    requires x != y && x != z && Overlaps(x, y) && Overlaps(x, z)
    ensures y == z
  {
  }

  lemma KeptAreDisjoint(ms: seq<Match>, a: Match, b: Match)
    requires a in Deduplicated(ms) && b in Deduplicated(ms) && a != b
    ensures !Overlaps(a, b)
  {
    DedupExactly(ms);
    var kept := Deduplicated(ms);
    var i :| 0 <= i < |kept| && kept[i] == a;
    var k :| 0 <= k < |kept| && kept[k] == b;
    assert if i < k then !Overlaps(kept[i], kept[k]) else !Overlaps(kept[k], kept[i]);
  }

  /** Nothing that starts earlier overlaps `a`, so it is kept. */
  lemma FirstOfPairKept(ms: seq<Match>, a: Match, b: Match)
    requires OnlyPairsOverlap(ms) && a in ms && b in ms && a.start < b.start && Overlaps(b, a)
    ensures a in Deduplicated(ms)
  {
    hide Deduplicated, OnlyPairsOverlap;
    if a !in Deduplicated(ms) {
      var k := DroppedBy(ms, a);
      AtMostOneOther(ms, a, b, k);
    }
  }

  lemma OnePairPrefers(ms: seq<Match>, a: Match, b: Match)
    requires OnlyPairsOverlap(ms) && PrefersConfident(ms)
    requires a in ms && b in ms && a.start < b.start && Overlaps(b, a)
    ensures a.confidence >= b.confidence
  {
    hide Deduplicated, OnlyPairsOverlap;
    FirstOfPairKept(ms, a, b);
    if b in Deduplicated(ms) {
      KeptAreDisjoint(ms, b, a);
    } else {
      var k :| k in Deduplicated(ms) && Overlaps(b, k) && k.confidence >= b.confidence;
      KeptIsGiven(ms, k);
      AtMostOneOther(ms, b, a, k);
    }
  }

  /** Where matches overlap only in pairs, the condition is exact for the collection itself. */
  lemma PrefersExactlyInPairs(ms: seq<Match>)
    requires OnlyPairsOverlap(ms)
    ensures PrefersConfident(ms) <==> EarlierIsConfident(ms)
  {
    if EarlierIsConfident(ms) {
      EarlierConfidentPrefers(ms);
    }
    if PrefersConfident(ms) {
      forall a, b | a in ms && b in ms && a.start < b.start && Overlaps(b, a) ensures a.confidence >= b.confidence {
        OnePairPrefers(ms, a, b);
      }
    }
  }

  // ---------- Masking ----------

  /** The matches lie in order inside [from, length), each non-empty, none overlapping. */
  predicate Tiles(ms: seq<Match>, from: int, length: nat) {
    if ms == [] then 0 <= from <= length
    else 0 <= from <= ms[0].start < ms[0].end <= length && Tiles(ms[1..], ms[0].end, length)
  }

  /** The left-to-right reading: untouched gaps and masks. */
  function Assemble(content: string, ms: seq<Match>, from: int): string
    requires Tiles(ms, from, |content|)
  {
    if ms == [] then content[from..]
    else content[from..ms[0].start] + ms[0].masked + Assemble(content, ms[1..], ms[0].end)
  }

  lemma {:induction false} TilesFacts(ms: seq<Match>, from: int, length: nat)
    requires Tiles(ms, from, length)
    ensures 0 <= from <= length
    ensures forall i :: 0 <= i < |ms| ==> from <= ms[i].start < ms[i].end <= length
    ensures forall i, k :: 0 <= i < k < |ms| ==> ms[i].end <= ms[k].start
    ensures forall i :: 0 <= i < |ms| ==> Tiles(ms[i + 1..], ms[i].end, length)
  {
    if ms != [] {
      TilesFacts(ms[1..], ms[0].end, length);
      forall i | 0 <= i < |ms| ensures from <= ms[i].start < ms[i].end <= length && Tiles(ms[i + 1..], ms[i].end, length) {
        if i > 0 {
          assert ms[i] == ms[1..][i - 1] && ms[i + 1..] == ms[1..][i..];
        }
      }
      forall i, k | 0 <= i < k < |ms| ensures ms[i].end <= ms[k].start {
        assert ms[k] == ms[1..][k - 1];
        if i > 0 {
          assert ms[i] == ms[1..][i - 1];
        }
      }
    }
  }

  /** Where the gap before match `i` begins. */
  function GapStart(ms: seq<Match>, i: nat): int
    requires i <= |ms|
  {
    if i == 0 then 0 else ms[i - 1].end
  }

  lemma GapTiles(ms: seq<Match>, i: nat, length: nat)
    requires Tiles(ms, 0, length) && i <= |ms|
    ensures 0 <= GapStart(ms, i) <= length && Tiles(ms[i..], GapStart(ms, i), length)
  {
    TilesFacts(ms, 0, length);
    if i == 0 {
      assert ms[0..] == ms;
    }
  }

  /** The text while the matches from `i` on are masked. */
  ghost function MaskedFrom(content: string, ms: seq<Match>, i: nat): string
    requires Tiles(ms, 0, |content|) && i <= |ms|
  {
    GapTiles(ms, i, |content|);
    content[..GapStart(ms, i)] + Assemble(content, ms[i..], GapStart(ms, i))
  }

  predicate CanSplice(text: string, m: Match) { 0 <= m.start <= m.end <= |text| }

  function Splice(text: string, m: Match): string
    requires CanSplice(text, m)
  {
    text[..m.start] + m.masked + text[m.end..]
  }

  lemma SpliceText(content: string, e: int, m: Match, rest: string)
    requires 0 <= e <= m.start <= m.end <= |content|
    ensures var text := content[..m.end] + rest;
            CanSplice(text, m) && Splice(text, m) == content[..e] + (content[e..m.start] + m.masked + rest)
  {
  }

  lemma SpliceStep(content: string, ms: seq<Match>, i: nat)
    requires Tiles(ms, 0, |content|) && i < |ms|
    ensures var text, m := MaskedFrom(content, ms, i + 1), ms[i];
            CanSplice(text, m) && Splice(text, m) == MaskedFrom(content, ms, i)
  {
    TilesFacts(ms, 0, |content|);
    GapTiles(ms, i, |content|);
    GapTiles(ms, i + 1, |content|);
    assert ms[i..][1..] == ms[i + 1..];
    SpliceText(content, GapStart(ms, i), ms[i], Assemble(content, ms[i + 1..], ms[i].end));
  }

  lemma TextThenNothing(content: string, none: seq<Match>, e: int)
    requires none == [] && 0 <= e <= |content|
    ensures Tiles(none, e, |content|) && content[..e] + Assemble(content, none, e) == content
  {
  }

  lemma MaskedNone(content: string, ms: seq<Match>)
    requires Tiles(ms, 0, |content|)
    ensures MaskedFrom(content, ms, |ms|) == content
  {
    hide Tiles, Assemble, GapStart;
    GapTiles(ms, |ms|, |content|);
    assert ms[|ms|..] == [];
    TextThenNothing(content, ms[|ms|..], GapStart(ms, |ms|));
  }

  lemma MaskedAll(content: string, ms: seq<Match>)
    requires Tiles(ms, 0, |content|)
    ensures MaskedFrom(content, ms, 0) == Assemble(content, ms, 0)
  {
    hide Assemble;
    assert ms[0..] == ms && content[..0] == [];
  }

  lemma RightToLeft(ms: seq<Match>, length: nat)
    requires Tiles(ms, 0, length)
    ensures var s := Sort(ByStartReversed, ms);
            |s| == |ms| && forall i :: 0 <= i < |ms| ==> s[i] == ms[|ms| - 1 - i]
  {
    TilesFacts(ms, 0, length);
    SortReverses(ms);
    forall i | 0 <= i < |ms| ensures Reverse(ms)[i] == ms[|ms| - 1 - i] {
      ReverseAt(ms, i);
    }
  }

  /** The right-to-left splice of in-order matches equals the left-to-right reading. */
  method SanitizeContent(content: string, matches: seq<Match>) returns (sanitized: string)
    requires Tiles(matches, 0, |content|)
    ensures sanitized == Assemble(content, matches, 0)
  {
    hide Tiles, Assemble, MaskedFrom, Sort;
    var sortedMatches := Sort(ByStartReversed, matches);
    ghost var n := |matches|;
    RightToLeft(matches, |content|);
    MaskedNone(content, matches);
    MaskedAll(content, matches);
    sanitized := content;
    for i := 0 to |sortedMatches|
      invariant sanitized == MaskedFrom(content, matches, n - i)
    {
      var m := sortedMatches[i];
      SpliceStep(content, matches, n - i - 1);
      sanitized := Splice(sanitized, m);
    }
  }

  /** How far the text at position `p` moves: the growth of the masks before it. */
  function Shift(ms: seq<Match>, p: int): int {
    if ms == [] || p < ms[0].start then 0
    else |ms[0].masked| - (ms[0].end - ms[0].start) + Shift(ms[1..], p)
  }

  /** All text outside the kept spans is preserved verbatim, each character moved by the growth
      of the masks before it. */
  lemma {:induction false} OutsideVerbatim(content: string, ms: seq<Match>, from: int, p: int)
    requires Tiles(ms, from, |content|) && from <= p < |content|
    requires forall i :: 0 <= i < |ms| ==> !(ms[i].start <= p < ms[i].end)
    ensures 0 <= p - from + Shift(ms, p) < |Assemble(content, ms, from)|
    ensures Assemble(content, ms, from)[p - from + Shift(ms, p)] == content[p]
  {
    if ms != [] && p >= ms[0].start {
      assert p >= ms[0].end;
      assert forall i :: 0 <= i < |ms[1..]| ==> ms[1..][i] == ms[i + 1];
      OutsideVerbatim(content, ms[1..], ms[0].end, p);
    }
  }

  lemma MaskAfterGap(gap: string, mask: string, rest: string)
    ensures (gap + mask + rest)[|gap|..|gap| + |mask|] == mask
  {
  }

  lemma AfterPrefix(front: string, rest: string, lo: int, hi: int)
    requires 0 <= lo <= hi <= |rest|
    ensures (front + rest)[|front| + lo..|front| + hi] == rest[lo..hi]
  {
  }

  /** What the masks of these matches add. */
  function Growth(ms: seq<Match>): int {
    if ms == [] then 0 else |ms[0].masked| - (ms[0].end - ms[0].start) + Growth(ms[1..])
  }

  /** In place of every kept span stands its own mask. */
  lemma {:induction false} MaskInPlace(content: string, ms: seq<Match>, from: int, i: nat)
    requires Tiles(ms, from, |content|) && i < |ms|
    ensures var at, text := ms[i].start - from + Growth(ms[..i]), Assemble(content, ms, from);
            0 <= at && at + |ms[i].masked| <= |text| && text[at..at + |ms[i].masked|] == ms[i].masked
  {
    var gap, mask, rest := content[from..ms[0].start], ms[0].masked, Assemble(content, ms[1..], ms[0].end);
    if i == 0 {
      MaskAfterGap(gap, mask, rest);
    } else {
      MaskInPlace(content, ms[1..], ms[0].end, i - 1);
      assert ms[..i][1..] == ms[1..][..i - 1];
      var at := ms[i].start - ms[0].end + Growth(ms[1..][..i - 1]);
      AfterPrefix(gap + mask, rest, at, at + |ms[i].masked|);
    }
  }

  /** Nothing is added but the masks: the length changes by their growth alone. */
  lemma {:induction false} LengthExactly(content: string, ms: seq<Match>, from: int)
    requires Tiles(ms, from, |content|)
    ensures |Assemble(content, ms, from)| == |content| - from + Shift(ms, |content|)
  {
    if ms != [] {
      LengthExactly(content, ms[1..], ms[0].end);
    }
  }

  // ---------- The pipeline ----------

  ghost predicate Found(content: string, matches: seq<Match>) {
    forall m :: m in matches ==> 0 <= m.start < m.end <= |content|
  }

  lemma {:induction false} DisjointTiles(ms: seq<Match>, from: int, length: nat)
    requires 0 <= from <= length
    requires forall i :: 0 <= i < |ms| ==> from <= ms[i].start < ms[i].end <= length
    requires forall i, k :: 0 <= i < k < |ms| ==> ms[i].end <= ms[k].start
    ensures Tiles(ms, from, length)
  {
    if ms != [] {
      forall i | 0 <= i < |ms[1..]| ensures ms[0].end <= ms[1..][i].start < ms[1..][i].end <= length {
        assert ms[1..][i] == ms[i + 1];
      }
      DisjointTiles(ms[1..], ms[0].end, length);
    }
  }

  lemma DedupTiles(content: string, matches: seq<Match>)
    requires Found(content, matches)
    ensures Tiles(Deduplicated(matches), 0, |content|)
    ensures Sorted(ByStart, Deduplicated(matches))
  {
    var kept := Deduplicated(matches);
    DedupExactly(matches);
    forall i | 0 <= i < |kept| ensures 0 <= kept[i].start < kept[i].end <= |content| {
      assert kept[i] in multiset(kept);
      assert kept[i] in matches;
    }
    forall i, k | 0 <= i < k < |kept| ensures kept[i].end <= kept[k].start {
      assert !Overlaps(kept[i], kept[k]);
    }
    DisjointTiles(kept, 0, |content|);
  }

  /** `detect_pii` after the scan: overlap removal, a second sort, masking. */
  method DetectPii(content: string, matches: seq<Match>) returns (kept: seq<Match>, sanitized: string)
    requires Found(content, matches)
    ensures kept == Deduplicated(matches)
    ensures Tiles(kept, 0, |content|) && sanitized == Assemble(content, kept, 0)
  {
    kept := DeduplicateMatches(matches);
    DedupTiles(content, matches);
    SortFixesSorted(ByStart, kept);
    kept := Sort(ByStart, kept);
    sanitized := content;
    if kept != [] {
      sanitized := SanitizeContent(content, kept);
    }
  }

  /** So every match that shares no character with another is replaced by its mask in the result. */
  lemma UndisputedIsMasked(content: string, matches: seq<Match>, m: Match) returns (i: nat)
    requires Found(content, matches) && m in matches
    requires forall x, p :: x in matches && x != m && Covers(m, p) ==> !Covers(x, p)
    ensures var kept := Deduplicated(matches);
            && i < |kept| && kept[i] == m && Tiles(kept, 0, |content|)
            && var at, text := m.start + Growth(kept[..i]), Assemble(content, kept, 0);
            0 <= at && at + |m.masked| <= |text| && text[at..at + |m.masked|] == m.masked
  {
    hide Deduplicated, Assemble, Tiles, Growth;
    UndisputedIsKept(matches, m);
    DedupTiles(content, matches);
    i :| 0 <= i < |Deduplicated(matches)| && Deduplicated(matches)[i] == m;
    MaskInPlace(content, Deduplicated(matches), 0, i);
  }
}
