/**
 * What the alignment search finds, said of the two fingerprints alone: agreement position by position,
 * runs of similar positions, and the best of their windows. Nothing here names a step of the search.
 */
module SkipMatchReference {
  import opened Wrappers
  import opened SkipMatch
  import opened SkipMatchLaws

  // Position `i` of the left episode lies beside a position of the right one.
  predicate Beside(left: seq<Item>, right: seq<Item>, offset: int, i: int) {
    0 <= i < |left| && 0 <= i + offset < |right|
  }

  // The share of the 32 bits that are equal at a position, and nothing where only one episode is.
  function Share(left: seq<Item>, right: seq<Item>, offset: int, i: int): real {
    if !Beside(left, right, offset, i) then 0.0
    else (|set k | 0 <= k < 32 && Bits(left[i])[k] == Bits(right[i + offset])[k]| as real) / 32.0
  }

  function One(left: seq<Item>, right: seq<Item>, offset: int, i: int): real {
    if Beside(left, right, offset, i) then 1.0 else 0.0
  }

  // The mean share of a position and of those at distance at most two that exist.
  function Local(left: seq<Item>, right: seq<Item>, offset: int, i: int): real {
    if !Beside(left, right, offset, i) then 0.0
    else
      (Share(left, right, offset, i - 2) + Share(left, right, offset, i - 1) + Share(left, right, offset, i)
       + Share(left, right, offset, i + 1) + Share(left, right, offset, i + 2)) /
      (One(left, right, offset, i - 2) + One(left, right, offset, i - 1) + One(left, right, offset, i)
       + One(left, right, offset, i + 1) + One(left, right, offset, i + 2))
  }

  predicate Similar(left: seq<Item>, right: seq<Item>, offset: int, i: int) {
    Beside(left, right, offset, i) && Local(left, right, offset, i) >= 0.70
  }

  function LocalSum(left: seq<Item>, right: seq<Item>, offset: int, a: int, b: int): real
    requires a <= b
    decreases b - a
  {
    if a == b then 0.0 else LocalSum(left, right, offset, a, b - 1) + Local(left, right, offset, b - 1)
  }

  function Stretch(left: seq<Item>, right: seq<Item>, offset: int, start: int): real {
    LocalSum(left, right, offset, start, start + 1211)
  }

  // The positions from a up to b are similar, and the ones next to them are not.
  ghost predicate Run(left: seq<Item>, right: seq<Item>, offset: int, a: int, b: int) {
    && a < b && (forall i :: a <= i < b ==> Similar(left, right, offset, i))
    && !Similar(left, right, offset, a - 1) && !Similar(left, right, offset, b)
  }

  // A run of at most 1211 positions, or the first of the best stretches of 1211 positions of a longer one.
  ghost predicate Cut(left: seq<Item>, right: seq<Item>, offset: int, a: int, b: int, start: int, end: int) {
    && Run(left, right, offset, a, b)
    && if b - a <= 1211 then start == a && end == b
       else
         && a <= start && end == start + 1211 <= b
         && (forall t :: a <= t < start ==> Stretch(left, right, offset, t) < Stretch(left, right, offset, start))
         && (forall t :: a <= t <= b - 1211 ==> Stretch(left, right, offset, t) <= Stretch(left, right, offset, start))
  }

  /** A match the search may report: a cut run of at least 81 positions, its mean and its length in seconds. */
  ghost predicate Candidate(left: seq<Item>, right: seq<Item>, m: MatchRange) {
    && 81 <= m.endA - m.startA
    && m.startB == m.startA + m.offset && m.endB == m.endA + m.offset
    && m.score * ((m.endA - m.startA) as real) == LocalSum(left, right, m.offset, m.startA, m.endA)
    && m.durationSec == ((m.endA - m.startA) as real) * (4096.0 / 33075.0)
    && exists a, b :: Cut(left, right, m.offset, a, b, m.startA, m.endA)
  }

  // The offset, in items of 4096/33075 seconds, is at most the least number of items that covers the skew.
  predicate InSkew(offset: int, maxSkewSec: real) {
    var items := if offset < 0 then -offset else offset;
    items == 0 || ((items - 1) as real) * (4096.0 / 33075.0) < maxSkewSec
  }

  // ----- Agreement, position by position -----

  function At(s: seq<real>, i: int): real {
    if 0 <= i < |s| then s[i] else 0.0
  }

  function In(s: seq<real>, i: int): real {
    if 0 <= i < |s| then 1.0 else 0.0
  }

  // The sum of a window clipped to the sequence, as a sum over all its positions.
  lemma {:induction false} SumOfFew(s: seq<real>, lo: int, hi: int, from: int, n: nat)
    requires lo == (if from < 0 then 0 else from) && hi == if from + n < |s| then from + n else |s|
    requires lo <= hi
    ensures SumRange(s, lo, hi) == SumAt(s, from, n) && (hi - lo) as real == CountIn(s, from, n)
    decreases n
  {
    if n > 0 {
      if from + n <= 0 {
        SumOfNone(s, from, n);
      } else if from + n <= |s| {
        SumOfFew(s, lo, hi - 1, from, n - 1);
      } else {
        SumOfFew(s, lo, hi, from, n - 1);
      }
    }
  }

  function SumAt(s: seq<real>, from: int, n: nat): real {
    if n == 0 then 0.0 else SumAt(s, from, n - 1) + At(s, from + n - 1)
  }

  function CountIn(s: seq<real>, from: int, n: nat): real {
    if n == 0 then 0.0 else CountIn(s, from, n - 1) + In(s, from + n - 1)
  }

  lemma {:induction false} SumOfNone(s: seq<real>, from: int, n: nat)
    requires from + n <= 0
    ensures SumAt(s, from, n) == 0.0 && CountIn(s, from, n) == 0.0
  {
    if n > 0 {
      SumOfNone(s, from, n - 1);
    }
  }

  // The centred window of the smoothing, term by term.
  lemma SmoothedTerms(s: seq<real>, k: int)
    requires 0 <= k < |s|
    ensures In(s, k) == 1.0
    ensures Smoothed(s, LOCAL_WINDOW_ITEMS)[k] ==
            (At(s, k - 2) + At(s, k - 1) + At(s, k) + At(s, k + 1) + At(s, k + 2)) /
            (In(s, k - 2) + In(s, k - 1) + In(s, k) + In(s, k + 1) + In(s, k + 2))
  {
    var lo, hi := WindowStart(k, 2), WindowEnd(k, 2, |s|);
    SumOfFew(s, lo, hi, k - 2, 5);
    assert SumAt(s, k - 2, 5) == At(s, k - 2) + At(s, k - 1) + At(s, k) + At(s, k + 1) + At(s, k + 2) by {
      FiveTerms(s, k - 2);
    }
    assert CountIn(s, k - 2, 5) == In(s, k - 2) + In(s, k - 1) + In(s, k) + In(s, k + 1) + In(s, k + 2) by {
      FiveTerms(s, k - 2);
    }
  }

  lemma FiveTerms(s: seq<real>, from: int)
    ensures SumAt(s, from, 5) == At(s, from) + At(s, from + 1) + At(s, from + 2) + At(s, from + 3) + At(s, from + 4)
    ensures CountIn(s, from, 5) == In(s, from) + In(s, from + 1) + In(s, from + 2) + In(s, from + 3) + In(s, from + 4)
  {
    assert SumAt(s, from, 1) == At(s, from) && CountIn(s, from, 1) == In(s, from);
    assert SumAt(s, from, 3) == At(s, from) + At(s, from + 1) + At(s, from + 2);
    assert CountIn(s, from, 3) == In(s, from) + In(s, from + 1) + In(s, from + 2);
  }

  lemma BesideIsAligned(left: seq<Item>, right: seq<Item>, offset: int, i: int)
    ensures Beside(left, right, offset, i) <==> AlignStart(offset) <= i < AlignEnd(left, right, offset)
  {
  }

  lemma ScoreIsShare(left: seq<Item>, right: seq<Item>, offset: int, i: int)
    requires Overlaps(left, right, offset, 0)
    ensures var s, k := Scores(left, right, offset), i - AlignStart(offset);
            At(s, k) == Share(left, right, offset, i) && In(s, k) == One(left, right, offset, i)
  {
    hide BitAgreement, Bits;
    BesideIsAligned(left, right, offset, i);
    if Beside(left, right, offset, i) {
      BitAgreementIsFraction(left[i], right[i + offset]);
    }
  }

  /** The smoothed agreement of an alignment covers exactly the positions beside one, each with its local mean. */
  lemma AgreementIsLocal(left: seq<Item>, right: seq<Item>, offset: int, i: int)
    requires Overlaps(left, right, offset, 0)
    ensures var s, k := Agreement(left, right, offset), i - AlignStart(offset);
            && (Beside(left, right, offset, i) <==> 0 <= k < |s|)
            && (Beside(left, right, offset, i) ==> s[k] == Local(left, right, offset, i))
  {
    hide Smoothed, Share, One, At, In, Scores;
    BesideIsAligned(left, right, offset, i);
    AgreementLength(left, right, offset);
    var s, k := Scores(left, right, offset), i - AlignStart(offset);
    if Beside(left, right, offset, i) {
      SmoothedTerms(s, k);
      ScoreIsShare(left, right, offset, i - 2);
      ScoreIsShare(left, right, offset, i - 1);
      ScoreIsShare(left, right, offset, i);
      ScoreIsShare(left, right, offset, i + 1);
      ScoreIsShare(left, right, offset, i + 2);
    }
  }

  lemma AboveIsSimilar(left: seq<Item>, right: seq<Item>, offset: int, i: int)
    requires Overlaps(left, right, offset, 0)
    ensures Above(Agreement(left, right, offset), i - AlignStart(offset)) <==> Similar(left, right, offset, i)
  {
    hide Agreement, Local;
    AgreementIsLocal(left, right, offset, i);
  }

  lemma {:induction false} SumIsLocalSum(left: seq<Item>, right: seq<Item>, offset: int, lo: int, hi: int)
    requires Overlaps(left, right, offset, 0) && 0 <= lo <= hi <= |Agreement(left, right, offset)|
    ensures SumRange(Agreement(left, right, offset), lo, hi) ==
            LocalSum(left, right, offset, AlignStart(offset) + lo, AlignStart(offset) + hi)
    decreases hi
  {
    hide Agreement, Local, AlignStart;
    if lo < hi {
      SumIsLocalSum(left, right, offset, lo, hi - 1);
      AgreementIsLocal(left, right, offset, AlignStart(offset) + hi - 1);
    }
  }

  // ----- Candidates -----

  lemma RunsAgree(left: seq<Item>, right: seq<Item>, offset: int, lo: int, hi: int)
    requires Overlaps(left, right, offset, 0) && 0 <= lo < hi <= |Agreement(left, right, offset)|
    ensures MaximalRun(Agreement(left, right, offset), lo, hi) <==>
            Run(left, right, offset, AlignStart(offset) + lo, AlignStart(offset) + hi)
  {
    hide Agreement, Similar, AlignStart;
    var s, a := Agreement(left, right, offset), AlignStart(offset);
    forall i
      ensures Above(s, i - a) <==> Similar(left, right, offset, i)
    {
      AboveIsSimilar(left, right, offset, i);
    }
    assert forall k :: Above(s, k) <==> Similar(left, right, offset, a + k) by {
      forall k
        ensures Above(s, k) <==> Similar(left, right, offset, a + k)
      {
        assert a + k - a == k;
      }
    }
  }

  // A run lies where the alignment is.
  lemma RunIsAligned(left: seq<Item>, right: seq<Item>, offset: int, a: int, b: int)
    requires Run(left, right, offset, a, b)
    ensures Overlaps(left, right, offset, b - a)
    ensures 0 <= a - AlignStart(offset) && b - AlignStart(offset) <= |Agreement(left, right, offset)|
  {
    hide Agreement, Local;
    assert Similar(left, right, offset, a) && Similar(left, right, offset, b - 1);
    BesideIsAligned(left, right, offset, a);
    BesideIsAligned(left, right, offset, b - 1);
    AgreementLength(left, right, offset);
  }

  lemma StretchesAgree(left: seq<Item>, right: seq<Item>, offset: int, t: int)
    requires Overlaps(left, right, offset, 0) && 0 <= t && t + 1211 <= |Agreement(left, right, offset)|
    ensures WindowSum(Agreement(left, right, offset), t, 1211) == Stretch(left, right, offset, AlignStart(offset) + t)
  {
    hide Agreement, AlignStart;
    SumIsLocalSum(left, right, offset, t, t + 1211);
  }

  lemma CutsAgree(left: seq<Item>, right: seq<Item>, offset: int, lo: int, hi: int, start: int, end: int)
    requires Overlaps(left, right, offset, 0) && 0 <= lo < hi <= |Agreement(left, right, offset)|
    ensures var a := AlignStart(offset);
            ProposedWindow(Agreement(left, right, offset), lo, hi, 1211, start, end) <==>
            Cut(left, right, offset, a + lo, a + hi, a + start, a + end)
  {
    hide Agreement, MaximalRun, Run, WindowSum, Stretch, AlignStart;
    var s, a := Agreement(left, right, offset), AlignStart(offset);
    RunsAgree(left, right, offset, lo, hi);
    forall t | lo <= t <= hi - 1211
      ensures WindowSum(s, t, 1211) == Stretch(left, right, offset, a + t)
    {
      StretchesAgree(left, right, offset, t);
    }
    if hi - lo > 1211 && MaximalRun(s, lo, hi) && lo <= start <= hi - 1211 && end == start + 1211 {
      BestAgree(left, right, offset, lo, hi, start);
    }
  }

  lemma BestAgree(left: seq<Item>, right: seq<Item>, offset: int, lo: int, hi: int, start: int)
    requires Overlaps(left, right, offset, 0) && 0 <= lo <= start <= hi - 1211 && hi <= |Agreement(left, right, offset)|
    requires forall t :: lo <= t <= hi - 1211 ==>
               WindowSum(Agreement(left, right, offset), t, 1211) ==
               Stretch(left, right, offset, AlignStart(offset) + t)
    ensures var a := AlignStart(offset);
            LeftmostBestWindow(Agreement(left, right, offset), lo, hi, 1211, start) <==>
            && (forall t :: a + lo <= t < a + start ==>
                  Stretch(left, right, offset, t) < Stretch(left, right, offset, a + start))
            && forall t :: a + lo <= t <= a + hi - 1211 ==>
                 Stretch(left, right, offset, t) <= Stretch(left, right, offset, a + start)
  {
    hide Agreement, WindowSum, Stretch, AlignStart;
    var s, a := Agreement(left, right, offset), AlignStart(offset);
    forall t | a + lo <= t <= a + hi - 1211
      ensures Stretch(left, right, offset, t) == WindowSum(s, t - a, 1211)
    {
      assert a + (t - a) == t;
    }
  }

  // The score of a window is the mean of its local means.
  lemma ScoreIsMean(left: seq<Item>, right: seq<Item>, offset: int, start: int, end: int, score: real)
    requires Overlaps(left, right, offset, 0) && 0 <= start < end <= |Agreement(left, right, offset)|
    ensures var w := Agreement(left, right, offset)[start..end];
            score == Mean(w, 0, |w|) <==>
            score * ((end - start) as real) ==
            LocalSum(left, right, offset, AlignStart(offset) + start, AlignStart(offset) + end)
  {
    hide Agreement, AlignStart, SumRange, Mean, LocalSum;
    var s := Agreement(left, right, offset);
    var w := s[start..end];
    SumRangeAgrees(w, s, 0, |w|, start);
    SumIsLocalSum(left, right, offset, start, end);
    MeanIs(w, score);
  }

  lemma MeanIs(w: seq<real>, mean: real)
    requires w != []
    ensures mean == Mean(w, 0, |w|) <==> mean * (|w| as real) == SumRange(w, 0, |w|)
  {
    hide SumRange;
    QuotientIs(SumRange(w, 0, |w|), |w| as real, mean);
  }

  lemma QuotientIs(x: real, n: real, q: real)
    requires n > 0.0
    ensures q == x / n <==> q * n == x
  {
  }

  // What is left of a candidate once its window is fixed.
  lemma FieldsAgree(left: seq<Item>, right: seq<Item>, start: int, end: int, m: MatchRange)
    requires Overlaps(left, right, m.offset, 0) && 0 <= start < end <= |Agreement(left, right, m.offset)|
    ensures var a := AlignStart(m.offset);
            m == MatchFromRun(m.offset, a + start, a + end, Agreement(left, right, m.offset)[start..end]) <==>
            && m.startA == a + start && m.endA == a + end
            && m.startB == m.startA + m.offset && m.endB == m.endA + m.offset
            && m.score * ((end - start) as real) == LocalSum(left, right, m.offset, a + start, a + end)
            && m.durationSec == ((end - start) as real) * (4096.0 / 33075.0)
  {
    hide Agreement, AlignStart, Mean, LocalSum;
    ScoreIsMean(left, right, m.offset, start, end, m.score);
  }

  lemma CandidateIsCut(left: seq<Item>, right: seq<Item>, m: MatchRange)
    requires RunCandidate(left, right, 81, 1211, m)
    ensures Candidate(left, right, m)
  {
    hide Agreement, AlignStart, Mean, LocalSum, MatchFromRun, ProposedWindow, Cut;
    AgreementLength(left, right, m.offset);
    var s := Agreement(left, right, m.offset);
    var lo, hi, start, end :| CandidateOf(s, m.offset, 81, 1211, lo, hi, start, end, m);
    assert 0 <= lo < hi <= |s| && 0 <= start < end <= |s| by {
      WindowBounds(s, m.offset, 81, 1211, lo, hi, start, end, m);
      RunInside(s, lo, hi, 1211, start, end);
    }
    FieldsAgree(left, right, start, end, m);
    CutsAgree(left, right, m.offset, lo, hi, start, end);
  }

  lemma RunInside(s: seq<real>, lo: int, hi: int, maxItems: int, start: int, end: int)
    requires 0 <= maxItems && ProposedWindow(s, lo, hi, maxItems, start, end)
    ensures 0 <= lo < hi <= |s|
  {
  }

  lemma CutInside(left: seq<Item>, right: seq<Item>, offset: int, a: int, b: int, start: int, end: int)
    requires Cut(left, right, offset, a, b, start, end)
    ensures Run(left, right, offset, a, b) && a <= start < end <= b
  {
    hide Run, Stretch;
    assert a < b by {
      RunIsNotEmpty(left, right, offset, a, b);
    }
  }

  lemma RunIsNotEmpty(left: seq<Item>, right: seq<Item>, offset: int, a: int, b: int)
    ensures Run(left, right, offset, a, b) ==> a < b
  {
  }

  lemma CutIsCandidate(left: seq<Item>, right: seq<Item>, m: MatchRange)
    requires Candidate(left, right, m)
    ensures RunCandidate(left, right, 81, 1211, m)
  {
    hide Agreement, AlignStart, Mean, LocalSum, MatchFromRun, ProposedWindow, Cut, Run;
    var a, b :| Cut(left, right, m.offset, a, b, m.startA, m.endA);
    CutInside(left, right, m.offset, a, b, m.startA, m.endA);
    RunIsAligned(left, right, m.offset, a, b);
    var x := AlignStart(m.offset);
    assert x + (m.startA - x) == m.startA && x + (m.endA - x) == m.endA && x + (a - x) == a && x + (b - x) == b;
    FieldsAgree(left, right, m.startA - x, m.endA - x, m);
    CutsAgree(left, right, m.offset, a - x, b - x, m.startA - x, m.endA - x);
    assert CandidateOf(Agreement(left, right, m.offset), m.offset, 81, 1211,
                       a - x, b - x, m.startA - x, m.endA - x, m);
  }

  /** The runs the search considers are exactly the candidates. */
  lemma CandidatesAgree(left: seq<Item>, right: seq<Item>, m: MatchRange)
    ensures IsCandidate(left, right, m) <==> Candidate(left, right, m)
  {
    hide RunCandidate, Candidate;
    if IsCandidate(left, right, m) {
      CandidateLimits(left, right, m);
      CandidateIsCut(left, right, m);
    }
    if Candidate(left, right, m) {
      CutIsCandidate(left, right, m);
    }
  }

  // ----- The search -----

  lemma SkewAgrees(offset: int, maxSkewSec: real)
    ensures var skew := MaxSkewItems(maxSkewSec);
            -skew <= offset <= skew <==> InSkew(offset, maxSkewSec)
  {
    var skew := MaxSkewItems(maxSkewSec);
    var items := if offset < 0 then -offset else offset;
    if 0 < items <= skew {
      assert ((items - 1) as real) * ITEM_SEC <= ((skew - 1) as real) * ITEM_SEC;
    }
    if items > skew {
      assert (skew as real) * ITEM_SEC <= ((items - 1) as real) * ITEM_SEC;
    }
  }

  // `r` goes before `m`: a higher score, at equal scores a longer run, then the smaller offset, then the earlier start.
  predicate Beats(r: MatchRange, m: MatchRange) {
    || m.score < r.score
    || (m.score == r.score && m.durationSec < r.durationSec)
    || (m.score == r.score && m.durationSec == r.durationSec && r.offset < m.offset)
    || (m.score == r.score && m.durationSec == r.durationSec && r.offset == m.offset && r.startA < m.startA)
  }

  /**
   * LongestMatch finds the candidate with the highest score among all offsets within the skew; at equal
   * scores the longest, then the one of the smallest offset, then the earliest. It misses exactly when
   * there is no candidate.
   */
  lemma LongestMatchIsBest(left: seq<Item>, right: seq<Item>, maxSkewSec: real)
    ensures var r := BestOverOffsets(left, right, maxSkewSec);
            && (r.Some? ==> Candidate(left, right, r.value) && InSkew(r.value.offset, maxSkewSec))
            && forall m :: Candidate(left, right, m) && InSkew(m.offset, maxSkewSec) ==>
                 r.Some? && (m == r.value || Beats(r.value, m))
  {
    hide BestOverOffsets, IsCandidate, Candidate, InSkew, MaxSkewItems;
    var r := BestOverOffsets(left, right, maxSkewSec);
    LongestMatchIsMostPreferred(left, right, maxSkewSec);
    if r.Some? {
      CandidatesAgree(left, right, r.value);
      SkewAgrees(r.value.offset, maxSkewSec);
    }
    forall m | Candidate(left, right, m) && InSkew(m.offset, maxSkewSec)
      ensures r.Some? && (m == r.value || Beats(r.value, m))
    {
      CandidatesAgree(left, right, m);
      SkewAgrees(m.offset, maxSkewSec);
    }
  }

  // 81 positions in a row are similar, from `i` on.
  predicate LongSimilarity(left: seq<Item>, right: seq<Item>, offset: int, i: int) {
    forall k :: i <= k < i + 81 ==> Similar(left, right, offset, k)
  }

  lemma LongRunsAgree(left: seq<Item>, right: seq<Item>, offset: int, i: int)
    ensures LongSimilarity(left, right, offset, i) <==> LongRunAt(left, right, offset, i - AlignStart(offset))
  {
    hide Agreement, Local, AlignStart;
    if LongSimilarity(left, right, offset, i) {
      assert Similar(left, right, offset, i);
      BesideIsAligned(left, right, offset, i);
    }
    if Overlaps(left, right, offset, 0) {
      forall k
        ensures Above(Agreement(left, right, offset), k - AlignStart(offset)) <==> Similar(left, right, offset, k)
      {
        AboveIsSimilar(left, right, offset, k);
      }
      forall k | LongSimilarity(left, right, offset, i) && i <= k + AlignStart(offset) < i + 81
        ensures Above(Agreement(left, right, offset), k)
      {
        assert k + AlignStart(offset) - AlignStart(offset) == k;
        assert Similar(left, right, offset, k + AlignStart(offset));
      }
    }
  }

  /** There is no match exactly when no offset within the skew has 81 similar positions in a row. */
  lemma LongestMatchMissesIff(left: seq<Item>, right: seq<Item>, maxSkewSec: real)
    ensures BestOverOffsets(left, right, maxSkewSec).None? <==>
            !exists offset, i :: InSkew(offset, maxSkewSec) && LongSimilarity(left, right, offset, i)
  {
    hide BestOverOffsets, LongRunAt, LongSimilarity, InSkew, MaxSkewItems;
    LongestMatchMissesIffNoLongRun(left, right, maxSkewSec);
    var skew := MaxSkewItems(maxSkewSec);
    if offset, i :| InSkew(offset, maxSkewSec) && LongSimilarity(left, right, offset, i) {
      SkewAgrees(offset, maxSkewSec);
      LongRunsAgree(left, right, offset, i);
    }
    if offset, i :| -skew <= offset <= skew && LongRunAt(left, right, offset, i) {
      SkewAgrees(offset, maxSkewSec);
      LongRunsAgree(left, right, offset, i + AlignStart(offset));
    }
  }
}
