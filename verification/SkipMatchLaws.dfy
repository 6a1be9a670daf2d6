/**
 * What the alignment search of SkipMatch promises: it returns the best run over every offset,
 * it misses only when no offset has a long enough run, its result has bounded length and score,
 * and swapping the episodes mirrors it.
 */
module SkipMatchLaws {
  import opened Wrappers
  import opened SkipMatch

  // ----- FirstBest is the first maximum -----

  ghost predicate FirstMaximum(f: int -> Option<MatchRange>, lo: int, hi: int, k: int) {
    && lo <= k < hi && f(k).Some?
    && (forall i :: lo <= i < k && f(i).Some? ==> Better(f(k).value, f(i).value))
    && (forall i :: lo <= i < hi && f(i).Some? ==> !Better(f(i).value, f(k).value))
  }

  // Better is a strict order in which incomparable matches are tied.
  lemma BetterOrder(a: MatchRange, b: MatchRange, c: MatchRange)
    ensures Better(a, b) && !Better(c, b) ==> Better(a, c)
    ensures Better(a, b) ==> !Better(b, a)
  {
  }

  // A candidate that beats the first maximum so far is the new first maximum.
  lemma NewFirstMaximum(f: int -> Option<MatchRange>, lo: int, hi: int, k: int)
    requires FirstMaximum(f, lo, hi - 1, k) && f(hi - 1).Some? && Better(f(hi - 1).value, f(k).value)
    ensures FirstMaximum(f, lo, hi, hi - 1)
  {
    hide Better;
    forall i | lo <= i < hi && f(i).Some?
      ensures i < hi - 1 ==> Better(f(hi - 1).value, f(i).value)
      ensures !Better(f(i).value, f(hi - 1).value)
    {
      BetterOrder(f(hi - 1).value, f(k).value, f(i).value);
      BetterOrder(f(hi - 1).value, f(i).value, f(i).value);
      TiedWithItself(f(i).value);
    }
  }

  lemma TiedWithItself(a: MatchRange)
    ensures !Better(a, a)
  {
  }

  lemma {:induction false} FirstBestIsFirstMaximum(f: int -> Option<MatchRange>, lo: int, hi: int)
    requires lo <= hi
    ensures FirstBest(f, lo, hi).None? ==> forall i :: lo <= i < hi ==> f(i).None?
    ensures FirstBest(f, lo, hi).Some? ==>
              exists k :: FirstMaximum(f, lo, hi, k) && FirstBest(f, lo, hi) == f(k)
    decreases hi - lo
  {
    hide Better;
    if lo < hi {
      FirstBestIsFirstMaximum(f, lo, hi - 1);
      var best := FirstBest(f, lo, hi - 1);
      if best.Some? {
        var k :| FirstMaximum(f, lo, hi - 1, k) && best == f(k);
        if BetterMatch(f(hi - 1), best) {
          NewFirstMaximum(f, lo, hi, k);
        } else {
          assert FirstMaximum(f, lo, hi, k);
        }
      } else if f(hi - 1).Some? {
        TiedWithItself(f(hi - 1).value);
        assert FirstMaximum(f, lo, hi, hi - 1);
      }
    }
  }

  // ----- Candidates, stated without the scan -----

  // The window of a maximal run that the search may propose: the run itself, or the leftmost
  // maximum-sum window of `maxItems` when the run is longer.
  ghost predicate ProposedWindow(s: seq<real>, lo: int, hi: int, maxItems: int, start: int, end: int)
    requires 0 <= maxItems
  {
    && MaximalRun(s, lo, hi)
    && if hi - lo <= maxItems then start == lo && end == hi
       else LeftmostBestWindow(s, lo, hi, maxItems, start) && end == start + maxItems
  }

  ghost predicate CandidateOf(s: seq<real>, offset: int, minItems: int, maxItems: int,
                              lo: int, hi: int, start: int, end: int, m: MatchRange)
    requires 1 <= minItems && 0 <= maxItems
  {
    && ProposedWindow(s, lo, hi, maxItems, start, end)
    && end - start >= minItems
    && m == MatchFromRun(offset, AlignStart(offset) + start, AlignStart(offset) + end, s[start..end])
  }

  lemma LeftmostBestWindowUnique(s: seq<real>, lo: int, hi: int, w: int, a: int, b: int)
    requires 0 <= lo <= hi - w && 0 <= w && hi <= |s|
    requires LeftmostBestWindow(s, lo, hi, w, a) && LeftmostBestWindow(s, lo, hi, w, b)
    ensures a == b
  {
    assert WindowSum(s, a, w) <= WindowSum(s, b, w);
    assert WindowSum(s, b, w) <= WindowSum(s, a, w);
  }

  lemma CandidateAtIsCandidateOf(s: seq<real>, offset: int, minItems: int, maxItems: int, lo: int, m: MatchRange)
    requires 1 <= minItems && 0 <= maxItems
    requires CandidateAt(s, offset, minItems, maxItems, lo) == Some(m)
    ensures exists hi, start, end :: CandidateOf(s, offset, minItems, maxItems, lo, hi, start, end, m)
  {
    hide SumRange;
    var hi := RunEnd(s, lo);
    var (start, end) := Trimmed(s, lo, hi, maxItems);
    assert Above(s, lo) && MaximalRun(s, lo, hi);
    if hi - lo > maxItems {
      BestWindowStartIsLeftmost(s, lo, hi, maxItems);
    }
    assert ProposedWindow(s, lo, hi, maxItems, start, end);
    assert CandidateOf(s, offset, minItems, maxItems, lo, hi, start, end, m);
  }

  lemma CandidateOfIsCandidateAt(s: seq<real>, offset: int, minItems: int, maxItems: int,
                                 lo: int, hi: int, start: int, end: int, m: MatchRange)
    requires 1 <= minItems && 0 <= maxItems
    requires CandidateOf(s, offset, minItems, maxItems, lo, hi, start, end, m)
    ensures CandidateAt(s, offset, minItems, maxItems, lo) == Some(m)
  {
    hide SumRange;
    assert Above(s, lo);
    RunEndIs(s, lo, hi);
    if hi - lo > maxItems {
      BestWindowStartIsLeftmost(s, lo, hi, maxItems);
      LeftmostBestWindowUnique(s, lo, hi, maxItems, start, BestWindowStart(s, lo, hi - maxItems, maxItems));
    }
  }

  // ----- The result over all offsets -----

  ghost predicate RunCandidate(left: seq<Item>, right: seq<Item>, minItems: int, maxItems: int, m: MatchRange)
    requires 1 <= minItems && 0 <= maxItems
  {
    && Overlaps(left, right, m.offset, minItems)
    && exists lo, hi, start, end ::
         CandidateOf(Agreement(left, right, m.offset), m.offset, minItems, maxItems, lo, hi, start, end, m)
  }

  ghost predicate IsCandidate(left: seq<Item>, right: seq<Item>, m: MatchRange) {
    RunCandidate(left, right, MinItems(), MaxItems(), m)
  }

  // `a` is reported in preference to `b`: better, or tied and met first by the scan.
  predicate Preferred(a: MatchRange, b: MatchRange) {
    || Better(a, b)
    || (!Better(b, a) && (a.offset < b.offset || (a.offset == b.offset && a.startA < b.startA)))
  }

  lemma RunsComeInOrder(s: seq<real>, offset: int, minItems: int, maxItems: int,
                        k: int, r: MatchRange, lo: int, m: MatchRange)
    requires 1 <= minItems && 0 <= maxItems
    requires CandidateAt(s, offset, minItems, maxItems, k) == Some(r)
    requires CandidateAt(s, offset, minItems, maxItems, lo) == Some(m)
    requires k < lo
    ensures r.offset == m.offset == offset && r.startA < m.startA
  {
  }

  lemma FirstMaximumIsPreferred(s: seq<real>, offset: int, minItems: int, maxItems: int, k: int, lo: int)
    requires 1 <= minItems && 0 <= maxItems
    requires FirstMaximum(RunCandidates(s, offset, minItems, maxItems), 0, |s|, k)
    requires 0 <= lo < |s| && CandidateAt(s, offset, minItems, maxItems, lo).Some? && k != lo
    ensures Preferred(CandidateAt(s, offset, minItems, maxItems, k).value,
                      CandidateAt(s, offset, minItems, maxItems, lo).value)
  {
    var f := RunCandidates(s, offset, minItems, maxItems);
    assert f(lo).Some? && f(k) == CandidateAt(s, offset, minItems, maxItems, k);
    if k < lo {
      RunsComeInOrder(s, offset, minItems, maxItems, k, f(k).value, lo, f(lo).value);
    }
  }

  lemma BestRunIsCandidate(left: seq<Item>, right: seq<Item>, offset: int, minItems: int, maxItems: int)
    requires 1 <= minItems && 0 <= maxItems
    ensures var r := BestRun(left, right, offset, minItems, maxItems);
            r.Some? ==> r.value.offset == offset && RunCandidate(left, right, minItems, maxItems, r.value)
  {
    hide Agreement;
    var r := BestRun(left, right, offset, minItems, maxItems);
    if r.Some? {
      var s := Agreement(left, right, offset);
      var f := RunCandidates(s, offset, minItems, maxItems);
      FirstBestIsFirstMaximum(f, 0, |s|);
      var k :| FirstMaximum(f, 0, |s|, k) && r == f(k);
      CandidateAtIsCandidateOf(s, offset, minItems, maxItems, k, r.value);
    }
  }

  lemma BestRunIsPreferred(left: seq<Item>, right: seq<Item>, minItems: int, maxItems: int, m: MatchRange)
    requires 1 <= minItems && 0 <= maxItems
    requires RunCandidate(left, right, minItems, maxItems, m)
    ensures var r := BestRun(left, right, m.offset, minItems, maxItems);
            r.Some? && (m == r.value || Preferred(r.value, m))
  {
    hide Agreement;
    var s := Agreement(left, right, m.offset);
    var f := RunCandidates(s, m.offset, minItems, maxItems);
    FirstBestIsFirstMaximum(f, 0, |s|);
    var lo, hi, start, end :| CandidateOf(s, m.offset, minItems, maxItems, lo, hi, start, end, m);
    CandidateOfIsCandidateAt(s, m.offset, minItems, maxItems, lo, hi, start, end, m);
    assert f(lo) == Some(m);
    var k :| FirstMaximum(f, 0, |s|, k) && FirstBest(f, 0, |s|) == f(k);
    if k != lo {
      FirstMaximumIsPreferred(s, m.offset, minItems, maxItems, k, lo);
    }
  }

  /** LongestMatch returns the most preferred candidate over all offsets within the skew. */
  lemma LongestMatchIsMostPreferred(left: seq<Item>, right: seq<Item>, maxSkewSec: real)
    ensures var r := BestOverOffsets(left, right, maxSkewSec);
            var skew := MaxSkewItems(maxSkewSec);
            && (r.Some? ==> -skew <= r.value.offset <= skew && IsCandidate(left, right, r.value))
            && forall m :: IsCandidate(left, right, m) && -skew <= m.offset <= skew ==>
                 r.Some? && (m == r.value || Preferred(r.value, m))
  {
    hide MinItems, MaxItems, MaxSkewItems, FirstBest, RunCandidate, Preferred;
    var skew := MaxSkewItems(maxSkewSec);
    SearchIsMostPreferred(left, right, MinItems(), MaxItems(), -skew, skew + 1);
  }

  lemma SearchIsMostPreferred(left: seq<Item>, right: seq<Item>, minItems: int, maxItems: int, lo: int, hi: int)
    requires 1 <= minItems && 0 <= maxItems && lo <= hi
    ensures var r := FirstBest(OffsetCandidates(left, right, minItems, maxItems), lo, hi);
            && (r.Some? ==> lo <= r.value.offset < hi && RunCandidate(left, right, minItems, maxItems, r.value))
            && forall m :: RunCandidate(left, right, minItems, maxItems, m) && lo <= m.offset < hi ==>
                 r.Some? && (m == r.value || Preferred(r.value, m))
  {
    hide BestRun, RunCandidate;
    var f := OffsetCandidates(left, right, minItems, maxItems);
    var r := FirstBest(f, lo, hi);
    FirstBestIsFirstMaximum(f, lo, hi);
    if r.Some? {
      var k :| FirstMaximum(f, lo, hi, k) && r == f(k);
      BestRunIsCandidate(left, right, k, minItems, maxItems);
    }
    forall m | RunCandidate(left, right, minItems, maxItems, m) && lo <= m.offset < hi
      ensures r.Some? && (m == r.value || Preferred(r.value, m))
    {
      BestRunIsPreferred(left, right, minItems, maxItems, m);
      assert f(m.offset).Some?;
      var k :| FirstMaximum(f, lo, hi, k) && r == f(k);
      BestRunIsCandidate(left, right, k, minItems, maxItems);
    }
  }

  // ----- When the search misses -----

  // At `offset`, the smoothed scores stay at or above the threshold for MinItems() positions from `i`.
  predicate LongRunAt(left: seq<Item>, right: seq<Item>, offset: int, i: int) {
    Overlaps(left, right, offset, 0) && AllAbove(Agreement(left, right, offset), i, i + MinItems())
  }

  lemma {:induction false} ExtendLeft(s: seq<real>, lo: int, hi: int) returns (start: int)
    requires 0 <= lo < hi <= |s| && AllAbove(s, lo, hi)
    ensures 0 <= start <= lo && AllAbove(s, start, hi) && !Above(s, start - 1)
    decreases lo
  {
    if Above(s, lo - 1) {
      start := ExtendLeft(s, lo - 1, hi);
    } else {
      start := lo;
    }
  }

  lemma RunEndAtLeast(s: seq<real>, lo: int, hi: int)
    requires 0 <= lo <= hi <= |s| && AllAbove(s, lo, hi)
    ensures RunEnd(s, lo) >= hi
    decreases hi - lo
  {
  }

  lemma BlockGivesCandidate(s: seq<real>, offset: int, minItems: int, maxItems: int, i: int)
    returns (lo: int, m: MatchRange)
    requires 1 <= minItems <= maxItems && AllAbove(s, i, i + minItems)
    ensures CandidateAt(s, offset, minItems, maxItems, lo) == Some(m) && m.offset == offset
  {
    assert Above(s, i) && Above(s, i + minItems - 1);
    lo := ExtendLeft(s, i, i + minItems);
    RunEndAtLeast(s, lo, i + minItems);
    assert Above(s, lo);
    m := CandidateAt(s, offset, minItems, maxItems, lo).value;
  }

  lemma LongRunGivesCandidate(left: seq<Item>, right: seq<Item>, offset: int, i: int) returns (m: MatchRange)
    requires LongRunAt(left, right, offset, i)
    ensures m.offset == offset && IsCandidate(left, right, m)
  {
    hide MinItems, MaxItems, CandidateAt, Smoothed, BitAgreement;
    var s := Agreement(left, right, offset);
    assert Above(s, i + MinItems() - 1);
    var lo;
    lo, m := BlockGivesCandidate(s, offset, MinItems(), MaxItems(), i);
    CandidateAtIsCandidateOf(s, offset, MinItems(), MaxItems(), lo, m);
    RunCandidateIff(left, right, MinItems(), MaxItems(), s, m);
  }

  /** LongestMatch misses exactly when no offset within the skew has a long enough run. */
  lemma LongestMatchMissesIffNoLongRun(left: seq<Item>, right: seq<Item>, maxSkewSec: real)
    ensures var skew := MaxSkewItems(maxSkewSec);
            BestOverOffsets(left, right, maxSkewSec).None? <==>
            !exists offset, i :: -skew <= offset <= skew && LongRunAt(left, right, offset, i)
  {
    var skew := MaxSkewItems(maxSkewSec);
    var r := BestOverOffsets(left, right, maxSkewSec);
    LongestMatchIsMostPreferred(left, right, maxSkewSec);
    if exists offset, i :: -skew <= offset <= skew && LongRunAt(left, right, offset, i) {
      var offset, i :| -skew <= offset <= skew && LongRunAt(left, right, offset, i);
      var m := LongRunGivesCandidate(left, right, offset, i);
    }
    if r.Some? {
      var m := r.value;
      var s := Agreement(left, right, m.offset);
      var lo, hi, start, end :| CandidateOf(s, m.offset, MinItems(), MaxItems(), lo, hi, start, end, m);
      assert LongRunAt(left, right, m.offset, start);
    }
  }

  // ----- Bounds on every result -----

  lemma ScoresAreFractions(left: seq<Item>, right: seq<Item>, offset: int)
    requires Overlaps(left, right, offset, 0)
    ensures forall k :: 0 <= k < |Scores(left, right, offset)| ==> 0.0 <= Scores(left, right, offset)[k] <= 1.0
  {
    hide BitAgreement;
    var a := AlignStart(offset);
    forall k | 0 <= k < |Scores(left, right, offset)|
      ensures 0.0 <= Scores(left, right, offset)[k] <= 1.0
    {
      BitAgreementIsFraction(left[a + k], right[a + k + offset]);
    }
  }

  /** Where a candidate lies: in bounds on both sides, of one length, above the threshold throughout. */
  predicate CandidateWithin(left: seq<Item>, right: seq<Item>, minItems: int, maxItems: int, m: MatchRange) {
    && 0 <= m.startA < m.endA <= |left| && 0 <= m.startB < m.endB <= |right|
    && m.startB - m.startA == m.endB - m.endA == m.offset
    && minItems <= m.endA - m.startA <= maxItems
    && m.durationSec == ((m.endA - m.startA) as real) * ITEM_SEC
    && Overlaps(left, right, m.offset, 0)
    && AllAbove(Agreement(left, right, m.offset), m.startA - AlignStart(m.offset), m.endA - AlignStart(m.offset))
    && BIT_MATCH_THRESHOLD <= m.score <= 1.0
  }

  // Smoothed agreement is a fraction everywhere.
  lemma AgreementIsFraction(left: seq<Item>, right: seq<Item>, offset: int)
    requires Overlaps(left, right, offset, 0)
    ensures var s := Agreement(left, right, offset); forall k :: 0 <= k < |s| ==> 0.0 <= s[k] <= 1.0
  {
    hide BitAgreement, Smoothed;
    ScoresAreFractions(left, right, offset);
    SmoothedStaysInRange(Scores(left, right, offset), LOCAL_WINDOW_ITEMS, 0.0, 1.0);
  }

  // Where the window of a candidate lies.
  lemma WindowBounds(s: seq<real>, offset: int, minItems: int, maxItems: int,
                     lo: int, hi: int, start: int, end: int, m: MatchRange)
    requires 1 <= minItems <= maxItems
    requires CandidateOf(s, offset, minItems, maxItems, lo, hi, start, end, m)
    ensures 0 <= start < end <= |s| && minItems <= end - start <= maxItems && AllAbove(s, start, end)
  {
    hide MatchFromRun, WindowSum;
  }

  lemma WindowMean(s: seq<real>, start: int, end: int)
    requires 0 <= start < end <= |s| && AllAbove(s, start, end) && forall k :: 0 <= k < |s| ==> s[k] <= 1.0
    ensures var w := s[start..end]; BIT_MATCH_THRESHOLD <= Mean(w, 0, |w|) <= 1.0
  {
    hide Mean;
    var w := s[start..end];
    forall k | 0 <= k < |w|
      ensures BIT_MATCH_THRESHOLD <= w[k] <= 1.0
    {
      assert Above(s, start + k);
    }
    MeanBounds(w, 0, |w|, BIT_MATCH_THRESHOLD, 1.0);
  }

  lemma CandidateBounds(left: seq<Item>, right: seq<Item>, minItems: int, maxItems: int, m: MatchRange)
    requires 1 <= minItems <= maxItems
    ensures RunCandidate(left, right, minItems, maxItems, m) ==> CandidateWithin(left, right, minItems, maxItems, m)
  {
    hide Mean, BitAgreement, Smoothed, AllAbove, ProposedWindow;
    if RunCandidate(left, right, minItems, maxItems, m) {
      AgreementIsFraction(left, right, m.offset);
      var s := Agreement(left, right, m.offset);
      AgreementLength(left, right, m.offset);
      var lo, hi, start, end :| CandidateOf(s, m.offset, minItems, maxItems, lo, hi, start, end, m);
      WindowBounds(s, m.offset, minItems, maxItems, lo, hi, start, end, m);
      WindowMean(s, start, end);
    }
  }

  lemma AgreementLength(left: seq<Item>, right: seq<Item>, offset: int)
    requires Overlaps(left, right, offset, 0)
    ensures |Agreement(left, right, offset)| == AlignEnd(left, right, offset) - AlignStart(offset)
  {
  }

  /** The rounded millisecond span of 81 to 1211 items stays within the intro limits. */
  lemma ItemSpanMs(start: int, end: int)
    requires 0 <= start && 81 <= end - start <= 1211
    ensures 0 <= ItemIndexToMs(start)
    ensures MIN_INTRO_SEC * MS_PER_SECOND <= ItemIndexToMs(end) - ItemIndexToMs(start) <= MAX_INTRO_SEC * MS_PER_SECOND
  {
  }

  lemma CandidateLimits(left: seq<Item>, right: seq<Item>, m: MatchRange)
    requires IsCandidate(left, right, m)
    ensures RunCandidate(left, right, 81, 1211, m)
  {
  }

  /** The limits every reported match keeps, in items, in seconds and in rounded milliseconds. */
  predicate WithinLimits(left: seq<Item>, right: seq<Item>, m: MatchRange) {
    && 0 <= m.startA < m.endA <= |left| && 0 <= m.startB < m.endB <= |right|
    && 81 <= m.endA - m.startA == m.endB - m.startB <= 1211
    && BIT_MATCH_THRESHOLD <= m.score <= 1.0
    && MIN_INTRO_SEC as real <= m.durationSec <= MAX_INTRO_SEC as real
    && 10000 <= ItemIndexToMs(m.endA) - ItemIndexToMs(m.startA) <= 150000
    && 10000 <= ItemIndexToMs(m.endB) - ItemIndexToMs(m.startB) <= 150000
  }

  lemma CandidateWithinLimits(left: seq<Item>, right: seq<Item>, m: MatchRange)
    requires RunCandidate(left, right, 81, 1211, m)
    ensures WithinLimits(left, right, m)
  {
    CandidateBounds(left, right, 81, 1211, m);
    ItemSpanMs(m.startA, m.endA);
    ItemSpanMs(m.startB, m.endB);
    ItemSpanSeconds(m.endA - m.startA);
  }

  /** Every result keeps the limits, so the duration filters applied to it later never reject it. */
  lemma LongestMatchBounds(left: seq<Item>, right: seq<Item>, maxSkewSec: real)
    requires BestOverOffsets(left, right, maxSkewSec).Some?
    ensures WithinLimits(left, right, BestOverOffsets(left, right, maxSkewSec).value)
  {
    var r := BestOverOffsets(left, right, maxSkewSec);
    LongestMatchIsMostPreferred(left, right, maxSkewSec);
    CandidateLimits(left, right, r.value);
    CandidateWithinLimits(left, right, r.value);
  }

  lemma ItemSpanSeconds(items: int)
    requires 81 <= items <= 1211
    ensures MIN_INTRO_SEC as real <= (items as real) * ITEM_SEC <= MAX_INTRO_SEC as real
  {
  }

  // ----- Swapping the two episodes -----

  function Mirror(m: MatchRange): MatchRange {
    MatchRange(m.startB, m.endB, m.startA, m.endA, -m.offset, m.score, m.durationSec)
  }

  function MirrorOption(m: Option<MatchRange>): Option<MatchRange> {
    if m.None? then None else Some(Mirror(m.value))
  }

  lemma AgreementMirrors(left: seq<Item>, right: seq<Item>, offset: int)
    requires Overlaps(left, right, offset, 0)
    ensures Overlaps(right, left, -offset, 0)
    ensures AlignStart(-offset) == AlignStart(offset) + offset
    ensures Agreement(right, left, -offset) == Agreement(left, right, offset)
  {
    hide BitAgreement, Smoothed;
    var s, t := Scores(left, right, offset), Scores(right, left, -offset);
    var a := AlignStart(offset);
    forall k | 0 <= k < |s|
      ensures s[k] == t[k]
    {
      BitAgreementIsFraction(left[a + k], right[a + k + offset]);
    }
    assert s == t;
  }

  lemma {:induction false} FirstBestMirrors(f: int -> Option<MatchRange>, g: int -> Option<MatchRange>, lo: int,
                                            hi: int)
    requires lo <= hi
    requires forall i :: lo <= i < hi ==> g(i) == MirrorOption(f(i))
    ensures FirstBest(g, lo, hi) == MirrorOption(FirstBest(f, lo, hi))
    decreases hi - lo
  {
    if lo < hi {
      FirstBestMirrors(f, g, lo, hi - 1);
    }
  }

  lemma CandidateAtMirrors(s: seq<real>, offset: int, minItems: int, maxItems: int, lo: int)
    requires 1 <= minItems && 0 <= maxItems
    ensures CandidateAt(s, -offset, minItems, maxItems, lo) ==
            MirrorOption(CandidateAt(s, offset, minItems, maxItems, lo))
  {
  }

  /** At one offset the search is exactly symmetric: swapping the episodes mirrors its result. */
  lemma BestRunMirrors(left: seq<Item>, right: seq<Item>, offset: int, minItems: int, maxItems: int)
    requires 1 <= minItems && 0 <= maxItems
    ensures BestRun(right, left, -offset, minItems, maxItems) ==
            MirrorOption(BestRun(left, right, offset, minItems, maxItems))
  {
    if Overlaps(left, right, offset, minItems) {
      AgreementMirrors(left, right, offset);
      RunsMirror(Agreement(left, right, offset), offset, minItems, maxItems);
    }
  }

  lemma RunsMirror(s: seq<real>, offset: int, minItems: int, maxItems: int)
    requires 1 <= minItems && 0 <= maxItems
    ensures FirstBest(RunCandidates(s, -offset, minItems, maxItems), 0, |s|) ==
            MirrorOption(FirstBest(RunCandidates(s, offset, minItems, maxItems), 0, |s|))
  {
    var f, g := RunCandidates(s, offset, minItems, maxItems), RunCandidates(s, -offset, minItems, maxItems);
    forall lo | 0 <= lo < |s|
      ensures g(lo) == MirrorOption(f(lo))
    {
      CandidateAtMirrors(s, offset, minItems, maxItems, lo);
    }
    FirstBestMirrors(f, g, 0, |s|);
  }

  lemma CandidateOfMirrors(s: seq<real>, offset: int, minItems: int, maxItems: int,
                           lo: int, hi: int, start: int, end: int, m: MatchRange)
    requires 1 <= minItems && 0 <= maxItems
    requires CandidateOf(s, offset, minItems, maxItems, lo, hi, start, end, m)
    ensures CandidateOf(s, -offset, minItems, maxItems, lo, hi, start, end, Mirror(m))
  {
  }

  lemma RunCandidateMirrors(left: seq<Item>, right: seq<Item>, minItems: int, maxItems: int, m: MatchRange)
    requires 1 <= minItems && 0 <= maxItems
    requires RunCandidate(left, right, minItems, maxItems, m)
    ensures RunCandidate(right, left, minItems, maxItems, Mirror(m))
  {
    hide Agreement;
    AgreementMirrors(left, right, m.offset);
    RunCandidateIff(left, right, minItems, maxItems, Agreement(left, right, m.offset), m);
    RunCandidateIff(right, left, minItems, maxItems, Agreement(left, right, m.offset), Mirror(m));
    var lo, hi, start, end :|
      CandidateOf(Agreement(left, right, m.offset), m.offset, minItems, maxItems, lo, hi, start, end, m);
    CandidateOfMirrors(Agreement(left, right, m.offset), m.offset, minItems, maxItems, lo, hi, start, end, m);
  }

  lemma RunCandidateIff(left: seq<Item>, right: seq<Item>, minItems: int, maxItems: int, s: seq<real>, m: MatchRange)
    requires 1 <= minItems && 0 <= maxItems
    requires Overlaps(left, right, m.offset, 0) && s == Agreement(left, right, m.offset)
    ensures RunCandidate(left, right, minItems, maxItems, m) <==>
            Overlaps(left, right, m.offset, minItems) &&
            exists lo, hi, start, end :: CandidateOf(s, m.offset, minItems, maxItems, lo, hi, start, end, m)
  {
  }

  lemma CandidateMirrors(left: seq<Item>, right: seq<Item>, m: MatchRange)
    requires IsCandidate(left, right, m)
    ensures IsCandidate(right, left, Mirror(m))
  {
    RunCandidateMirrors(left, right, MinItems(), MaxItems(), m);
  }

  /** Over all offsets the two directions agree on whether there is a match, its score and its duration. */
  lemma LongestMatchSymmetric(left: seq<Item>, right: seq<Item>, maxSkewSec: real)
    ensures var r := BestOverOffsets(left, right, maxSkewSec);
            var q := BestOverOffsets(right, left, maxSkewSec);
            && r.None? == q.None?
            && (r.Some? ==> r.value.score == q.value.score && r.value.durationSec == q.value.durationSec)
  {
    hide BestOverOffsets, IsCandidate;
    var r := BestOverOffsets(left, right, maxSkewSec);
    var q := BestOverOffsets(right, left, maxSkewSec);
    LongestMatchIsMostPreferred(left, right, maxSkewSec);
    LongestMatchIsMostPreferred(right, left, maxSkewSec);
    if r.Some? {
      CandidateMirrors(left, right, r.value);
      assert q.Some? && !Better(Mirror(r.value), q.value);
    }
    if q.Some? {
      CandidateMirrors(right, left, q.value);
      assert r.Some? && !Better(Mirror(q.value), r.value);
    }
  }

  /** When no other candidate ties with the winner, the two directions are exact mirror images. */
  lemma UniqueLongestMatchMirrors(left: seq<Item>, right: seq<Item>, maxSkewSec: real)
    requires var r := BestOverOffsets(left, right, maxSkewSec);
             r.Some? && forall m :: IsCandidate(left, right, m) && m != r.value ==> Better(r.value, m)
    ensures BestOverOffsets(right, left, maxSkewSec) == MirrorOption(BestOverOffsets(left, right, maxSkewSec))
  {
    hide BestOverOffsets, IsCandidate;
    var r := BestOverOffsets(left, right, maxSkewSec);
    var q := BestOverOffsets(right, left, maxSkewSec);
    LongestMatchSymmetric(left, right, maxSkewSec);
    LongestMatchIsMostPreferred(right, left, maxSkewSec);
    CandidateMirrors(right, left, q.value);
  }
}
