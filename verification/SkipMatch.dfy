/**
 * Fingerprint alignment (internal/skipsegment/match.go).
 *
 * Fingerprint items are 32-bit words; float64 arithmetic is modelled over exact reals.
 */
module SkipMatch {
  import opened Rounding
  import opened Wrappers

  type Item = bv32

  const BITS_PER_ITEM := 32
  const MIN_INTRO_SEC := 10
  const MAX_INTRO_SEC := 150
  const MS_PER_SECOND := 1000
  const ITEM_SEC: real := 4096.0 / (3.0 * 11025.0)
  const BIT_MATCH_THRESHOLD: real := 0.70
  const LOCAL_WINDOW_ITEMS := 5

  datatype MatchRange = MatchRange(startA: int, endA: int, startB: int, endB: int,
                                   offset: int, score: real, durationSec: real)

  // ----- Items and seconds -----

  // The fewest items whose duration covers the skew.
  function MaxSkewItems(maxSkewSec: real): (items: int)
    ensures 0 <= items && (items as real) * ITEM_SEC >= maxSkewSec
    ensures items > 0 ==> ((items - 1) as real) * ITEM_SEC < maxSkewSec
  {
    var items := Ceil(maxSkewSec / ITEM_SEC);
    assert maxSkewSec / ITEM_SEC * ITEM_SEC == maxSkewSec;
    assert (items - 1) as real < maxSkewSec / ITEM_SEC <= items as real;
    if items < 0 then 0 else items
  }

  function MinItems(): (items: int)
    ensures items == 81
  {
    assert 10.0 / ITEM_SEC == 330750.0 / 4096.0;
    var items := Ceil((MIN_INTRO_SEC as real) / ITEM_SEC);
    if items < 1 then 1 else items
  }

  function MaxItems(): (items: int)
    ensures items == 1211
  {
    assert 150.0 / ITEM_SEC == 4961250.0 / 4096.0;
    var items := ((MAX_INTRO_SEC as real) / ITEM_SEC).Floor;
    if items < MinItems() then MinItems() else items
  }

  function ItemIndexToMs(index: int): int {
    if index <= 0 then 0 else Round((index as real) * ITEM_SEC * (MS_PER_SECOND as real))
  }

  /** The millisecond position of an item is the whole number nearest to its exact position, halves up. */
  lemma ItemPositionIsNearest(index: int)
    ensures index >= 0 ==>
              var exact := (index as real) * (4096000.0 / 33075.0);
              exact - 0.5 < ItemIndexToMs(index) as real <= exact + 0.5
    ensures index < 0 ==> ItemIndexToMs(index) == 0
  {
  }

  // ----- Bit agreement -----

  function Half(x: Item): Item {
    x / 2
  }

  function Xor(left: Item, right: Item): Item {
    left ^ right
  }

  // The word halved k times.
  function Halved(x: Item, k: nat): Item {
    if k == 0 then x else Half(Halved(x, k - 1))
  }

  // The bits of a word, the lowest first.
  function Bits(x: Item): (b: seq<bool>)
    ensures |b| == BITS_PER_ITEM
  {
    seq(BITS_PER_ITEM, k requires 0 <= k < BITS_PER_ITEM => Halved(x, k) % 2 == 1)
  }

  lemma {:induction false} HalvedFirst(x: Item, k: nat)
    requires k > 0
    ensures Halved(x, k) == Halved(Half(x), k - 1)
  {
    hide Half;
    if k > 1 {
      HalvedFirst(x, k - 1);
    }
  }

  /** The bits of a word are its binary digits: the lowest is its parity, the others are those of its half. */
  lemma BitsAreBinaryDigits(x: Item, k: nat)
    requires k < 32
    ensures Bits(x)[k] <==> if k == 0 then x % 2 == 1 else Bits(x / 2)[k - 1]
  {
    if k > 0 {
      HalvedFirst(x, k);
    }
  }

  function CountTrue(b: seq<bool>): (r: nat)
    ensures r <= |b|
  {
    if b == [] then 0 else CountTrue(b[..|b| - 1]) + (if b[|b| - 1] then 1 else 0)
  }

  // bits.OnesCount32
  function OnesCount(x: Item): nat {
    CountTrue(Bits(x))
  }

  function BitAgreement(left: Item, right: Item): real {
    ((BITS_PER_ITEM - OnesCount(Xor(left, right))) as real) / (BITS_PER_ITEM as real)
  }

  lemma XorHalves(left: Item, right: Item)
    ensures Half(Xor(left, right)) == Xor(Half(left), Half(right))
    ensures Xor(left, right) % 2 == 1 <==> (left % 2 == 1) != (right % 2 == 1)
  {
  }

  lemma {:induction false} XorHalved(left: Item, right: Item, k: nat)
    ensures Halved(Xor(left, right), k) == Xor(Halved(left, k), Halved(right, k))
  {
    hide Half, Xor;
    if k > 0 {
      XorHalved(left, right, k - 1);
      XorHalves(Halved(left, k - 1), Halved(right, k - 1));
    }
  }

  lemma XorBits(left: Item, right: Item, k: nat)
    requires k < BITS_PER_ITEM
    ensures Bits(Xor(left, right))[k] == (Bits(left)[k] != Bits(right)[k])
  {
    hide Half, Xor;
    XorHalved(left, right, k);
    XorHalves(Halved(left, k), Halved(right, k));
  }

  lemma XorCommutes(left: Item, right: Item)
    ensures Xor(left, right) == Xor(right, left)
  {
  }

  // The positions at which two bit strings agree.
  function AgreeingBits(left: seq<bool>, right: seq<bool>): set<int>
    requires |left| == |right|
  {
    set k | 0 <= k < |left| && left[k] == right[k]
  }

  lemma OnePositionMore(left: seq<bool>, right: seq<bool>)
    requires |left| == |right| > 0
    ensures var n := |left| - 1;
            |AgreeingBits(left, right)| == |AgreeingBits(left[..n], right[..n])| + if left[n] == right[n] then 1 else 0
  {
    var n := |left| - 1;
    var before := AgreeingBits(left[..n], right[..n]);
    assert AgreeingBits(left, right) == if left[n] == right[n] then before + {n} else before;
  }

  lemma {:induction false} AgreeingBitsAreRest(a: seq<bool>, b: seq<bool>, x: seq<bool>)
    requires |a| == |b| == |x|
    requires forall k :: 0 <= k < |x| ==> x[k] == (a[k] != b[k])
    ensures |AgreeingBits(a, b)| == |a| - CountTrue(x)
  {
    if a == [] {
      assert AgreeingBits(a, b) == {};
    } else {
      hide AgreeingBits;
      var n := |a| - 1;
      OnePositionMore(a, b);
      AgreeingBitsAreRest(a[..n], b[..n], x[..n]);
    }
  }

  /** The agreement of two words is the share of equal binary digits. */
  lemma BitAgreementIsFraction(left: Item, right: Item)
    ensures BitAgreement(left, right) ==
            (|set k | 0 <= k < 32 && Bits(left)[k] == Bits(right)[k]| as real) / 32.0
    ensures 0.0 <= BitAgreement(left, right) <= 1.0
    ensures BitAgreement(left, right) == BitAgreement(right, left)
  {
    hide Bits, CountTrue, Xor;
    forall k | 0 <= k < BITS_PER_ITEM
      ensures Bits(Xor(left, right))[k] == (Bits(left)[k] != Bits(right)[k])
    {
      XorBits(left, right, k);
    }
    XorCommutes(left, right);
    AgreeingBitsAreRest(Bits(left), Bits(right), Bits(Xor(left, right)));
    assert AgreeingBits(Bits(left), Bits(right)) == set k | 0 <= k < 32 && Bits(left)[k] == Bits(right)[k];
  }

  lemma {:induction false} SameBitsAgree(b: seq<bool>)
    ensures |AgreeingBits(b, b)| == |b|
  {
    if b == [] {
      assert AgreeingBits(b, b) == {};
    } else {
      hide AgreeingBits;
      OnePositionMore(b, b);
      SameBitsAgree(b[..|b| - 1]);
    }
  }

  /** A word agrees with itself entirely. */
  lemma EqualItemsAgree(x: Item)
    ensures BitAgreement(x, x) == 1.0
  {
    hide Bits, BitAgreement;
    BitAgreementIsFraction(x, x);
    SameBitsAgree(Bits(x));
    assert AgreeingBits(Bits(x), Bits(x)) == set k | 0 <= k < 32 && Bits(x)[k] == Bits(x)[k];
  }

  // ----- Sums and moving averages -----

  function SumRange(s: seq<real>, lo: int, hi: int): real
    requires 0 <= lo <= hi <= |s|
  {
    if lo == hi then 0.0 else SumRange(s, lo, hi - 1) + s[hi - 1]
  }

  function Mean(s: seq<real>, lo: int, hi: int): real
    requires 0 <= lo < hi <= |s|
  {
    SumRange(s, lo, hi) / ((hi - lo) as real)
  }

  lemma {:induction false} SumRangeDropFirst(s: seq<real>, lo: int, hi: int)
    requires 0 <= lo < hi <= |s|
    ensures SumRange(s, lo, hi) == s[lo] + SumRange(s, lo + 1, hi)
    decreases hi
  {
    if lo + 1 < hi {
      SumRangeDropFirst(s, lo, hi - 1);
    }
  }

  lemma SlideWindow(s: seq<real>, lo: int, hi: int)
    requires 0 <= lo < hi < |s|
    ensures SumRange(s, lo + 1, hi + 1) == SumRange(s, lo, hi) + (s[hi] - s[lo])
  {
    SumRangeDropFirst(s, lo, hi);
  }

  lemma {:induction false} SumRangeBounds(s: seq<real>, lo: int, hi: int, a: real, b: real)
    requires 0 <= lo <= hi <= |s|
    requires forall k :: lo <= k < hi ==> a <= s[k] <= b
    ensures ((hi - lo) as real) * a <= SumRange(s, lo, hi) <= ((hi - lo) as real) * b
    decreases hi
  {
    if lo < hi {
      SumRangeBounds(s, lo, hi - 1, a, b);
      OneMore(hi - 1 - lo, a);
      OneMore(hi - 1 - lo, b);
    }
  }

  lemma OneMore(n: int, a: real)
    ensures ((n + 1) as real) * a == (n as real) * a + a
  {
  }

  lemma MeanBounds(s: seq<real>, lo: int, hi: int, a: real, b: real)
    requires 0 <= lo < hi <= |s|
    requires forall k :: lo <= k < hi ==> a <= s[k] <= b
    ensures a <= Mean(s, lo, hi) <= b
  {
    SumRangeBounds(s, lo, hi, a, b);
    DivideBounds(SumRange(s, lo, hi), (hi - lo) as real, a, b);
  }

  lemma DivideBounds(x: real, n: real, a: real, b: real)
    requires n > 0.0 && n * a <= x <= n * b
    ensures a <= x / n <= b
  {
  }

  lemma {:induction false} SumRangeAgrees(s: seq<real>, t: seq<real>, lo: int, hi: int, shift: int)
    requires 0 <= lo <= hi <= |s| && 0 <= lo + shift && hi + shift <= |t|
    requires forall k :: lo <= k < hi ==> s[k] == t[k + shift]
    ensures SumRange(s, lo, hi) == SumRange(t, lo + shift, hi + shift)
    decreases hi
  {
    if lo < hi {
      SumRangeAgrees(s, t, lo, hi - 1, shift);
    }
  }

  function WindowStart(index: int, half: int): int {
    if index - half < 0 then 0 else index - half
  }

  function WindowEnd(index: int, half: int, n: int): int {
    if index + half + 1 < n then index + half + 1 else n
  }

  // The centred moving average: position i averages the scores at distance at most window / 2.
  function Smoothed(s: seq<real>, window: int): (r: seq<real>)
    ensures |r| == |s|
  {
    if window <= 1 then s
    else seq(|s|, i requires 0 <= i < |s| => Mean(s, WindowStart(i, window / 2), WindowEnd(i, window / 2, |s|)))
  }

  lemma SmoothedStaysInRange(s: seq<real>, window: int, a: real, b: real)
    requires forall k :: 0 <= k < |s| ==> a <= s[k] <= b
    ensures forall k :: 0 <= k < |s| ==> a <= Smoothed(s, window)[k] <= b
  {
    if window > 1 {
      forall k | 0 <= k < |s|
        ensures a <= Smoothed(s, window)[k] <= b
      {
        MeanBounds(s, WindowStart(k, window / 2), WindowEnd(k, window / 2, |s|), a, b);
      }
    }
  }

  method SmoothScores(scores: array<real>, window: int) returns (out: array<real>)
    ensures fresh(out)
    ensures out[..] == Smoothed(scores[..], window)
  {
    out := new real[scores.Length];
    if window <= 1 || scores.Length == 0 {
      for i := 0 to scores.Length
        invariant forall k :: 0 <= k < i ==> out[k] == scores[k]
      {
        out[i] := scores[i];
      }
      return;
    }
    var half := window / 2;
    ghost var s := scores[..];
    for index := 0 to scores.Length
      invariant scores[..] == s
      invariant forall k :: 0 <= k < index ==> out[k] == Smoothed(s, window)[k]
    {
      var start := WindowStart(index, half);
      var end := WindowEnd(index, half, scores.Length);
      var sum := SumOf(scores, start, end);
      out[index] := sum / ((end - start) as real);
      assert out[index] == Mean(s, start, end) == Smoothed(s, window)[index];
    }
  }

  method SumOf(scores: array<real>, start: int, end: int) returns (sum: real)
    requires 0 <= start <= end <= scores.Length
    ensures sum == SumRange(scores[..], start, end)
  {
    sum := 0.0;
    for cursor := start to end
      invariant sum == SumRange(scores[..], start, cursor)
    {
      sum := sum + scores[cursor];
    }
  }

  // ----- Trimming an over-long run -----

  function WindowSum(s: seq<real>, start: int, w: int): real
    requires 0 <= start && 0 <= w && start + w <= |s|
  {
    SumRange(s, start, start + w)
  }

  // The leftmost of the starts lo..last whose window of w scores has the largest sum.
  function BestWindowStart(s: seq<real>, lo: int, last: int, w: int): (start: int)
    requires 0 <= lo <= last && 0 <= w && last + w <= |s|
    ensures lo <= start <= last
    decreases last
  {
    if last == lo then lo
    else
      var best := BestWindowStart(s, lo, last - 1, w);
      if WindowSum(s, last, w) > WindowSum(s, best, w) then last else best
  }

  ghost predicate LeftmostBestWindow(s: seq<real>, lo: int, hi: int, w: int, start: int)
    requires 0 <= lo <= hi - w && 0 <= w && hi <= |s|
  {
    && lo <= start <= hi - w
    && (forall t :: lo <= t < start ==> WindowSum(s, t, w) < WindowSum(s, start, w))
    && (forall t :: lo <= t <= hi - w ==> WindowSum(s, t, w) <= WindowSum(s, start, w))
  }

  lemma {:induction false} BestWindowStartIsLeftmost(s: seq<real>, lo: int, hi: int, w: int)
    requires 0 <= lo <= hi - w && 0 <= w && hi <= |s|
    ensures LeftmostBestWindow(s, lo, hi, w, BestWindowStart(s, lo, hi - w, w))
    decreases hi
  {
    if lo < hi - w {
      BestWindowStartIsLeftmost(s, lo, hi - 1, w);
    }
  }

  function Trimmed(s: seq<real>, lo: int, hi: int, maxItems: int): (r: (int, int))
    requires 0 <= lo <= hi <= |s| && 0 <= maxItems
    ensures lo <= r.0 <= r.1 <= hi
    ensures r.1 - r.0 == if hi - lo > maxItems then maxItems else hi - lo
  {
    if hi - lo <= maxItems then (lo, hi)
    else
      var start := BestWindowStart(s, lo, hi - maxItems, maxItems);
      (start, start + maxItems)
  }

  method BestSubwindow(scores: array<real>, runStart: int, runEnd: int, window: int)
    returns (start: int, end: int)
    requires 0 <= runStart <= runEnd <= scores.Length && 0 <= window
    ensures (start, end) == Trimmed(scores[..], runStart, runEnd, window)
    ensures runEnd - runStart > window ==>
              LeftmostBestWindow(scores[..], runStart, runEnd, window, start) && end == start + window
  {
    if runEnd - runStart <= window {
      return runStart, runEnd;
    }
    ghost var s := scores[..];
    var bestStart := runStart;
    var bestSum := 0.0;
    for index := runStart to runStart + window
      invariant bestSum == SumRange(s, runStart, index)
    {
      bestSum := bestSum + scores[index];
    }
    var sum := bestSum;
    var next := runStart + 1;
    while next + window <= runEnd
      invariant runStart < next && next - 1 + window <= runEnd
      invariant sum == WindowSum(s, next - 1, window)
      invariant bestStart == BestWindowStart(s, runStart, next - 1, window)
      invariant bestSum == WindowSum(s, bestStart, window)
    {
      if window > 0 {
        SlideWindow(s, next - 1, next - 1 + window);
      }
      sum := sum + (scores[next + window - 1] - scores[next - 1]);
      if sum > bestSum {
        bestSum, bestStart := sum, next;
      }
      next := next + 1;
    }
    BestWindowStartIsLeftmost(s, runStart, runEnd, window);
    return bestStart, bestStart + window;
  }

  // ----- Candidate runs at one offset -----

  // The order of the search: the higher score, or the longer duration at equal scores.
  predicate Better(a: MatchRange, b: MatchRange) {
    a.score > b.score || (a.score == b.score && a.durationSec > b.durationSec)
  }

  predicate BetterMatch(candidate: Option<MatchRange>, best: Option<MatchRange>) {
    candidate.Some? && (best.None? || Better(candidate.value, best.value))
  }

  function AlignStart(offset: int): int {
    if offset < 0 then -offset else 0
  }

  function AlignEnd(left: seq<Item>, right: seq<Item>, offset: int): int {
    if |left| < |right| - offset then |left| else |right| - offset
  }

  predicate Overlaps(left: seq<Item>, right: seq<Item>, offset: int, minItems: int) {
    AlignEnd(left, right, offset) - AlignStart(offset) >= minItems
  }

  function Scores(left: seq<Item>, right: seq<Item>, offset: int): (s: seq<real>)
    requires Overlaps(left, right, offset, 0)
    ensures |s| == AlignEnd(left, right, offset) - AlignStart(offset)
  {
    var a := AlignStart(offset);
    seq(AlignEnd(left, right, offset) - a,
        i requires 0 <= i < AlignEnd(left, right, offset) - a =>
          BitAgreement(left[a + i], right[a + i + offset]))
  }

  function Agreement(left: seq<Item>, right: seq<Item>, offset: int): seq<real>
    requires Overlaps(left, right, offset, 0)
  {
    Smoothed(Scores(left, right, offset), LOCAL_WINDOW_ITEMS)
  }

  predicate Above(s: seq<real>, i: int) {
    0 <= i < |s| && s[i] >= BIT_MATCH_THRESHOLD
  }

  predicate AllAbove(s: seq<real>, lo: int, hi: int) {
    forall k :: lo <= k < hi ==> Above(s, k)
  }

  // A run that can be extended on neither side.
  predicate MaximalRun(s: seq<real>, lo: int, hi: int) {
    0 <= lo < hi <= |s| && AllAbove(s, lo, hi) && !Above(s, lo - 1) && !Above(s, hi)
  }

  function RunEnd(s: seq<real>, i: int): (end: int)
    requires 0 <= i <= |s|
    ensures i <= end <= |s| && AllAbove(s, i, end) && !Above(s, end)
    decreases |s| - i
  {
    if Above(s, i) then RunEnd(s, i + 1) else i
  }

  function MatchFromRun(offset: int, startA: int, endA: int, windowScores: seq<real>): MatchRange
    requires |windowScores| > 0
  {
    MatchRange(startA, endA, startA + offset, endA + offset, offset,
               Mean(windowScores, 0, |windowScores|), ((endA - startA) as real) * ITEM_SEC)
  }

  method ComputeMatchFromRun(offset: int, startA: int, endA: int, windowScores: seq<real>)
    returns (m: MatchRange)
    requires |windowScores| > 0
    ensures m == MatchFromRun(offset, startA, endA, windowScores)
  {
    var sum := 0.0;
    for i := 0 to |windowScores|
      invariant sum == SumRange(windowScores, 0, i)
    {
      sum := sum + windowScores[i];
    }
    m := MatchRange(startA, endA, startA + offset, endA + offset, offset,
                    sum / (|windowScores| as real), ((endA - startA) as real) * ITEM_SEC);
  }

  // The candidate contributed by the run that starts at `lo`, if a run starts there and is long enough.
  function CandidateAt(s: seq<real>, offset: int, minItems: int, maxItems: int, lo: int): Option<MatchRange>
    requires 1 <= minItems && 0 <= maxItems
  {
    if !Above(s, lo) || Above(s, lo - 1) then None
    else
      var (start, end) := Trimmed(s, lo, RunEnd(s, lo), maxItems);
      if end - start < minItems then None
      else Some(MatchFromRun(offset, AlignStart(offset) + start, AlignStart(offset) + end, s[start..end]))
  }

  function RunCandidates(s: seq<real>, offset: int, minItems: int, maxItems: int): int -> Option<MatchRange>
    requires 1 <= minItems && 0 <= maxItems
  {
    lo => CandidateAt(s, offset, minItems, maxItems, lo)
  }

  // Scan lo..hi keeping the first candidate no other candidate beats.
  function FirstBest(f: int -> Option<MatchRange>, lo: int, hi: int): Option<MatchRange>
    requires lo <= hi
    decreases hi - lo
  {
    if lo == hi then None
    else
      var best := FirstBest(f, lo, hi - 1);
      if BetterMatch(f(hi - 1), best) then f(hi - 1) else best
  }

  function BestRun(left: seq<Item>, right: seq<Item>, offset: int, minItems: int, maxItems: int): Option<MatchRange>
    requires 1 <= minItems && 0 <= maxItems
  {
    if !Overlaps(left, right, offset, minItems) then None
    else
      var s := Agreement(left, right, offset);
      FirstBest(RunCandidates(s, offset, minItems, maxItems), 0, |s|)
  }

  method BestRunAtOffset(left: seq<Item>, right: seq<Item>, offset: int, minItems: int, maxItems: int)
    returns (best: Option<MatchRange>)
    requires 1 <= minItems && 0 <= maxItems
    ensures best == BestRun(left, right, offset, minItems, maxItems)
  {
    var startA := AlignStart(offset);
    var endA := AlignEnd(left, right, offset);
    if endA - startA < minItems {
      return None;
    }
    var scores := new real[endA - startA];
    for index := startA to endA
      invariant forall k :: 0 <= k < index - startA ==> scores[k] == Scores(left, right, offset)[k]
    {
      scores[index - startA] := BitAgreement(left[index], right[index + offset]);
    }
    assert scores[..] == Scores(left, right, offset);
    var smoothed := SmoothScores(scores, LOCAL_WINDOW_ITEMS);
    best := BestOfRuns(smoothed, offset, minItems, maxItems);
  }

  method BestOfRuns(smoothed: array<real>, offset: int, minItems: int, maxItems: int)
    returns (best: Option<MatchRange>)
    requires 1 <= minItems && 0 <= maxItems
    ensures best == FirstBest(RunCandidates(smoothed[..], offset, minItems, maxItems), 0, smoothed.Length)
  {
    ghost var s := smoothed[..];
    ghost var f := RunCandidates(s, offset, minItems, maxItems);
    best := None;
    var runStart := -1;
    for index := 0 to smoothed.Length + 1
      invariant smoothed[..] == s
      invariant -1 <= runStart < index
      invariant runStart < 0 && index <= |s| ==> !Above(s, index - 1) && best == FirstBest(f, 0, index)
      invariant 0 <= runStart ==> index <= |s| && AllAbove(s, runStart, index) && !Above(s, runStart - 1)
      invariant 0 <= runStart ==> best == FirstBest(f, 0, runStart)
      invariant index == |s| + 1 ==> best == FirstBest(f, 0, |s|)
    {
      var above := index < smoothed.Length && smoothed[index] >= BIT_MATCH_THRESHOLD;
      assert above == Above(s, index);
      if above {
        if runStart < 0 {
          runStart := index;
        }
      } else {
        if 0 <= runStart {
          RunEndIs(s, runStart, index);
          best := CloseRun(smoothed, best, runStart, index, offset, minItems, maxItems);
          NoStartsInside(f, s, offset, minItems, maxItems, runStart + 1, index);
        }
        runStart := -1;
      }
    }
  }

  // The loop body of a finished run: trim it, then keep it if it is long enough and better.
  method CloseRun(smoothed: array<real>, best: Option<MatchRange>, runStart: int, runEnd: int,
                  offset: int, minItems: int, maxItems: int)
    returns (updated: Option<MatchRange>)
    requires 1 <= minItems && 0 <= maxItems
    requires 0 <= runStart < runEnd <= smoothed.Length && runEnd == RunEnd(smoothed[..], runStart)
    requires !Above(smoothed[..], runStart - 1)
    ensures var candidate := CandidateAt(smoothed[..], offset, minItems, maxItems, runStart);
            updated == if BetterMatch(candidate, best) then candidate else best
  {
    updated := best;
    var start, end := runStart, runEnd;
    if end - start > maxItems {
      start, end := BestSubwindow(smoothed, start, end, maxItems);
    }
    if end - start >= minItems {
      var startA := AlignStart(offset);
      var candidate := ComputeMatchFromRun(offset, startA + start, startA + end, smoothed[start..end]);
      assert smoothed[start..end] == smoothed[..][start..end];
      if BetterMatch(Some(candidate), best) {
        updated := Some(candidate);
      }
    }
  }

  lemma RunEndIs(s: seq<real>, lo: int, hi: int)
    requires 0 <= lo <= hi <= |s| && AllAbove(s, lo, hi) && !Above(s, hi)
    ensures RunEnd(s, lo) == hi
    decreases hi - lo
  {
  }

  // No run starts strictly inside a stretch that stays above the threshold.
  lemma {:induction false} NoStartsInside(f: int -> Option<MatchRange>, s: seq<real>, offset: int,
                                          minItems: int, maxItems: int, lo: int, hi: int)
    requires 1 <= minItems && 0 <= maxItems && f == RunCandidates(s, offset, minItems, maxItems)
    requires 1 <= lo <= hi <= |s| && AllAbove(s, lo - 1, hi)
    ensures FirstBest(f, 0, hi) == FirstBest(f, 0, lo)
    decreases hi - lo
  {
    if lo < hi {
      NoStartsInside(f, s, offset, minItems, maxItems, lo, hi - 1);
      assert Above(s, hi - 2);
    }
  }

  // ----- The search over offsets -----

  function OffsetCandidates(left: seq<Item>, right: seq<Item>, minItems: int, maxItems: int): int -> Option<MatchRange>
    requires 1 <= minItems && 0 <= maxItems
  {
    offset => BestRun(left, right, offset, minItems, maxItems)
  }

  function BestOverOffsets(left: seq<Item>, right: seq<Item>, maxSkewSec: real): Option<MatchRange> {
    var skew := MaxSkewItems(maxSkewSec);
    FirstBest(OffsetCandidates(left, right, MinItems(), MaxItems()), -skew, skew + 1)
  }

  method LongestMatch(left: seq<Item>, right: seq<Item>, maxSkewSec: real) returns (best: Option<MatchRange>)
    ensures best == BestOverOffsets(left, right, maxSkewSec)
  {
    var maxSkewItems := MaxSkewItems(maxSkewSec);
    var minItems := MinItems();
    var maxItems := MaxItems();
    ghost var f := OffsetCandidates(left, right, minItems, maxItems);
    if |left| == 0 || |right| == 0 {
      EmptyNeverMatches(left, right, -maxSkewItems, maxSkewItems + 1);
      return None;
    }
    best := None;
    for offset := -maxSkewItems to maxSkewItems + 1
      invariant best == FirstBest(f, -maxSkewItems, offset)
    {
      var candidate := BestRunAtOffset(left, right, offset, minItems, maxItems);
      if BetterMatch(candidate, best) {
        best := candidate;
      }
    }
  }

  lemma {:induction false} EmptyNeverMatches(left: seq<Item>, right: seq<Item>, lo: int, hi: int)
    requires |left| == 0 || |right| == 0
    requires lo <= hi
    ensures FirstBest(OffsetCandidates(left, right, MinItems(), MaxItems()), lo, hi) == None
    decreases hi - lo
  {
    if lo < hi {
      EmptyNeverMatches(left, right, lo, hi - 1);
    }
  }
}
