/**
 * The shared HLS segment table and the seek arithmetic of copy runs
 * (internal/transcode/playlist_vod.go, ffargs.go, keyframes.go). Times are exact reals.
 */
module HlsTimeline {
  import opened Rounding
  import opened Wrappers

  const SEGMENT_TARGET_SECONDS: real := 6.0
  const MIN_SEGMENT_LENGTH: real := 0.1
  const COPY_SEEK_PREROLL: real := 1.5
  const COPY_SEEK_TRIM: real := 0.5
  const KEYFRAME_MATCH_TOLERANCE: real := 0.002

  predicate StrictlyIncreasing(s: seq<real>) {
    forall i, j :: 0 <= i < j < |s| ==> s[i] < s[j]
  }

  function Min(a: real, b: real): real {
    if b < a then b else a
  }

  function Max(a: real, b: real): real {
    if b > a then b else a
  }

  function Abs(x: real): real {
    if x < 0.0 then -x else x
  }

  // ----- The packet listing -----

  // One `pts_time,size,flags` row with a readable time; the size may not be a number.
  datatype PacketRow = PacketRow(seconds: real, size: Option<int>, isKeyframe: bool)

  datatype PacketSample = PacketSample(pts: real, size: nat)

  datatype PacketIndex = PacketIndex(keyframes: seq<real>, packets: seq<PacketSample>)

  predicate Kept(rows: seq<PacketRow>, i: int)
    requires 0 <= i < |rows|
  {
    && rows[i].isKeyframe && rows[i].seconds >= 0.0
    && forall j :: 0 <= j < i && rows[j].isKeyframe ==> rows[j].seconds < rows[i].seconds
  }

  // The rows with a positive size, in order.
  function Samples(rows: seq<PacketRow>): (samples: seq<PacketSample>)
    ensures |samples| <= |rows| && forall k :: 0 <= k < |samples| ==> samples[k].size > 0
  {
    if rows == [] then []
    else
      var front, row := Samples(rows[..|rows| - 1]), rows[|rows| - 1];
      if row.size.Some? && row.size.value > 0 then front + [PacketSample(row.seconds, row.size.value)] else front
  }

  lemma NoSamples()
    ensures Samples([]) == []
  {
  }

  lemma SamplesStep(rows: seq<PacketRow>, n: int)
    requires 0 <= n < |rows|
    ensures var before, row := Samples(rows[..n]), rows[n];
            Samples(rows[..n + 1]) == if row.size.Some? && row.size.value > 0
                                      then before + [PacketSample(row.seconds, row.size.value)] else before
  {
    assert rows[..n + 1][..n] == rows[..n];
  }

  // The keyframes kept of the first n rows, and the last of them or -1.
  ghost predicate Scanned(rows: seq<PacketRow>, n: int, keyframes: seq<real>, previous: real) {
    && 0 <= n <= |rows| && (previous == -1.0 || previous >= 0.0)
    && (if keyframes == [] then previous == -1.0 else keyframes[|keyframes| - 1] == previous)
    && (forall j :: 0 <= j < n && rows[j].isKeyframe ==> rows[j].seconds < 0.0 || rows[j].seconds <= previous)
    && (previous != -1.0 ==> exists j :: 0 <= j < n && rows[j].isKeyframe && rows[j].seconds == previous)
    && StrictlyIncreasing(keyframes) && (forall k :: 0 <= k < |keyframes| ==> keyframes[k] >= 0.0)
    && forall t :: t in keyframes <==> exists i :: 0 <= i < n && Kept(rows, i) && rows[i].seconds == t
  }

  lemma ScanRow(rows: seq<PacketRow>, n: int, keyframes: seq<real>, previous: real)
    requires n < |rows| && Scanned(rows, n, keyframes, previous)
    ensures var seconds := rows[n].seconds;
            if rows[n].isKeyframe && !(seconds < 0.0 || seconds <= previous)
            then Scanned(rows, n + 1, keyframes + [seconds], seconds)
            else Scanned(rows, n + 1, keyframes, previous)
  {
    var seconds := rows[n].seconds;
    if rows[n].isKeyframe && !(seconds < 0.0 || seconds <= previous) {
      assert Kept(rows, n);
      var longer := keyframes + [seconds];
      assert forall t :: t in longer <==> t in keyframes || t == seconds;
    } else {
      assert !Kept(rows, n);
    }
  }

  /**
   * parsePacketCSV keeps exactly the strict running maxima of the keyframe times, and a sample of
   * every row with a positive size.
   */
  method ParsePackets(rows: seq<PacketRow>) returns (index: PacketIndex)
    ensures StrictlyIncreasing(index.keyframes) && forall k :: 0 <= k < |index.keyframes| ==> index.keyframes[k] >= 0.0
    ensures forall t :: t in index.keyframes <==> exists i :: 0 <= i < |rows| && Kept(rows, i) && rows[i].seconds == t
    ensures index.packets == Samples(rows)
  {
    hide Samples, Kept;
    var keyframes: seq<real> := [];
    var packets: seq<PacketSample> := [];
    NoSamples();
    var previous := -1.0;
    for n := 0 to |rows|
      invariant packets == Samples(rows[..n]) && Scanned(rows, n, keyframes, previous)
    {
      hide Scanned;
      SamplesStep(rows, n);
      ScanRow(rows, n, keyframes, previous);
      var seconds, size := rows[n].seconds, rows[n].size;
      if size.Some? && size.value > 0 {
        packets := packets + [PacketSample(seconds, size.value)];
      }
      if !rows[n].isKeyframe || seconds < 0.0 || seconds <= previous {
        continue;
      }
      keyframes := keyframes + [seconds];
      previous := seconds;
    }
    assert rows[..|rows|] == rows;
    index := PacketIndex(keyframes, packets);
  }

  // The times at or after the offset, measured from it.
  function ShiftDown(times: seq<real>, offset: real): (shifted: seq<real>)
    ensures forall t :: t in shifted <==> t >= 0.0 && t + offset in times
  {
    if times == [] then []
    else
      var front, last := ShiftDown(times[..|times| - 1], offset), times[|times| - 1] - offset;
      assert times == times[..|times| - 1] + [times[|times| - 1]];
      if last >= 0.0 then front + [last] else front
  }

  lemma {:induction false} ShiftKeepsOrder(times: seq<real>, offset: real)
    requires StrictlyIncreasing(times)
    ensures StrictlyIncreasing(ShiftDown(times, offset))
  {
    if times != [] {
      var front := times[..|times| - 1];
      ShiftKeepsOrder(front, offset);
      var shifted := ShiftDown(front, offset);
      forall k | 0 <= k < |shifted|
        ensures shifted[k] < times[|times| - 1] - offset
      {
        assert shifted[k] in shifted;
        var j :| 0 <= j < |front| && front[j] == shifted[k] + offset;
      }
    }
  }

  /** normalized moves keyframes and packets alike onto the timeline that starts at the container's start time. */
  method Normalize(index: PacketIndex, startSeconds: real) returns (shifted: PacketIndex)
    ensures startSeconds == 0.0 ==> shifted == index
    ensures startSeconds != 0.0 ==> shifted.keyframes == ShiftDown(index.keyframes, startSeconds)
    ensures StrictlyIncreasing(index.keyframes) ==> StrictlyIncreasing(shifted.keyframes)
    ensures |shifted.packets| == |index.packets|
    ensures forall k :: 0 <= k < |index.packets| ==>
              shifted.packets[k] == PacketSample(index.packets[k].pts - startSeconds, index.packets[k].size)
  {
    if startSeconds == 0.0 {
      return index;
    }
    var keyframes: seq<real> := [];
    for n := 0 to |index.keyframes|
      invariant keyframes == ShiftDown(index.keyframes[..n], startSeconds)
    {
      assert index.keyframes[..n + 1][..n] == index.keyframes[..n];
      var value := index.keyframes[n] - startSeconds;
      if value >= 0.0 {
        keyframes := keyframes + [value];
      }
    }
    assert index.keyframes[..|index.keyframes|] == index.keyframes;
    if StrictlyIncreasing(index.keyframes) {
      ShiftKeepsOrder(index.keyframes, startSeconds);
    }
    var packets: seq<PacketSample> := [];
    for n := 0 to |index.packets|
      invariant |packets| == n
      invariant forall k :: 0 <= k < n ==>
                  packets[k] == PacketSample(index.packets[k].pts - startSeconds, index.packets[k].size)
    {
      packets := packets + [PacketSample(index.packets[n].pts - startSeconds, index.packets[n].size)];
    }
    shifted := PacketIndex(keyframes, packets);
  }

  // ----- The segment table -----

  // The offset of a segment: the sum of the lengths before it.
  function SegmentStart(segments: seq<real>, index: int): real
    requires index <= |segments|
  {
    if index <= 0 then 0.0 else SegmentStart(segments, index - 1) + segments[index - 1]
  }

  function Total(segments: seq<real>): real {
    SegmentStart(segments, |segments|)
  }

  method ComputeSegmentStart(segments: seq<real>, index: int) returns (start: real)
    ensures start == SegmentStart(segments, if index <= |segments| then index else |segments|)
  {
    start := 0.0;
    var position := 0;
    while position < index && position < |segments|
      invariant 0 <= position <= |segments| && (position <= index || index < 0)
      invariant index < 0 ==> position == 0
      invariant start == SegmentStart(segments, position)
    {
      start := start + segments[position];
      position := position + 1;
    }
  }

  // A keyframe is cut at when it is at least a target past the last cut and inside the media.
  predicate CutAt(keyframe: real, lastCut: real, duration: real, target: real) {
    && !(keyframe < lastCut + target || keyframe >= duration)
    && !(keyframe - lastCut < MIN_SEGMENT_LENGTH)
  }

  // The lengths between consecutive cuts of keyframes[..n], and the last cut.
  function Cuts(keyframes: seq<real>, n: int, duration: real, target: real): (r: (seq<real>, real))
    requires 0 <= n <= |keyframes|
  {
    if n == 0 then ([], 0.0)
    else
      var (segments, lastCut) := Cuts(keyframes, n - 1, duration, target);
      if CutAt(keyframes[n - 1], lastCut, duration, target)
      then (segments + [keyframes[n - 1] - lastCut], keyframes[n - 1])
      else (segments, lastCut)
  }

  function KeyframeSegments(keyframes: seq<real>, duration: real, target: real): seq<real> {
    var (segments, lastCut) := Cuts(keyframes, |keyframes|, duration, target);
    if duration - lastCut >= MIN_SEGMENT_LENGTH then segments + [duration - lastCut] else segments
  }

  method ComputeKeyframeSegments(keyframes: seq<real>, duration: real, target: real) returns (segments: seq<real>)
    ensures segments == KeyframeSegments(keyframes, duration, target)
  {
    segments := [];
    var lastCut, desiredCut := 0.0, target;
    for n := 0 to |keyframes|
      invariant (segments, lastCut) == Cuts(keyframes, n, duration, target)
      invariant desiredCut == lastCut + target
    {
      var keyframe := keyframes[n];
      if keyframe < desiredCut || keyframe >= duration {
        continue;
      }
      var length := keyframe - lastCut;
      if length < MIN_SEGMENT_LENGTH {
        continue;
      }
      segments := segments + [length];
      lastCut := keyframe;
      desiredCut := lastCut + target;
    }
    var remaining := duration - lastCut;
    if remaining >= MIN_SEGMENT_LENGTH {
      segments := segments + [remaining];
    }
  }

  function EqualLengthSegments(duration: real, target: real): seq<real>
    requires target > 0.0
  {
    var count := Ceil(duration / target);
    if count <= 0 then []
    else
      var last := duration - target * ((count - 1) as real);
      var full := seq(count - 1, _ => target);
      if last < MIN_SEGMENT_LENGTH then full else full + [last]
  }

  function SegmentTable(keyframes: seq<real>, duration: real, target: real): seq<real> {
    if duration <= 0.0 || target <= 0.0 then []
    else if keyframes == [] || KeyframeSegments(keyframes, duration, target) == []
    then EqualLengthSegments(duration, target)
    else KeyframeSegments(keyframes, duration, target)
  }

  // ----- What the table promises -----

  lemma {:induction false} StartOfPrefix(s: seq<real>, t: seq<real>, index: int)
    requires index <= |s| <= |t| && t[..|s|] == s
    ensures SegmentStart(t, index) == SegmentStart(s, index)
    decreases index
  {
    if index > 0 {
      StartOfPrefix(s, t, index - 1);
    }
  }

  // Every cut so far is a keyframe, every length but the open tail reaches the target.
  lemma {:induction false} CutsAreKeyframes(keyframes: seq<real>, n: int, duration: real, target: real)
    requires 0 <= n <= |keyframes| && 0.0 < target
    ensures var (segments, lastCut) := Cuts(keyframes, n, duration, target);
            && Total(segments) == lastCut
            && (forall i :: 0 < i <= |segments| ==> SegmentStart(segments, i) in keyframes)
            && (forall i :: 0 <= i < |segments| ==> segments[i] >= target && segments[i] >= MIN_SEGMENT_LENGTH)
            && (segments == [] ==> lastCut == 0.0) && (segments != [] ==> lastCut < duration)
  {
    if n > 0 {
      CutsAreKeyframes(keyframes, n - 1, duration, target);
      var (segments, lastCut) := Cuts(keyframes, n - 1, duration, target);
      var longer := segments + [keyframes[n - 1] - lastCut];
      forall i | 0 <= i <= |segments|
        ensures SegmentStart(longer, i) == SegmentStart(segments, i)
      {
        StartOfPrefix(segments, longer, i);
      }
    }
  }

  /**
   * A keyframe table cuts only at keyframes, every segment but the last reaches the target, and it
   * covers the media up to less than one minimum segment.
   */
  lemma KeyframeTableIsSound(keyframes: seq<real>, duration: real, target: real)
    requires 0.0 < duration && 0.0 < target
    ensures var segments := KeyframeSegments(keyframes, duration, target);
            && (forall i :: 0 < i < |segments| ==> SegmentStart(segments, i) in keyframes)
            && (forall i :: 0 <= i < |segments| ==> segments[i] >= MIN_SEGMENT_LENGTH)
            && (forall i :: 0 <= i < |segments| - 1 ==> segments[i] >= target)
            && duration - MIN_SEGMENT_LENGTH < Total(segments) <= duration
  {
    CutsAreKeyframes(keyframes, |keyframes|, duration, target);
    var (cuts, lastCut) := Cuts(keyframes, |keyframes|, duration, target);
    var segments := KeyframeSegments(keyframes, duration, target);
    forall i | 0 <= i <= |cuts|
      ensures SegmentStart(segments, i) == SegmentStart(cuts, i)
    {
      StartOfPrefix(cuts, segments, i);
    }
  }

  lemma {:induction false} StartOfConstant(s: seq<real>, target: real, i: nat)
    requires i <= |s| && forall k :: 0 <= k < i ==> s[k] == target
    ensures SegmentStart(s, i) == target * (i as real)
    decreases i
  {
    if i > 0 {
      StartOfConstant(s, target, i - 1);
      assert i as real == (i - 1) as real + 1.0;
    }
  }

  lemma CeilBounds(x: real)
    ensures (Ceil(x) - 1) as real < x <= Ceil(x) as real
  {
  }

  // What is left for the last of count segments when all others have the target length.
  lemma LastLength(duration: real, target: real)
    requires 0.0 < duration && 0.0 < target
    ensures var count := Ceil(duration / target);
            1 <= count && 0.0 < duration - target * ((count - 1) as real) <= target
  {
    var q := duration / target;
    assert target * q == duration && q > 0.0;
    var count := Ceil(q);
    CeilBounds(q);
    var full := (count - 1) as real;
    assert count as real == full + 1.0;
    MultiplyStrictly(full, q, target);
    MultiplyOrder(q, full + 1.0, target);
    assert target * (full + 1.0) == target * full + target;
  }

  /**
   * The equal-length fallback covers the media up to less than one minimum segment, and no segment is
   * shorter than the shorter of target and minimum.
   */
  lemma EqualTableIsSound(duration: real, target: real)
    requires 0.0 < duration && 0.0 < target
    ensures var segments := EqualLengthSegments(duration, target);
            && (forall i :: 0 <= i < |segments| ==> Min(MIN_SEGMENT_LENGTH, target) <= segments[i] <= target)
            && duration - MIN_SEGMENT_LENGTH < Total(segments) <= duration
  {
    hide Ceil;
    LastLength(duration, target);
    var count := Ceil(duration / target);
    var segments := EqualLengthSegments(duration, target);
    assert |segments| == count - 1 || |segments| == count;
    StartOfConstant(segments, target, count - 1);
  }

  lemma MultiplyStrictly(a: real, b: real, n: real)
    requires a < b && n > 0.0
    ensures n * a < n * b
  {
  }

  lemma MultiplyOrder(a: real, b: real, n: real)
    requires a <= b && n > 0.0
    ensures n * a <= n * b
  {
  }

  /**
   * Whatever table is published, its lengths sum to the media duration up to less than a minimum
   * segment; without a duration or a target there is no table.
   */
  lemma TableCoversMedia(keyframes: seq<real>, duration: real, target: real)
    ensures var segments := SegmentTable(keyframes, duration, target);
            if duration <= 0.0 || target <= 0.0 then segments == []
            else
              && duration - MIN_SEGMENT_LENGTH < Total(segments) <= duration
              && forall i :: 0 <= i < |segments| ==> segments[i] >= Min(MIN_SEGMENT_LENGTH, target)
  {
    if 0.0 < duration && 0.0 < target {
      EqualTableIsSound(duration, target);
      KeyframeTableIsSound(keyframes, duration, target);
    }
  }

  // ----- Cut times of a run -----

  /** The cuts of a run started at `startIndex`, shifted by its start, are the shared table's boundaries. */
  method CutTimes(segments: seq<real>, startIndex: int) returns (cuts: seq<real>)
    requires 0 <= startIndex
    ensures |cuts| == if startIndex < |segments| then |segments| - startIndex - 1 else 0
    ensures forall k :: 0 <= k < |cuts| ==>
              SegmentStart(segments, startIndex) + cuts[k] == SegmentStart(segments, startIndex + k + 1)
  {
    var elapsed := 0.0;
    var end := |segments|;
    cuts := [];
    var index := startIndex;
    while index < end - 1
      invariant startIndex <= index && (index <= end - 1 || index == startIndex)
      invariant |cuts| == index - startIndex
      invariant index <= |segments| ==> SegmentStart(segments, startIndex) + elapsed == SegmentStart(segments, index)
      invariant forall k :: 0 <= k < |cuts| && startIndex < end ==>
                  SegmentStart(segments, startIndex) + cuts[k] == SegmentStart(segments, startIndex + k + 1)
    {
      elapsed := elapsed + segments[index];
      cuts := cuts + [elapsed];
      index := index + 1;
    }
  }

  // ----- Copy seeks -----

  // The first position whose element is at least x.
  function FirstAtLeast(s: seq<real>, x: real): (p: int)
    ensures 0 <= p <= |s|
    ensures forall k :: 0 <= k < p ==> s[k] < x
    ensures p < |s| ==> s[p] >= x
  {
    if s == [] || s[0] >= x then 0 else FirstAtLeast(s[1..], x) + 1
  }

  // sort.SearchFloat64s: binary search, on any list.
  function Search(s: seq<real>, x: real, low: int, high: int): (p: int)
    requires 0 <= low <= high <= |s|
    ensures low <= p <= high
    ensures p == low || s[p - 1] < x
    ensures p == high || s[p] >= x
    decreases high - low
  {
    if low == high then low
    else
      var mid := (low + high) / 2;
      if s[mid] < x then Search(s, x, mid + 1, high) else Search(s, x, low, mid)
  }

  method SearchFloats(s: seq<real>, x: real) returns (p: int)
    ensures p == Search(s, x, 0, |s|)
  {
    var low, high := 0, |s|;
    while low < high
      invariant 0 <= low <= high <= |s| && Search(s, x, low, high) == Search(s, x, 0, |s|)
    {
      var mid := (low + high) / 2;
      if s[mid] < x {
        low := mid + 1;
      } else {
        high := mid;
      }
    }
    return low;
  }

  /** On an ordered list the binary search finds the first position whose element is not below the key. */
  lemma SearchIsFirst(s: seq<real>, x: real)
    requires forall i, j :: 0 <= i < j < |s| ==> s[i] <= s[j]
    ensures Search(s, x, 0, |s|) == FirstAtLeast(s, x)
  {
    FirstAtLeastIs(s, x, Search(s, x, 0, |s|));
  }

  lemma {:induction false} FirstAtLeastIs(s: seq<real>, x: real, p: int)
    requires 0 <= p <= |s| && (forall k :: 0 <= k < p ==> s[k] < x) && forall k :: p <= k < |s| ==> s[k] >= x
    ensures FirstAtLeast(s, x) == p
  {
    if p > 0 {
      FirstAtLeastIs(s[1..], x, p - 1);
    }
  }

  function CopyTrim(keyframes: seq<real>, start: real, canCopy: bool): real {
    if !canCopy || start <= 0.0 then 0.0
    else
      var position := Search(keyframes, start - KEYFRAME_MATCH_TOLERANCE, 0, |keyframes|);
      if position >= |keyframes| || Abs(keyframes[position] - start) > KEYFRAME_MATCH_TOLERANCE then 0.0
      else
        var trim := Min(COPY_SEEK_TRIM, start);
        if position > 0 then Min(trim, (start - keyframes[position - 1]) / 2.0) else trim
  }

  // The -ss arguments and the timestamp offset of a run.
  datatype Seek = Seek(input: real, output: real, tsOffset: real)

  function SeekOf(start: real, trim: real): Seek {
    if trim > 0.0 then
      var input := Max(start - COPY_SEEK_PREROLL, 0.0);
      Seek(input, start - input - trim, start - trim)
    else Seek(Max(start, 0.0), 0.0, start)
  }

  predicate NearKeyframe(keyframes: seq<real>, start: real, k: int) {
    0 <= k < |keyframes| && Abs(keyframes[k] - start) <= KEYFRAME_MATCH_TOLERANCE
  }

  // The first keyframe within the tolerance of the start, which the trim aims at.
  predicate IsTarget(keyframes: seq<real>, start: real, k: int) {
    NearKeyframe(keyframes, start, k) && forall i :: 0 <= i < k ==> !NearKeyframe(keyframes, start, i)
  }

  lemma {:induction false} FirstNear(keyframes: seq<real>, start: real, k: int) returns (target: int)
    requires NearKeyframe(keyframes, start, k)
    ensures IsTarget(keyframes, start, target)
    decreases k
  {
    if i :| 0 <= i < k && NearKeyframe(keyframes, start, i) {
      target := FirstNear(keyframes, start, i);
    } else {
      target := k;
    }
  }

  lemma TargetIsFound(keyframes: seq<real>, start: real, k: int)
    requires StrictlyIncreasing(keyframes) && IsTarget(keyframes, start, k)
    ensures Search(keyframes, start - KEYFRAME_MATCH_TOLERANCE, 0, |keyframes|) == k
  {
    var position := FirstAtLeast(keyframes, start - KEYFRAME_MATCH_TOLERANCE);
    SearchIsFirst(keyframes, start - KEYFRAME_MATCH_TOLERANCE);
    assert position <= k;
    assert position < k ==> keyframes[position] < keyframes[k];
    assert NearKeyframe(keyframes, start, position);
  }

  /** The trim is positive exactly for copy runs past zero whose start matches a keyframe. */
  lemma TrimPositiveIff(keyframes: seq<real>, start: real, canCopy: bool)
    requires StrictlyIncreasing(keyframes)
    ensures CopyTrim(keyframes, start, canCopy) > 0.0 <==>
            canCopy && start > 0.0 && exists k :: NearKeyframe(keyframes, start, k)
    ensures CopyTrim(keyframes, start, canCopy) >= 0.0
  {
    var position := Search(keyframes, start - KEYFRAME_MATCH_TOLERANCE, 0, |keyframes|);
    if k :| NearKeyframe(keyframes, start, k) {
      var target := FirstNear(keyframes, start, k);
      TargetIsFound(keyframes, start, target);
    } else if position < |keyframes| {
      assert !NearKeyframe(keyframes, start, position);
    }
  }

  /**
   * A positive trim puts the cut strictly after the keyframe before the target; the input seek lands
   * at or before the cut, and both seeks add up to it. The cut is not after the target itself exactly
   * when the start is no further behind the target than the target is behind the keyframe before it.
   */
  lemma CutSeparatesKeyframes(keyframes: seq<real>, start: real, k: int)
    requires StrictlyIncreasing(keyframes) && forall i :: 0 <= i < |keyframes| ==> keyframes[i] >= 0.0
    requires start > 0.0 && IsTarget(keyframes, start, k)
    ensures var trim := CopyTrim(keyframes, start, true);
            var seek := SeekOf(start, trim);
            && 0.0 < trim <= COPY_SEEK_TRIM
            && (k > 0 ==> keyframes[k - 1] < seek.tsOffset)
            && (seek.tsOffset <= keyframes[k] <==>
                  k == 0 || start - keyframes[k] <= keyframes[k] - keyframes[k - 1])
            && 0.0 <= seek.input && 0.0 <= seek.output && seek.input + seek.output == seek.tsOffset
  {
    TargetIsFound(keyframes, start, k);
    if k > 0 {
      assert keyframes[k - 1] < start - KEYFRAME_MATCH_TOLERANCE;
    }
  }

  // The keyframe a copy run begins with: the first one its cut leaves.
  function FirstKept(keyframes: seq<real>, start: real): int {
    FirstAtLeast(keyframes, SeekOf(start, CopyTrim(keyframes, start, true)).tsOffset)
  }

  /**
   * A copy run that starts on keyframe m, aiming at the first keyframe k within the tolerance of it,
   * begins with keyframe m exactly when they are the same, or the keyframe before m is nearer to m than
   * half of the way back to the keyframe before k.
   */
  lemma RunBeginsOnTargetIff(keyframes: seq<real>, m: int, k: int)
    requires StrictlyIncreasing(keyframes) && forall i :: 0 <= i < |keyframes| ==> keyframes[i] >= 0.0
    requires 0 <= m < |keyframes| && keyframes[m] > 0.0 && IsTarget(keyframes, keyframes[m], k)
    ensures FirstKept(keyframes, keyframes[m]) == m <==>
            k == m || (0 < k < m && 2.0 * (keyframes[m] - keyframes[m - 1]) > keyframes[m] - keyframes[k - 1])
    ensures k <= FirstKept(keyframes, keyframes[m]) <= m
  {
    hide FirstAtLeast, SeekOf;
    var start := keyframes[m];
    assert NearKeyframe(keyframes, start, m);
    var cut := CutOfTarget(keyframes, start, k);
    FirstIs(keyframes, cut, k);
    if k < m {
      BetweenIsNear(keyframes, m, k);
      CutBeforeIff(keyframes, m, k, cut);
    }
    FirstIs(keyframes, cut, m);
  }

  // Where the cut of a run lies that aims at keyframe k.
  lemma CutOfTarget(keyframes: seq<real>, start: real, k: int) returns (cut: real)
    requires StrictlyIncreasing(keyframes) && forall i :: 0 <= i < |keyframes| ==> keyframes[i] >= 0.0
    requires start > 0.0 && IsTarget(keyframes, start, k)
    ensures cut == SeekOf(start, CopyTrim(keyframes, start, true)).tsOffset < start
    ensures k > 0 ==> keyframes[k - 1] < cut
    ensures var trim := Min(COPY_SEEK_TRIM, start);
            cut == start - if k > 0 then Min(trim, (start - keyframes[k - 1]) / 2.0) else trim
  {
    TargetIsFound(keyframes, start, k);
    CutSeparatesKeyframes(keyframes, start, k);
    cut := SeekOf(start, CopyTrim(keyframes, start, true)).tsOffset;
  }

  lemma BetweenIsNear(keyframes: seq<real>, m: int, k: int)
    requires StrictlyIncreasing(keyframes) && 0 <= k < m < |keyframes|
    requires NearKeyframe(keyframes, keyframes[m], k)
    ensures 0.0 < keyframes[m] - keyframes[m - 1] <= KEYFRAME_MATCH_TOLERANCE
  {
    assert k < m - 1 ==> keyframes[k] < keyframes[m - 1];
  }

  lemma CutBeforeIff(keyframes: seq<real>, m: int, k: int, cut: real)
    requires 0 <= k < m < |keyframes| && keyframes[m - 1] >= 0.0
    requires 0.0 < keyframes[m] - keyframes[m - 1] <= KEYFRAME_MATCH_TOLERANCE
    requires var trim := Min(COPY_SEEK_TRIM, keyframes[m]);
             cut == keyframes[m] - if k > 0 then Min(trim, (keyframes[m] - keyframes[k - 1]) / 2.0) else trim
    ensures keyframes[m - 1] < cut <==>
            k > 0 && 2.0 * (keyframes[m] - keyframes[m - 1]) > keyframes[m] - keyframes[k - 1]
  {
  }

  // Against a keyframe that is not below the key, the search stops there or before it.
  lemma FirstIs(keyframes: seq<real>, cut: real, m: int)
    requires StrictlyIncreasing(keyframes) && 0 <= m < |keyframes|
    ensures cut <= keyframes[m] ==> FirstAtLeast(keyframes, cut) <= m
    ensures m > 0 ==> (FirstAtLeast(keyframes, cut) >= m <==> keyframes[m - 1] < cut)
  {
    var first := FirstAtLeast(keyframes, cut);
    if first < m {
      assert keyframes[first] <= keyframes[m - 1];
    }
  }

  /** Keyframes more than the tolerance apart meet the condition: every run begins with the keyframe it starts on. */
  lemma SpacedRunsBeginOnTarget(keyframes: seq<real>, m: int)
    requires StrictlyIncreasing(keyframes) && forall i :: 0 <= i < |keyframes| ==> keyframes[i] >= 0.0
    requires forall i :: 0 < i < |keyframes| ==> keyframes[i] - keyframes[i - 1] > KEYFRAME_MATCH_TOLERANCE
    requires 0 <= m < |keyframes| && keyframes[m] > 0.0
    ensures FirstKept(keyframes, keyframes[m]) == m
  {
    assert NearKeyframe(keyframes, keyframes[m], m);
    forall i | 0 <= i < m
      ensures !NearKeyframe(keyframes, keyframes[m], i)
    {
      assert keyframes[i] <= keyframes[m - 1];
    }
    RunBeginsOnTargetIff(keyframes, m, m);
  }

  /**
   * On a keyframe table every run but the first starts exactly on a keyframe, so a copy run there
   * always trims, and whether it begins with that keyframe is decided by the condition above.
   */
  lemma EveryCopyRunTrims(keyframes: seq<real>, duration: real, index: int) returns (m: int, k: int)
    requires StrictlyIncreasing(keyframes) && 0.0 < duration
    requires forall i :: 0 <= i < |keyframes| ==> keyframes[i] >= 0.0
    requires 0 < index < |KeyframeSegments(keyframes, duration, SEGMENT_TARGET_SECONDS)|
    ensures var start := SegmentStart(KeyframeSegments(keyframes, duration, SEGMENT_TARGET_SECONDS), index);
            && 0 <= m < |keyframes| && keyframes[m] == start > 0.0 && IsTarget(keyframes, start, k)
            && CopyTrim(keyframes, start, true) > 0.0
            && (FirstKept(keyframes, start) == m <==>
                  k == m || (0 < k < m && 2.0 * (start - keyframes[m - 1]) > start - keyframes[k - 1]))
  {
    hide KeyframeSegments, SegmentStart, CopyTrim, SeekOf, FirstKept;
    var segments := KeyframeSegments(keyframes, duration, SEGMENT_TARGET_SECONDS);
    KeyframeTableIsSound(keyframes, duration, SEGMENT_TARGET_SECONDS);
    var start := SegmentStart(segments, index);
    assert start in keyframes;
    m :| 0 <= m < |keyframes| && keyframes[m] == start;
    StartIsPositive(segments, index);
    assert NearKeyframe(keyframes, start, m);
    k := FirstNear(keyframes, start, m);
    CutSeparatesKeyframes(keyframes, start, k);
    RunBeginsOnTargetIff(keyframes, m, k);
  }

  /**
   * The condition can fail on a table: with keyframes 1 ms apart at six seconds the second run starts on
   * the later one, and its cut leaves the earlier one too.
   */
  lemma CloseKeyframesBeginEarly()
    ensures var keyframes := [5.999, 6.0];
            && SegmentTable(keyframes, 20.0, SEGMENT_TARGET_SECONDS) == [6.0, 14.0]
            && SegmentStart([6.0, 14.0], 1) == keyframes[1]
            && FirstKept(keyframes, keyframes[1]) == 0
  {
    var keyframes := [5.999, 6.0];
    assert Cuts(keyframes, 0, 20.0, 6.0) == ([], 0.0);
    assert Cuts(keyframes, 1, 20.0, 6.0) == ([], 0.0);
    var (segments, lastCut) := Cuts(keyframes, 2, 20.0, 6.0);
    assert segments == [] + [6.0] == [6.0] && lastCut == 6.0;
    assert KeyframeSegments(keyframes, 20.0, 6.0) == segments + [14.0] == [6.0, 14.0];
    assert SegmentStart([6.0, 14.0], 0) == 0.0;
    assert NearKeyframe(keyframes, 6.0, 0) && IsTarget(keyframes, 6.0, 0);
    RunBeginsOnTargetIff(keyframes, 1, 0);
  }

  lemma {:induction false} StartIsPositive(segments: seq<real>, index: int)
    requires 0 < index <= |segments| && forall i :: 0 <= i < |segments| ==> segments[i] > 0.0
    ensures SegmentStart(segments, index) > 0.0
    decreases index
  {
    if index > 1 {
      StartIsPositive(segments, index - 1);
    }
  }
}
