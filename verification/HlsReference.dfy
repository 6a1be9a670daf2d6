/**
 * The segment table, the seeks of a run and the bitrates once more, as a reader of playlist_vod.go,
 * ffargs.go and keyframes.go would state them: by the keyframes, the media time and the packets
 * alone, with every limit written out.
 */
module HlsReference {
  import opened HlsTimeline
  import opened HlsBitrates
  import opened Picking

  // ----- The packet listing -----

  function IsSized(): PacketRow -> bool {
    (row: PacketRow) => row.size.Some? && row.size.value > 0
  }

  /** The samples are the rows with a positive size, each once and in the order of the listing. */
  lemma {:induction false} SamplesAreSizedRows(rows: seq<PacketRow>) returns (at: seq<int>)
    ensures PicksOut(rows, IsSized(), at) && |at| == |Samples(rows)|
    ensures forall j :: 0 <= j < |at| ==>
              Samples(rows)[j] == PacketSample(rows[at[j]].seconds, rows[at[j]].size.value)
  {
    at := [];
    if rows != [] {
      var last := |rows| - 1;
      var before := SamplesAreSizedRows(rows[..last]);
      at := if IsSized()(rows[last]) then before + [last] else before;
      PickLast(rows, IsSized(), before);
    }
  }

  /** A keyframe is kept exactly when its time is not negative and no keyframe listed before it reaches that time. */
  lemma KeptIff(rows: seq<PacketRow>, i: int)
    requires 0 <= i < |rows|
    ensures Kept(rows, i) <==>
            && rows[i].isKeyframe && !(rows[i].seconds < 0.0)
            && !exists j :: 0 <= j < i && rows[j].isKeyframe && rows[j].seconds >= rows[i].seconds
  {
  }

  // ----- The segment table -----

  // A segment from `start` may end on the keyframe time t.
  predicate MayEnd(t: real, start: real, duration: real, target: real) {
    t >= start + target && t >= start + 0.1 && t < duration
  }

  // A segment from `start` ends on the first keyframe it may end on, or else with the media.
  ghost predicate EndsAt(keyframes: seq<real>, start: real, end: real, duration: real, target: real) {
    && (forall k :: 0 <= k < |keyframes| && MayEnd(keyframes[k], start, duration, target) ==> end <= keyframes[k])
    && ((end in keyframes && MayEnd(end, start, duration, target)) || (end == duration && end >= start + 0.1))
  }

  // From `end` on there is neither a keyframe to end a segment on nor a tenth of a second of media.
  ghost predicate NothingAfter(keyframes: seq<real>, end: real, duration: real, target: real) {
    && (forall k :: 0 <= k < |keyframes| ==> !MayEnd(keyframes[k], end, duration, target))
    && end <= duration < end + 0.1
  }

  ghost predicate IsKeyframeTable(segments: seq<real>, keyframes: seq<real>, duration: real, target: real) {
    && (forall i :: 0 <= i < |segments| ==>
          EndsAt(keyframes, SegmentStart(segments, i), SegmentStart(segments, i + 1), duration, target))
    && NothingAfter(keyframes, SegmentStart(segments, |segments|), duration, target)
  }

  // Segments of the target length, and a last one with the rest unless that is under a tenth of a second.
  predicate IsEqualTable(segments: seq<real>, duration: real, target: real) {
    var rest := duration - SegmentStart(segments, |segments|);
    && (forall i :: 0 <= i < |segments| - 1 ==> segments[i] == target)
    && if rest == 0.0 then segments != [] && 0.1 <= segments[|segments| - 1] <= target
       else (segments != [] ==> segments[|segments| - 1] == target) && 0.0 < rest <= target && rest < 0.1
  }

  // What the first n keyframes settle: every length cut so far, and that none ends the open segment.
  ghost predicate CutSoFar(keyframes: seq<real>, n: int, segments: seq<real>, lastCut: real, duration: real,
                           target: real)
  {
    && 0 <= n <= |keyframes| && SegmentStart(segments, |segments|) == lastCut
    && (n > 0 ==> lastCut <= keyframes[n - 1])
    && (forall k :: 0 <= k < n ==> !MayEnd(keyframes[k], lastCut, duration, target))
    && (forall i :: 0 <= i <= |segments| ==> SegmentStart(segments, i) <= lastCut)
    && forall i :: 0 <= i < |segments| ==>
         EndsAt(keyframes, SegmentStart(segments, i), SegmentStart(segments, i + 1), duration, target)
  }

  lemma {:induction false} CutsAreGreedy(keyframes: seq<real>, n: int, duration: real, target: real)
    requires StrictlyIncreasing(keyframes) && forall k :: 0 <= k < |keyframes| ==> keyframes[k] >= 0.0
    requires 0 <= n <= |keyframes| && 0.0 < duration && 0.0 < target
    ensures var (segments, lastCut) := Cuts(keyframes, n, duration, target);
            CutSoFar(keyframes, n, segments, lastCut, duration, target)
  {
    if n > 0 {
      CutsAreGreedy(keyframes, n - 1, duration, target);
      var (segments, lastCut) := Cuts(keyframes, n - 1, duration, target);
      if CutAt(keyframes[n - 1], lastCut, duration, target) {
        OneCutMore(keyframes, n - 1, segments, lastCut, duration, target);
      }
    }
  }

  lemma OneCutMore(keyframes: seq<real>, n: int, segments: seq<real>, lastCut: real, duration: real, target: real)
    requires StrictlyIncreasing(keyframes) && 0 <= n < |keyframes| && 0.0 < target
    requires CutSoFar(keyframes, n, segments, lastCut, duration, target)
    requires MayEnd(keyframes[n], lastCut, duration, target)
    ensures CutSoFar(keyframes, n + 1, segments + [keyframes[n] - lastCut], keyframes[n], duration, target)
  {
    var longer := segments + [keyframes[n] - lastCut];
    forall i | 0 <= i <= |segments|
      ensures SegmentStart(longer, i) == SegmentStart(segments, i)
    {
      StartOfPrefix(segments, longer, i);
    }
    assert EndsAt(keyframes, lastCut, keyframes[n], duration, target);
  }

  lemma KeyframeTableIsGreedy(keyframes: seq<real>, duration: real, target: real)
    requires StrictlyIncreasing(keyframes) && forall k :: 0 <= k < |keyframes| ==> keyframes[k] >= 0.0
    requires 0.0 < duration && 0.0 < target
    ensures IsKeyframeTable(KeyframeSegments(keyframes, duration, target), keyframes, duration, target)
    ensures KeyframeSegments(keyframes, duration, target) == [] <==> duration < 0.1
  {
    CutsAreGreedy(keyframes, |keyframes|, duration, target);
    CutsAreKeyframes(keyframes, |keyframes|, duration, target);
    var (cuts, lastCut) := Cuts(keyframes, |keyframes|, duration, target);
    var segments := KeyframeSegments(keyframes, duration, target);
    forall i | 0 <= i <= |cuts|
      ensures SegmentStart(segments, i) == SegmentStart(cuts, i)
    {
      StartOfPrefix(cuts, segments, i);
    }
    if |segments| > |cuts| {
      assert EndsAt(keyframes, lastCut, duration, duration, target);
    }
  }

  lemma EqualTableIsEqual(duration: real, target: real)
    requires 0.0 < duration && 0.0 < target
    ensures IsEqualTable(EqualLengthSegments(duration, target), duration, target)
  {
    LastLength(duration, target);
    var segments := EqualLengthSegments(duration, target);
    var full := Rounding.Ceil(duration / target) - 1;
    StartOfConstant(segments, target, full);
  }

  /**
   * The published table. With keyframes and a tenth of a second of media every segment ends on the
   * first keyframe at least a target after its start, and the last one with the media; otherwise the
   * segments have the target length.
   */
  lemma PublishedTable(keyframes: seq<real>, duration: real, target: real)
    requires StrictlyIncreasing(keyframes) && forall k :: 0 <= k < |keyframes| ==> keyframes[k] >= 0.0
    ensures var segments := SegmentTable(keyframes, duration, target);
            if duration <= 0.0 || target <= 0.0 then segments == []
            else if keyframes == [] || duration < 0.1 then IsEqualTable(segments, duration, target)
            else IsKeyframeTable(segments, keyframes, duration, target)
  {
    if 0.0 < duration && 0.0 < target {
      KeyframeTableIsGreedy(keyframes, duration, target);
      EqualTableIsEqual(duration, target);
    }
  }

  /** These two descriptions leave no choice: a keyframe table is determined by keyframes, duration and target. */
  lemma {:induction false} KeyframeTableIsUnique(s: seq<real>, t: seq<real>, keyframes: seq<real>, duration: real,
                                                 target: real)
    requires 0.0 < target
    requires IsKeyframeTable(s, keyframes, duration, target) && IsKeyframeTable(t, keyframes, duration, target)
    ensures s == t
  {
    SamePrefix(s, t, keyframes, duration, target, if |s| <= |t| then |s| else |t|);
  }

  lemma {:induction false} SamePrefix(s: seq<real>, t: seq<real>, keyframes: seq<real>, duration: real, target: real,
                                      n: int)
    requires 0.0 < target && 0 <= n <= |s| && n <= |t|
    requires IsKeyframeTable(s, keyframes, duration, target) && IsKeyframeTable(t, keyframes, duration, target)
    ensures s[..n] == t[..n] && SegmentStart(s, n) == SegmentStart(t, n)
    ensures n == |s| || n == |t| ==> |s| == |t|
  {
    if n > 0 {
      SamePrefix(s, t, keyframes, duration, target, n - 1);
      var start := SegmentStart(s, n - 1);
      assert EndsAt(keyframes, start, SegmentStart(s, n), duration, target);
      assert EndsAt(keyframes, start, SegmentStart(t, n), duration, target);
      SameEnd(keyframes, start, SegmentStart(s, n), SegmentStart(t, n), duration, target);
    }
    if n == |s| < |t| {
      NoSegmentAfter(t, keyframes, n, duration, target);
    } else if n == |t| < |s| {
      NoSegmentAfter(s, keyframes, n, duration, target);
    }
  }

  lemma SameEnd(keyframes: seq<real>, start: real, a: real, b: real, duration: real, target: real)
    requires EndsAt(keyframes, start, a, duration, target) && EndsAt(keyframes, start, b, duration, target)
    ensures a == b
  {
  }

  lemma NoSegmentAfter(t: seq<real>, keyframes: seq<real>, n: int, duration: real, target: real)
    requires 0 <= n < |t| && IsKeyframeTable(t, keyframes, duration, target)
    ensures !NothingAfter(keyframes, SegmentStart(t, n), duration, target)
  {
    assert EndsAt(keyframes, SegmentStart(t, n), SegmentStart(t, n + 1), duration, target);
  }

  // ----- The seeks of a run -----

  // The run may copy, starts past zero and within 2 ms of keyframe k, and of none before it.
  predicate AimsAt(keyframes: seq<real>, start: real, canCopy: bool, k: int) {
    && canCopy && start > 0.0 && 0 <= k < |keyframes| && start - 0.002 <= keyframes[k] <= start + 0.002
    && forall i :: 0 <= i < k ==> !(start - 0.002 <= keyframes[i] <= start + 0.002)
  }

  /**
   * Where every run seeks. The two seeks add up to the timestamp offset. A run that aims at no keyframe
   * seeks its input to its start; one that does cuts at the latest of zero, half a second before its
   * start and the middle between its start and the keyframe before, and seeks its input to one and a
   * half seconds before its start.
   */
  lemma RunSeeks(keyframes: seq<real>, start: real, canCopy: bool)
    requires StrictlyIncreasing(keyframes) && forall i :: 0 <= i < |keyframes| ==> keyframes[i] >= 0.0
    ensures var seek := SeekOf(start, CopyTrim(keyframes, start, canCopy));
            && (start >= 0.0 ==> seek.input + seek.output == seek.tsOffset && seek.input >= 0.0 && seek.output >= 0.0)
            && ((forall k :: 0 <= k < |keyframes| ==> !AimsAt(keyframes, start, canCopy, k)) ==>
                  seek.input == Max(start, 0.0) && seek.output == 0.0 && seek.tsOffset == start)
            && forall k :: 0 <= k < |keyframes| && AimsAt(keyframes, start, canCopy, k) ==>
                 CutsAt(keyframes, start, k, seek.tsOffset)
                 && seek.input == (if start >= 1.5 then start - 1.5 else 0.0)
  {
    hide Search;
    if k :| 0 <= k < |keyframes| && AimsAt(keyframes, start, canCopy, k) {
      assert IsTarget(keyframes, start, k);
      TargetIsFound(keyframes, start, k);
      CutSeparatesKeyframes(keyframes, start, k);
      forall j | 0 <= j < |keyframes| && AimsAt(keyframes, start, canCopy, j)
        ensures j == k
      {
      }
    } else {
      NoTarget(keyframes, start, canCopy);
    }
  }

  // The latest of three times, the last only when there is a keyframe before k.
  predicate CutsAt(keyframes: seq<real>, start: real, k: int, cut: real)
    requires 0 <= k < |keyframes|
  {
    && cut >= 0.0 && cut >= start - 0.5 && (k > 0 ==> 2.0 * cut >= start + keyframes[k - 1])
    && (cut == 0.0 || cut == start - 0.5 || (k > 0 && 2.0 * cut == start + keyframes[k - 1]))
  }

  lemma NoTarget(keyframes: seq<real>, start: real, canCopy: bool)
    requires StrictlyIncreasing(keyframes)
    requires forall k :: 0 <= k < |keyframes| ==> !AimsAt(keyframes, start, canCopy, k)
    ensures CopyTrim(keyframes, start, canCopy) == 0.0
  {
    hide CopyTrim;
    TrimPositiveIff(keyframes, start, canCopy);
    if k :| canCopy && start > 0.0 && NearKeyframe(keyframes, start, k) {
      var target := FirstNear(keyframes, start, k);
      AimsAtTarget(keyframes, start, target);
    }
  }

  lemma AimsAtTarget(keyframes: seq<real>, start: real, k: int)
    requires start > 0.0 && IsTarget(keyframes, start, k)
    ensures AimsAt(keyframes, start, true, k)
  {
    forall i | 0 <= i < k
      ensures !(start - 0.002 <= keyframes[i] <= start + 0.002)
    {
      assert !NearKeyframe(keyframes, start, i);
    }
  }

  // ----- The bitrates -----

  // Segment b is the one a packet at `time` falls in: it starts before it and the next does not.
  predicate FallsIn(segments: seq<real>, time: real, b: int)
    requires 0 <= b < |segments|
  {
    && (b == 0 || SegmentStart(segments, b) < time)
    && (b == |segments| - 1 || time <= SegmentStart(segments, b + 1))
  }

  // The sizes of all packets together, and of those that fall in segment b.
  function Size(packets: seq<PacketSample>): int {
    if packets == [] then 0 else packets[0].size + Size(packets[1..])
  }

  function SizeIn(segments: seq<real>, packets: seq<PacketSample>, b: int): int
    requires 0 <= b < |segments|
  {
    if packets == [] then 0
    else (if FallsIn(segments, packets[0].pts + 0.000000001, b) then packets[0].size else 0)
         + SizeIn(segments, packets[1..], b)
  }

  // The whole bits per second of so many bytes in so many seconds.
  predicate IsBitrate(rate: int, bytes: int, seconds: real) {
    (rate as real) * seconds <= ((8 * bytes) as real) < ((rate + 1) as real) * seconds
  }

  // The bitrate of segment b, which is at least three seconds long.
  predicate IsLongRate(segments: seq<real>, packets: seq<PacketSample>, b: int, rate: int)
    requires 0 <= b < |segments|
  {
    segments[b] >= 3.0 && IsBitrate(rate, SizeIn(segments, packets, b), segments[b])
  }

  lemma {:induction false} SizeSplits(packets: seq<PacketSample>, last: PacketSample)
    ensures Size(packets + [last]) == Size(packets) + last.size
  {
    if packets != [] {
      assert (packets + [last])[1..] == packets[1..] + [last];
      SizeSplits(packets[1..], last);
    }
  }

  lemma {:induction false} SizeInSplits(segments: seq<real>, packets: seq<PacketSample>, last: PacketSample, b: int)
    requires 0 <= b < |segments|
    ensures SizeIn(segments, packets + [last], b) == SizeIn(segments, packets, b)
            + if FallsIn(segments, last.pts + 0.000000001, b) then last.size else 0
  {
    if packets != [] {
      assert (packets + [last])[1..] == packets[1..] + [last];
      SizeInSplits(segments, packets[1..], last, b);
    }
  }

  lemma {:induction false} TotalIsSize(packets: seq<PacketSample>, n: int)
    requires 0 <= n <= |packets|
    ensures TotalBytes(packets, n) == Size(packets[..n])
  {
    if n > 0 {
      TotalIsSize(packets, n - 1);
      SizeSplits(packets[..n - 1], packets[n - 1]);
      assert packets[..n] == packets[..n - 1] + [packets[n - 1]];
    }
  }

  lemma BucketIffFallsIn(segments: seq<real>, packet: PacketSample, b: int)
    requires 0 <= b < |segments| && forall k :: 0 <= k < |segments| ==> segments[k] > 0.0
    ensures Bucket(segments, packet) == b <==> FallsIn(segments, packet.pts + 0.000000001, b)
  {
    hide Bucket;
    BucketHoldsPacket(segments, packet);
    var found := Bucket(segments, packet);
    if b < found {
      StartsIncrease(segments, b + 1, found);
    }
    if found == b && b == 0 && |segments| > 1 && SegmentStart(segments, 0) < packet.pts + 0.000000001 {
      assert packet.pts + 0.000000001 <= SegmentStart(segments, 1);
    }
  }

  lemma {:induction false} BytesAreSizes(segments: seq<real>, packets: seq<PacketSample>, n: int, b: int)
    requires 0 <= b < |segments| && 0 <= n <= |packets| && forall k :: 0 <= k < |segments| ==> segments[k] > 0.0
    ensures BytesIn(segments, packets, n, b) == SizeIn(segments, packets[..n], b)
    decreases n
  {
    hide Bucket, FallsIn, SizeIn, SegmentStart;
    if n == 0 {
      NoSize(segments, b);
    } else {
      BytesAreSizes(segments, packets, n - 1, b);
      SizeInSplits(segments, packets[..n - 1], packets[n - 1], b);
      assert packets[..n] == packets[..n - 1] + [packets[n - 1]];
      BucketIffFallsIn(segments, packets[n - 1], b);
    }
  }

  lemma NoSize(segments: seq<real>, b: int)
    requires 0 <= b < |segments|
    ensures SizeIn(segments, [], b) == 0
  {
  }

  lemma RateIsBitrate(bytes: int, seconds: real)
    requires seconds > 0.0
    ensures forall rate :: IsBitrate(rate, bytes, seconds) <==> rate == Rate(bytes, seconds)
  {
    hide Rate;
    forall rate: int
      ensures IsBitrate(rate, bytes, seconds) <==> rate == Rate(bytes, seconds)
    {
      RateBelow(bytes, seconds, rate);
      RateBelow(bytes, seconds, rate - 1);
    }
  }

  // The largest bitrate of the first n segments that have three seconds, or 0.
  ghost predicate IsLargest(segments: seq<real>, packets: seq<PacketSample>, n: int, peak: int) {
    && 0 <= n <= |segments| && peak >= 0
    && (forall b, rate :: 0 <= b < n && IsLongRate(segments, packets, b, rate) ==> rate <= peak)
    && (peak == 0 || exists b :: 0 <= b < n && IsLongRate(segments, packets, b, peak))
  }

  lemma LargestStep(segments: seq<real>, packets: seq<PacketSample>, n: int, peak: int)
    requires IsLargest(segments, packets, n, peak) && n < |segments|
    requires forall k :: 0 <= k < |segments| ==> segments[k] > 0.0
    ensures IsLargest(segments, packets, n + 1,
                      if segments[n] < 3.0 then peak
                      else MaxInt(peak, Rate(SizeIn(segments, packets, n), segments[n])))
  {
    hide IsBitrate, Rate, SizeIn;
    var rate := Rate(SizeIn(segments, packets, n), segments[n]);
    RateIsBitrate(SizeIn(segments, packets, n), segments[n]);
    assert segments[n] >= 3.0 ==> IsLongRate(segments, packets, n, rate);
  }

  lemma {:induction false} PeakIsLargest(segments: seq<real>, packets: seq<PacketSample>, n: int)
    requires 0 <= n <= |segments| && forall k :: 0 <= k < |segments| ==> segments[k] > 0.0
    ensures IsLargest(segments, packets, n, Peak(segments, packets, n))
  {
    if n > 0 {
      PeakIsLargest(segments, packets, n - 1);
      hide IsLargest, Rate, BytesIn, SizeIn;
      BytesAreSizes(segments, packets, |packets|, n - 1);
      assert packets[..|packets|] == packets;
      LargestStep(segments, packets, n - 1, Peak(segments, packets, n - 1));
    }
  }

  /**
   * The two bitrates by counting bytes. The average is the whole bits per second of all packets over all
   * lengths; the peak is the largest of it and of the segments of at least three seconds.
   */
  lemma BitratesByCounting(segments: seq<real>, packets: seq<PacketSample>)
    requires segments != [] && Total(segments) > 0.0 && forall k :: 0 <= k < |segments| ==> segments[k] > 0.0
    ensures var average := Average(segments, packets);
            var peak := MaxInt(Peak(segments, packets, |segments|), average);
            && IsBitrate(average, Size(packets), Total(segments)) && average <= peak
            && (forall b, rate :: 0 <= b < |segments| && IsLongRate(segments, packets, b, rate) ==> rate <= peak)
            && (peak == average || exists b :: 0 <= b < |segments| && IsLongRate(segments, packets, b, peak))
  {
    TotalIsSize(packets, |packets|);
    assert packets[..|packets|] == packets;
    RateIsBitrate(Size(packets), Total(segments));
    SizeNotNegative(packets);
    PeakIsLargest(segments, packets, |segments|);
    hide IsBitrate, Peak, SizeIn;
  }

  lemma {:induction false} SizeNotNegative(packets: seq<PacketSample>)
    ensures Size(packets) >= 0
  {
    if packets != [] {
      SizeNotNegative(packets[1..]);
    }
  }
}
