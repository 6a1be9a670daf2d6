/**
 * Peak and mean bitrate over the segment table (internal/transcode/keyframes.go).
 * Byte counts are unbounded integers and times exact reals.
 */
module HlsBitrates {
  import opened HlsTimeline

  const BITS_PER_BYTE := 8
  const BUCKET_EPSILON: real := 0.000000001

  // Where every segment starts.
  function Starts(segments: seq<real>): (starts: seq<real>)
    ensures |starts| == |segments|
    ensures forall i :: 0 <= i < |starts| ==> starts[i] == SegmentStart(segments, i)
  {
    seq(|segments|, i requires 0 <= i < |segments| => SegmentStart(segments, i))
  }

  // The segment a packet is counted in.
  function Bucket(segments: seq<real>, packet: PacketSample): (b: int)
    requires segments != []
    ensures 0 <= b < |segments|
  {
    var position := Search(Starts(segments), packet.pts + BUCKET_EPSILON, 0, |segments|) - 1;
    if position < 0 then 0 else position
  }

  function BytesIn(segments: seq<real>, packets: seq<PacketSample>, n: int, b: int): int
    requires segments != [] && 0 <= n <= |packets|
  {
    if n == 0 then 0
    else BytesIn(segments, packets, n - 1, b) +
         (if Bucket(segments, packets[n - 1]) == b then packets[n - 1].size else 0)
  }

  function TotalBytes(packets: seq<PacketSample>, n: int): int
    requires 0 <= n <= |packets|
  {
    if n == 0 then 0 else TotalBytes(packets, n - 1) + packets[n - 1].size
  }

  // int64(bytes * 8 / seconds) for non-negative byte counts.
  function Rate(bytes: int, seconds: real): int
    requires seconds > 0.0
  {
    (((bytes * BITS_PER_BYTE) as real) / seconds).Floor
  }

  function MaxInt(a: int, b: int): int {
    if b > a then b else a
  }

  // The largest rate among the first n segments of at least half the target length, or 0.
  function Peak(segments: seq<real>, packets: seq<PacketSample>, n: int): int
    requires 0 <= n <= |segments|
  {
    if n == 0 then 0
    else
      var before := Peak(segments, packets, n - 1);
      if segments[n - 1] < SEGMENT_TARGET_SECONDS / 2.0 then before
      else MaxInt(before, Rate(BytesIn(segments, packets, |packets|, n - 1), segments[n - 1]))
  }

  function Average(segments: seq<real>, packets: seq<PacketSample>): int
    requires Total(segments) > 0.0
  {
    Rate(TotalBytes(packets, |packets|), Total(segments))
  }

  lemma {:induction false} StartsIncrease(segments: seq<real>, i: int, j: int)
    requires 0 <= i <= j <= |segments| && forall k :: 0 <= k < |segments| ==> segments[k] >= 0.0
    ensures SegmentStart(segments, i) <= SegmentStart(segments, j)
    decreases j
  {
    if i < j {
      StartsIncrease(segments, i, j - 1);
    }
  }

  method ComputeStarts(segments: seq<real>) returns (starts: seq<real>, total: real)
    ensures starts == Starts(segments) && total == Total(segments)
  {
    starts, total := [], 0.0;
    for position := 0 to |segments|
      invariant starts == Starts(segments)[..position] && total == SegmentStart(segments, position)
    {
      starts := starts + [total];
      total := total + segments[position];
    }
  }

  method CountBytes(packets: seq<PacketSample>, segments: seq<real>, starts: seq<real>)
    returns (bytes: array<int>, sum: int)
    requires segments != [] && starts == Starts(segments)
    ensures bytes.Length == |segments|
    ensures forall b :: 0 <= b < bytes.Length ==> bytes[b] == BytesIn(segments, packets, |packets|, b)
    ensures sum == TotalBytes(packets, |packets|)
  {
    hide Search, SegmentStart, Starts;
    bytes := new int[|segments|](_ => 0);
    sum := 0;
    for n := 0 to |packets|
      invariant forall b :: 0 <= b < bytes.Length ==> bytes[b] == BytesIn(segments, packets, n, b)
      invariant sum == TotalBytes(packets, n)
    {
      var position := SearchFloats(starts, packets[n].pts + BUCKET_EPSILON);
      position := MaxInt(position - 1, 0);
      assert position == Bucket(segments, packets[n]);
      bytes[position] := bytes[position] + packets[n].size;
      sum := sum + packets[n].size;
    }
  }

  method SegmentBitrates(packets: seq<PacketSample>, segments: seq<real>) returns (peak: int, average: int)
    ensures |packets| == 0 || |segments| == 0 || Total(segments) <= 0.0 ==> peak == 0 && average == 0
    ensures |packets| > 0 && |segments| > 0 && Total(segments) > 0.0 ==>
              average == Average(segments, packets)
              && peak == MaxInt(Peak(segments, packets, |segments|), average)
  {
    if |packets| == 0 || |segments| == 0 {
      return 0, 0;
    }
    var starts, total := ComputeStarts(segments);
    var bytes, sum := CountBytes(packets, segments, starts);
    if total <= 0.0 {
      return 0, 0;
    }
    average := Rate(sum, total);
    peak := 0;
    for position := 0 to |segments|
      invariant peak == Peak(segments, packets, position)
    {
      if segments[position] < SEGMENT_TARGET_SECONDS / 2.0 {
        continue;
      }
      peak := MaxInt(peak, Rate(bytes[position], segments[position]));
    }
    peak := MaxInt(peak, average);
  }

  // ----- Every packet is counted once -----

  /**
   * A packet is counted in a segment that starts before it, give or take the epsilon, while the next
   * segment does not; and when no length is negative, no later segment does.
   */
  lemma BucketHoldsPacket(segments: seq<real>, packet: PacketSample)
    requires segments != []
    ensures var b, time := Bucket(segments, packet), packet.pts + BUCKET_EPSILON;
            && (b > 0 ==> SegmentStart(segments, b) < time)
            && (b + 1 < |segments| && SegmentStart(segments, b) < time ==> time <= SegmentStart(segments, b + 1))
            && ((forall k :: 0 <= k < |segments| ==> segments[k] >= 0.0) ==>
                  forall k :: b < k < |segments| ==> time <= SegmentStart(segments, k))
  {
    var b, time := Bucket(segments, packet), packet.pts + BUCKET_EPSILON;
    var starts := Starts(segments);
    var position := Search(starts, time, 0, |segments|);
    if forall k :: 0 <= k < |segments| ==> segments[k] >= 0.0 {
      forall k | b < k < |segments|
        ensures time <= SegmentStart(segments, k)
      {
        StartsIncrease(segments, position, k);
      }
    }
  }

  function SumBuckets(segments: seq<real>, packets: seq<PacketSample>, n: int, b: int): int
    requires segments != [] && 0 <= n <= |packets| && 0 <= b
  {
    if b == 0 then 0 else SumBuckets(segments, packets, n, b - 1) + BytesIn(segments, packets, n, b - 1)
  }

  lemma {:induction false} OnePacketMore(segments: seq<real>, packets: seq<PacketSample>, n: int, b: int)
    requires segments != [] && 0 < n <= |packets| && 0 <= b
    ensures SumBuckets(segments, packets, n, b) == SumBuckets(segments, packets, n - 1, b) +
            (if Bucket(segments, packets[n - 1]) < b then packets[n - 1].size else 0)
    decreases b
  {
    if b > 0 {
      OnePacketMore(segments, packets, n, b - 1);
    }
  }

  lemma {:induction false} EmptyBuckets(segments: seq<real>, packets: seq<PacketSample>, b: int)
    requires segments != [] && 0 <= b
    ensures SumBuckets(segments, packets, 0, b) == 0
    decreases b
  {
    if b > 0 {
      EmptyBuckets(segments, packets, b - 1);
    }
  }

  /** The bucket bytes add up to the packet bytes. */
  lemma {:induction false} BucketsConserveBytes(segments: seq<real>, packets: seq<PacketSample>, n: int)
    requires segments != [] && 0 <= n <= |packets|
    ensures SumBuckets(segments, packets, n, |segments|) == TotalBytes(packets, n)
  {
    if n == 0 {
      EmptyBuckets(segments, packets, |segments|);
    } else {
      BucketsConserveBytes(segments, packets, n - 1);
      OnePacketMore(segments, packets, n, |segments|);
    }
  }

  // ----- Peak against average -----

  lemma RateBelow(bytes: int, seconds: real, rate: int)
    requires seconds > 0.0
    ensures Rate(bytes, seconds) <= rate <==> ((bytes * BITS_PER_BYTE) as real) < ((rate + 1) as real) * seconds
  {
    var q := ((bytes * BITS_PER_BYTE) as real) / seconds;
    assert q * seconds == (bytes * BITS_PER_BYTE) as real;
    if q < (rate + 1) as real {
      MultiplyStrictly(q, (rate + 1) as real, seconds);
    } else {
      MultiplyOrder((rate + 1) as real, q, seconds);
    }
  }

  lemma {:induction false} PeakBoundsBuckets(segments: seq<real>, packets: seq<PacketSample>, n: int, rate: int)
    requires segments != [] && 0 <= n <= |segments| && Peak(segments, packets, n) <= rate
    requires forall k :: 0 <= k < n ==> segments[k] >= SEGMENT_TARGET_SECONDS / 2.0
    ensures ((SumBuckets(segments, packets, |packets|, n) * BITS_PER_BYTE) as real) <=
            ((rate + 1) as real) * SegmentStart(segments, n)
    ensures n > 0 ==>
              ((SumBuckets(segments, packets, |packets|, n) * BITS_PER_BYTE) as real) <
              ((rate + 1) as real) * SegmentStart(segments, n)
    decreases n
  {
    hide BytesIn, Rate;
    if n > 0 {
      PeakBoundsBuckets(segments, packets, n - 1, rate);
      var bytes := BytesIn(segments, packets, |packets|, n - 1);
      RateBelow(bytes, segments[n - 1], rate);
      AddBelow(SumBuckets(segments, packets, |packets|, n - 1), bytes, (rate + 1) as real,
               SegmentStart(segments, n - 1), segments[n - 1]);
    }
  }

  lemma AddBelow(x: int, y: int, r: real, a: real, b: real)
    requires ((x * BITS_PER_BYTE) as real) <= r * a && ((y * BITS_PER_BYTE) as real) < r * b
    ensures (((x + y) * BITS_PER_BYTE) as real) < r * (a + b)
  {
  }

  /**
   * When no segment is shorter than half the target, the peak is already at least the average, in
   * spite of truncating every rate: the final maximum only matters for skipped short segments.
   */
  lemma PeakCoversAverage(segments: seq<real>, packets: seq<PacketSample>)
    requires segments != [] && Total(segments) > 0.0
    requires forall k :: 0 <= k < |segments| ==> segments[k] >= SEGMENT_TARGET_SECONDS / 2.0
    ensures Average(segments, packets) <= Peak(segments, packets, |segments|)
  {
    hide Peak, BytesIn, Rate, SumBuckets, TotalBytes, SegmentStart;
    var peak := Peak(segments, packets, |segments|);
    BucketsConserveBytes(segments, packets, |packets|);
    PeakBoundsBuckets(segments, packets, |segments|, peak);
    RateBelow(TotalBytes(packets, |packets|), Total(segments), peak);
  }

  /** On a keyframe table only the last segment can be that short, so its length alone decides. */
  lemma OnlyTailCanBeShort(keyframes: seq<real>, duration: real, packets: seq<PacketSample>)
    requires 0.0 < duration
    requires var segments := KeyframeSegments(keyframes, duration, SEGMENT_TARGET_SECONDS);
             segments != [] && segments[|segments| - 1] >= SEGMENT_TARGET_SECONDS / 2.0
    ensures var segments := KeyframeSegments(keyframes, duration, SEGMENT_TARGET_SECONDS);
            Total(segments) > 0.0 && Average(segments, packets) <= Peak(segments, packets, |segments|)
  {
    var segments := KeyframeSegments(keyframes, duration, SEGMENT_TARGET_SECONDS);
    KeyframeTableIsSound(keyframes, duration, SEGMENT_TARGET_SECONDS);
    StartIsPositive(segments, |segments|);
    PeakCoversAverage(segments, packets);
  }
}
