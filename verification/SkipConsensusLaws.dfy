/**
 * What the season consensus reports, said by counting: which votes a pair casts, which paths get a hit,
 * and that a hit's range is the middle of the votes, start and end each by itself.
 */
module SkipConsensusLaws {
  import opened Wrappers
  import opened Sorting
  import opened SkipMatch
  import opened SkipConsensus
  import SkipMatchLaws

  // ----- Votes -----

  // The whole millisecond nearest to the start of an item of 4096/33075 seconds, halves up.
  predicate NearestMs(item: int, ms: int) {
    var exact := (item as real) * (4096000.0 / 33075.0);
    exact - 0.5 < ms as real <= exact + 0.5
  }

  predicate InWindow(startMs: int, scanWindowSec: real) {
    scanWindowSec <= 0.0 || startMs as real <= scanWindowSec * 1000.0
  }

  // The vote names the range of items of the match, in milliseconds, and its score.
  predicate TellsRange(vote: IntroVote, episode: EpisodeAudio, start: int, end: int, score: real) {
    && vote.relPath == episode.relPath && vote.score == score
    && NearestMs(start, vote.startMs) && NearestMs(end, vote.endMs)
  }

  /**
   * A pair votes exactly when the match within 180 seconds of skew starts inside both scan windows, and
   * each vote tells where the match lies in its own episode.
   */
  lemma PairVotesTellMatch(left: EpisodeAudio, right: EpisodeAudio)
    ensures var found := BestOverOffsets(left.fingerprint, right.fingerprint, 180.0);
            var votes := PairVotes(left, right);
            && (votes.Some? ==> found.Some?
                                && var (l, r) := votes.value;
                                   && TellsRange(l, left, found.value.startA, found.value.endA, found.value.score)
                                   && TellsRange(r, right, found.value.startB, found.value.endB, found.value.score)
                                   && InWindow(l.startMs, left.scanWindowSec)
                                   && InWindow(r.startMs, right.scanWindowSec))
            && (found.Some? && votes.None? ==>
                  || !InWindow(ItemIndexToMs(found.value.startA), left.scanWindowSec)
                  || !InWindow(ItemIndexToMs(found.value.startB), right.scanWindowSec))
  {
    hide BestOverOffsets, ItemIndexToMs;
    var found := BestOverOffsets(left.fingerprint, right.fingerprint, 180.0);
    OnlyScanWindowRejects(left, right);
    if found.Some? {
      SkipMatchLaws.LongestMatchBounds(left.fingerprint, right.fingerprint, 180.0);
      ItemPositionIsNearest(found.value.startA);
      ItemPositionIsNearest(found.value.endA);
      ItemPositionIsNearest(found.value.startB);
      ItemPositionIsNearest(found.value.endB);
    }
  }

  // ----- The middle of a list -----

  // More than half of the values are at most x, and no more than half are below it.
  predicate IsMiddle(values: seq<int>, x: int) {
    && 2 * |set i | 0 <= i < |values| && values[i] <= x| > |values|
    && 2 * |set i | 0 <= i < |values| && values[i] < x| <= |values|
  }

  function AtMost(values: seq<int>, t: int): set<int> {
    set i | 0 <= i < |values| && values[i] <= t
  }

  lemma OneValueMore(values: seq<int>, v: int, t: int)
    ensures |AtMost(values + [v], t)| == |AtMost(values, t)| + if v <= t then 1 else 0
  {
    var before := AtMost(values, t);
    assert AtMost(values + [v], t) == if v <= t then before + {|values|} else before;
  }

  lemma {:induction false} CountOfAppended(values: seq<int>, v: int, t: int)
    ensures CountAtMost(values + [v], t) == CountAtMost(values, t) + if v <= t then 1 else 0
  {
    if values == [] {
      assert values + [v] == [v] && CountAtMost([], t) == 0;
    } else {
      assert (values + [v])[1..] == values[1..] + [v];
      CountOfAppended(values[1..], v, t);
    }
  }

  lemma {:induction false} SizeIsCount(values: seq<int>, t: int)
    ensures |AtMost(values, t)| == CountAtMost(values, t)
  {
    hide CountAtMost, AtMost;
    if values == [] {
      NothingAtMost(t);
    } else {
      var front, last := values[..|values| - 1], values[|values| - 1];
      assert values == front + [last];
      SizeIsCount(front, t);
      OneValueMore(front, last, t);
      CountOfAppended(front, last, t);
    }
  }

  lemma NothingAtMost(t: int)
    ensures |AtMost([], t)| == 0 == CountAtMost([], t)
  {
    assert AtMost([], t) == {};
  }

  lemma MedianAtMostIff(values: seq<int>, t: int)
    requires values != []
    ensures Median(values) <= t <==> 2 * |AtMost(values, t)| > |values|
  {
    hide CountAtMost, AtMost, Sort;
    IntLeIsTotalOrder();
    SizeIsCount(values, t);
    CountOfSort(values, t);
    RankByCount(Sort(values, IntLe()), |values| / 2, t);
  }

  /** The median of a list is its middle, and nothing else is. */
  lemma MedianIffMiddle(values: seq<int>, x: int)
    requires values != []
    ensures x == Median(values) <==> IsMiddle(values, x)
  {
    hide Median;
    MedianAtMostIff(values, x);
    MedianAtMostIff(values, x - 1);
    assert AtMost(values, x) == set i | 0 <= i < |values| && values[i] <= x;
    assert AtMost(values, x - 1) == set i | 0 <= i < |values| && values[i] < x;
  }

  // ----- Hits -----

  function ScoreSum(votes: seq<IntroVote>): real {
    if votes == [] then 0.0 else ScoreSum(votes[..|votes| - 1]) + votes[|votes| - 1].score
  }

  predicate IsMean(votes: seq<IntroVote>, score: real) {
    score * (|votes| as real) == ScoreSum(votes)
  }

  lemma {:induction false} ScoresSum(votes: seq<IntroVote>, n: int)
    requires 0 <= n <= |votes|
    ensures SumRange(VoteScores(votes), 0, n) == ScoreSum(votes[..n])
  {
    if n > 0 {
      ScoresSum(votes, n - 1);
      assert votes[..n][..n - 1] == votes[..n - 1];
    }
  }

  /** A hit is exactly the middle of its votes' starts, the middle of their ends and the mean of their scores. */
  lemma HitIffMiddle(path: string, votes: seq<IntroVote>, hit: ConsensusHit)
    requires votes != []
    ensures hit == HitFrom(path, votes) <==>
            && hit.relPath == path && IsMiddle(Starts(votes), hit.startMs) && IsMiddle(Ends(votes), hit.endMs)
            && IsMean(votes, hit.confidence)
  {
    hide Median, IsMiddle, ScoreSum, Mean, Starts, Ends, VoteScores, HitFrom, IsMean;
    SameSize(votes);
    HitFields(path, votes, hit);
    MedianIffMiddle(Starts(votes), hit.startMs);
    MedianIffMiddle(Ends(votes), hit.endMs);
    ConfidenceIff(votes, hit.confidence);
  }

  lemma HitFields(path: string, votes: seq<IntroVote>, hit: ConsensusHit)
    requires votes != []
    ensures hit == HitFrom(path, votes) <==>
            && hit.relPath == path && hit.startMs == Median(Starts(votes)) && hit.endMs == Median(Ends(votes))
            && hit.confidence == Mean(VoteScores(votes), 0, |votes|)
  {
    hide Median, Starts, Ends, VoteScores, Mean;
  }

  lemma ConfidenceIff(votes: seq<IntroVote>, confidence: real)
    requires votes != [] && |VoteScores(votes)| == |votes|
    ensures confidence == Mean(VoteScores(votes), 0, |votes|) <==> IsMean(votes, confidence)
  {
    hide ScoreSum, Mean, VoteScores, SumRange;
    ScoresSum(votes, |votes|);
    assert votes[..|votes|] == votes;
    MeanIs(VoteScores(votes), |votes|, confidence);
  }

  lemma SameSize(votes: seq<IntroVote>)
    ensures |Starts(votes)| == |Ends(votes)| == |VoteScores(votes)| == |votes|
  {
  }

  lemma MeanIs(s: seq<real>, n: int, mean: real)
    requires 0 < n == |s|
    ensures mean == Mean(s, 0, n) <==> mean * (n as real) == SumRange(s, 0, n)
  {
    hide SumRange;
    QuotientIs(SumRange(s, 0, n), n as real, mean);
  }

  lemma QuotientIs(x: real, n: real, q: real)
    requires n > 0.0
    ensures q == x / n <==> q * n == x
  {
  }

  /**
   * What ConsensusIntros reports, by counting: a path gets a hit exactly when it has votes from half of a
   * season of two or more, while two or more paths and half as many paths as episodes have votes; and the
   * hit is the middle of these votes.
   */
  lemma ConsensusByCounting(episodes: seq<EpisodeAudio>, hits: seq<ConsensusHit>, hit: ConsensusHit)
    ensures var votes := PathVotes(episodes, hit.relPath);
            var voted := |set k | 0 <= k < |episodes| && PathVotes(episodes, episodes[k].relPath) != []
                               :: episodes[k].relPath|;
            IsConsensus(episodes, hits) ==>
              (hit in hits <==>
                 && |episodes| >= 2 && voted >= 2 && 2 * voted >= |episodes|
                 && 2 * |votes| >= |episodes|
                 && IsMiddle(Starts(votes), hit.startMs) && IsMiddle(Ends(votes), hit.endMs)
                 && IsMean(votes, hit.confidence))
  {
    VotedAre(episodes);
    hide PathVotes, VotedPaths, HitFrom, IsMiddle, Starts, Ends, IsMean, StringLess;
    var votes := PathVotes(episodes, hit.relPath);
    if IsConsensus(episodes, hits) {
      if votes != [] {
        HitIffMiddle(hit.relPath, votes, hit);
      }
      forall path | IsHitOf(episodes, path, hit)
        ensures path == hit.relPath
      {
        HitHasPath(path, PathVotes(episodes, path));
      }
      assert hit in hits <==> GateOpen(episodes) && IsHitOf(episodes, hit.relPath, hit);
    }
  }

  lemma VotedAre(episodes: seq<EpisodeAudio>)
    ensures VotedPaths(episodes) ==
            set k | 0 <= k < |episodes| && PathVotes(episodes, episodes[k].relPath) != [] :: episodes[k].relPath
  {
  }

  lemma HitHasPath(path: string, votes: seq<IntroVote>)
    requires votes != []
    ensures HitFrom(path, votes).relPath == path
  {
  }

  // ----- The votes of a path, pair by pair -----

  // The pairs the loop has behind it when it stands at (index, other).
  predicate Before(pair: (int, int), index: int, other: int) {
    pair.0 < index || (pair.0 == index && pair.1 < other)
  }

  // The pairs that agree, with the path's episode as the first or as the second of both.
  function VotingPairs(episodes: seq<EpisodeAudio>, path: string, first: bool, index: int, other: int)
      : (pairs: set<(int, int)>)
    ensures forall pair :: pair in pairs ==> 0 <= pair.0 < pair.1 < |episodes|
  {
    set i, j | 0 <= i < |episodes| && 0 <= j < |episodes| && i < j && Before((i, j), index, other)
               && PairVotes(episodes[i], episodes[j]).Some?
               && (if first then episodes[i] else episodes[j]).relPath == path :: (i, j)
  }

  lemma OnePairMore(episodes: seq<EpisodeAudio>, path: string, first: bool, index: int, other: int)
    requires 0 <= index < other < |episodes|
    ensures var pairs := VotingPairs(episodes, path, first, index, other);
            && (index, other) !in pairs
            && VotingPairs(episodes, path, first, index, other + 1) ==
               if PairVotes(episodes[index], episodes[other]).Some?
                  && (if first then episodes[index] else episodes[other]).relPath == path
               then pairs + {(index, other)} else pairs
  {
    hide PairVotes;
  }

  lemma RowChanges(episodes: seq<EpisodeAudio>, path: string, first: bool, index: int)
    requires 0 < index < |episodes|
    ensures VotingPairs(episodes, path, first, index, index + 1) ==
            VotingPairs(episodes, path, first, index - 1, |episodes|)
  {
    hide PairVotes;
  }

  lemma NoPairYet(episodes: seq<EpisodeAudio>, path: string, first: bool)
    ensures VotingPairs(episodes, path, first, 0, 1) == {}
  {
    hide PairVotes;
  }

  lemma VotesFromPair(left: EpisodeAudio, right: EpisodeAudio, path: string)
    ensures |VotesFor(left, right, path)| ==
            (if PairVotes(left, right).Some? && left.relPath == path then 1 else 0)
            + if PairVotes(left, right).Some? && right.relPath == path then 1 else 0
  {
    hide PairVotes;
  }

  lemma {:induction false} AsManyVotes(episodes: seq<EpisodeAudio>, path: string, index: int, other: int)
    requires 0 <= index < other <= |episodes|
    ensures |VotesUpTo(episodes, path, index, other)| ==
            |VotingPairs(episodes, path, true, index, other)| + |VotingPairs(episodes, path, false, index, other)|
    decreases index, other
  {
    hide PairVotes, VotingPairs, VotesFor;
    if other > index + 1 {
      VotesFromPair(episodes[index], episodes[other - 1], path);
      AsManyVotes(episodes, path, index, other - 1);
      OnePairMore(episodes, path, true, index, other - 1);
      OnePairMore(episodes, path, false, index, other - 1);
    } else if index > 0 {
      AsManyVotes(episodes, path, index - 1, |episodes|);
      RowChanges(episodes, path, true, index);
      RowChanges(episodes, path, false, index);
    } else {
      NoPairYet(episodes, path, true);
      NoPairYet(episodes, path, false);
    }
  }

  // The vote of a pair that agrees, on one of its sides.
  ghost predicate CastBy(episodes: seq<EpisodeAudio>, path: string, vote: IntroVote, pair: (int, int)) {
    && 0 <= pair.0 < pair.1 < |episodes|
    && var votes := PairVotes(episodes[pair.0], episodes[pair.1]);
       votes.Some? && ((episodes[pair.0].relPath == path && vote == votes.value.0)
                       || (episodes[pair.1].relPath == path && vote == votes.value.1))
  }

  lemma VotesOfPair(episodes: seq<EpisodeAudio>, path: string, vote: IntroVote, i: int, j: int)
    requires 0 <= i < j < |episodes|
    ensures vote in VotesFor(episodes[i], episodes[j], path) <==> CastBy(episodes, path, vote, (i, j))
  {
    hide PairVotes;
  }

  ghost predicate CastBefore(episodes: seq<EpisodeAudio>, path: string, vote: IntroVote, index: int, other: int) {
    exists pair :: CastBy(episodes, path, vote, pair) && Before(pair, index, other)
  }

  lemma OneCastMore(episodes: seq<EpisodeAudio>, path: string, vote: IntroVote, index: int, other: int)
    ensures CastBefore(episodes, path, vote, index, other + 1) <==>
            CastBefore(episodes, path, vote, index, other) || CastBy(episodes, path, vote, (index, other))
  {
    hide CastBy;
    if CastBefore(episodes, path, vote, index, other + 1) {
      var pair :| CastBy(episodes, path, vote, pair) && Before(pair, index, other + 1);
      assert Before(pair, index, other) || pair == (index, other);
    }
  }

  lemma CastRowChanges(episodes: seq<EpisodeAudio>, path: string, vote: IntroVote, index: int)
    ensures CastBefore(episodes, path, vote, index, index + 1) <==>
            CastBefore(episodes, path, vote, index - 1, |episodes|)
  {
    if CastBefore(episodes, path, vote, index, index + 1) {
      var pair :| CastBy(episodes, path, vote, pair) && Before(pair, index, index + 1);
      assert Before(pair, index - 1, |episodes|);
    } else if CastBefore(episodes, path, vote, index - 1, |episodes|) {
      var pair :| CastBy(episodes, path, vote, pair) && Before(pair, index - 1, |episodes|);
      assert Before(pair, index, index + 1);
    }
  }

  lemma NothingCast(episodes: seq<EpisodeAudio>, path: string, vote: IntroVote)
    ensures !CastBefore(episodes, path, vote, 0, 1)
  {
  }

  lemma {:induction false} VotesAreCast(episodes: seq<EpisodeAudio>, path: string, vote: IntroVote, index: int,
                                        other: int)
    requires 0 <= index < other <= |episodes|
    ensures vote in VotesUpTo(episodes, path, index, other) <==> CastBefore(episodes, path, vote, index, other)
    decreases index, other
  {
    hide CastBefore, CastBy, VotesFor;
    if other > index + 1 {
      VotesAreCast(episodes, path, vote, index, other - 1);
      VotesOfPair(episodes, path, vote, index, other - 1);
      OneCastMore(episodes, path, vote, index, other - 1);
    } else if index > 0 {
      VotesAreCast(episodes, path, vote, index - 1, |episodes|);
      CastRowChanges(episodes, path, vote, index);
    } else {
      NothingCast(episodes, path, vote);
    }
  }

  lemma CastAnywhere(episodes: seq<EpisodeAudio>, path: string, vote: IntroVote)
    ensures (exists pair :: CastBy(episodes, path, vote, pair)) <==>
            CastBefore(episodes, path, vote, |episodes| - 1, |episodes|)
  {
    if pair :| CastBy(episodes, path, vote, pair) {
      assert Before(pair, |episodes| - 1, |episodes|);
    }
  }

  // All pairs that agree, with the path's episode as the first or as the second of both.
  function AgreeingPairs(episodes: seq<EpisodeAudio>, path: string, first: bool): set<(int, int)> {
    set i, j | 0 <= i < |episodes| && 0 <= j < |episodes| && i < j
               && PairVotes(episodes[i], episodes[j]).Some?
               && (if first then episodes[i] else episodes[j]).relPath == path :: (i, j)
  }

  lemma AllPairs(episodes: seq<EpisodeAudio>, path: string, first: bool)
    ensures VotingPairs(episodes, path, first, |episodes| - 1, |episodes|) == AgreeingPairs(episodes, path, first)
    ensures episodes == [] ==> AgreeingPairs(episodes, path, first) == {}
  {
    hide PairVotes;
  }

  lemma NoVotes(episodes: seq<EpisodeAudio>, path: string, vote: IntroVote)
    requires episodes == []
    ensures PathVotes(episodes, path) == []
    ensures !CastBefore(episodes, path, vote, |episodes| - 1, |episodes|)
  {
  }

  /**
   * The votes of a path, episodes of one path included: exactly those that the agreeing pairs cast for it,
   * and as many as there are sides of agreeing pairs with that path.
   */
  lemma VotesByPairs(episodes: seq<EpisodeAudio>, path: string, vote: IntroVote)
    ensures vote in PathVotes(episodes, path) <==> exists pair :: CastBy(episodes, path, vote, pair)
    ensures |PathVotes(episodes, path)| ==
            |AgreeingPairs(episodes, path, true)| + |AgreeingPairs(episodes, path, false)|
  {
    hide VotesUpTo, CastBy, CastBefore, AgreeingPairs, VotingPairs;
    CastAnywhere(episodes, path, vote);
    AllPairs(episodes, path, true);
    AllPairs(episodes, path, false);
    if episodes == [] {
      NoVotes(episodes, path, vote);
    } else {
      VotesAreCast(episodes, path, vote, |episodes| - 1, |episodes|);
      AsManyVotes(episodes, path, |episodes| - 1, |episodes|);
    }
  }
}
