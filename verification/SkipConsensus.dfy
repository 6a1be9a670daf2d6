/**
 * Season consensus (internal/skipsegment/consensus.go): pairwise matches become votes, and the
 * episodes with enough votes get the medians of their votes' starts and ends.
 */
module SkipConsensus {
  import opened Rounding
  import opened Wrappers
  import opened SkipMatch
  import opened Sorting
  import SkipMatchLaws

  const MIN_EPISODES_FOR_AUDIO := 2
  const MAX_START_SKEW_SEC: real := 180.0
  const MIN_SEASON_AGREEMENT: real := 0.50

  datatype EpisodeAudio = EpisodeAudio(relPath: string, durationSeconds: real,
                                       fingerprint: seq<Item>, scanWindowSec: real)
  datatype IntroVote = IntroVote(relPath: string, startMs: int, endMs: int, score: real)
  datatype ConsensusHit = ConsensusHit(relPath: string, startMs: int, endMs: int, confidence: real)

  predicate ValidIntroBounds(startMs: int, endMs: int, scanWindowSec: real) {
    && startMs < endMs
    && MIN_INTRO_SEC * MS_PER_SECOND <= endMs - startMs <= MAX_INTRO_SEC * MS_PER_SECOND
    && 0 <= startMs
    && !(scanWindowSec > 0.0 && startMs as real > scanWindowSec * (MS_PER_SECOND as real))
  }

  // ----- Votes of one pair -----

  function VoteOf(episode: EpisodeAudio, start: int, end: int, score: real): IntroVote {
    IntroVote(episode.relPath, ItemIndexToMs(start), ItemIndexToMs(end), score)
  }

  predicate VoteInBounds(vote: IntroVote, episode: EpisodeAudio) {
    ValidIntroBounds(vote.startMs, vote.endMs, episode.scanWindowSec)
  }

  // The two votes a pair of episodes casts, with every filter of the pair loop.
  function PairVotes(left: EpisodeAudio, right: EpisodeAudio): Option<(IntroVote, IntroVote)> {
    if |left.fingerprint| == 0 || |right.fingerprint| == 0 then None
    else
      var found := BestOverOffsets(left.fingerprint, right.fingerprint, MAX_START_SKEW_SEC);
      if found.None? then None
      else
        var m := found.value;
        if m.durationSec < MIN_INTRO_SEC as real || m.durationSec > MAX_INTRO_SEC as real then None
        else
          var leftVote := VoteOf(left, m.startA, m.endA, m.score);
          var rightVote := VoteOf(right, m.startB, m.endB, m.score);
          if VoteInBounds(leftVote, left) && VoteInBounds(rightVote, right)
          then Some((leftVote, rightVote)) else None
  }

  predicate PastScanWindow(startMs: int, scanWindowSec: real) {
    scanWindowSec > 0.0 && startMs as real > scanWindowSec * (MS_PER_SECOND as real)
  }

  /** Only the scan window can reject a match: both duration filters and the order check never do. */
  lemma OnlyScanWindowRejects(left: EpisodeAudio, right: EpisodeAudio)
    ensures var found := BestOverOffsets(left.fingerprint, right.fingerprint, MAX_START_SKEW_SEC);
            PairVotes(left, right).Some? <==>
            found.Some?
            && !PastScanWindow(ItemIndexToMs(found.value.startA), left.scanWindowSec)
            && !PastScanWindow(ItemIndexToMs(found.value.startB), right.scanWindowSec)
  {
    hide BestOverOffsets;
    if BestOverOffsets(left.fingerprint, right.fingerprint, MAX_START_SKEW_SEC).Some? {
      SkipMatchLaws.LongestMatchBounds(left.fingerprint, right.fingerprint, MAX_START_SKEW_SEC);
    }
  }

  lemma PairVotesAreValid(left: EpisodeAudio, right: EpisodeAudio)
    requires PairVotes(left, right).Some?
    ensures var (l, r) := PairVotes(left, right).value;
            && l.relPath == left.relPath && VoteInBounds(l, left)
            && r.relPath == right.relPath && VoteInBounds(r, right)
            && BIT_MATCH_THRESHOLD <= l.score == r.score <= 1.0
  {
    hide BestOverOffsets;
    SkipMatchLaws.LongestMatchBounds(left.fingerprint, right.fingerprint, MAX_START_SKEW_SEC);
  }

  // ----- The votes of a path -----

  // The votes one pair of episodes casts for a path.
  function VotesFor(left: EpisodeAudio, right: EpisodeAudio, path: string): seq<IntroVote> {
    var pair := PairVotes(left, right);
    if pair.None? then []
    else
      (if left.relPath == path then [pair.value.0] else []) + (if right.relPath == path then [pair.value.1] else [])
  }

  // The votes for a path of the pairs before (index, other), in the order of the pair loop.
  function VotesUpTo(episodes: seq<EpisodeAudio>, path: string, index: int, other: int): seq<IntroVote>
    requires 0 <= index < other <= |episodes|
    decreases index, other
  {
    if other > index + 1 then
      VotesUpTo(episodes, path, index, other - 1) + VotesFor(episodes[index], episodes[other - 1], path)
    else if index > 0 then VotesUpTo(episodes, path, index - 1, |episodes|)
    else []
  }

  function PathVotes(episodes: seq<EpisodeAudio>, path: string): seq<IntroVote> {
    if episodes == [] then [] else VotesUpTo(episodes, path, |episodes| - 1, |episodes|)
  }

  function Lookup(votes: map<string, seq<IntroVote>>, path: string): seq<IntroVote> {
    if path in votes then votes[path] else []
  }

  function Append(votes: map<string, seq<IntroVote>>, path: string, vote: IntroVote): map<string, seq<IntroVote>> {
    votes[path := Lookup(votes, path) + [vote]]
  }

  function AddPair(votes: map<string, seq<IntroVote>>, left: EpisodeAudio, right: EpisodeAudio)
      : map<string, seq<IntroVote>> {
    var pair := PairVotes(left, right);
    if pair.None? then votes
    else Append(Append(votes, left.relPath, pair.value.0), right.relPath, pair.value.1)
  }

  // The body of the pair loop.
  method CollectPair(votes: map<string, seq<IntroVote>>, left: EpisodeAudio, right: EpisodeAudio)
    returns (updated: map<string, seq<IntroVote>>)
    ensures updated == AddPair(votes, left, right)
  {
    hide BestOverOffsets;
    updated := votes;
    if |left.fingerprint| == 0 || |right.fingerprint| == 0 {
      return;
    }
    var found := LongestMatch(left.fingerprint, right.fingerprint, MAX_START_SKEW_SEC);
    if found.None? {
      return;
    }
    var m := found.value;
    if m.durationSec < MIN_INTRO_SEC as real || m.durationSec > MAX_INTRO_SEC as real {
      return;
    }
    var leftStart, leftEnd := ItemIndexToMs(m.startA), ItemIndexToMs(m.endA);
    var rightStart, rightEnd := ItemIndexToMs(m.startB), ItemIndexToMs(m.endB);
    if !ValidIntroBounds(leftStart, leftEnd, left.scanWindowSec)
       || !ValidIntroBounds(rightStart, rightEnd, right.scanWindowSec) {
      return;
    }
    updated := Append(updated, left.relPath, IntroVote(left.relPath, leftStart, leftEnd, m.score));
    updated := Append(updated, right.relPath, IntroVote(right.relPath, rightStart, rightEnd, m.score));
  }

  ghost predicate CollectedUpTo(episodes: seq<EpisodeAudio>, votes: map<string, seq<IntroVote>>, index: int, other: int)
    requires 0 <= index < other <= |episodes|
  {
    && (forall path :: Lookup(votes, path) == VotesUpTo(episodes, path, index, other))
    && forall path :: path in votes ==> votes[path] != []
  }

  // Every path has its votes, and no other path is in the table.
  ghost predicate Tallied(episodes: seq<EpisodeAudio>, votes: map<string, seq<IntroVote>>) {
    && (forall path :: Lookup(votes, path) == PathVotes(episodes, path))
    && forall path :: path in votes ==> votes[path] != []
  }

  lemma CollectPairStep(episodes: seq<EpisodeAudio>, votes: map<string, seq<IntroVote>>, index: int, other: int)
    requires 0 <= index < other < |episodes| && CollectedUpTo(episodes, votes, index, other)
    ensures CollectedUpTo(episodes, AddPair(votes, episodes[index], episodes[other]), index, other + 1)
  {
    hide VotesFor, AddPair, Lookup;
    var added := AddPair(votes, episodes[index], episodes[other]);
    forall path
      ensures Lookup(added, path) == Lookup(votes, path) + VotesFor(episodes[index], episodes[other], path)
    {
      LookupAfterPair(votes, episodes[index], episodes[other], path);
    }
    PairKeepsEntries(votes, episodes[index], episodes[other]);
  }

  lemma LookupAfterPair(votes: map<string, seq<IntroVote>>, left: EpisodeAudio, right: EpisodeAudio, path: string)
    ensures Lookup(AddPair(votes, left, right), path) == Lookup(votes, path) + VotesFor(left, right, path)
  {
    hide PairVotes;
  }

  lemma PairKeepsEntries(votes: map<string, seq<IntroVote>>, left: EpisodeAudio, right: EpisodeAudio)
    requires forall path :: path in votes ==> votes[path] != []
    ensures var added := AddPair(votes, left, right); forall path :: path in added ==> added[path] != []
  {
    hide PairVotes;
  }

  lemma FirstRow(episodes: seq<EpisodeAudio>)
    ensures |episodes| > 0 ==> CollectedUpTo(episodes, map[], 0, 1)
    ensures |episodes| == 0 ==> Tallied(episodes, map[])
  {
  }

  lemma NextRow(episodes: seq<EpisodeAudio>, votes: map<string, seq<IntroVote>>, index: int)
    requires 0 <= index < |episodes| && CollectedUpTo(episodes, votes, index, |episodes|)
    ensures index + 1 < |episodes| ==> CollectedUpTo(episodes, votes, index + 1, index + 2)
    ensures index + 1 == |episodes| ==> Tallied(episodes, votes)
  {
    hide VotesFor, Lookup;
  }

  method CollectPairwiseVotes(episodes: seq<EpisodeAudio>) returns (votes: map<string, seq<IntroVote>>)
    ensures Tallied(episodes, votes)
  {
    hide AddPair, CollectedUpTo, Tallied;
    votes := map[];
    FirstRow(episodes);
    for index := 0 to |episodes|
      invariant index < |episodes| ==> CollectedUpTo(episodes, votes, index, index + 1)
      invariant index == |episodes| ==> Tallied(episodes, votes)
    {
      for other := index + 1 to |episodes|
        invariant CollectedUpTo(episodes, votes, index, other)
      {
        CollectPairStep(episodes, votes, index, other);
        votes := CollectPair(votes, episodes[index], episodes[other]);
      }
      NextRow(episodes, votes, index);
    }
  }

  // ----- Medians -----

  function Starts(votes: seq<IntroVote>): (s: seq<int>)
    ensures |s| == |votes| && forall i :: 0 <= i < |s| ==> s[i] == votes[i].startMs
  {
    if votes == [] then [] else Starts(votes[..|votes| - 1]) + [votes[|votes| - 1].startMs]
  }

  function Ends(votes: seq<IntroVote>): (s: seq<int>)
    ensures |s| == |votes| && forall i :: 0 <= i < |s| ==> s[i] == votes[i].endMs
  {
    if votes == [] then [] else Ends(votes[..|votes| - 1]) + [votes[|votes| - 1].endMs]
  }

  function VoteScores(votes: seq<IntroVote>): (s: seq<real>)
    ensures |s| == |votes| && forall i :: 0 <= i < |s| ==> s[i] == votes[i].score
  {
    if votes == [] then [] else VoteScores(votes[..|votes| - 1]) + [votes[|votes| - 1].score]
  }

  function Median(s: seq<int>): int
    requires s != []
  {
    IntLeIsTotalOrder();
    Sort(s, IntLe())[|s| / 2]
  }

  // The hit of an episode: medians of its votes' starts and ends, and their mean score.
  function HitFrom(path: string, votes: seq<IntroVote>): ConsensusHit
    requires votes != []
  {
    ConsensusHit(path, Median(Starts(votes)), Median(Ends(votes)), Mean(VoteScores(votes), 0, |votes|))
  }

  method MedianRange(votes: seq<IntroVote>) returns (start: int, end: int, confidence: real)
    requires votes != []
    ensures start == Median(Starts(votes)) && end == Median(Ends(votes))
    ensures var mean := Mean(VoteScores(votes), 0, |votes|); confidence == if mean > 1.0 then 1.0 else mean
  {
    IntLeIsTotalOrder();
    var starts, ends, sum := [], [], 0.0;
    for index := 0 to |votes|
      invariant starts == Starts(votes)[..index] && ends == Ends(votes)[..index]
      invariant sum == SumRange(VoteScores(votes), 0, index)
    {
      starts := starts + [votes[index].startMs];
      ends := ends + [votes[index].endMs];
      sum := sum + votes[index].score;
    }
    assert starts == Starts(votes) && ends == Ends(votes);
    starts := Sort(starts, IntLe());
    ends := Sort(ends, IntLe());
    var mid := |votes| / 2;
    confidence := sum / (|votes| as real);
    if confidence > 1.0 {
      confidence := 1.0;
    }
    start, end := starts[mid], ends[mid];
  }

  // ----- Validity of every vote and every hit -----

  ghost predicate ValidVote(vote: IntroVote, episode: EpisodeAudio) {
    VoteInBounds(vote, episode) && BIT_MATCH_THRESHOLD <= vote.score <= 1.0
  }

  // The vote is valid for some episode of the path.
  ghost predicate VoteAmong(episodes: seq<EpisodeAudio>, path: string, vote: IntroVote) {
    exists k :: 0 <= k < |episodes| && episodes[k].relPath == path && ValidVote(vote, episodes[k])
  }

  lemma PairVotesAmong(episodes: seq<EpisodeAudio>, path: string, i: int, j: int)
    requires 0 <= i < |episodes| && 0 <= j < |episodes|
    ensures forall v :: v in VotesFor(episodes[i], episodes[j], path) ==> VoteAmong(episodes, path, v)
  {
    hide PairVotes, VoteInBounds;
    if PairVotes(episodes[i], episodes[j]).Some? {
      PairVotesAreValid(episodes[i], episodes[j]);
      var (l, r) := PairVotes(episodes[i], episodes[j]).value;
      assert ValidVote(l, episodes[i]) && ValidVote(r, episodes[j]);
    }
  }

  lemma {:induction false} VotesAreValid(episodes: seq<EpisodeAudio>, path: string, index: int, other: int)
    requires 0 <= index < other <= |episodes|
    ensures forall v :: v in VotesUpTo(episodes, path, index, other) ==> VoteAmong(episodes, path, v)
    decreases index, other
  {
    hide VotesFor, VoteAmong;
    if other > index + 1 {
      VotesAreValid(episodes, path, index, other - 1);
      PairVotesAmong(episodes, path, index, other - 1);
    } else if index > 0 {
      VotesAreValid(episodes, path, index - 1, |episodes|);
    }
  }

  lemma PathVotesAreValid(episodes: seq<EpisodeAudio>, path: string)
    ensures forall v :: v in PathVotes(episodes, path) ==> VoteAmong(episodes, path, v)
  {
    hide VotesUpTo, VoteAmong;
    if episodes != [] {
      VotesAreValid(episodes, path, |episodes| - 1, |episodes|);
    }
  }

  lemma MedianIsElement(s: seq<int>)
    requires s != []
    ensures Median(s) in s
  {
  }

  // The hit is an intro of some episode of its path, with a confidence that is a fraction.
  ghost predicate ValidHit(episodes: seq<EpisodeAudio>, hit: ConsensusHit) {
    && BIT_MATCH_THRESHOLD <= hit.confidence <= 1.0
    && MIN_INTRO_SEC * MS_PER_SECOND <= hit.endMs - hit.startMs <= MAX_INTRO_SEC * MS_PER_SECOND
    && exists k :: 0 <= k < |episodes| && episodes[k].relPath == hit.relPath
                   && ValidIntroBounds(hit.startMs, hit.endMs, episodes[k].scanWindowSec)
  }

  /**
   * The medians of starts and ends may come from different votes, yet the range they span is a
   * valid intro whenever every vote is, and its confidence is a fraction that needs no clamp.
   */
  lemma HitIsValid(episodes: seq<EpisodeAudio>, path: string, votes: seq<IntroVote>)
    requires votes != [] && forall v :: v in votes ==> VoteAmong(episodes, path, v)
    ensures ValidHit(episodes, HitFrom(path, votes))
  {
    IntLeIsTotalOrder();
    var starts, ends := Starts(votes), Ends(votes);
    forall i | 0 <= i < |votes|
      ensures starts[i] + 10000 <= ends[i] <= starts[i] + 150000
      ensures BIT_MATCH_THRESHOLD <= VoteScores(votes)[i] <= 1.0
    {
      assert VoteAmong(episodes, path, votes[i]);
    }
    SortedDominates(starts, ends, 10000, |votes| / 2);
    SortedDominates(ends, starts, -150000, |votes| / 2);
    MedianIsElement(starts);
    var i :| 0 <= i < |votes| && starts[i] == Median(starts);
    assert VoteAmong(episodes, path, votes[i]);
    MeanBounds(VoteScores(votes), 0, |votes|, BIT_MATCH_THRESHOLD, 1.0);
  }

  // ----- The quorum -----

  // At least half of the season voted for the path.
  predicate HasQuorum(episodes: seq<EpisodeAudio>, path: string) {
    |episodes| >= MIN_EPISODES_FOR_AUDIO && 2 * |PathVotes(episodes, path)| >= |episodes|
  }

  function VotedPaths(episodes: seq<EpisodeAudio>): set<string> {
    set k | 0 <= k < |episodes| && PathVotes(episodes, episodes[k].relPath) != [] :: episodes[k].relPath
  }

  // Enough paths have votes at all.
  predicate GateOpen(episodes: seq<EpisodeAudio>) {
    |VotedPaths(episodes)| >= MIN_EPISODES_FOR_AUDIO && 2 * |VotedPaths(episodes)| >= |episodes|
  }

  predicate DistinctPaths(episodes: seq<EpisodeAudio>) {
    forall i, j :: 0 <= i < j < |episodes| ==> episodes[i].relPath != episodes[j].relPath
  }

  lemma PathTells(episodes: seq<EpisodeAudio>, i: int, j: int)
    requires DistinctPaths(episodes) && 0 <= i < |episodes| && 0 <= j < |episodes|
    ensures episodes[i].relPath == episodes[j].relPath <==> i == j
  {
  }

  // The vote episode k receives from its pairing with episode p.
  function VoteFrom(episodes: seq<EpisodeAudio>, k: int, p: int): Option<IntroVote>
    requires 0 <= k < |episodes| && 0 <= p < |episodes|
  {
    if k == p then None
    else if k < p then
      var pair := PairVotes(episodes[k], episodes[p]);
      if pair.None? then None else Some(pair.value.0)
    else
      var pair := PairVotes(episodes[p], episodes[k]);
      if pair.None? then None else Some(pair.value.1)
  }

  function OptionSeq<T>(o: Option<T>): seq<T> {
    if o.None? then [] else [o.value]
  }

  // The votes of episode k from the first n episodes, in partner order.
  function VotesOf(episodes: seq<EpisodeAudio>, k: int, n: int): seq<IntroVote>
    requires 0 <= k < |episodes| && 0 <= n <= |episodes|
  {
    if n == 0 then [] else VotesOf(episodes, k, n - 1) + OptionSeq(VoteFrom(episodes, k, n - 1))
  }

  function AllVotesOf(episodes: seq<EpisodeAudio>, k: int): seq<IntroVote>
    requires 0 <= k < |episodes|
  {
    VotesOf(episodes, k, |episodes|)
  }

  // How many partners of episode k the pair loop has visited when it stands at (index, other).
  function Visited(k: int, index: int, other: int, n: int): (v: int)
    requires 0 <= k < n && 0 <= index < other <= n
    ensures 0 <= v <= n
  {
    if k < index then n else if k == index then other else if k < other then index + 1 else index
  }

  lemma VisitedStep(episodes: seq<EpisodeAudio>, k: int, index: int, other: int)
    requires 0 <= index < other < |episodes| && 0 <= k < |episodes|
    ensures VotesOf(episodes, k, Visited(k, index, other + 1, |episodes|)) ==
            VotesOf(episodes, k, Visited(k, index, other, |episodes|)) +
            (if k == index then OptionSeq(VoteFrom(episodes, index, other))
             else if k == other then OptionSeq(VoteFrom(episodes, other, index)) else [])
  {
    hide VoteFrom;
    if k != index && k != other {
      var before := VotesOf(episodes, k, Visited(k, index, other, |episodes|));
      assert before + [] == before;
    }
  }

  lemma NoSelfVote(episodes: seq<EpisodeAudio>, k: int)
    requires 0 <= k < |episodes|
    ensures VotesOf(episodes, k, k + 1) == VotesOf(episodes, k, k)
  {
  }

  // When paths are distinct, the votes of a path are those of its episode.
  lemma {:induction false} PathVotesOfEpisode(episodes: seq<EpisodeAudio>, k: int, index: int, other: int)
    requires DistinctPaths(episodes) && 0 <= k < |episodes| && 0 <= index < other <= |episodes|
    ensures VotesUpTo(episodes, episodes[k].relPath, index, other) ==
            VotesOf(episodes, k, Visited(k, index, other, |episodes|))
    decreases index, other
  {
    hide VotesFor, VoteFrom, DistinctPaths, VotesOf, Visited;
    var n, path := |episodes|, episodes[k].relPath;
    VisitedRows(k, index, n);
    if other > index + 1 {
      PathVotesOfEpisode(episodes, k, index, other - 1);
      VisitedStep(episodes, k, index, other - 1);
      PairVotesOfEpisode(episodes, k, index, other - 1);
    } else if index > 0 {
      PathVotesOfEpisode(episodes, k, index - 1, n);
      NoSelfVote(episodes, k);
    } else {
      NoVotesYet(episodes, k);
    }
  }

  lemma VisitedRows(k: int, index: int, n: int)
    requires 0 <= k < n && 0 <= index < n
    ensures index == 0 ==> Visited(k, index, index + 1, n) == if k == 0 then 1 else 0
    ensures index > 0 ==> Visited(k, index, index + 1, n) ==
                          if k == index then index + 1 else Visited(k, index - 1, n, n)
    ensures index > 0 && k == index ==> Visited(k, index - 1, n, n) == index
  {
  }

  lemma PairVotesOfEpisode(episodes: seq<EpisodeAudio>, k: int, index: int, other: int)
    requires DistinctPaths(episodes) && 0 <= k < |episodes| && 0 <= index < other < |episodes|
    ensures VotesFor(episodes[index], episodes[other], episodes[k].relPath) ==
            if k == index then OptionSeq(VoteFrom(episodes, index, other))
            else if k == other then OptionSeq(VoteFrom(episodes, other, index)) else []
  {
    hide PairVotes, DistinctPaths;
    PathTells(episodes, k, index);
    PathTells(episodes, k, other);
  }

  lemma NoVotesYet(episodes: seq<EpisodeAudio>, k: int)
    requires 0 <= k < |episodes|
    ensures VotesOf(episodes, k, 0) == []
    ensures k == 0 ==> VotesOf(episodes, k, 1) == []
  {
    assert VoteFrom(episodes, k, k) == None;
  }

  lemma PathVotesAreEpisodes(episodes: seq<EpisodeAudio>, k: int)
    requires DistinctPaths(episodes) && 0 <= k < |episodes|
    ensures PathVotes(episodes, episodes[k].relPath) == AllVotesOf(episodes, k)
  {
    hide VotesUpTo, VotesOf, DistinctPaths;
    PathVotesOfEpisode(episodes, k, |episodes| - 1, |episodes|);
    if k == |episodes| - 1 {
      NoSelfVote(episodes, k);
    }
  }

  lemma VotesAreMutual(episodes: seq<EpisodeAudio>, k: int, p: int)
    requires 0 <= k < |episodes| && 0 <= p < |episodes|
    ensures VoteFrom(episodes, k, p).Some? <==> VoteFrom(episodes, p, k).Some?
  {
  }

  lemma {:induction false} VotedIfPartner(episodes: seq<EpisodeAudio>, p: int, k: int, n: int)
    requires 0 <= p < |episodes| && 0 <= k < n <= |episodes| && VoteFrom(episodes, p, k).Some?
    ensures VotesOf(episodes, p, n) != []
  {
    hide VoteFrom;
    if k < n - 1 {
      VotedIfPartner(episodes, p, k, n - 1);
    }
  }

  // The paths of the first n episodes that agree with episode k.
  function PartnerPaths(episodes: seq<EpisodeAudio>, k: int, n: int): set<string>
    requires 0 <= k < |episodes| && 0 <= n <= |episodes|
  {
    if n == 0 then {}
    else PartnerPaths(episodes, k, n - 1) +
         (if VoteFrom(episodes, k, n - 1).Some? then {episodes[n - 1].relPath} else {})
  }

  lemma {:induction false} OnePartnerPerVote(episodes: seq<EpisodeAudio>, k: int, n: int)
    requires DistinctPaths(episodes) && 0 <= k < |episodes| && 0 <= n <= |episodes|
    ensures |PartnerPaths(episodes, k, n)| == |VotesOf(episodes, k, n)|
    ensures forall path :: path in PartnerPaths(episodes, k, n) ==>
              exists p :: 0 <= p < n && episodes[p].relPath == path
  {
    hide VoteFrom, DistinctPaths;
    if n > 0 {
      OnePartnerPerVote(episodes, k, n - 1);
      var before, path := PartnerPaths(episodes, k, n - 1), episodes[n - 1].relPath;
      if path in before {
        var p :| 0 <= p < n - 1 && episodes[p].relPath == path;
        PathTells(episodes, p, n - 1);
        assert false;
      }
      assert |before + {path}| == |before| + 1;
      assert episodes[n - 1].relPath == path;
    }
  }

  lemma {:induction false} PartnersAreVoted(episodes: seq<EpisodeAudio>, k: int, n: int)
    requires 0 <= k < |episodes| && 0 <= n <= |episodes|
    ensures forall path :: path in PartnerPaths(episodes, k, n) ==>
              exists p :: 0 <= p < n && p != k && episodes[p].relPath == path && AllVotesOf(episodes, p) != []
  {
    hide PairVotes, VotesOf;
    if n > 0 {
      PartnersAreVoted(episodes, k, n - 1);
      if VoteFrom(episodes, k, n - 1).Some? {
        VotesAreMutual(episodes, k, n - 1);
        VotedIfPartner(episodes, n - 1, k, |episodes|);
      }
    }
  }

  lemma SubsetSize<T>(a: set<T>, b: set<T>)
    requires a <= b
    ensures |a| <= |b|
  {
    assert |b - a| + |a| == |b| by { assert (b - a) + a == b; }
  }

  lemma OnlyPairPathsVoted(left: EpisodeAudio, right: EpisodeAudio, path: string)
    ensures VotesFor(left, right, path) != [] ==> path == left.relPath || path == right.relPath
  {
    hide PairVotes;
  }

  lemma {:induction false} VotedPathIsEpisode(episodes: seq<EpisodeAudio>, path: string, index: int, other: int)
    requires 0 <= index < other <= |episodes| && VotesUpTo(episodes, path, index, other) != []
    ensures exists k :: 0 <= k < |episodes| && episodes[k].relPath == path
    decreases index, other
  {
    hide VotesFor;
    if other > index + 1 {
      OnlyPairPathsVoted(episodes[index], episodes[other - 1], path);
      if VotesUpTo(episodes, path, index, other - 1) != [] {
        VotedPathIsEpisode(episodes, path, index, other - 1);
      }
    } else if index > 0 {
      VotedPathIsEpisode(episodes, path, index - 1, |episodes|);
    }
  }

  // A path with votes is the path of an episode.
  lemma VotedPathsAreAll(episodes: seq<EpisodeAudio>, path: string)
    ensures path in VotedPaths(episodes) <==> PathVotes(episodes, path) != []
  {
    hide VotesUpTo;
    if PathVotes(episodes, path) != [] {
      VotedPathIsEpisode(episodes, path, |episodes| - 1, |episodes|);
    }
  }

  /**
   * With one episode per path the gate is implied by any single quorum: a path with votes from half of
   * the season forces one more voted path than it has votes, so the gate never changes the answer.
   */
  lemma QuorumForcesParticipation(episodes: seq<EpisodeAudio>, path: string)
    requires DistinctPaths(episodes) && HasQuorum(episodes, path)
    ensures |VotedPaths(episodes)| >= |PathVotes(episodes, path)| + 1 && GateOpen(episodes)
  {
    hide VotesOf, PartnerPaths, DistinctPaths, PathVotes, VotedPaths;
    VotedPathsAreAll(episodes, path);
    var k := EpisodeOfPath(episodes, path);
    PathVotesAreEpisodes(episodes, k);
    var partners := PartnerPaths(episodes, k, |episodes|);
    OnePartnerPerVote(episodes, k, |episodes|);
    PartnersAreVotedPaths(episodes, k);
    assert |partners + {path}| == |partners| + 1;
    SubsetSize(partners + {path}, VotedPaths(episodes));
  }

  lemma EpisodeOfPath(episodes: seq<EpisodeAudio>, path: string) returns (k: int)
    requires PathVotes(episodes, path) != []
    ensures 0 <= k < |episodes| && episodes[k].relPath == path
  {
    hide VotesUpTo;
    VotedPathIsEpisode(episodes, path, |episodes| - 1, |episodes|);
    k :| 0 <= k < |episodes| && episodes[k].relPath == path;
  }

  // The partners of an episode have votes themselves, and it is none of them.
  lemma PartnersAreVotedPaths(episodes: seq<EpisodeAudio>, k: int)
    requires DistinctPaths(episodes) && 0 <= k < |episodes|
    ensures var partners := PartnerPaths(episodes, k, |episodes|);
            partners <= VotedPaths(episodes) && episodes[k].relPath !in partners
  {
    hide VotesOf, PartnerPaths, DistinctPaths, PathVotes, VoteFrom;
    PartnersAreVoted(episodes, k, |episodes|);
    forall q | q in PartnerPaths(episodes, k, |episodes|)
      ensures q in VotedPaths(episodes) && q != episodes[k].relPath
    {
      var p :| 0 <= p < |episodes| && p != k && episodes[p].relPath == q && AllVotesOf(episodes, p) != [];
      PathVotesAreEpisodes(episodes, p);
      PathTells(episodes, p, k);
    }
  }

  // An episode whose fingerprint is 81 times the same item.
  function Monotone(path: string): EpisodeAudio {
    EpisodeAudio(path, 1000.0, seq(81, _ => 0), 0.0)
  }

  lemma MonotoneVotes(path: string)
    ensures PairVotes(Monotone(path), Monotone(path)).Some?
  {
    hide BitAgreement, PairVotes, BestOverOffsets, Smoothed, MaxSkewItems;
    var items := Monotone(path).fingerprint;
    var scores := Scores(items, items, 0);
    forall k | 0 <= k < |scores|
      ensures 1.0 <= scores[k] <= 1.0
    {
      EqualItemsAgree(items[k]);
    }
    SmoothedStaysInRange(scores, LOCAL_WINDOW_ITEMS, 1.0, 1.0);
    assert SkipMatchLaws.LongRunAt(items, items, 0, 0);
    SkipMatchLaws.LongestMatchMissesIffNoLongRun(items, items, MAX_START_SKEW_SEC);
    OnlyScanWindowRejects(Monotone(path), Monotone(path));
  }

  /** Without distinct paths the gate can drop a quorum: two matching episodes of one path. */
  lemma SharedPathClosesGate()
    ensures var episodes := [Monotone("a"), Monotone("a")];
            HasQuorum(episodes, "a") && !GateOpen(episodes)
  {
    hide PairVotes, Monotone;
    var episodes := [Monotone("a"), Monotone("a")];
    MonotoneVotes("a");
    assert Monotone("a").relPath == "a" by {
      MonotonePath("a");
    }
    assert VotesUpTo(episodes, "a", 0, 1) == [];
    assert |VotesUpTo(episodes, "a", 0, 2)| == 2;
    assert VotesUpTo(episodes, "a", 1, 2) == VotesUpTo(episodes, "a", 0, 2);
    assert VotedPaths(episodes) <= {"a"};
    SubsetSize(VotedPaths(episodes), {"a"});
  }

  lemma MonotonePath(path: string)
    ensures Monotone(path).relPath == path
  {
  }

  // ----- The consensus of a season -----

  function PartnerFloor(n: int): int {
    var half := Ceil((n as real) * MIN_SEASON_AGREEMENT);
    var atLeastOne := if half < 1 then 1 else half;
    if atLeastOne < n - 1 then atLeastOne else n - 1
  }

  /** Both clamps of the partner floor are no-ops: it is half of the season, rounded up. */
  lemma PartnerFloorIsHalf(n: int)
    requires n >= MIN_EPISODES_FOR_AUDIO
    ensures PartnerFloor(n) == Ceil((n as real) * MIN_SEASON_AGREEMENT) == (n + 1) / 2
  {
  }

  predicate IsHitOf(episodes: seq<EpisodeAudio>, path: string, hit: ConsensusHit) {
    HasQuorum(episodes, path) && hit == HitFrom(path, PathVotes(episodes, path))
  }

  // The hits a season deserves, stated without the clamps or the duration re-check.
  ghost predicate IsHit(episodes: seq<EpisodeAudio>, hit: ConsensusHit) {
    exists path :: IsHitOf(episodes, path, hit)
  }

  ghost predicate IsConsensus(episodes: seq<EpisodeAudio>, hits: seq<ConsensusHit>) {
    && (forall i, j :: 0 <= i < j < |hits| ==> StringLess(hits[i].relPath, hits[j].relPath))
    && (forall hit :: hit in hits <==> GateOpen(episodes) && IsHit(episodes, hit))
  }

  /** With one episode per path the consensus is exactly the hits of the paths with a quorum: the gate drops out. */
  lemma ConsensusOfDistinctPaths(episodes: seq<EpisodeAudio>, hits: seq<ConsensusHit>)
    requires DistinctPaths(episodes) && IsConsensus(episodes, hits)
    ensures forall hit :: hit in hits <==> IsHit(episodes, hit)
  {
    hide DistinctPaths, GateOpen, PathVotes, HitFrom;
    forall hit | IsHit(episodes, hit)
      ensures GateOpen(episodes)
    {
      var path :| IsHitOf(episodes, path, hit);
      QuorumForcesParticipation(episodes, path);
    }
  }

  function HitLe(): (ConsensusHit, ConsensusHit) -> bool {
    (a: ConsensusHit, b: ConsensusHit) => !StringLess(b.relPath, a.relPath)
  }

  lemma HitLeIsTotalOrder()
    ensures TotalOrder(HitLe())
  {
    var le := HitLe();
    forall a, b
      ensures le(a, b) || le(b, a)
    {
      StringLessTrichotomy(a.relPath, b.relPath);
    }
    forall a, b, c | le(a, b) && le(b, c)
      ensures le(a, c)
    {
      StringLeTransitive(a.relPath, b.relPath, c.relPath);
    }
  }

  // The hit earned by one entry of the vote table.
  ghost predicate HitOfEntry(votes: map<string, seq<IntroVote>>, floor: int, path: string, hit: ConsensusHit) {
    path in votes && votes[path] != [] && |votes[path]| >= floor && hit == HitFrom(path, votes[path])
  }

  // Entries that meet the floor are paths with a quorum.
  lemma EntryIsQuorum(episodes: seq<EpisodeAudio>, votes: map<string, seq<IntroVote>>, path: string, hit: ConsensusHit)
    requires Tallied(episodes, votes) && |episodes| >= MIN_EPISODES_FOR_AUDIO
    ensures HitOfEntry(votes, PartnerFloor(|episodes|), path, hit) <==>
            IsHitOf(episodes, path, hit)
  {
    hide HitFrom, PathVotes, PartnerFloor;
    PartnerFloorIsHalf(|episodes|);
    assert Lookup(votes, path) == PathVotes(episodes, path);
  }

  // An entry's medians pass the duration check and its mean score needs no clamp.
  lemma EntryIsValid(episodes: seq<EpisodeAudio>, votes: map<string, seq<IntroVote>>, path: string)
    requires Tallied(episodes, votes) && path in votes
    ensures votes[path] != [] && ValidHit(episodes, HitFrom(path, votes[path]))
  {
    hide HitFrom, PathVotes, VoteAmong, ValidHit;
    assert Lookup(votes, path) == PathVotes(episodes, path);
    PathVotesAreValid(episodes, path);
    HitIsValid(episodes, path, votes[path]);
  }

  // Walk the vote table in map order, which Go leaves unspecified.
  method CollectHits(episodes: seq<EpisodeAudio>, votes: map<string, seq<IntroVote>>, partnerFloor: int)
    returns (hits: seq<ConsensusHit>)
    requires Tallied(episodes, votes)
    ensures forall hit :: hit in hits <==> exists path :: HitOfEntry(votes, partnerFloor, path, hit)
    ensures forall i, j :: 0 <= i < j < |hits| ==> hits[i].relPath != hits[j].relPath
  {
    hide PathVotes, Median, ValidIntroBounds, Tallied;
    hits := [];
    var remaining := votes.Keys;
    while remaining != {}
      invariant remaining <= votes.Keys
      invariant forall hit :: hit in hits <==>
                  exists path :: path !in remaining && HitOfEntry(votes, partnerFloor, path, hit)
      invariant forall i :: 0 <= i < |hits| ==> hits[i].relPath !in remaining
      invariant forall i, j :: 0 <= i < j < |hits| ==> hits[i].relPath != hits[j].relPath
      decreases remaining
    {
      var path :| path in remaining;
      ghost var before := hits;
      var entry := votes[path];
      if |entry| >= partnerFloor {
        EntryIsValid(episodes, votes, path);
        var start, end, confidence := MedianRange(entry);
        var duration := end - start;
        if MIN_INTRO_SEC * MS_PER_SECOND <= duration <= MAX_INTRO_SEC * MS_PER_SECOND {
          hits := hits + [ConsensusHit(path, start, end, confidence)];
          assert hits[|before|] == HitFrom(path, entry);
          assert HitOfEntry(votes, partnerFloor, path, hits[|before|]);
        }
      }
      remaining := remaining - {path};
      assert forall hit :: hit in hits <==> hit in before || HitOfEntry(votes, partnerFloor, path, hit);
    }
  }

  lemma TableIsVotedPaths(episodes: seq<EpisodeAudio>, votes: map<string, seq<IntroVote>>)
    requires Tallied(episodes, votes)
    ensures votes.Keys == VotedPaths(episodes) && |votes| == |VotedPaths(episodes)|
  {
    hide PathVotes, VotedPaths;
    forall path
      ensures path in votes.Keys <==> path in VotedPaths(episodes)
    {
      VotedPathsAreAll(episodes, path);
      assert Lookup(votes, path) == PathVotes(episodes, path);
    }
    assert |votes| == |votes.Keys|;
  }

  method ConsensusIntros(episodes: seq<EpisodeAudio>) returns (hits: seq<ConsensusHit>)
    ensures IsConsensus(episodes, hits)
  {
    hide PathVotes, Median, HitFrom, ValidIntroBounds, Tallied, VotedPaths;
    hits := [];
    if |episodes| < MIN_EPISODES_FOR_AUDIO {
      return;
    }
    var votes := CollectPairwiseVotes(episodes);
    TableIsVotedPaths(episodes, votes);
    var participating := 0;
    var remaining := votes.Keys;
    while remaining != {}
      invariant remaining <= votes.Keys && participating == |votes| - |remaining|
      decreases remaining
    {
      var path :| path in remaining;
      EntryIsValid(episodes, votes, path);
      if |votes[path]| > 0 {
        participating := participating + 1;
      }
      remaining := remaining - {path};
    }
    if participating < MIN_EPISODES_FOR_AUDIO
       || (participating as real) < (|episodes| as real) * MIN_SEASON_AGREEMENT {
      return;
    }
    var partnerFloor := PartnerFloor(|episodes|);
    var unsorted := CollectHits(episodes, votes, partnerFloor);
    HitLeIsTotalOrder();
    hits := Sort(unsorted, HitLe());
    SortedHitsAreConsensus(episodes, votes, unsorted, hits);
  }

  lemma SortedHitsAreConsensus(episodes: seq<EpisodeAudio>, votes: map<string, seq<IntroVote>>,
                               unsorted: seq<ConsensusHit>, hits: seq<ConsensusHit>)
    requires Tallied(episodes, votes) && |episodes| >= MIN_EPISODES_FOR_AUDIO && GateOpen(episodes)
    requires forall hit :: hit in unsorted <==> exists path :: HitOfEntry(votes, PartnerFloor(|episodes|), path, hit)
    requires forall i, j :: 0 <= i < j < |unsorted| ==> unsorted[i].relPath != unsorted[j].relPath
    requires TotalOrder(HitLe()) && hits == Sort(unsorted, HitLe())
    ensures IsConsensus(episodes, hits)
  {
    hide Tallied, HitOfEntry, IsHit, PartnerFloor, GateOpen, Sort, StringLess, TotalOrder, HitLe;
    SortStrictly(unsorted);
    forall hit
      ensures hit in hits <==> IsHit(episodes, hit)
    {
      EntriesAreHits(episodes, votes, hit);
    }
  }

  lemma EntriesAreHits(episodes: seq<EpisodeAudio>, votes: map<string, seq<IntroVote>>, hit: ConsensusHit)
    requires Tallied(episodes, votes) && |episodes| >= MIN_EPISODES_FOR_AUDIO
    ensures (exists path :: HitOfEntry(votes, PartnerFloor(|episodes|), path, hit)) <==> IsHit(episodes, hit)
  {
    hide Tallied, HitOfEntry, IsHitOf, PartnerFloor;
    forall path
      ensures HitOfEntry(votes, PartnerFloor(|episodes|), path, hit) <==> IsHitOf(episodes, path, hit)
    {
      EntryIsQuorum(episodes, votes, path, hit);
    }
  }

  lemma SortStrictly(unsorted: seq<ConsensusHit>)
    requires forall i, j :: 0 <= i < j < |unsorted| ==> unsorted[i].relPath != unsorted[j].relPath
    requires TotalOrder(HitLe())
    ensures var hits := Sort(unsorted, HitLe());
            forall i, j :: 0 <= i < j < |hits| ==> StringLess(hits[i].relPath, hits[j].relPath)
  {
    hide TotalOrder, Sort;
    var hits := Sort(unsorted, HitLe());
    forall i, j | 0 <= i < j < |unsorted|
      ensures !(HitLe()(unsorted[i], unsorted[j]) && HitLe()(unsorted[j], unsorted[i]))
    {
      StringLessTrichotomy(unsorted[i].relPath, unsorted[j].relPath);
    }
    SortKeepsDistinct(unsorted, HitLe());
    forall i, j | 0 <= i < j < |hits|
      ensures StringLess(hits[i].relPath, hits[j].relPath)
    {
      assert HitLe()(hits[i], hits[j]) && !(HitLe()(hits[i], hits[j]) && HitLe()(hits[j], hits[i]));
    }
  }

  /** Every hit is a valid intro inside the scan window of an episode of its path, with confidence in [0.70, 1]. */
  lemma ConsensusHitsAreValid(episodes: seq<EpisodeAudio>, hits: seq<ConsensusHit>, hit: ConsensusHit)
    ensures IsConsensus(episodes, hits) && hit in hits ==> ValidHit(episodes, hit)
  {
    hide ValidHit, PathVotes, VoteAmong, HitFrom, GateOpen;
    if IsConsensus(episodes, hits) && hit in hits {
      assert IsHit(episodes, hit);
      var path :| IsHitOf(episodes, path, hit);
      PathVotesAreValid(episodes, path);
      HitIsValid(episodes, path, PathVotes(episodes, path));
    }
  }

  /** The answer does not depend on the order in which the vote table is walked. */
  lemma ConsensusIsUnique(episodes: seq<EpisodeAudio>, a: seq<ConsensusHit>, b: seq<ConsensusHit>)
    requires IsConsensus(episodes, a) && IsConsensus(episodes, b)
    ensures a == b
  {
    hide IsHit, GateOpen;
    HitLeIsTotalOrder();
    StrictlySortedHits(a);
    StrictlySortedHits(b);
    SortedIsUnique(a, b, HitLe());
  }

  lemma StrictlySortedHits(hits: seq<ConsensusHit>)
    requires forall i, j :: 0 <= i < j < |hits| ==> StringLess(hits[i].relPath, hits[j].relPath)
    ensures Sorted(hits, HitLe()) && Distinct(hits, HitLe())
  {
    forall i, j | 0 <= i < j < |hits|
      ensures HitLe()(hits[i], hits[j]) && !HitLe()(hits[j], hits[i])
    {
      assert StringLess(hits[i].relPath, hits[j].relPath);
      StringLessTrichotomy(hits[i].relPath, hits[j].relPath);
    }
  }
}
