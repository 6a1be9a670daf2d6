/**
 * The rows of the catalog and the provider's groups once more, told by the positions of their paths
 * in the listing and by what is read from each path.
 */
module CatalogReference {
  import opened Wrappers
  import opened Sorting
  import opened AccessPaths
  import opened Naming
  import opened ShowKey
  import opened Catalog
  import ProviderGroups

  // ----- Positions -----

  // The positions of the paths that `g` sends to `k`.
  function At<K(==)>(g: string -> K, paths: seq<string>, k: K): (at: set<int>)
    ensures forall i :: i in at ==> 0 <= i < |paths|
  {
    set i | 0 <= i < |paths| && g(paths[i]) == k
  }

  lemma AtGrows<K>(g: string -> K, paths: seq<string>, k: K)
    requires paths != []
    ensures var last := |paths| - 1;
            && At(g, paths, k) == At(g, paths[..last], k) + (if g(paths[last]) == k then {last} else {})
            && last !in At(g, paths[..last], k)
  {
    var front := paths[..|paths| - 1];
    forall i
      ensures i in At(g, paths, k) <==>
              i in At(g, front, k) + (if g(paths[|paths| - 1]) == k then {|paths| - 1} else {})
    {
      assert 0 <= i < |front| ==> front[i] == paths[i];
    }
  }

  // The first of these positions holds this path.
  ghost predicate IsFirst(paths: seq<string>, at: set<int>, path: string)
    requires forall i :: i in at ==> 0 <= i < |paths|
  {
    exists i :: i in at && (forall j :: j in at ==> i <= j) && paths[i] == path
  }

  lemma FirstStays(paths: seq<string>, at: set<int>, path: string)
    requires paths != [] && (forall i :: i in at ==> 0 <= i < |paths| - 1) && IsFirst(paths[..|paths| - 1], at, path)
    ensures IsFirst(paths, at, path) && IsFirst(paths, at + {|paths| - 1}, path)
  {
    var i :| i in at && (forall j :: j in at ==> i <= j) && paths[..|paths| - 1][i] == path;
    assert i in at + {|paths| - 1} && paths[i] == path;
  }

  /** As many paths are selected as there are such positions, and the first one selected is at the first of them. */
  lemma {:induction false} SelectedAt<K>(g: string -> K, paths: seq<string>, k: K)
    ensures |Select(g, paths, k)| == |At(g, paths, k)|
    ensures Select(g, paths, k) != [] ==> IsFirst(paths, At(g, paths, k), Select(g, paths, k)[0])
  {
    if paths != [] {
      hide At, Select;
      var last := |paths| - 1;
      var front := paths[..last];
      assert paths == front + [paths[last]];
      SelectedAt(g, front, k);
      AtGrows(g, paths, k);
      SelectStep(g, front, paths[last], k);
      if Select(g, front, k) != [] {
        FirstStays(paths, At(g, front, k), Select(g, front, k)[0]);
      } else if g(paths[last]) == k {
        assert At(g, paths, k) == {last};
      }
    }
  }

  // The paths selected are those at these positions.
  lemma SelectedAre<K>(g: string -> K, paths: seq<string>, k: K)
    ensures forall path :: path in Select(g, paths, k) <==> exists i :: i in At(g, paths, k) && paths[i] == path
  {
    hide Select;
    forall path
      ensures path in Select(g, paths, k) <==> exists i :: i in At(g, paths, k) && paths[i] == path
    {
      if path in Select(g, paths, k) {
        var i :| 0 <= i < |paths| && paths[i] == path;
        assert i in At(g, paths, k);
      }
    }
  }

  lemma BothGrow(a: set<int>, b: set<int>, last: int, inA: bool, inB: bool)
    requires last !in a && last !in b
    ensures |(a + if inA then {last} else {}) * (b + if inB then {last} else {})| ==
            |a * b| + if inA && inB then 1 else 0
  {
    var grown := (a + if inA then {last} else {}) * (b + if inB then {last} else {});
    assert grown == if inA && inB then a * b + {last} else a * b;
  }

  /** Selecting twice leaves as many paths as there are positions with both keys. */
  lemma {:induction false} SelectedTwice<K, L>(g: string -> K, h: string -> L, paths: seq<string>, k: K, l: L)
    ensures |Select(h, Select(g, paths, k), l)| == |At(g, paths, k) * At(h, paths, l)|
  {
    if paths == [] {
      assert At(g, paths, k) * At(h, paths, l) == {};
    } else {
      hide At, Select;
      var last := |paths| - 1;
      var front := paths[..last];
      assert paths == front + [paths[last]];
      SelectedTwice(g, h, front, k, l);
      AtGrows(g, paths, k);
      AtGrows(h, paths, l);
      SelectStep(g, front, paths[last], k);
      SelectStep(h, Select(g, front, k), paths[last], l);
      BothGrow(At(g, front, k), At(h, front, l), last, g(paths[last]) == k, h(paths[last]) == l);
    }
  }

  // The text a is b or comes before it: by their first difference, or as a prefix.
  ghost predicate AtMost(a: string, b: string) {
    a == b || exists n :: Precedes(a, b, n)
  }

  lemma AtMostIff(a: string, b: string)
    ensures AtMost(a, b) <==> !StringLess(b, a)
  {
    hide StringLess, Precedes;
    StringLessTrichotomy(a, b);
    StringLessIff(a, b);
  }

  // ----- What is read from a path -----

  function KeyRead(p: Parser): string -> string {
    path => Key(p.unicode, p.parse(path).show)
  }

  function SeasonRead(p: Parser): string -> int {
    path => if p.parse(path).season.Some? then p.parse(path).season.value else 0
  }

  /**
   * What the catalog keeps of a path: with a key, a missing season or episode counts as 0 and the show's
   * trimmed name is its title.
   */
  lemma KeptOfPath(p: Parser, path: string)
    ensures var d, read := DenormOf(p, path), p.parse(path);
            && d.showKey == KeyRead(p)(path) && SeasonOf(p, path) == SeasonRead(p)(path)
            && d.episodeTitle == TrimSpace(read.episodeTitle)
            && (d.showKey == "" ==> d.season == read.season && d.episode == read.episode)
            && (d.showKey != "" ==>
                  d.season == Some(SeasonRead(p)(path)) && d.sortTitle == TrimSpace(read.show) != ""
                  && d.episode == (if read.episode.Some? then read.episode else Some(0)))
  {
    hide TrimSpace, Key;
    ProviderGroups.KeyIgnoresOuterSpace(p, path);
  }

  // ----- Shows -----

  lemma {:induction false} SameSelections<K>(g: string -> K, h: string -> K, paths: seq<string>, k: K)
    requires forall path :: g(path) == h(path)
    ensures Select(g, paths, k) == Select(h, paths, k)
  {
    if paths != [] {
      SameSelections(g, h, paths[..|paths| - 1], k);
    }
  }

  // Shows and seasons are selected by what is read.
  lemma SelectedByReading(p: Parser, paths: seq<string>, showKey: string, season: int)
    ensures ShowPaths(p, paths, showKey) == Select(KeyRead(p), paths, showKey)
    ensures SeasonPaths(p, paths, season) == Select(SeasonRead(p), paths, season)
  {
    hide DenormOf, KeyRead, SeasonRead;
    forall path
      ensures KeyFn(p)(path) == KeyRead(p)(path) && SeasonFn(p)(path) == SeasonRead(p)(path)
    {
      KeptOfPath(p, path);
    }
    SameSelections(KeyFn(p), KeyRead(p), paths, showKey);
    SameSelections(SeasonFn(p), SeasonRead(p), paths, season);
  }

  // The row of a show: title of its first path, seasons and number of its paths, and the least of them.
  ghost predicate IsShowRow(p: Parser, paths: seq<string>, showKey: string, row: ShowRow) {
    var at := At(KeyRead(p), paths, showKey);
    && row.episodeCount == |at| && row.seasons == (set i | i in at :: SeasonRead(p)(paths[i]))
    && (exists path :: IsFirst(paths, at, path) && row.name == TrimSpace(p.parse(path).show))
    && exists i :: i in at && (forall j :: j in at ==> AtMost(paths[i], paths[j])) && row.posterPath == paths[i]
  }

  lemma ShownAt(p: Parser, paths: seq<string>, showKey: string)
    ensures forall path :: path in ShowPaths(p, paths, showKey) <==>
                           exists i :: i in At(KeyRead(p), paths, showKey) && paths[i] == path
  {
    SelectedByReading(p, paths, showKey, 0);
    hide *;
    SelectedAre(KeyRead(p), paths, showKey);
  }

  lemma SeasonsAt(p: Parser, paths: seq<string>, showKey: string)
    ensures Seasons(p, ShowPaths(p, paths, showKey)) ==
            set i | i in At(KeyRead(p), paths, showKey) :: SeasonRead(p)(paths[i])
  {
    hide KeyRead, SeasonRead, SeasonOf, ShowPaths;
    var shown, at := ShowPaths(p, paths, showKey), At(KeyRead(p), paths, showKey);
    ShownAt(p, paths, showKey);
    forall path
      ensures SeasonOf(p, path) == SeasonRead(p)(path)
    {
      KeptOfPath(p, path);
    }
    forall season
      ensures season in Seasons(p, shown) <==> season in set i | i in at :: SeasonRead(p)(paths[i])
    {
      if season in Seasons(p, shown) {
        var k :| 0 <= k < |shown| && SeasonOf(p, shown[k]) == season;
        assert shown[k] in shown;
        var i :| i in at && paths[i] == shown[k];
      }
      if i :| i in at && SeasonRead(p)(paths[i]) == season {
        assert paths[i] in shown;
        var k :| 0 <= k < |shown| && shown[k] == paths[i];
      }
    }
  }

  lemma RowByPositions(p: Parser, paths: seq<string>, showKey: string)
    ensures showKey != "" && ShowPaths(p, paths, showKey) != [] ==>
              IsShowRow(p, paths, showKey, RowOf(p, ShowPaths(p, paths, showKey)))
  {
    hide At, KeyRead, SeasonRead, Seasons, LeastPath, ShowPaths, DenormOf, AtMost, StringLess, Select;
    var shown, at := ShowPaths(p, paths, showKey), At(KeyRead(p), paths, showKey);
    if showKey != "" && shown != [] {
      SelectedByReading(p, paths, showKey, 0);
      SelectedAt(KeyRead(p), paths, showKey);
      SeasonsAt(p, paths, showKey);
      ShownAt(p, paths, showKey);
      KeptOfPath(p, shown[0]);
      assert shown[0] in shown;
      var i :| i in at && paths[i] == LeastPath(shown);
      forall j | j in at
        ensures AtMost(paths[i], paths[j])
      {
        assert paths[j] in shown;
        LeastIsLeast(shown, paths[j]);
        AtMostIff(paths[i], paths[j]);
      }
    }
  }

  lemma {:induction false} AtMostLength<T(!new)>(list: seq<T>, elements: set<T>)
    requires forall x :: x in elements ==> x in list
    ensures |elements| <= |list|
  {
    if list == [] {
      assert elements == {};
    } else {
      AtMostLength(list[1..], elements - {list[0]});
    }
  }

  // A list no longer than the number of its elements has each of them once.
  lemma NoneTwice<T(!new)>(list: seq<T>, elements: set<T>, i: int, j: int)
    requires (forall x :: x in elements ==> x in list) && |list| == |elements| && 0 <= i < j < |list|
    ensures list[i] != list[j]
  {
    if list[i] == list[j] {
      var shorter := list[..j] + list[j + 1..];
      forall x | x in elements
        ensures x in shorter
      {
        var k :| 0 <= k < |list| && list[k] == x;
        if k == j {
          assert shorter[i] == x;
        } else {
          assert shorter[if k < j then k else k - 1] == x;
        }
      }
      AtMostLength(shorter, elements);
    }
  }

  // Some path has the key.
  predicate Reads(p: Parser, paths: seq<string>, key: string) {
    exists i :: 0 <= i < |paths| && KeyRead(p)(paths[i]) == key
  }

  predicate Lists(listing: seq<KeyedRow>, key: string) {
    exists k :: 0 <= k < |listing| && listing[k].showKey == key
  }

  lemma KeysRead(p: Parser, paths: seq<string>, key: string)
    ensures key in ShowKeys(p, paths) <==> key != "" && Reads(p, paths, key)
  {
    hide DenormOf, KeyRead;
    forall i | 0 <= i < |paths|
      ensures ShowKeyOf(p, paths[i]) == KeyRead(p)(paths[i])
    {
      KeptOfPath(p, paths[i]);
    }
  }

  // A listing has exactly the non-empty keys that are read from some path, each once, with the row its paths make,
  // and no lowered name comes before one listed earlier.
  ghost predicate ListsShows(p: Parser, paths: seq<string>, listing: seq<KeyedRow>) {
    && (forall key :: Lists(listing, key) <==> key != "" && Reads(p, paths, key))
    && (forall k :: 0 <= k < |listing| ==> IsShowRow(p, paths, listing[k].showKey, listing[k].row))
    && forall j, k :: 0 <= j < k < |listing| ==>
         listing[j].showKey != listing[k].showKey
         && AtMost(ToLower(p.unicode, listing[j].row.name), ToLower(p.unicode, listing[k].row.name))
  }

  /** The pages of shows are cut from a listing that the paths alone describe. */
  lemma ListingByPositions(p: Parser, paths: seq<string>, listing: seq<KeyedRow>)
    ensures IsShowListing(p, paths, listing) ==> ListsShows(p, paths, listing)
  {
    hide KeyRead, ShowKeys, ShowPaths, RowOf, IsShowRow, ToLower, StringLess, AtMost, Lists, Reads;
    if IsShowListing(p, paths, listing) {
      forall key
        ensures Lists(listing, key) <==> key != "" && Reads(p, paths, key)
      {
        KeysRead(p, paths, key);
        ListedIff(p, paths, listing, key);
      }
      forall k | 0 <= k < |listing|
        ensures IsShowRow(p, paths, listing[k].showKey, listing[k].row)
      {
        assert listing[k] in listing;
        KeysRead(p, paths, listing[k].showKey);
        RowByPositions(p, paths, listing[k].showKey);
      }
      forall j, k | 0 <= j < k < |listing|
        ensures listing[j].showKey != listing[k].showKey
        ensures AtMost(ToLower(p.unicode, listing[j].row.name), ToLower(p.unicode, listing[k].row.name))
      {
        ListedOnce(p, paths, listing, j, k);
        assert NameLe(p.unicode)(listing[j], listing[k]);
        AtMostIff(ToLower(p.unicode, listing[j].row.name), ToLower(p.unicode, listing[k].row.name));
      }
    }
  }

  lemma ListedIff(p: Parser, paths: seq<string>, listing: seq<KeyedRow>, key: string)
    ensures IsShowListing(p, paths, listing) ==> (Lists(listing, key) <==> key in ShowKeys(p, paths))
  {
    hide ShowKeys, ShowPaths, RowOf, Sorted;
    if IsShowListing(p, paths, listing) {
      if key in ShowKeys(p, paths) {
        KeysRead(p, paths, key);
        KeyedShowHasPaths(p, paths, key);
        assert KeyedRow(key, RowOf(p, ShowPaths(p, paths, key))) in listing;
      }
      if Lists(listing, key) {
        var k :| 0 <= k < |listing| && listing[k].showKey == key;
        assert listing[k] in listing;
      }
    }
  }

  lemma ListedOnce(p: Parser, paths: seq<string>, listing: seq<KeyedRow>, j: int, k: int)
    ensures IsShowListing(p, paths, listing) && 0 <= j < k < |listing| ==> listing[j].showKey != listing[k].showKey
  {
    hide IsShowListing, ShowKeys, At;
    if IsShowListing(p, paths, listing) && 0 <= j < k < |listing| {
      var keys := seq(|listing|, i requires 0 <= i < |listing| => listing[i].showKey);
      forall key | key in ShowKeys(p, paths)
        ensures key in keys
      {
        ListedIff(p, paths, listing, key);
        var i :| 0 <= i < |listing| && listing[i].showKey == key;
        assert keys[i] == key;
      }
      ListingSize(p, paths, listing);
      NoneTwice(keys, ShowKeys(p, paths), j, k);
    }
  }

  lemma ListingSize(p: Parser, paths: seq<string>, listing: seq<KeyedRow>)
    ensures IsShowListing(p, paths, listing) ==> |listing| == |ShowKeys(p, paths)|
  {
  }

  // ----- Seasons and episodes -----

  lemma SizeOfSeason(p: Parser, paths: seq<string>, showKey: string, season: int)
    ensures |SeasonPaths(p, ShowPaths(p, paths, showKey), season)| ==
            |At(KeyRead(p), paths, showKey) * At(SeasonRead(p), paths, season)|
  {
    SelectedByReading(p, paths, showKey, season);
    SelectedByReading(p, ShowPaths(p, paths, showKey), showKey, season);
    SelectedTwice(KeyRead(p), SeasonRead(p), paths, showKey, season);
  }

  // The seasons that are read from a show's paths, in increasing order, each with the number of its paths.
  ghost predicate TellsSeasons(p: Parser, paths: seq<string>, showKey: string, seasons: seq<SeasonCount>) {
    var at := At(KeyRead(p), paths, showKey);
    && (forall i, j :: 0 <= i < j < |seasons| ==> seasons[i].season < seasons[j].season)
    && (forall k :: 0 <= k < |seasons| ==>
          seasons[k].episodeCount == |at * At(SeasonRead(p), paths, seasons[k].season)|)
    && (set k | 0 <= k < |seasons| :: seasons[k].season) == set i | i in at :: SeasonRead(p)(paths[i])
  }

  /** The aggregate of a show tells exactly the seasons of its paths. */
  lemma AggByPositions(p: Parser, paths: seq<string>, showKey: string, agg: ShowAgg)
    ensures IsAgg(p, ShowPaths(p, paths, showKey), showKey, agg) ==> TellsSeasons(p, paths, showKey, agg.seasons)
  {
    hide ShowPaths, SeasonPaths, Seasons, At, KeyRead, SeasonRead, FirstTitle, PosterOf;
    if IsAgg(p, ShowPaths(p, paths, showKey), showKey, agg) {
      SeasonsAt(p, paths, showKey);
      forall k | 0 <= k < |agg.seasons|
        ensures agg.seasons[k].episodeCount ==
                |At(KeyRead(p), paths, showKey) * At(SeasonRead(p), paths, agg.seasons[k].season)|
      {
        SizeOfSeason(p, paths, showKey, agg.seasons[k].season);
      }
      forall season
        ensures season in Seasons(p, ShowPaths(p, paths, showKey)) <==>
                season in set k | 0 <= k < |agg.seasons| :: agg.seasons[k].season
      {
        ListedIffSeen(p, ShowPaths(p, paths, showKey), agg.seasons, season);
      }
    }
  }

  lemma ListedIffSeen(p: Parser, shown: seq<string>, seasons: seq<SeasonCount>, season: int)
    requires CountsSeasons(p, shown, seasons)
    ensures season in Seasons(p, shown) <==> exists k :: 0 <= k < |seasons| && seasons[k].season == season
  {
  }

  // Rows in order: numbered episodes by number, then the others, and equal numbers by path.
  ghost predicate InOrder(a: EpisodeRow, b: EpisodeRow) {
    || (a.episode.Some? && b.episode.None?)
    || (a.episode.Some? && b.episode.Some? && a.episode.value < b.episode.value)
    || (a.episode == b.episode && AtMost(a.relPath, b.relPath))
  }

  lemma InOrderIff(a: EpisodeRow, b: EpisodeRow)
    ensures InOrder(a, b) <==> !EpisodeLess(b, a)
  {
    hide StringLess;
    AtMostIff(a.relPath, b.relPath);
  }

  // The row of a path.
  predicate IsEpisode(p: Parser, row: EpisodeRow) {
    var read := p.parse(row.relPath);
    var keyed := KeyRead(p)(row.relPath) != "";
    && row.title == (if p.display(row.relPath) != "" then p.display(row.relPath) else p.base(row.relPath))
    && row.episodeTitle == TrimSpace(read.episodeTitle)
    && row.season == (if keyed && read.season.None? then Some(0) else read.season)
    && row.episode == (if keyed && read.episode.None? then Some(0) else read.episode)
  }

  lemma EpisodeIs(p: Parser, path: string)
    ensures EpisodeOf(p, path).relPath == path && IsEpisode(p, EpisodeOf(p, path))
  {
    hide TrimSpace, KeyRead, DenormOf;
    KeptOfPath(p, path);
    assert SeasonRead(p)(path) == if p.parse(path).season.Some? then p.parse(path).season.value else 0;
  }

  lemma EpisodesAt(p: Parser, paths: seq<string>, showKey: string, season: int, path: string)
    ensures path in SeasonPaths(p, ShowPaths(p, paths, showKey), season) <==>
            exists i :: i in At(KeyRead(p), paths, showKey) * At(SeasonRead(p), paths, season) && paths[i] == path
  {
    hide KeyRead, SeasonRead, ShowPaths, SeasonPaths, Select;
    var shown, both := ShowPaths(p, paths, showKey), At(KeyRead(p), paths, showKey) * At(SeasonRead(p), paths, season);
    SelectedByReading(p, paths, showKey, season);
    SelectedByReading(p, shown, showKey, season);
    assert path in SeasonPaths(p, shown, season) <==>
           path in paths && KeyRead(p)(path) == showKey && SeasonRead(p)(path) == season;
    if path in SeasonPaths(p, shown, season) {
      var i :| 0 <= i < |paths| && paths[i] == path;
      assert i in both;
    }
  }

  lemma SeasonRowsAre(p: Parser, paths: seq<string>, showKey: string, season: int)
    ensures var rows, selected := SeasonRows(p, paths, showKey, season),
                                  SeasonPaths(p, ShowPaths(p, paths, showKey), season);
            && |rows| == |selected| && Sorted(rows, EpisodeLe())
            && (forall r :: r in rows ==> r.relPath in selected && r == EpisodeOf(p, r.relPath))
            && forall path :: path in selected ==> EpisodeOf(p, path) in rows
  {
    hide EpisodeOf, ShowPaths, SeasonPaths, EpisodeLess, Sort, TotalOrder, IsEpisode;
    EpisodeLeIsTotalOrder();
    var selected := SeasonPaths(p, ShowPaths(p, paths, showKey), season);
    var listed := EpisodesOf(p, selected);
    forall r | r in listed
      ensures r.relPath in selected && r == EpisodeOf(p, r.relPath)
    {
      var n :| 0 <= n < |listed| && listed[n] == r;
      EpisodeIs(p, selected[n]);
    }
    forall path | path in selected
      ensures EpisodeOf(p, path) in listed
    {
      var n :| 0 <= n < |selected| && selected[n] == path;
      assert listed[n] == EpisodeOf(p, path);
    }
  }

  /**
   * The rows of a season before paging: as many as there are positions with its key and season, each the
   * row of one of these paths, every such path among them, in order.
   */
  lemma EpisodesByPositions(p: Parser, paths: seq<string>, showKey: string, season: int)
    ensures var rows := SeasonRows(p, paths, showKey, season);
            var at := At(KeyRead(p), paths, showKey) * At(SeasonRead(p), paths, season);
            && |rows| == |at|
            && (forall k :: 0 <= k < |rows| ==>
                  IsEpisode(p, rows[k]) && exists i :: i in at && paths[i] == rows[k].relPath)
            && (forall i :: i in at ==> exists k :: 0 <= k < |rows| && rows[k].relPath == paths[i])
            && forall j, k :: 0 <= j < k < |rows| ==> InOrder(rows[j], rows[k])
  {
    hide EpisodeOf, IsEpisode, KeyRead, SeasonRead, ShowPaths, SeasonPaths, InOrder, EpisodeLess, SeasonRows, At;
    var rows := SeasonRows(p, paths, showKey, season);
    var at := At(KeyRead(p), paths, showKey) * At(SeasonRead(p), paths, season);
    SizeOfSeason(p, paths, showKey, season);
    SeasonRowsAre(p, paths, showKey, season);
    forall k | 0 <= k < |rows|
      ensures IsEpisode(p, rows[k]) && exists i :: i in at && paths[i] == rows[k].relPath
    {
      assert rows[k] in rows;
      EpisodeIs(p, rows[k].relPath);
      EpisodesAt(p, paths, showKey, season, rows[k].relPath);
    }
    forall i | i in at
      ensures exists k :: 0 <= k < |rows| && rows[k].relPath == paths[i]
    {
      EpisodesAt(p, paths, showKey, season, paths[i]);
      EpisodeIs(p, paths[i]);
    }
    forall j, k | 0 <= j < k < |rows|
      ensures InOrder(rows[j], rows[k])
    {
      assert EpisodeLe()(rows[j], rows[k]);
      InOrderIff(rows[j], rows[k]);
    }
  }

  /** A page holds the rows from its offset on, at most as many as its limit unless that is 0 or less. */
  lemma PageByPositions<T>(rows: seq<T>, limit: int, offset: nat)
    ensures var page := Page(rows, limit, offset);
            && |page| == (if offset >= |rows| then 0
                          else if 0 < limit < |rows| - offset then limit else |rows| - offset)
            && forall k :: 0 <= k < |page| ==> page[k] == rows[offset + k]
  {
  }

  // ----- Provider groups -----

  function NamedKey(u: Unicode, identity: ProviderGroups.Identity): string -> Option<string> {
    path => if TrimSpace(identity(path).0) == "" then None else Some(Key(u, identity(path).0))
  }

  // The year of the first of these positions that has one.
  ghost predicate IsFirstYear(identity: ProviderGroups.Identity, paths: seq<string>, at: set<int>, year: Option<int>)
    requires forall i :: i in at ==> 0 <= i < |paths|
  {
    if year.None? then forall i :: i in at ==> identity(paths[i]).1 == None
    else exists i :: i in at && identity(paths[i]).1 == year
                     && forall j :: j in at && identity(paths[j]).1 != None ==> i <= j
  }

  lemma SameKeys(u: Unicode, identity: ProviderGroups.Identity, paths: seq<string>, key: string)
    ensures ProviderGroups.Members(u, identity, paths, key) == Select(NamedKey(u, identity), paths, Some(key))
  {
    hide Key, TrimSpace;
    assert forall path :: NamedKey(u, identity)(path) == ProviderGroups.GroupKeyFn(u, identity)(path);
    SameSelections(NamedKey(u, identity), ProviderGroups.GroupKeyFn(u, identity), paths, Some(key));
  }

  lemma {:induction false} YearAt(u: Unicode, identity: ProviderGroups.Identity, paths: seq<string>, key: string)
    ensures IsFirstYear(identity, paths, At(NamedKey(u, identity), paths, Some(key)),
                        ProviderGroups.FirstYear(identity, ProviderGroups.Members(u, identity, paths, key)))
  {
    hide NamedKey, ProviderGroups.GroupKey, ProviderGroups.Members;
    SameKeys(u, identity, paths, key);
    if paths != [] {
      var front, last := paths[..|paths| - 1], paths[|paths| - 1];
      assert paths == front + [last];
      YearAt(u, identity, front, key);
      AtGrows(NamedKey(u, identity), paths, Some(key));
      SelectStep(NamedKey(u, identity), front, last, Some(key));
      SameKeys(u, identity, front, key);
      var year := ProviderGroups.FirstYear(identity, ProviderGroups.Members(u, identity, front, key));
      YearStep(identity, paths, At(NamedKey(u, identity), front, Some(key)), year,
               NamedKey(u, identity)(last) == Some(key));
      YearGrows(identity, ProviderGroups.Members(u, identity, front, key), last);
    }
  }

  lemma YearGrows(identity: ProviderGroups.Identity, members: seq<string>, path: string)
    ensures var year := ProviderGroups.FirstYear(identity, members);
            ProviderGroups.FirstYear(identity, members + [path]) == if year.None? then identity(path).1 else year
  {
    assert (members + [path])[..|members|] == members;
  }

  lemma YearStep(identity: ProviderGroups.Identity, paths: seq<string>, at: set<int>, year: Option<int>, more: bool)
    requires paths != [] && forall i :: i in at ==> 0 <= i < |paths| - 1
    requires IsFirstYear(identity, paths[..|paths| - 1], at, year)
    ensures IsFirstYear(identity, paths, at + (if more then {|paths| - 1} else {}),
                        if more && year.None? then identity(paths[|paths| - 1]).1 else year)
  {
    var last := |paths| - 1;
    var front, all := paths[..last], at + if more then {last} else {};
    assert forall i :: i in at ==> front[i] == paths[i];
    if year.Some? {
      var i :| i in at && identity(front[i]).1 == year
               && forall j :: j in at && identity(front[j]).1 != None ==> i <= j;
      assert i in all && identity(paths[i]).1 == year;
    } else if more && identity(paths[last]).1 != None {
      assert last in all;
    }
  }

  // A group has the paths whose name is not blank and has its key, sorted; its name is that of the first of them in
  // the listing, its year the first year one of them has, and its poster path the least of them.
  ghost predicate GroupsPaths(u: Unicode, identity: ProviderGroups.Identity, paths: seq<string>,
                              group: ProviderGroups.ShowGroup)
  {
    var at := At(NamedKey(u, identity), paths, Some(group.key));
    && |group.paths| == |at| > 0
    && (forall path :: path in group.paths <==> exists i :: i in at && paths[i] == path)
    && (forall j, k :: 0 <= j < k < |group.paths| ==> AtMost(group.paths[j], group.paths[k]))
    && (exists path :: IsFirst(paths, at, path) && group.name == identity(path).0)
    && IsFirstYear(identity, paths, at, group.year)
    && group.posterPath in group.paths
    && forall path :: path in group.paths ==> AtMost(group.posterPath, path)
  }

  /** A group of the provider is what the paths alone make of its key. */
  lemma GroupByPositions(u: Unicode, identity: ProviderGroups.Identity, paths: seq<string>,
                         group: ProviderGroups.ShowGroup)
    ensures ProviderGroups.IsGroup(u, identity, paths, group) ==> GroupsPaths(u, identity, paths, group)
  {
    hide NamedKey, IsFirstYear, StringLess, AtMost, ProviderGroups.Members, At, ProviderGroups.IsGroup;
    var members := ProviderGroups.Members(u, identity, paths, group.key);
    if ProviderGroups.IsGroup(u, identity, paths, group) {
      GroupIs(u, identity, paths, group);
      SameKeys(u, identity, paths, group.key);
      SelectedAt(NamedKey(u, identity), paths, Some(group.key));
      YearAt(u, identity, paths, group.key);
      MembersAt(u, identity, paths, group.key);
      forall j, k | 0 <= j < k < |group.paths|
        ensures AtMost(group.paths[j], group.paths[k])
      {
        assert StringLe()(group.paths[j], group.paths[k]);
        AtMostIff(group.paths[j], group.paths[k]);
      }
      forall path | path in group.paths
        ensures AtMost(group.posterPath, path)
      {
        LeastIsLeast(members, path);
        AtMostIff(group.posterPath, path);
      }
    }
  }

  lemma GroupIs(u: Unicode, identity: ProviderGroups.Identity, paths: seq<string>, group: ProviderGroups.ShowGroup)
    ensures ProviderGroups.IsGroup(u, identity, paths, group) ==>
              var members := ProviderGroups.Members(u, identity, paths, group.key);
              && members != [] && group.name == identity(members[0]).0
              && group.year == ProviderGroups.FirstYear(identity, members) && group.posterPath == LeastPath(members)
              && |group.paths| == |members| && Sorted(group.paths, StringLe())
              && forall path :: path in group.paths <==> path in members
  {
    hide ProviderGroups.Members, LeastPath, ProviderGroups.FirstYear, StringLess;
    StringLeIsTotalOrder();
  }

  lemma MembersAt(u: Unicode, identity: ProviderGroups.Identity, paths: seq<string>, key: string)
    ensures forall path :: path in ProviderGroups.Members(u, identity, paths, key) <==>
                           exists i :: i in At(NamedKey(u, identity), paths, Some(key)) && paths[i] == path
  {
    SameKeys(u, identity, paths, key);
    hide *;
    SelectedAre(NamedKey(u, identity), paths, Some(key));
  }
}
