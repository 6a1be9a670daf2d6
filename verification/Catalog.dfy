/**
 * The path catalog of a series library (internal/catalog/path_index.go over CatalogDenormFrom in
 * internal/metadata/catalog_denorm.go). What the file name parser reads from a path is a parameter.
 */
module Catalog {
  import opened Wrappers
  import opened Sorting
  import opened AccessPaths
  import opened Naming
  import opened ShowKey
  import opened WordRuns

  /**
   * What is read from a path: its series identity, its display name without stored metadata, and its
   * last element with and without the extension.
   */
  datatype Parser = Parser(
    unicode: Unicode, parse: string -> SeriesIdentity, display: string -> string, base: string -> string,
    basename: string -> string)

  datatype Denorm = Denorm(
    showKey: string, season: Option<int>, episode: Option<int>, sortTitle: string, episodeTitle: string)

  // CatalogDenormFrom for a series path with no stored metadata.
  function DenormOf(p: Parser, relPath: string): Denorm {
    var identity := p.parse(relPath);
    var trimmed := TrimSpace(identity.show);
    var show := if trimmed == "" then identity.show else trimmed;
    var showKey := Key(p.unicode, show);
    var keyed := showKey != "";
    Denorm(showKey,
           if keyed && identity.season.None? then Some(0) else identity.season,
           if keyed && identity.episode.None? then Some(0) else identity.episode,
           if show != "" then show else if keyed then showKey else p.basename(relPath),
           TrimSpace(identity.episodeTitle))
  }

  function ShowKeyOf(p: Parser, relPath: string): string {
    DenormOf(p, relPath).showKey
  }

  function SeasonOf(p: Parser, relPath: string): int {
    var season := DenormOf(p, relPath).season;
    if season.None? then 0 else season.value
  }

  // ----- What the loops compute -----

  // The paths that `g` sends to `k`, in listing order.
  function Select<K(==)>(g: string -> K, paths: seq<string>, k: K): (selected: seq<string>)
    ensures forall path :: path in selected <==> path in paths && g(path) == k
  {
    if paths == [] then []
    else
      var front, last := paths[..|paths| - 1], paths[|paths| - 1];
      assert paths == front + [last];
      Select(g, front, k) + (if g(last) == k then [last] else [])
  }

  function KeyFn(p: Parser): string -> string {
    path => ShowKeyOf(p, path)
  }

  function SeasonFn(p: Parser): string -> int {
    path => SeasonOf(p, path)
  }

  // The paths of one show.
  function ShowPaths(p: Parser, paths: seq<string>, showKey: string): seq<string> {
    Select(KeyFn(p), paths, showKey)
  }

  // The paths of one season.
  function SeasonPaths(p: Parser, paths: seq<string>, season: int): seq<string> {
    Select(SeasonFn(p), paths, season)
  }

  function ShowKeys(p: Parser, paths: seq<string>): set<string> {
    set i | 0 <= i < |paths| && ShowKeyOf(p, paths[i]) != "" :: ShowKeyOf(p, paths[i])
  }

  function Seasons(p: Parser, paths: seq<string>): set<int> {
    set i | 0 <= i < |paths| :: SeasonOf(p, paths[i])
  }

  function LeastPath(paths: seq<string>): (least: string)
    requires paths != []
    ensures least in paths
  {
    if |paths| == 1 then paths[0]
    else
      var least := LeastPath(paths[..|paths| - 1]);
      if StringLess(paths[|paths| - 1], least) then paths[|paths| - 1] else least
  }

  // ----- ListCatalogShowsPage, before sorting and paging -----

  datatype ShowRow = ShowRow(name: string, seasons: set<int>, episodeCount: int, posterPath: string)

  function RowOf(p: Parser, shown: seq<string>): ShowRow
    requires shown != []
  {
    ShowRow(DenormOf(p, shown[0]).sortTitle, Seasons(p, shown), |shown|, LeastPath(shown))
  }

  lemma KeyedShowHasPaths(p: Parser, paths: seq<string>, showKey: string)
    requires showKey != ""
    ensures ShowPaths(p, paths, showKey) != [] <==> showKey in ShowKeys(p, paths)
  {
    hide ShowKeyOf;
    var shown := ShowPaths(p, paths, showKey);
    if shown != [] {
      assert shown[0] in shown && shown[0] in paths && KeyFn(p)(shown[0]) == showKey;
    }
    if showKey in ShowKeys(p, paths) {
      var i :| 0 <= i < |paths| && ShowKeyOf(p, paths[i]) == showKey;
      assert paths[i] in paths && KeyFn(p)(paths[i]) == showKey;
      assert paths[i] in shown;
    }
  }

  // The aggregates of a prefix of the listing: one row per key that occurs in it.
  ghost predicate Aggregated(p: Parser, paths: seq<string>, byKey: map<string, ShowRow>) {
    && (forall key :: key in byKey <==> key != "" && ShowPaths(p, paths, key) != [])
    && (forall key :: key in byKey ==> byKey[key] == RowOf(p, ShowPaths(p, paths, key)))
  }

  // The loop body for a path with a key.
  function WithPath(p: Parser, byKey: map<string, ShowRow>, relPath: string): map<string, ShowRow> {
    var denorm := DenormOf(p, relPath);
    var entry := if denorm.showKey in byKey then byKey[denorm.showKey] else ShowRow(denorm.sortTitle, {}, 0, relPath);
    byKey[denorm.showKey := ShowRow(entry.name, entry.seasons + {SeasonOf(p, relPath)}, entry.episodeCount + 1,
                                    if StringLess(relPath, entry.posterPath) then relPath else entry.posterPath)]
  }

  method ShowRows(p: Parser, paths: seq<string>) returns (byKey: map<string, ShowRow>)
    ensures byKey.Keys == ShowKeys(p, paths)
    ensures forall key :: key in byKey ==>
              ShowPaths(p, paths, key) != [] && byKey[key] == RowOf(p, ShowPaths(p, paths, key))
  {
    hide RowOf, Aggregated, DenormOf, StringLess, ShowPaths;
    byKey := map[];
    NothingAggregated(p);
    for n := 0 to |paths|
      invariant Aggregated(p, paths[..n], byKey)
    {
      var relPath := paths[n];
      assert paths[..n + 1] == paths[..n] + [relPath];
      PathAggregated(p, paths[..n], relPath, byKey);
      var denorm := DenormOf(p, relPath);
      if denorm.showKey == "" {
        continue;
      }
      var entry := if denorm.showKey in byKey then byKey[denorm.showKey]
                   else ShowRow(denorm.sortTitle, {}, 0, relPath);
      entry := entry.(episodeCount := entry.episodeCount + 1);
      var season := if denorm.season.None? then 0 else denorm.season.value;
      entry := entry.(seasons := entry.seasons + {season});
      if StringLess(relPath, entry.posterPath) {
        entry := entry.(posterPath := relPath);
      }
      byKey := byKey[denorm.showKey := entry];
    }
    assert paths[..|paths|] == paths;
    AllAggregated(p, paths, byKey);
  }

  lemma NothingAggregated(p: Parser)
    ensures Aggregated(p, [], map[])
  {
  }

  lemma PathAggregated(p: Parser, paths: seq<string>, relPath: string, byKey: map<string, ShowRow>)
    requires Aggregated(p, paths, byKey)
    ensures Aggregated(p, paths + [relPath], if ShowKeyOf(p, relPath) == "" then byKey else WithPath(p, byKey, relPath))
  {
    hide DenormOf, SeasonOf, Seasons, LeastPath, ShowPaths, StringLess;
    var key := ShowKeyOf(p, relPath);
    forall other
      ensures other != key ==> ShowPaths(p, paths + [relPath], other) == ShowPaths(p, paths, other)
      ensures ShowPaths(p, paths + [relPath], key) == ShowPaths(p, paths, key) + [relPath]
    {
      ShowPathsStep(p, paths, relPath, other);
      ShowPathsStep(p, paths, relPath, key);
    }
    RowGrows(p, ShowPaths(p, paths, key), relPath);
    NotLess(relPath);
  }

  lemma NotLess(path: string)
    ensures !StringLess(path, path)
  {
  }

  lemma SelectStep<K>(g: string -> K, paths: seq<string>, path: string, k: K)
    ensures Select(g, paths + [path], k) == if g(path) == k then Select(g, paths, k) + [path] else Select(g, paths, k)
  {
  }

  lemma ShowPathsStep(p: Parser, paths: seq<string>, relPath: string, key: string)
    ensures ShowPaths(p, paths + [relPath], key) ==
            if ShowKeyOf(p, relPath) == key then ShowPaths(p, paths, key) + [relPath] else ShowPaths(p, paths, key)
  {
    hide ShowKeyOf;
    SelectStep(KeyFn(p), paths, relPath, key);
  }

  lemma AllAggregated(p: Parser, paths: seq<string>, byKey: map<string, ShowRow>)
    requires Aggregated(p, paths, byKey)
    ensures byKey.Keys == ShowKeys(p, paths)
    ensures forall key :: key in byKey ==>
              ShowPaths(p, paths, key) != [] && byKey[key] == RowOf(p, ShowPaths(p, paths, key))
  {
    hide ShowKeyOf, RowOf, ShowPaths;
    forall key
      ensures key in byKey <==> key in ShowKeys(p, paths)
    {
      if key != "" {
        KeyedShowHasPaths(p, paths, key);
      }
    }
  }

  lemma RowGrows(p: Parser, shown: seq<string>, relPath: string)
    ensures var season := SeasonOf(p, relPath);
            RowOf(p, shown + [relPath]) ==
            if shown == [] then ShowRow(DenormOf(p, relPath).sortTitle, {season}, 1, relPath)
            else ShowRow(RowOf(p, shown).name, RowOf(p, shown).seasons + {season}, |shown| + 1,
                         if StringLess(relPath, LeastPath(shown)) then relPath else LeastPath(shown))
  {
    hide DenormOf;
    var longer := shown + [relPath];
    assert longer[..|longer| - 1] == shown;
    if shown == [] {
      assert longer == [relPath];
    }
    SeasonsGrow(p, shown, relPath);
  }

  lemma SeasonsGrow(p: Parser, shown: seq<string>, relPath: string)
    ensures Seasons(p, shown + [relPath]) == Seasons(p, shown) + {SeasonOf(p, relPath)}
  {
    hide SeasonOf;
    var longer := shown + [relPath];
    forall season
      ensures season in Seasons(p, longer) <==> season in Seasons(p, shown) + {SeasonOf(p, relPath)}
    {
      if season == SeasonOf(p, relPath) {
        assert longer[|shown|] == relPath;
      }
      if season in Seasons(p, shown) {
        var i :| 0 <= i < |shown| && SeasonOf(p, shown[i]) == season;
        assert longer[i] == shown[i];
      }
    }
  }

  // ----- The page of shows -----

  datatype KeyedRow = KeyedRow(showKey: string, row: ShowRow)

  function NameLe(u: Unicode): (KeyedRow, KeyedRow) -> bool {
    (a: KeyedRow, b: KeyedRow) => !StringLess(ToLower(u, b.row.name), ToLower(u, a.row.name))
  }

  lemma NameLeIsTotalOrder(u: Unicode)
    ensures TotalOrder(NameLe(u))
  {
    hide StringLess;
    var le := NameLe(u);
    forall a, b
      ensures le(a, b) || le(b, a)
    {
      StringLessTrichotomy(ToLower(u, a.row.name), ToLower(u, b.row.name));
    }
    forall a, b, c | le(a, b) && le(b, c)
      ensures le(a, c)
    {
      StringLeTransitive(ToLower(u, a.row.name), ToLower(u, b.row.name), ToLower(u, c.row.name));
    }
  }

  // All shows, each once with its row, by lowered name; shows of one lowered name come in any order.
  ghost predicate IsShowListing(p: Parser, paths: seq<string>, listing: seq<KeyedRow>) {
    && (forall r :: r in listing <==>
          r.showKey in ShowKeys(p, paths) && ShowPaths(p, paths, r.showKey) != []
          && r.row == RowOf(p, ShowPaths(p, paths, r.showKey)))
    && |listing| == |ShowKeys(p, paths)| && Sorted(listing, NameLe(p.unicode))
  }

  /** A page of shows is cut from a listing of all shows by lowered name; the total is the number of keys. */
  method ShowsPage(p: Parser, paths: seq<string>, limit: int, offset: nat)
    returns (page: seq<KeyedRow>, total: int)
    ensures exists listing :: IsShowListing(p, paths, listing) && page == Page(listing, limit, offset)
    ensures total == |ShowKeys(p, paths)|
  {
    hide RowOf, ShowPaths, ShowKeys, StringLess, ToLower;
    var byKey := ShowRows(p, paths);
    var rows: seq<KeyedRow> := [];
    var remaining := byKey.Keys;
    while remaining != {}
      invariant remaining <= byKey.Keys && |rows| == |byKey.Keys| - |remaining|
      invariant forall r :: r in rows <==>
                  r.showKey in byKey && r.showKey !in remaining && r.row == byKey[r.showKey]
    {
      var key :| key in remaining;
      rows := rows + [KeyedRow(key, byKey[key])];
      remaining := remaining - {key};
    }
    NameLeIsTotalOrder(p.unicode);
    rows := Sort(rows, NameLe(p.unicode));
    assert IsShowListing(p, paths, rows);
    page, total := Page(rows, limit, offset), |rows|;
  }

  // ----- GetCatalogShowAgg -----

  datatype SeasonCount = SeasonCount(season: int, episodeCount: int)

  datatype ShowAgg = ShowAgg(name: string, posterPath: string, seasons: seq<SeasonCount>)

  // The loop keeps the first title it meets that is not empty.
  function FirstTitle(p: Parser, shown: seq<string>): string {
    if shown == [] then ""
    else
      var before := FirstTitle(p, shown[..|shown| - 1]);
      if before == "" then DenormOf(p, shown[|shown| - 1]).sortTitle else before
  }

  // The loop takes an empty poster path for none yet.
  function PosterOf(shown: seq<string>): string {
    if shown == [] then ""
    else
      var before, last := PosterOf(shown[..|shown| - 1]), shown[|shown| - 1];
      if before == "" || StringLess(last, before) then last else before
  }

  // The seasons of a show in increasing order, each with the number of its paths.
  ghost predicate CountsSeasons(p: Parser, shown: seq<string>, seasons: seq<SeasonCount>) {
    && (forall i, j :: 0 <= i < j < |seasons| ==> seasons[i].season < seasons[j].season)
    && (forall i :: 0 <= i < |seasons| ==> seasons[i].episodeCount == |SeasonPaths(p, shown, seasons[i].season)|)
    && (forall season :: season in Seasons(p, shown) <==> exists i :: 0 <= i < |seasons| && seasons[i].season == season)
  }

  ghost predicate IsAgg(p: Parser, shown: seq<string>, showKey: string, agg: ShowAgg) {
    && agg.name == (if FirstTitle(p, shown) == "" then showKey else FirstTitle(p, shown))
    && agg.posterPath == PosterOf(shown)
    && CountsSeasons(p, shown, agg.seasons)
  }

  method GetShowAgg(p: Parser, paths: seq<string>, showKey: string) returns (agg: Option<ShowAgg>)
    ensures agg.None? <==> ShowPaths(p, paths, showKey) == []
    ensures agg.Some? ==> IsAgg(p, ShowPaths(p, paths, showKey), showKey, agg.value)
  {
    hide DenormOf, StringLess, SeasonTally, FirstTitle, PosterOf;
    var counts: map<int, int> := map[];
    var name, posterPath := "", "";
    ghost var shown := [];
    NothingTallied(p);
    for n := 0 to |paths|
      invariant shown == ShowPaths(p, paths[..n], showKey)
      invariant Tallied(p, shown, name, posterPath, counts)
    {
      var relPath := paths[n];
      var denorm := DenormOf(p, relPath);
      assert paths[..n + 1] == paths[..n] + [relPath];
      ShowPathsStep(p, paths[..n], relPath, showKey);
      if denorm.showKey != showKey {
        continue;
      }
      TallyPath(p, shown, relPath, name, posterPath, counts);
      if name == "" {
        name := denorm.sortTitle;
      }
      if posterPath == "" || StringLess(relPath, posterPath) {
        posterPath := relPath;
      }
      var season := if denorm.season.None? then 0 else denorm.season.value;
      counts := counts[season := (if season in counts then counts[season] else 0) + 1];
      shown := shown + [relPath];
    }
    assert paths[..|paths|] == paths;
    TallyIsEmptyIff(p, shown, counts);
    if |counts| == 0 {
      return None;
    }
    if name == "" {
      name := showKey;
    }
    var seasons := SeasonList(p, shown, counts);
    agg := Some(ShowAgg(name, posterPath, seasons));
  }

  // The loop's variables describe the paths of the show met so far.
  ghost predicate Tallied(p: Parser, shown: seq<string>, name: string, posterPath: string, counts: map<int, int>) {
    name == FirstTitle(p, shown) && posterPath == PosterOf(shown) && SeasonTally(p, shown, counts)
  }

  lemma NothingTallied(p: Parser)
    ensures Tallied(p, [], "", "", map[])
  {
  }

  lemma TallyPath(p: Parser, shown: seq<string>, relPath: string, name: string, posterPath: string,
                  counts: map<int, int>)
    requires Tallied(p, shown, name, posterPath, counts)
    ensures var season := SeasonOf(p, relPath);
            Tallied(p, shown + [relPath],
                    if name == "" then DenormOf(p, relPath).sortTitle else name,
                    if posterPath == "" || StringLess(relPath, posterPath) then relPath else posterPath,
                    counts[season := (if season in counts then counts[season] else 0) + 1])
  {
    hide DenormOf, StringLess, SeasonTally, SeasonOf;
    assert (shown + [relPath])[..|shown|] == shown;
    TallyOneMore(p, shown, relPath, counts);
  }

  ghost predicate SeasonTally(p: Parser, shown: seq<string>, counts: map<int, int>) {
    && counts.Keys == Seasons(p, shown)
    && forall season :: season in counts ==> counts[season] == |SeasonPaths(p, shown, season)|
  }

  lemma TallyOneMore(p: Parser, shown: seq<string>, relPath: string, counts: map<int, int>)
    requires SeasonTally(p, shown, counts)
    ensures var season := SeasonOf(p, relPath);
            SeasonTally(p, shown + [relPath], counts[season := (if season in counts then counts[season] else 0) + 1])
  {
    hide SeasonOf, Seasons;
    SeasonsGrow(p, shown, relPath);
    forall season
      ensures SeasonPaths(p, shown + [relPath], season) ==
              if SeasonOf(p, relPath) == season then SeasonPaths(p, shown, season) + [relPath]
              else SeasonPaths(p, shown, season)
    {
      SelectStep(SeasonFn(p), shown, relPath, season);
    }
    NoSuchSeason(p, shown, SeasonOf(p, relPath));
  }

  lemma NoSuchSeason(p: Parser, shown: seq<string>, season: int)
    ensures season !in Seasons(p, shown) ==> SeasonPaths(p, shown, season) == []
  {
    hide SeasonOf;
    var selected := SeasonPaths(p, shown, season);
    if selected != [] {
      assert selected[0] in selected && SeasonFn(p)(selected[0]) == season;
      var i :| 0 <= i < |shown| && shown[i] == selected[0];
      assert SeasonOf(p, shown[i]) in Seasons(p, shown);
    }
  }

  lemma TallyIsEmptyIff(p: Parser, shown: seq<string>, counts: map<int, int>)
    requires SeasonTally(p, shown, counts)
    ensures |counts| == 0 <==> shown == []
  {
    hide SeasonOf;
    if shown != [] {
      assert SeasonOf(p, shown[0]) in counts.Keys;
    }
    assert |counts| == 0 <==> counts.Keys == {};
  }

  lemma Member<T>(s: set<T>) returns (x: T)
    requires |s| > 0
    ensures x in s
  {
    x :| x in s;
  }

  method SeasonList(p: Parser, ghost shown: seq<string>, counts: map<int, int>) returns (seasons: seq<SeasonCount>)
    requires SeasonTally(p, shown, counts)
    ensures CountsSeasons(p, shown, seasons)
  {
    hide Seasons, SeasonPaths;
    var keys: seq<int> := [];
    var remaining := counts.Keys;
    while |remaining| > 0
      invariant remaining <= counts.Keys
      invariant forall season :: season in keys <==> season in counts.Keys - remaining
      invariant Distinct(keys, IntLe())
      decreases |remaining|
    {
      ghost var member := Member(remaining);
      var season :| season in remaining;
      assert forall k :: 0 <= k < |keys| ==> keys[k] in keys;
      keys := keys + [season];
      remaining := remaining - {season};
    }
    IntLeIsTotalOrder();
    SortKeepsDistinct(keys, IntLe());
    keys := Sort(keys, IntLe());
    seasons := [];
    for n := 0 to |keys|
      invariant |seasons| == n
      invariant forall i :: 0 <= i < n ==> seasons[i].season == keys[i]
                                           && seasons[i].episodeCount == |SeasonPaths(p, shown, keys[i])|
    {
      assert keys[n] in keys;
      seasons := seasons + [SeasonCount(keys[n], counts[keys[n]])];
    }
    forall i, j | 0 <= i < j < |seasons|
      ensures seasons[i].season < seasons[j].season
    {
      assert IntLe()(keys[i], keys[j]) && !(IntLe()(keys[i], keys[j]) && IntLe()(keys[j], keys[i]));
    }
    forall season
      ensures season in Seasons(p, shown) <==> exists i :: 0 <= i < |seasons| && seasons[i].season == season
    {
      if season in Seasons(p, shown) {
        assert season in keys;
        var i :| 0 <= i < |keys| && keys[i] == season;
        assert seasons[i].season == season;
      }
      forall i | 0 <= i < |seasons| && seasons[i].season == season
        ensures season in Seasons(p, shown)
      {
        assert keys[i] in keys;
      }
    }
  }

  // ----- CatalogShowExists -----

  method ShowExists(p: Parser, paths: seq<string>, showKey: string) returns (found: bool)
    ensures found <==> ShowPaths(p, paths, showKey) != []
  {
    hide DenormOf;
    for n := 0 to |paths|
      invariant ShowPaths(p, paths[..n], showKey) == []
    {
      var denorm := DenormOf(p, paths[n]);
      if denorm.showKey == showKey {
        assert paths[n] in paths && KeyFn(p)(paths[n]) == showKey;
        assert paths[n] in ShowPaths(p, paths, showKey);
        return true;
      }
      assert paths[..n + 1] == paths[..n] + [paths[n]];
      ShowPathsStep(p, paths[..n], paths[n], showKey);
    }
    assert paths[..|paths|] == paths;
    return false;
  }

  // ----- ListCatalogSeasonEpisodes -----

  datatype EpisodeRow = EpisodeRow(
    relPath: string, title: string, season: Option<int>, episode: Option<int>, episodeTitle: string)

  function EpisodeOf(p: Parser, relPath: string): EpisodeRow {
    var denorm := DenormOf(p, relPath);
    EpisodeRow(relPath, if p.display(relPath) == "" then p.base(relPath) else p.display(relPath),
               denorm.season, denorm.episode, denorm.episodeTitle)
  }

  function EpisodesOf(p: Parser, paths: seq<string>): (rows: seq<EpisodeRow>)
    ensures |rows| == |paths|
  {
    seq(|paths|, i requires 0 <= i < |paths| => EpisodeOf(p, paths[i]))
  }

  lemma NoEpisodes(p: Parser)
    ensures EpisodesOf(p, []) == []
  {
  }

  lemma EpisodesGrow(p: Parser, paths: seq<string>, relPath: string)
    ensures EpisodesOf(p, paths + [relPath]) == EpisodesOf(p, paths) + [EpisodeOf(p, relPath)]
  {
    hide EpisodeOf;
  }

  // Numbered episodes by number, then the unnumbered ones; equal numbers by path.
  predicate EpisodeLess(a: EpisodeRow, b: EpisodeRow) {
    if a.episode.Some? && b.episode.Some? && a.episode.value != b.episode.value then a.episode.value < b.episode.value
    else if a.episode.Some? && b.episode.None? then true
    else if a.episode.None? && b.episode.Some? then false
    else StringLess(a.relPath, b.relPath)
  }

  function EpisodeLe(): (EpisodeRow, EpisodeRow) -> bool {
    (a, b) => !EpisodeLess(b, a)
  }

  lemma EpisodeLeIsTotalOrder()
    ensures TotalOrder(EpisodeLe())
  {
    hide StringLess;
    var le := EpisodeLe();
    forall a, b
      ensures le(a, b) || le(b, a)
    {
      StringLessTrichotomy(a.relPath, b.relPath);
    }
    forall a, b, c | le(a, b) && le(b, c)
      ensures le(a, c)
    {
      if !StringLess(b.relPath, a.relPath) && !StringLess(c.relPath, b.relPath) {
        StringLeTransitive(a.relPath, b.relPath, c.relPath);
      }
    }
  }

  /** The comparator never ties rows of different paths, so the order of the rows is determined. */
  lemma EpisodesNeverTie(a: EpisodeRow, b: EpisodeRow)
    ensures a.relPath != b.relPath ==> EpisodeLess(a, b) || EpisodeLess(b, a)
  {
    StringLessTrichotomy(a.relPath, b.relPath);
  }

  function Page<T>(rows: seq<T>, limit: int, offset: nat): seq<T> {
    if offset > |rows| then []
    else if 0 < limit && offset + limit < |rows| then rows[offset..offset + limit]
    else rows[offset..]
  }

  /** A page and everything after it are the rows from the page's offset on. */
  lemma PagesTile<T>(rows: seq<T>, limit: int, offset: nat)
    requires limit > 0
    ensures Page(rows, limit, offset) + Page(rows, 0, offset + limit) == Page(rows, 0, offset)
  {
  }

  // The rows of a season before paging.
  function SeasonRows(p: Parser, paths: seq<string>, showKey: string, season: int): seq<EpisodeRow> {
    EpisodeLeIsTotalOrder();
    Sort(EpisodesOf(p, SeasonPaths(p, ShowPaths(p, paths, showKey), season)), EpisodeLe())
  }

  method SeasonEpisodes(p: Parser, paths: seq<string>, showKey: string, season: int, limit: int, offset: nat)
    returns (page: seq<EpisodeRow>, total: int)
    ensures page == Page(SeasonRows(p, paths, showKey, season), limit, offset)
    ensures total == |SeasonPaths(p, ShowPaths(p, paths, showKey), season)|
  {
    hide DenormOf, StringLess, EpisodesOf;
    var rows: seq<EpisodeRow> := [];
    NoEpisodes(p);
    for n := 0 to |paths|
      invariant rows == EpisodesOf(p, SeasonPaths(p, ShowPaths(p, paths[..n], showKey), season))
    {
      var relPath := paths[n];
      var denorm := DenormOf(p, relPath);
      assert paths[..n + 1] == paths[..n] + [relPath];
      ShowPathsStep(p, paths[..n], relPath, showKey);
      if denorm.showKey != showKey {
        continue;
      }
      var seasonNum := if denorm.season.None? then 0 else denorm.season.value;
      SelectStep(SeasonFn(p), ShowPaths(p, paths[..n], showKey), relPath, season);
      if seasonNum != season {
        continue;
      }
      EpisodesGrow(p, SeasonPaths(p, ShowPaths(p, paths[..n], showKey), season), relPath);
      var title := p.display(relPath);
      if title == "" {
        title := p.base(relPath);
      }
      rows := rows + [EpisodeRow(relPath, title, denorm.season, denorm.episode, denorm.episodeTitle)];
    }
    assert paths[..|paths|] == paths;
    EpisodeLeIsTotalOrder();
    rows := Sort(rows, EpisodeLe());
    page, total := Page(rows, limit, offset), |rows|;
  }

  // ----- The loops agree -----

  function SumSelected<K(==)>(g: string -> K, paths: seq<string>, ks: seq<K>): int {
    if ks == [] then 0
    else SumSelected(g, paths, ks[..|ks| - 1]) + |Select(g, paths, ks[|ks| - 1])|
  }

  function CountIn<K(==)>(g: string -> K, paths: seq<string>, ks: seq<K>): int {
    if paths == [] then 0
    else CountIn(g, paths[..|paths| - 1], ks) + (if g(paths[|paths| - 1]) in ks then 1 else 0)
  }

  lemma {:induction false} SumOneMore<K>(g: string -> K, paths: seq<string>, path: string, ks: seq<K>)
    requires forall i, j :: 0 <= i < j < |ks| ==> ks[i] != ks[j]
    ensures SumSelected(g, paths + [path], ks) == SumSelected(g, paths, ks) + (if g(path) in ks then 1 else 0)
  {
    if ks != [] {
      var front, last := ks[..|ks| - 1], ks[|ks| - 1];
      assert ks == front + [last] && last !in front;
      SumOneMore(g, paths, path, front);
      SelectStep(g, paths, path, last);
    }
  }

  lemma {:induction false} SumOfNothing<K>(g: string -> K, ks: seq<K>)
    ensures SumSelected(g, [], ks) == 0
  {
    if ks != [] {
      SumOfNothing(g, ks[..|ks| - 1]);
    }
  }

  /** Selecting by distinct keys partitions the paths: the sizes add up to the paths with one of the keys. */
  lemma {:induction false} SelectionsPartition<K>(g: string -> K, paths: seq<string>, ks: seq<K>)
    requires forall i, j :: 0 <= i < j < |ks| ==> ks[i] != ks[j]
    ensures SumSelected(g, paths, ks) == CountIn(g, paths, ks)
  {
    if paths == [] {
      SumOfNothing(g, ks);
    } else {
      var front, last := paths[..|paths| - 1], paths[|paths| - 1];
      assert paths == front + [last];
      SelectionsPartition(g, front, ks);
      SumOneMore(g, front, last, ks);
    }
  }

  lemma {:induction false} AllCounted<K>(g: string -> K, paths: seq<string>, ks: seq<K>)
    requires forall path :: path in paths ==> g(path) in ks
    ensures CountIn(g, paths, ks) == |paths|
  {
    if paths != [] {
      assert paths[|paths| - 1] in paths;
      AllCounted(g, paths[..|paths| - 1], ks);
    }
  }

  /**
   * The episode counts of all shows add up to the number of paths with a key: `keys` is any
   * enumeration of the shows.
   */
  lemma ShowCountsCoverKeyedPaths(p: Parser, paths: seq<string>, keys: seq<string>)
    requires forall i, j :: 0 <= i < j < |keys| ==> keys[i] != keys[j]
    requires forall key :: key in keys <==> key in ShowKeys(p, paths)
    ensures SumSelected(KeyFn(p), paths, keys) == CountKeyed(p, paths)
  {
    SelectionsPartition(KeyFn(p), paths, keys);
    forall path | path in paths
      ensures KeyFn(p)(path) in keys <==> ShowKeyOf(p, path) != ""
    {
      var i :| 0 <= i < |paths| && paths[i] == path;
      assert ShowKeyOf(p, path) != "" ==> ShowKeyOf(p, paths[i]) in ShowKeys(p, paths);
    }
    CountKeyedIs(p, paths, keys);
  }

  function CountKeyed(p: Parser, paths: seq<string>): int {
    if paths == [] then 0
    else CountKeyed(p, paths[..|paths| - 1]) + (if ShowKeyOf(p, paths[|paths| - 1]) != "" then 1 else 0)
  }

  lemma {:induction false} CountKeyedIs(p: Parser, paths: seq<string>, keys: seq<string>)
    requires forall path :: path in paths ==> (KeyFn(p)(path) in keys <==> ShowKeyOf(p, path) != "")
    ensures CountIn(KeyFn(p), paths, keys) == CountKeyed(p, paths)
  {
    hide ShowKeyOf;
    if paths != [] {
      assert paths[|paths| - 1] in paths;
      CountKeyedIs(p, paths[..|paths| - 1], keys);
    }
  }

  function SeasonsListed(seasons: seq<SeasonCount>): (list: seq<int>)
    ensures |list| == |seasons| && forall i :: 0 <= i < |list| ==> list[i] == seasons[i].season
  {
    if seasons == [] then [] else SeasonsListed(seasons[..|seasons| - 1]) + [seasons[|seasons| - 1].season]
  }

  function EpisodeSum(seasons: seq<SeasonCount>): int {
    if seasons == [] then 0 else EpisodeSum(seasons[..|seasons| - 1]) + seasons[|seasons| - 1].episodeCount
  }

  lemma {:induction false} EpisodeSumIs(p: Parser, shown: seq<string>, seasons: seq<SeasonCount>)
    requires forall i :: 0 <= i < |seasons| ==> seasons[i].episodeCount == |SeasonPaths(p, shown, seasons[i].season)|
    ensures EpisodeSum(seasons) == SumSelected(SeasonFn(p), shown, SeasonsListed(seasons))
  {
    if seasons != [] {
      EpisodeSumIs(p, shown, seasons[..|seasons| - 1]);
      assert SeasonsListed(seasons)[..|seasons| - 1] == SeasonsListed(seasons[..|seasons| - 1]);
    }
  }

  lemma {:induction false} DistinctListSize(list: seq<int>, elements: set<int>)
    requires forall i, j :: 0 <= i < j < |list| ==> list[i] != list[j]
    requires forall x :: x in list <==> x in elements
    ensures |list| == |elements|
  {
    if list == [] {
      assert forall x :: x in elements ==> x in list;
    } else {
      var front, last := list[..|list| - 1], list[|list| - 1];
      assert list == front + [last] && last !in front && last in elements;
      DistinctListSize(front, elements - {last});
    }
  }

  // A path with a key has a title that is not empty: its trimmed show name.
  lemma KeyedTitle(p: Parser, relPath: string)
    ensures ShowKeyOf(p, relPath) != "" ==> DenormOf(p, relPath).sortTitle != ""
  {
  }

  lemma {:induction false} FirstTitleIsFirst(p: Parser, shown: seq<string>)
    requires shown != [] && DenormOf(p, shown[0]).sortTitle != ""
    ensures FirstTitle(p, shown) == DenormOf(p, shown[0]).sortTitle
  {
    hide DenormOf;
    if |shown| > 1 {
      FirstTitleIsFirst(p, shown[..|shown| - 1]);
    } else {
      assert shown[..0] == [];
    }
  }

  lemma {:induction false} LeastIsLeast(paths: seq<string>, path: string)
    requires paths != [] && path in paths
    ensures !StringLess(path, LeastPath(paths))
  {
    hide StringLess;
    var front, last := paths[..|paths| - 1], paths[|paths| - 1];
    assert paths == front + [last];
    NotLess(path);
    if |paths| > 1 && path in front {
      LeastIsLeast(front, path);
      StillLeast(last, LeastPath(front), path);
    }
  }

  lemma StillLeast(last: string, least: string, path: string)
    requires !StringLess(path, least)
    ensures StringLess(last, least) ==> !StringLess(path, last)
  {
    hide StringLess;
    StringLessTrichotomy(last, least);
    if StringLess(last, least) {
      StringLeTransitive(last, least, path);
    }
  }

  // The parser reads the empty path as the show ".", which has no letters or digits.
  predicate ReadsEmptyPath(p: Parser) {
    p.parse("").show == "." && !p.unicode.isWord('.') && !p.unicode.isWord(p.unicode.lower('.'))
  }

  /** The empty path belongs to no keyed show, so the poster loops' "none yet" is never a path. */
  lemma EmptyPathHasNoKey(p: Parser)
    requires ReadsEmptyPath(p)
    ensures ShowKeyOf(p, "") == ""
  {
    hide IsSpace, TrimSpace;
    NoSpaces();
    TrimSpaceFixes(".");
    var lowered := ToLower(p.unicode, ".");
    assert lowered == [p.unicode.lower('.')];
    assert lowered[..0] == "" && Words(p.unicode.isWord, "") == [];
    assert Words(p.unicode.isWord, lowered) == [];
  }

  lemma {:induction false} PosterIsLeast(shown: seq<string>)
    requires shown != [] && "" !in shown
    ensures PosterOf(shown) == LeastPath(shown)
  {
    hide StringLess;
    var front, last := shown[..|shown| - 1], shown[|shown| - 1];
    assert shown == front + [last];
    if |shown| > 1 {
      assert forall path :: path in front ==> path in shown;
      PosterIsLeast(front);
      assert PosterOf(front) == LeastPath(front) && LeastPath(front) in front;
      assert PosterOf(front) != "";
    } else {
      assert front == [] && PosterOf(front) == "";
    }
  }

  /**
   * For a show with a key, the page row and the aggregate describe the same show: name, poster,
   * number of seasons, and season counts that add up to the episode count.
   */
  lemma RowAgreesWithAgg(p: Parser, paths: seq<string>, showKey: string, agg: ShowAgg)
    requires ReadsEmptyPath(p)
    ensures var shown := ShowPaths(p, paths, showKey);
            showKey != "" && shown != [] && IsAgg(p, shown, showKey, agg) ==>
            var row := RowOf(p, shown);
            && row.name == agg.name && row.posterPath == agg.posterPath
            && |row.seasons| == |agg.seasons|
            && row.episodeCount == EpisodeSum(agg.seasons)
  {
    hide DenormOf, SeasonOf, LeastPath, PosterOf, FirstTitle, ShowKeyOf;
    var shown := ShowPaths(p, paths, showKey);
    if showKey != "" && shown != [] && IsAgg(p, shown, showKey, agg) {
      assert shown[0] in shown && KeyFn(p)(shown[0]) == showKey;
      KeyedTitle(p, shown[0]);
      FirstTitleIsFirst(p, shown);
      EmptyPathHasNoKey(p);
      assert "" in shown ==> KeyFn(p)("") == showKey;
      PosterIsLeast(shown);
      SeasonsAddUp(p, shown, agg.seasons);
    }
  }

  lemma SeasonsAddUp(p: Parser, shown: seq<string>, seasons: seq<SeasonCount>)
    requires CountsSeasons(p, shown, seasons)
    ensures |Seasons(p, shown)| == |seasons| && EpisodeSum(seasons) == |shown|
  {
    hide SeasonOf;
    var list := SeasonsListed(seasons);
    assert forall x :: x in list <==> x in Seasons(p, shown);
    DistinctListSize(list, Seasons(p, shown));
    EpisodeSumIs(p, shown, seasons);
    SelectionsPartition(SeasonFn(p), shown, list);
    forall path | path in shown
      ensures SeasonFn(p)(path) in list
    {
      var i :| 0 <= i < |shown| && shown[i] == path;
      assert SeasonOf(p, shown[i]) in Seasons(p, shown);
    }
    AllCounted(SeasonFn(p), shown, list);
  }
}
