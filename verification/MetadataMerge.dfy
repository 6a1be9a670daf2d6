/**
 * Merging stored metadata, overrides and path heuristics, and filling missing fields from a
 * provider (internal/metadata/merge.go, provider_apply.go, internal/provider/fields.go, enrich.go).
 *
 * A record of optional fields is a map from field to value per value type.
 */
module MetadataMerge {
  import opened Wrappers
  import opened AccessPaths
  import Naming

  datatype LibraryType = Film | Series | Music | Photos | Other

  datatype TextField =
    | Title | SortTitle | OriginalTitle | EpisodeTitle | Show | ReleaseDate | Description | Studio | Composer
    | Language | Country | ContentRating | VideoCodec | AudioCodec | FrameRate | ImdbId | TmdbId | TvdbId | TvmazeId

  datatype NumberField = Season | Episode | Year | Width | Height | AudioChannels | Bitrate

  datatype ListField = Genres | Tags | Directors | Actors | Writers | Producers | AudioLanguages

  datatype VideoFields = VideoFields(
    texts: map<TextField, string>, numbers: map<NumberField, int>, lists: map<ListField, seq<string>>,
    durationSeconds: Option<real>)

  // What the file name parsers read from a path.
  datatype PathParsers = PathParsers(
    film: string -> (string, Option<int>), series: string -> Naming.SeriesIdentity)

  // ----- Effective fields -----

  // Copying a record drops lists that are present but empty.
  function CloneFields(fields: VideoFields): (cloned: VideoFields)
    ensures cloned.durationSeconds == fields.durationSeconds
  {
    fields.(lists := map k | k in fields.lists && fields.lists[k] != [] :: fields.lists[k])
  }

  function ApplyOverride(target: VideoFields, override: VideoFields): VideoFields {
    VideoFields(target.texts + override.texts, target.numbers + override.numbers, target.lists + override.lists,
                if override.durationSeconds.Some? then override.durationSeconds else target.durationSeconds)
  }

  function ApplyPathHeuristics(p: PathParsers, fields: VideoFields, libraryType: LibraryType,
                               relPath: string): VideoFields {
    match libraryType
    case Film =>
      var (title, year) := p.film(relPath);
      var titled :=
        if Title !in fields.texts && title != "" then fields.(texts := fields.texts[Title := title]) else fields;
      if Year !in fields.numbers && year.Some? then titled.(numbers := titled.numbers[Year := year.value]) else titled
    case Series =>
      var identity := p.series(relPath);
      var numbers := fields.numbers;
      var seasoned := if identity.season.Some? then numbers[Season := identity.season.value] else numbers;
      var numbered := if identity.episode.Some? then seasoned[Episode := identity.episode.value] else seasoned;
      var texts := fields.texts;
      var titled := if identity.episodeTitle != "" then texts[EpisodeTitle := identity.episodeTitle] else texts;
      var shown := if Show !in titled && identity.show != "" then titled[Show := identity.show] else titled;
      fields.(texts := shown, numbers := numbered)
    case _ => fields
  }

  function EffectiveFields(p: PathParsers, libraryType: LibraryType, relPath: string,
                           original: VideoFields, override: VideoFields): VideoFields {
    ApplyPathHeuristics(p, ApplyOverride(CloneFields(original), override), libraryType, relPath)
  }

  // ----- Provider fields -----

  datatype ProviderFields = ProviderFields(
    texts: map<TextField, string>, numbers: map<NumberField, int>, genres: seq<string>)

  // The fields a provider may write.
  predicate IsProviderText(k: TextField) {
    k == Title || k == Show || k == Description || k == Studio || k == EpisodeTitle
    || k == ImdbId || k == TmdbId || k == TvdbId || k == TvmazeId
  }

  predicate IsProviderNumber(k: NumberField) {
    k == Year || k == Season || k == Episode
  }

  predicate ValidProviderFields(fields: ProviderFields) {
    (forall k :: k in fields.texts ==> IsProviderText(k)) && forall k :: k in fields.numbers ==> IsProviderNumber(k)
  }

  predicate Blank(texts: map<TextField, string>, k: TextField) {
    k !in texts || TrimSpace(texts[k]) == ""
  }

  predicate NoList(lists: map<ListField, seq<string>>, k: ListField) {
    k !in lists || lists[k] == []
  }

  // fillMissingOnly
  function FillMissingOnly(fields: ProviderFields, effective: VideoFields): ProviderFields {
    ProviderFields(
      map k | k in fields.texts && Blank(effective.texts, k) :: fields.texts[k],
      map k | k in fields.numbers && k !in effective.numbers :: fields.numbers[k],
      if NoList(effective.lists, Genres) then fields.genres else [])
  }

  predicate ProviderFieldsEmpty(fields: ProviderFields) {
    (forall k :: k in fields.texts ==> Blank(fields.texts, k)) && fields.numbers == map[] && fields.genres == []
  }

  function TrimmedGenres(genres: seq<string>): seq<string> {
    if genres == [] then []
    else
      var front, last := TrimmedGenres(genres[..|genres| - 1]), TrimSpace(genres[|genres| - 1]);
      if last != "" then front + [last] else front
  }

  method CollectGenres(genres: seq<string>) returns (trimmed: seq<string>)
    ensures trimmed == TrimmedGenres(genres)
  {
    hide TrimSpace;
    trimmed := [];
    for i := 0 to |genres|
      invariant trimmed == TrimmedGenres(genres[..i])
    {
      assert genres[..i + 1][..i] == genres[..i];
      var genre := TrimSpace(genres[i]);
      if genre != "" {
        trimmed := trimmed + [genre];
      }
    }
    assert genres[..|genres|] == genres;
  }

  // The patch of an ApplyProviderFields call: trimmed texts that are not blank, numbers, and genres if any.
  function ProviderPatch(fields: ProviderFields): VideoFields {
    var genres := TrimmedGenres(fields.genres);
    VideoFields(
      map k | k in fields.texts && !Blank(fields.texts, k) :: TrimSpace(fields.texts[k]),
      fields.numbers,
      if genres == [] then map[] else map[Genres := genres],
      None)
  }

  predicate EmptyPatch(patch: VideoFields) {
    patch.texts == map[] && patch.numbers == map[] && patch.lists == map[] && patch.durationSeconds == None
  }

  // ApplyPatchFields for a patch without nulls, and the store write of patchOverride.
  function ApplyPatch(override: VideoFields, patch: VideoFields): VideoFields {
    ApplyOverride(CloneFields(override), patch)
  }

  // writeFields in fill-missing mode with the override target: the new override, and whether the store was written.
  function WriteMissing(effective: VideoFields, override: VideoFields, fields: ProviderFields): (VideoFields, bool) {
    var missing := FillMissingOnly(fields, effective);
    if ProviderFieldsEmpty(missing) then (override, false)
    else
      var patch := ProviderPatch(missing);
      if EmptyPatch(patch) then (override, false) else (ApplyPatch(override, patch), true)
  }

  /** Nothing is written exactly when the patch of the missing fields is empty; the emptiness check changes nothing. */
  lemma WrittenIffPatch(effective: VideoFields, override: VideoFields, fields: ProviderFields)
    ensures WriteMissing(effective, override, fields).1 <==>
            !EmptyPatch(ProviderPatch(FillMissingOnly(fields, effective)))
  {
  }

  // ----- What filling promises -----

  function Text(fields: VideoFields, k: TextField): Option<string> {
    if k in fields.texts then Some(fields.texts[k]) else None
  }

  function Number(fields: VideoFields, k: NumberField): Option<int> {
    if k in fields.numbers then Some(fields.numbers[k]) else None
  }

  // A missing list and an empty one read the same.
  function List(fields: VideoFields, k: ListField): seq<string> {
    if k in fields.lists then fields.lists[k] else []
  }

  // What the path makes of one text, given what is known so far.
  function PathText(p: PathParsers, libraryType: LibraryType, relPath: string, t: TextField, known: Option<string>)
      : Option<string> {
    if libraryType == Film && t == Title && known == None && p.film(relPath).0 != "" then Some(p.film(relPath).0)
    else if libraryType == Series && t == EpisodeTitle && p.series(relPath).episodeTitle != "" then
      Some(p.series(relPath).episodeTitle)
    else if libraryType == Series && t == Show && known == None && p.series(relPath).show != "" then
      Some(p.series(relPath).show)
    else known
  }

  function PathNumber(p: PathParsers, libraryType: LibraryType, relPath: string, n: NumberField, known: Option<int>)
      : Option<int> {
    if libraryType == Film && n == Year && known == None then p.film(relPath).1
    else if libraryType == Series && n == Season && p.series(relPath).season.Some? then p.series(relPath).season
    else if libraryType == Series && n == Episode && p.series(relPath).episode.Some? then p.series(relPath).episode
    else known
  }

  // One text and one number after the path heuristics.
  predicate FieldsFromPath(p: PathParsers, fields: VideoFields, libraryType: LibraryType, relPath: string,
                           t: TextField, n: NumberField) {
    var x := ApplyPathHeuristics(p, fields, libraryType, relPath);
    && Text(x, t) == PathText(p, libraryType, relPath, t, Text(fields, t))
    && Number(x, n) == PathNumber(p, libraryType, relPath, n, Number(fields, n))
  }

  lemma FilmFieldByField(p: PathParsers, fields: VideoFields, relPath: string, t: TextField, n: NumberField)
    ensures FieldsFromPath(p, fields, Film, relPath, t, n)
  {
  }

  lemma SeriesFieldByField(p: PathParsers, fields: VideoFields, relPath: string, t: TextField, n: NumberField)
    ensures FieldsFromPath(p, fields, Series, relPath, t, n)
  {
  }

  /** The path heuristics act on one field at a time: each text and number depends on itself and the path only. */
  lemma HeuristicsFieldByField(p: PathParsers, fields: VideoFields, libraryType: LibraryType, relPath: string,
                               t: TextField, n: NumberField)
    ensures FieldsFromPath(p, fields, libraryType, relPath, t, n)
    ensures var x := ApplyPathHeuristics(p, fields, libraryType, relPath);
            x.lists == fields.lists && x.durationSeconds == fields.durationSeconds
  {
    match libraryType
    case Film => FilmFieldByField(p, fields, relPath, t, n);
    case Series => SeriesFieldByField(p, fields, relPath, t, n);
    case _ =>
  }

  // A text that is not blank, and any number, stays so through the heuristics: a title from the path is not blank.
  lemma HeuristicsKeepFilled(p: PathParsers, fields: VideoFields, libraryType: LibraryType, relPath: string,
                             t: TextField, n: NumberField)
    ensures var x := ApplyPathHeuristics(p, fields, libraryType, relPath);
            && (n in fields.numbers ==> n in x.numbers)
            && (!Blank(fields.texts, t) ==> !Blank(x.texts, t))
  {
    hide TrimSpace, ApplyPathHeuristics, IsSpace;
    HeuristicsFieldByField(p, fields, libraryType, relPath, t, n);
    var title := p.series(relPath).episodeTitle;
    if title != "" {
      TrimSpaceFixes(title);
    }
  }

  // ----- One write -----

  lemma MergedText(original: VideoFields, override: VideoFields, k: TextField)
    ensures Text(ApplyOverride(CloneFields(original), override), k) ==
            if k in override.texts then Some(override.texts[k]) else Text(original, k)
  {
  }

  lemma MergedNumber(original: VideoFields, override: VideoFields, k: NumberField)
    ensures Number(ApplyOverride(CloneFields(original), override), k) ==
            if k in override.numbers then Some(override.numbers[k]) else Number(original, k)
  {
  }

  lemma MergedList(original: VideoFields, override: VideoFields, k: ListField)
    ensures List(ApplyOverride(CloneFields(original), override), k) ==
            if k in override.lists then override.lists[k] else List(original, k)
  {
  }

  // A fill-missing write leaves what already resolves to something out of its patch.
  lemma FilledIsNotPatched(effective: VideoFields, fields: ProviderFields, t: TextField, n: NumberField, l: ListField)
    ensures var patch := ProviderPatch(FillMissingOnly(fields, effective));
            && (!Blank(effective.texts, t) ==> t !in patch.texts)
            && (n in effective.numbers ==> n !in patch.numbers)
            && (List(effective, l) != [] ==> l !in patch.lists)
  {
    hide TrimSpace;
    NoGenres();
  }

  lemma UnpatchedStays(override: VideoFields, patch: VideoFields, t: TextField, n: NumberField, l: ListField)
    ensures var updated := ApplyPatch(override, patch);
            && (t !in patch.texts ==> Text(updated, t) == Text(override, t))
            && (n !in patch.numbers ==> Number(updated, n) == Number(override, n))
            && (l !in patch.lists && (l in override.lists ==> override.lists[l] != []) ==>
                  (l in updated.lists <==> l in override.lists) && List(updated, l) == List(override, l))
  {
  }

  lemma FilledStaysInOverride(effective: VideoFields, override: VideoFields, fields: ProviderFields,
                              t: TextField, n: NumberField, l: ListField)
    ensures var updated := WriteMissing(effective, override, fields).0;
            && (!Blank(effective.texts, t) ==> Text(updated, t) == Text(override, t))
            && (n in effective.numbers ==> Number(updated, n) == Number(override, n))
            && (List(effective, l) != [] && (l in override.lists ==> override.lists[l] != []) ==>
                  (l in updated.lists <==> l in override.lists) && List(updated, l) == List(override, l))
  {
    hide ProviderFieldsEmpty, ProviderPatch, FillMissingOnly, ApplyPatch, Blank, EmptyPatch;
    FilledIsNotPatched(effective, fields, t, n, l);
    UnpatchedStays(override, ProviderPatch(FillMissingOnly(fields, effective)), t, n, l);
  }

  /**
   * Filling missing fields never changes a field that already resolves to something: texts that are
   * not blank, numbers that are set, lists that are not empty.
   */
  lemma FilledFieldsStay(p: PathParsers, libraryType: LibraryType, relPath: string, original: VideoFields,
                         override: VideoFields, fields: ProviderFields, t: TextField, n: NumberField, l: ListField)
    ensures var before := EffectiveFields(p, libraryType, relPath, original, override);
            var after := EffectiveFields(p, libraryType, relPath, original, WriteMissing(before, override, fields).0);
            && (!Blank(before.texts, t) ==> Text(after, t) == Text(before, t))
            && (n in before.numbers ==> Number(after, n) == Number(before, n))
            && (List(before, l) != [] ==> List(after, l) == List(before, l))
  {
    hide ApplyPathHeuristics, WriteMissing, ApplyOverride, CloneFields, PathText, PathNumber, Blank;
    var before := EffectiveFields(p, libraryType, relPath, original, override);
    var updated := WriteMissing(before, override, fields).0;
    FilledStaysInOverride(before, override, fields, t, n, l);
    var merged := ApplyOverride(CloneFields(original), override);
    var merged' := ApplyOverride(CloneFields(original), updated);
    MergedText(original, override, t);
    MergedText(original, updated, t);
    MergedNumber(original, override, n);
    MergedNumber(original, updated, n);
    MergedList(original, override, l);
    MergedList(original, updated, l);
    HeuristicsFieldByField(p, merged, libraryType, relPath, t, n);
    HeuristicsFieldByField(p, merged', libraryType, relPath, t, n);
  }

  // ----- Two writes of the same fields -----

  // The effective fields after one fill-missing write.
  function Filled(p: PathParsers, libraryType: LibraryType, relPath: string, original: VideoFields,
                  override: VideoFields, fields: ProviderFields): VideoFields {
    var before := EffectiveFields(p, libraryType, relPath, original, override);
    EffectiveFields(p, libraryType, relPath, original, WriteMissing(before, override, fields).0)
  }

  lemma TextFilled(p: PathParsers, libraryType: LibraryType, relPath: string, original: VideoFields,
                   override: VideoFields, fields: ProviderFields, t: TextField)
    ensures !Blank(fields.texts, t) ==> !Blank(Filled(p, libraryType, relPath, original, override, fields).texts, t)
  {
    hide TrimSpace, ApplyPathHeuristics;
    var before := EffectiveFields(p, libraryType, relPath, original, override);
    var updated := WriteMissing(before, override, fields).0;
    var merged := ApplyOverride(CloneFields(original), override);
    var merged' := ApplyOverride(CloneFields(original), updated);
    HeuristicsKeepFilled(p, merged, libraryType, relPath, t, Year);
    HeuristicsKeepFilled(p, merged', libraryType, relPath, t, Year);
    if Blank(before.texts, t) && !Blank(fields.texts, t) {
      WrittenIffPatch(before, override, fields);
      assert t in ProviderPatch(FillMissingOnly(fields, before)).texts;
      MergedText(original, updated, t);
      TrimSpaceTwice(fields.texts[t]);
    } else if !Blank(before.texts, t) {
      FilledFieldsStay(p, libraryType, relPath, original, override, fields, t, Year, Genres);
    }
  }

  lemma NumberFilled(p: PathParsers, libraryType: LibraryType, relPath: string, original: VideoFields,
                     override: VideoFields, fields: ProviderFields, n: NumberField)
    requires n in fields.numbers
    ensures n in Filled(p, libraryType, relPath, original, override, fields).numbers
  {
    hide TrimSpace, ApplyPathHeuristics;
    var before := EffectiveFields(p, libraryType, relPath, original, override);
    var updated := WriteMissing(before, override, fields).0;
    if n in before.numbers {
      FilledFieldsStay(p, libraryType, relPath, original, override, fields, Title, n, Genres);
    } else {
      WrittenIffPatch(before, override, fields);
      assert n in ProviderPatch(FillMissingOnly(fields, before)).numbers;
      MergedNumber(original, updated, n);
      HeuristicsKeepFilled(p, ApplyOverride(CloneFields(original), updated), libraryType, relPath, Title, n);
    }
  }

  lemma GenresFilled(p: PathParsers, libraryType: LibraryType, relPath: string, original: VideoFields,
                     override: VideoFields, fields: ProviderFields)
    requires TrimmedGenres(fields.genres) != []
    ensures List(Filled(p, libraryType, relPath, original, override, fields), Genres) != []
  {
    hide TrimSpace, ApplyPathHeuristics, TrimmedGenres;
    var before := EffectiveFields(p, libraryType, relPath, original, override);
    var updated := WriteMissing(before, override, fields).0;
    if List(before, Genres) != [] {
      FilledFieldsStay(p, libraryType, relPath, original, override, fields, Title, Year, Genres);
    } else {
      WrittenIffPatch(before, override, fields);
      assert Genres in ProviderPatch(FillMissingOnly(fields, before)).lists;
      MergedList(original, updated, Genres);
      HeuristicsFieldByField(p, ApplyOverride(CloneFields(original), updated), libraryType, relPath, Title, Year);
    }
  }

  /**
   * Repeating a fill-missing write with the same provider fields writes nothing, although the path
   * heuristics lay season, episode and episode title of the path over whatever is stored.
   */
  lemma RepeatWritesNothing(p: PathParsers, libraryType: LibraryType, relPath: string, original: VideoFields,
                            override: VideoFields, fields: ProviderFields)
    ensures var before := EffectiveFields(p, libraryType, relPath, original, override);
            var updated := WriteMissing(before, override, fields).0;
            var after := EffectiveFields(p, libraryType, relPath, original, updated);
            WriteMissing(after, updated, fields) == (updated, false)
  {
    hide TrimSpace, EffectiveFields, WriteMissing, TrimmedGenres;
    var before := EffectiveFields(p, libraryType, relPath, original, override);
    var updated := WriteMissing(before, override, fields).0;
    var after := EffectiveFields(p, libraryType, relPath, original, updated);
    var patch := ProviderPatch(FillMissingOnly(fields, after));
    forall t
      ensures t !in patch.texts
    {
      if !Blank(fields.texts, t) {
        TextFilled(p, libraryType, relPath, original, override, fields, t);
      }
    }
    forall n | n in fields.numbers
      ensures n !in patch.numbers
    {
      NumberFilled(p, libraryType, relPath, original, override, fields, n);
    }
    if TrimmedGenres(fields.genres) != [] {
      GenresFilled(p, libraryType, relPath, original, override, fields);
    }
    NoGenres();
    assert patch.texts == map[] && patch.numbers == map[] && patch.lists == map[];
    NothingWritten(after, updated, fields);
  }

  lemma NothingWritten(effective: VideoFields, override: VideoFields, fields: ProviderFields)
    requires EmptyPatch(ProviderPatch(FillMissingOnly(fields, effective)))
    ensures WriteMissing(effective, override, fields) == (override, false)
  {
    hide FillMissingOnly, ProviderPatch, EmptyPatch, ProviderFieldsEmpty;
  }

  lemma NoGenres()
    ensures TrimmedGenres([]) == []
  {
  }
}
