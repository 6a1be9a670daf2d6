/**
 * What merging, filling and rewriting make of each single field, as a reader of merge.go, fields.go
 * and provider_apply.go would state it.
 */
module MetadataReference {
  import opened Wrappers
  import opened AccessPaths
  import opened Picking
  import opened MetadataMerge
  import opened MetadataRecord

  function NotBlank(): string -> bool {
    text => TrimSpace(text) != ""
  }

  /** The genres written are the provider's that are not blank, trimmed, each once and in their order. */
  lemma {:induction false} GenresAreTrimmed(genres: seq<string>) returns (at: seq<int>)
    ensures PicksOut(genres, NotBlank(), at) && |at| == |TrimmedGenres(genres)|
    ensures forall j :: 0 <= j < |at| ==> TrimmedGenres(genres)[j] == TrimSpace(genres[at[j]])
  {
    hide TrimSpace;
    at := [];
    if genres != [] {
      var last := |genres| - 1;
      var before := GenresAreTrimmed(genres[..last]);
      at := if NotBlank()(genres[last]) then before + [last] else before;
      PickLast(genres, NotBlank(), before);
    }
  }

  /**
   * Every effective field. The override counts before the original. In a film library the path fills a
   * missing title and year; in a series library it fills a missing show, and its episode title, season
   * and episode count before everything.
   */
  lemma EffectiveFieldByField(p: PathParsers, libraryType: LibraryType, relPath: string, original: VideoFields,
                              override: VideoFields, t: TextField, n: NumberField, l: ListField)
    ensures var e := EffectiveFields(p, libraryType, relPath, original, override);
            var text := if t in override.texts then Some(override.texts[t]) else Text(original, t);
            var number := if n in override.numbers then Some(override.numbers[n]) else Number(original, n);
            var read := p.series(relPath);
            && Text(e, t) == (
                 if libraryType == Film && t == Title && text == None && p.film(relPath).0 != ""
                 then Some(p.film(relPath).0)
                 else if libraryType == Series && t == Show && text == None && read.show != "" then Some(read.show)
                 else if libraryType == Series && t == EpisodeTitle && read.episodeTitle != ""
                 then Some(read.episodeTitle)
                 else text)
            && Number(e, n) == (
                 if libraryType == Film && n == Year && number == None then p.film(relPath).1
                 else if libraryType == Series && n == Season && read.season != None then read.season
                 else if libraryType == Series && n == Episode && read.episode != None then read.episode
                 else number)
            && List(e, l) == (if l in override.lists then override.lists[l] else List(original, l))
            && e.durationSeconds == (if override.durationSeconds != None then override.durationSeconds
                                     else original.durationSeconds)
  {
    hide ApplyPathHeuristics, ApplyOverride, CloneFields;
    var merged := ApplyOverride(CloneFields(original), override);
    HeuristicsFieldByField(p, merged, libraryType, relPath, t, n);
    MergedText(original, override, t);
    MergedNumber(original, override, n);
    MergedList(original, override, l);
    MergedDuration(original, override);
  }

  lemma MergedDuration(original: VideoFields, override: VideoFields)
    ensures ApplyOverride(CloneFields(original), override).durationSeconds ==
            if override.durationSeconds != None then override.durationSeconds else original.durationSeconds
  {
  }

  /**
   * What writing a provider's fields makes of every field of the override: texts that are not blank
   * replace it trimmed, numbers as they are, and genres when one is not blank; the rest stays.
   */
  lemma RewrittenFieldByField(override: VideoFields, fields: ProviderFields, t: TextField, n: NumberField,
                              l: ListField)
    ensures var updated := ApplyPatch(override, ProviderPatch(fields));
            && Text(updated, t) == (if t in fields.texts && TrimSpace(fields.texts[t]) != ""
                                    then Some(TrimSpace(fields.texts[t])) else Text(override, t))
            && Number(updated, n) == (if n in fields.numbers then Some(fields.numbers[n]) else Number(override, n))
            && List(updated, l) == (if l == Genres && TrimmedGenres(fields.genres) != []
                                    then TrimmedGenres(fields.genres) else List(override, l))
            && updated.durationSeconds == override.durationSeconds
  {
    hide TrimSpace, TrimmedGenres;
    var patch := ProviderPatch(fields);
    MergedText(override, patch, t);
    MergedNumber(override, patch, n);
    MergedList(override, patch, l);
  }

  // A provider text that is not blank while the effective one is, and so on for numbers and genres.
  predicate TextMissing(effective: VideoFields, fields: ProviderFields, t: TextField) {
    && t in fields.texts && TrimSpace(fields.texts[t]) != ""
    && (t in effective.texts ==> TrimSpace(effective.texts[t]) == "")
  }

  predicate NumberMissing(effective: VideoFields, fields: ProviderFields, n: NumberField) {
    n in fields.numbers && n !in effective.numbers
  }

  predicate GenresMissing(effective: VideoFields, fields: ProviderFields) {
    TrimmedGenres(fields.genres) != [] && List(effective, Genres) == []
  }

  /**
   * A fill-missing write: the override takes exactly the provider's fields that are missing, trimmed,
   * keeps every other field, and is written exactly when there is one.
   */
  lemma FilledFieldByField(effective: VideoFields, override: VideoFields, fields: ProviderFields, t: TextField,
                           n: NumberField, l: ListField)
    ensures var (updated, written) := WriteMissing(effective, override, fields);
            && Text(updated, t) == (if TextMissing(effective, fields, t)
                                    then Some(TrimSpace(fields.texts[t])) else Text(override, t))
            && Number(updated, n) == (if NumberMissing(effective, fields, n)
                                      then Some(fields.numbers[n]) else Number(override, n))
            && List(updated, l) == (if l == Genres && GenresMissing(effective, fields)
                                    then TrimmedGenres(fields.genres) else List(override, l))
            && updated.durationSeconds == override.durationSeconds
            && (written <==> (exists t' :: TextMissing(effective, fields, t'))
                             || (exists n' :: NumberMissing(effective, fields, n')) || GenresMissing(effective, fields))
  {
    hide TrimSpace, TrimmedGenres;
    NoGenres();
    RewrittenFieldByField(override, FillMissingOnly(fields, effective), t, n, l);
    WrittenIffPatch(effective, override, fields);
    PatchEmptyIff(FillMissingOnly(fields, effective));
    hide ApplyPatch, ProviderPatch, EmptyPatch;
    var left := FillMissingOnly(fields, effective);
    forall t'
      ensures (t' in left.texts && TrimSpace(left.texts[t']) != "") <==> TextMissing(effective, fields, t')
    {
    }
    forall n'
      ensures n' in left.numbers <==> NumberMissing(effective, fields, n')
    {
    }
  }

  /** There is nothing to write exactly when no text is left that is not blank, no number and no such genre. */
  lemma PatchEmptyIff(fields: ProviderFields)
    ensures EmptyPatch(ProviderPatch(fields)) <==>
            && (forall t :: t in fields.texts ==> TrimSpace(fields.texts[t]) == "")
            && (forall n :: n !in fields.numbers) && TrimmedGenres(fields.genres) == []
  {
    hide TrimSpace, TrimmedGenres;
    var patch := ProviderPatch(fields);
    if EmptyPatch(patch) {
      forall t | t in fields.texts
        ensures TrimSpace(fields.texts[t]) == ""
      {
        assert t !in patch.texts;
      }
      assert Genres !in patch.lists;
    }
  }

  /** A call has fields left exactly when it has something to write, or genres that are all blank. */
  lemma FieldsLeftIff(fields: ProviderFields)
    ensures !ProviderFieldsEmpty(fields) <==> !EmptyPatch(ProviderPatch(fields)) || fields.genres != []
  {
    hide TrimSpace, TrimmedGenres;
    PatchEmptyIff(fields);
    NoGenres();
  }

  /** A list of values is accepted exactly when each is a text or a number, and then reads as their texts in order. */
  lemma {:induction false} StringsOneByOne(c: Conversions, items: seq<Json>)
    ensures var texts := AsStrings(c, items);
            && (texts.Some? <==> forall i :: 0 <= i < |items| ==> items[i].Str? || items[i].Num?)
            && (texts.Some? ==> |texts.value| == |items|
                                && forall i :: 0 <= i < |items| ==>
                                     (items[i].Str? ==> texts.value[i] == items[i].text)
                                     && (items[i].Num? ==> texts.value[i] == c.format(Truncated(items[i].number))))
  {
    if items != [] {
      var front := items[..|items| - 1];
      StringsOneByOne(c, front);
      assert forall i :: 0 <= i < |front| ==> front[i] == items[i];
    }
  }

  // The fields a patch may name.
  const EDITABLE_TEXTS := {
    Title, SortTitle, OriginalTitle, EpisodeTitle, Show, ReleaseDate, Description, Studio, Composer, Language, Country,
    ContentRating, ImdbId, TmdbId, TvdbId, TvmazeId}
  const EDITABLE_NUMBERS := {Season, Episode, Year}
  const EDITABLE_LISTS := {Genres, Directors, Actors, Writers, Producers}

  /** A text field takes a text or the digits of a number; a null clears it. */
  lemma TextEntry(c: Conversions, current: VideoFields, patch: Patch, updated: VideoFields, t: TextField)
    requires Patched(c, current, patch, updated) && TextKey(t) in patch
    ensures var v := patch[TextKey(t)];
            && (Accepts(c, TextKey(t), v) <==> t in EDITABLE_TEXTS && (v.Null? || v.Str? || v.Num?))
            && (v.Null? ==> Text(updated, t) == None) && (v.Str? ==> Text(updated, t) == Some(v.text))
            && (v.Num? ==> Text(updated, t) == Some(c.format(Truncated(v.number))))
  {
    assert Text(updated, t) == AsString(c, patch[TextKey(t)]);
    hide Patched, Truncated, Text;
  }

  /** A number field takes a number without its fraction or a text that parses; a null clears it. */
  lemma NumberEntry(c: Conversions, current: VideoFields, patch: Patch, updated: VideoFields, n: NumberField)
    requires Patched(c, current, patch, updated) && NumberKey(n) in patch
    ensures var v := patch[NumberKey(n)];
            && (Accepts(c, NumberKey(n), v) <==>
                  n in EDITABLE_NUMBERS && (v.Null? || v.Num? || (v.Str? && c.parse(v.text) != None)))
            && (v.Null? ==> Number(updated, n) == None) && (v.Str? ==> Number(updated, n) == c.parse(v.text))
            && (v.Num? ==> Number(updated, n) == Some(Truncated(v.number)))
  {
    assert Number(updated, n) == AsInt(c, patch[NumberKey(n)]);
    hide Patched, Truncated, Number;
  }

  /** A list field takes the parts of a text or a list of texts and numbers; a null clears it. */
  lemma ListEntry(c: Conversions, current: VideoFields, patch: Patch, updated: VideoFields, l: ListField)
    requires Patched(c, current, patch, updated) && ListKey(l) in patch
    ensures var v := patch[ListKey(l)];
            && (Accepts(c, ListKey(l), v) <==>
                  l in EDITABLE_LISTS
                  && (v.Null? || v.Str?
                      || (v.Items? && forall i :: 0 <= i < |v.items| ==> v.items[i].Str? || v.items[i].Num?)))
            && (v.Null? ==> List(updated, l) == []) && (v.Str? ==> List(updated, l) == c.split(v.text))
            && (v.Items? && Accepts(c, ListKey(l), v) ==> List(updated, l) == AsStrings(c, v.items).value)
  {
    var v := patch[ListKey(l)];
    assert MaybeList(updated, l) == NewList(c, v);
    hide Patched, AsStrings;
    if v.Items? {
      StringsOneByOne(c, v.items);
    }
  }

  /** No other field can be patched. */
  lemma OtherKeysRefused(c: Conversions, key: Key, v: Json)
    requires key.DurationKey? || key.UnknownKey?
    ensures !Accepts(c, key, v)
  {
  }

  /** A number becomes the whole number next to it towards zero. */
  lemma TruncatedTowardsZero(x: real)
    ensures x >= 0.0 ==> Truncated(x) >= 0 && Truncated(x) as real <= x < Truncated(x) as real + 1.0
    ensures x <= 0.0 ==> Truncated(x) <= 0 && Truncated(x) as real - 1.0 < x <= Truncated(x) as real
  {
    if x < 0.0 {
      assert (-x).Floor as real <= -x;
    }
  }
}
