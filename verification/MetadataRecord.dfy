/**
 * The metadata record as it is changed in place: overrides and path heuristics written through a
 * record, patches applied key by key, and the provider's write to the stored override
 * (internal/metadata/merge.go, provider_apply.go, internal/provider/enrich.go).
 */
module MetadataRecord {
  import opened Wrappers
  import opened AccessPaths
  import opened MetadataMerge

  // ----- Patches -----

  // A decoded JSON value; `Other` is a boolean or an object.
  datatype Json = Null | Str(text: string) | Num(number: real) | Items(items: seq<Json>) | Other

  // strconv.FormatInt, strconv.Atoi, strconv.ParseFloat and splitList.
  datatype Conversions = Conversions(
    format: int -> string, parse: string -> Option<int>, parseFloat: string -> Option<real>,
    split: string -> seq<string>)

  datatype Key =
    | TextKey(text: TextField)
    | NumberKey(number: NumberField)
    | ListKey(list: ListField)
    | DurationKey
    | UnknownKey(name: string)

  type Patch = map<Key, Json>

  predicate Editable(key: Key) {
    match key
    case TextKey(text) => text != VideoCodec && text != AudioCodec && text != FrameRate
    case NumberKey(number) => number == Season || number == Episode || number == Year
    case ListKey(list) => list != Tags && list != AudioLanguages
    case DurationKey => false
    case UnknownKey(_) => false
  }

  // The conversion of a float to an integer drops the fraction.
  function Truncated(x: real): int {
    if x < 0.0 then -((-x).Floor) else x.Floor
  }

  function AsString(c: Conversions, v: Json): Option<string> {
    match v
    case Str(text) => Some(text)
    case Num(number) => Some(c.format(Truncated(number)))
    case _ => None
  }

  function AsInt(c: Conversions, v: Json): Option<int> {
    match v
    case Num(number) => Some(Truncated(number))
    case Str(text) => c.parse(text)
    case _ => None
  }

  function AsFloat(c: Conversions, v: Json): Option<real> {
    match v
    case Num(number) => Some(number)
    case Str(text) => c.parseFloat(text)
    case _ => None
  }

  function AsStrings(c: Conversions, items: seq<Json>): Option<seq<string>> {
    if items == [] then Some([])
    else
      var front, last := AsStrings(c, items[..|items| - 1]), AsString(c, items[|items| - 1]);
      if front.None? || last.None? then None else Some(front.value + [last.value])
  }

  // Whether a patch may hold this entry.
  predicate Accepts(c: Conversions, key: Key, v: Json) {
    Editable(key) && (v.Null? || Converts(c, key, v))
  }

  predicate Converts(c: Conversions, key: Key, v: Json) {
    match key
    case TextKey(_) => AsString(c, v).Some?
    case NumberKey(_) => AsInt(c, v).Some?
    case ListKey(_) => v.Str? || (v.Items? && AsStrings(c, v.items).Some?)
    case DurationKey => AsFloat(c, v).Some?
    case UnknownKey(_) => true
  }

  // What an entry leaves in its list field: a string with no parts and a null leave no list, an empty list stays one.
  function NewList(c: Conversions, v: Json): Option<seq<string>> {
    match v
    case Str(text) => if c.split(text) == [] then None else Some(c.split(text))
    case Items(items) => AsStrings(c, items)
    case _ => None
  }

  function MaybeList(fields: VideoFields, l: ListField): Option<seq<string>> {
    if l in fields.lists then Some(fields.lists[l]) else None
  }

  // Every field of the patch has its new value, every other field the value it had; empty lists do not survive.
  ghost predicate Patched(c: Conversions, current: VideoFields, patch: Patch, updated: VideoFields) {
    && (forall t :: Text(updated, t) ==
                    if TextKey(t) in patch then AsString(c, patch[TextKey(t)]) else Text(current, t))
    && (forall n :: Number(updated, n) ==
                    if NumberKey(n) in patch then AsInt(c, patch[NumberKey(n)]) else Number(current, n))
    && (forall l :: MaybeList(updated, l) ==
                    if ListKey(l) in patch then NewList(c, patch[ListKey(l)]) else MaybeList(CloneFields(current), l))
    && updated.durationSeconds ==
       if DurationKey in patch then AsFloat(c, patch[DurationKey]) else current.durationSeconds
  }

  // One field of a record changes, to the text, number or list given for its kind.
  ghost predicate Changed(key: Key, text: Option<string>, number: Option<int>, list: Option<seq<string>>,
                          duration: Option<real>, before: VideoFields, after: VideoFields) {
    && (forall t :: Text(after, t) == if key == TextKey(t) then text else Text(before, t))
    && (forall n :: Number(after, n) == if key == NumberKey(n) then number else Number(before, n))
    && (forall l :: MaybeList(after, l) == if key == ListKey(l) then list else MaybeList(before, l))
    && after.durationSeconds == if key == DurationKey then duration else before.durationSeconds
  }

  /** A patch determines the record it leaves, whatever the order of its keys. */
  lemma PatchedIsUnique(c: Conversions, current: VideoFields, patch: Patch, a: VideoFields, b: VideoFields)
    requires Patched(c, current, patch, a) && Patched(c, current, patch, b)
    ensures a == b
  {
    SameFields(a, b);
  }

  // ----- What the store keeps -----

  // The stored JSON leaves empty lists out, so reading a record back drops them.
  function Stored(fields: VideoFields): (stored: VideoFields)
    ensures NoEmptyLists(stored)
  {
    CloneFields(fields)
  }

  predicate NoEmptyLists(fields: VideoFields) {
    forall l :: l in fields.lists ==> fields.lists[l] != []
  }

  // The list a reader sees: the stored override's if it has one, else the original's.
  function EffectiveList(original: VideoFields, stored: VideoFields, l: ListField): seq<string> {
    List(ApplyOverride(CloneFields(original), stored), l)
  }

  /** A patch of a stored override leaves the effective value of every list it does not name alone. */
  lemma UnpatchedListKept(c: Conversions, original: VideoFields, override: VideoFields, patch: Patch,
                          updated: VideoFields, l: ListField)
    requires NoEmptyLists(override) && Patched(c, override, patch, updated) && ListKey(l) !in patch
    ensures EffectiveList(original, Stored(updated), l) == EffectiveList(original, override, l)
  {
    MergedList(original, override, l);
    MergedList(original, Stored(updated), l);
    assert MaybeList(updated, l) == MaybeList(CloneFields(override), l);
    ClonedList(override, l);
  }

  lemma ClonedList(fields: VideoFields, l: ListField)
    requires NoEmptyLists(fields)
    ensures MaybeList(CloneFields(fields), l) == MaybeList(fields, l)
  {
  }

  // The list a patch entry asks for: the parts of a text, or the strings of a list.
  function AskedList(c: Conversions, v: Json): seq<string> {
    match v
    case Str(text) => c.split(text)
    case Items(items) => var values := AsStrings(c, items); if values.Some? then values.value else []
    case _ => []
  }

  /**
   * A patch entry for a list, text or items, takes effect exactly when the list it asks for is not
   * empty, or the original has none to fall back to: an empty list is stored as no override at all.
   */
  lemma PatchedListTakesEffectIff(c: Conversions, original: VideoFields, override: VideoFields, patch: Patch,
                                  updated: VideoFields, l: ListField)
    requires Patched(c, override, patch, updated) && ListKey(l) in patch
    requires !patch[ListKey(l)].Null? && Accepts(c, ListKey(l), patch[ListKey(l)])
    ensures var asked := AskedList(c, patch[ListKey(l)]);
            EffectiveList(original, Stored(updated), l) == asked <==> asked != [] || List(original, l) == []
  {
    hide AsStrings;
    MergedList(original, Stored(updated), l);
    assert MaybeList(updated, l) == NewList(c, patch[ListKey(l)]);
  }

  // A record whose only field is a list of genres.
  function WithGenres(genres: seq<string>): VideoFields {
    VideoFields(map[], map[], map[Genres := genres], None)
  }

  /** The condition can fail: setting the genres of a tagged file to none is accepted, and does not stick. */
  lemma EmptyGenresDoNotStick(c: Conversions, updated: VideoFields)
    ensures var patch: Patch := map[ListKey(Genres) := Items([])];
            var nothing := VideoFields(map[], map[], map[], None);
            && (forall key :: key in patch ==> Accepts(c, key, patch[key]))
            && (Patched(c, nothing, patch, updated) ==>
                  EffectiveList(WithGenres(["Drama"]), Stored(updated), Genres) == ["Drama"])
  {
    var patch: Patch := map[ListKey(Genres) := Items([])];
    var nothing := VideoFields(map[], map[], map[], None);
    MergedList(WithGenres(["Drama"]), Stored(updated), Genres);
    if Patched(c, nothing, patch, updated) {
      assert MaybeList(updated, Genres) == NewList(c, Items([])) == Some([]);
    }
  }

  lemma SameFields(a: VideoFields, b: VideoFields)
    requires forall t :: Text(a, t) == Text(b, t)
    requires forall n :: Number(a, n) == Number(b, n)
    requires forall l :: MaybeList(a, l) == MaybeList(b, l)
    requires a.durationSeconds == b.durationSeconds
    ensures a == b
  {
    forall t
      ensures t in a.texts <==> t in b.texts
      ensures t in a.texts ==> a.texts[t] == b.texts[t]
    {
      assert Text(a, t) == Text(b, t);
    }
    forall n
      ensures n in a.numbers <==> n in b.numbers
      ensures n in a.numbers ==> a.numbers[n] == b.numbers[n]
    {
      assert Number(a, n) == Number(b, n);
    }
    forall l
      ensures l in a.lists <==> l in b.lists
      ensures l in a.lists ==> a.lists[l] == b.lists[l]
    {
      assert MaybeList(a, l) == MaybeList(b, l);
    }
    assert a.texts == b.texts && a.numbers == b.numbers && a.lists == b.lists;
  }

  // ----- The record -----

  method SetAll<K, V>(target: map<K, V>, values: map<K, V>) returns (merged: map<K, V>)
    ensures merged == target + values
  {
    merged := target;
    var remaining := values.Keys;
    while remaining != {}
      invariant remaining <= values.Keys && merged == target + (values - remaining)
    {
      var k :| k in remaining;
      merged := merged[k := values[k]];
      remaining := remaining - {k};
    }
    assert values - {} == values;
  }

  class VideoRecord {
    var texts: map<TextField, string>
    var numbers: map<NumberField, int>
    var lists: map<ListField, seq<string>>
    var durationSeconds: Option<real>

    function Fields(): VideoFields
      reads this
    {
      VideoFields(texts, numbers, lists, durationSeconds)
    }

    constructor Clone(fields: VideoFields)
      ensures Fields() == CloneFields(fields)
    {
      texts, numbers, durationSeconds := fields.texts, fields.numbers, fields.durationSeconds;
      lists := map k | k in fields.lists && fields.lists[k] != [] :: fields.lists[k];
    }

    // applyOverride: every field the override has replaces the record's.
    method Override(override: VideoFields)
      modifies this
      ensures Fields() == ApplyOverride(old(Fields()), override)
    {
      texts := SetAll(texts, override.texts);
      numbers := SetAll(numbers, override.numbers);
      lists := SetAll(lists, override.lists);
      if override.durationSeconds.Some? {
        durationSeconds := override.durationSeconds;
      }
    }

    // applyPathHeuristics
    method FillFromPath(p: PathParsers, libraryType: LibraryType, relPath: string)
      modifies this
      ensures Fields() == ApplyPathHeuristics(p, old(Fields()), libraryType, relPath)
    {
      if libraryType == Film {
        var (title, year) := p.film(relPath);
        if Title !in texts && title != "" {
          texts := texts[Title := title];
        }
        if Year !in numbers && year.Some? {
          numbers := numbers[Year := year.value];
        }
      } else if libraryType == Series {
        var identity := p.series(relPath);
        if identity.season.Some? {
          numbers := numbers[Season := identity.season.value];
        }
        if identity.episode.Some? {
          numbers := numbers[Episode := identity.episode.value];
        }
        if identity.episodeTitle != "" {
          texts := texts[EpisodeTitle := identity.episodeTitle];
        }
        if Show !in texts && identity.show != "" {
          texts := texts[Show := identity.show];
        }
      }
    }

    method ClearField(key: Key)
      modifies this
      ensures Changed(key, None, None, None, None, old(Fields()), Fields())
    {
      match key
      case TextKey(text) => texts := texts - {text};
      case NumberKey(number) => numbers := numbers - {number};
      case ListKey(list) => lists := lists - {list};
      case DurationKey => durationSeconds := None;
      case UnknownKey(_) =>
    }

    method SetField(c: Conversions, key: Key, v: Json) returns (ok: bool)
      modifies this
      ensures ok <==> Converts(c, key, v)
      ensures !ok ==> Fields() == old(Fields())
      ensures ok ==> Changed(key, AsString(c, v), AsInt(c, v), NewList(c, v), AsFloat(c, v), old(Fields()), Fields())
    {
      if !Converts(c, key, v) {
        return false;
      }
      match key {
        case TextKey(text) => texts := texts[text := AsString(c, v).value];
        case NumberKey(number) => numbers := numbers[number := AsInt(c, v).value];
        case ListKey(list) =>
          var values := NewList(c, v);
          lists := if values.None? then lists - {list} else lists[list := values.value];
        case DurationKey => durationSeconds := AsFloat(c, v);
        case UnknownKey(_) =>
      }
      return true;
    }
  }

  method ComputeEffectiveFields(p: PathParsers, libraryType: LibraryType, relPath: string,
                                original: VideoFields, override: VideoFields) returns (effective: VideoFields)
    ensures effective == EffectiveFields(p, libraryType, relPath, original, override)
  {
    var record := new VideoRecord.Clone(original);
    record.Override(override);
    if libraryType == Film || libraryType == Series {
      record.FillFromPath(p, libraryType, relPath);
    }
    effective := record.Fields();
  }

  lemma NothingPatched(c: Conversions, current: VideoFields)
    ensures Patched(c, current, map[], CloneFields(current))
  {
  }

  lemma EntryPatched(c: Conversions, current: VideoFields, patch: Patch, remaining: set<Key>, key: Key,
                     before: VideoFields, after: VideoFields)
    requires key in remaining && remaining <= patch.Keys && Patched(c, current, patch - remaining, before)
    requires var v := patch[key]; Changed(key, AsString(c, v), AsInt(c, v), NewList(c, v), AsFloat(c, v), before, after)
    ensures Patched(c, current, patch - (remaining - {key}), after)
  {
    hide AsString, AsInt, AsFloat, NewList, Text, Number, MaybeList;
  }

  /** A patch is refused exactly when some entry is, whatever the order of its keys, and else determines the result. */
  method ApplyPatchFields(c: Conversions, current: VideoFields, patch: Patch) returns (r: Option<VideoFields>)
    ensures r.Some? <==> forall key :: key in patch ==> Accepts(c, key, patch[key])
    ensures r.Some? ==> Patched(c, current, patch, r.value)
  {
    hide CloneFields, Converts, Editable, Patched, Changed;
    var record := new VideoRecord.Clone(current);
    var remaining := patch.Keys;
    NothingPatched(c, current);
    assert patch - patch.Keys == map[];
    while remaining != {}
      invariant remaining <= patch.Keys && fresh(record)
      invariant forall key :: key in patch && key !in remaining ==> Accepts(c, key, patch[key])
      invariant Patched(c, current, patch - remaining, record.Fields())
    {
      var key :| key in remaining;
      ghost var before := record.Fields();
      if !Editable(key) {
        assert !Accepts(c, key, patch[key]);
        return None;
      }
      if patch[key].Null? {
        record.ClearField(key);
      } else {
        var ok := record.SetField(c, key, patch[key]);
        if !ok {
          assert !Accepts(c, key, patch[key]);
          return None;
        }
      }
      EntryPatched(c, current, patch, remaining, key, before, record.Fields());
      remaining := remaining - {key};
    }
    assert patch - {} == patch;
    r := Some(record.Fields());
  }

  // ----- What a provider writes -----

  const PROVIDER_TEXTS := [Title, Show, Description, Studio, EpisodeTitle, ImdbId, TmdbId, TvdbId, TvmazeId]

  function Strings(items: seq<string>): (r: seq<Json>)
    ensures |r| == |items| && forall i :: 0 <= i < |r| ==> r[i] == Str(items[i])
  {
    seq(|items|, i requires 0 <= i < |items| => Str(items[i]))
  }

  // A record written out as a patch.
  ghost predicate IsPatchOf(fields: VideoFields, patch: Patch) {
    && (forall t :: TextKey(t) in patch <==> t in fields.texts)
    && (forall t :: t in fields.texts ==> patch[TextKey(t)] == Str(fields.texts[t]))
    && (forall n :: NumberKey(n) in patch <==> n in fields.numbers)
    && (forall n :: n in fields.numbers ==> patch[NumberKey(n)] == Num(fields.numbers[n] as real))
    && (forall l :: ListKey(l) in patch <==> l in fields.lists)
    && (forall l :: l in fields.lists ==> patch[ListKey(l)] == Items(Strings(fields.lists[l])))
    && (forall name :: UnknownKey(name) !in patch) && DurationKey !in patch && fields.durationSeconds == None
  }

  function PutString(patch: Patch, key: TextField, texts: map<TextField, string>): Patch {
    if Blank(texts, key) then patch else patch[TextKey(key) := Str(TrimSpace(texts[key]))]
  }

  // putProviderString
  method PutProviderString(patch: Patch, key: TextField, texts: map<TextField, string>) returns (updated: Patch)
    ensures updated == PutString(patch, key, texts)
  {
    hide TrimSpace;
    if key !in texts {
      return patch;
    }
    var trimmed := TrimSpace(texts[key]);
    if trimmed == "" {
      return patch;
    }
    updated := patch[TextKey(key) := Str(trimmed)];
  }

  // The text entries of a provider's patch.
  ghost predicate HasTexts(texts: map<TextField, string>, patch: Patch) {
    && (forall t :: TextKey(t) in patch <==> IsProviderText(t) && !Blank(texts, t))
    && (forall t :: TextKey(t) in patch ==> patch[TextKey(t)] == Str(TrimSpace(texts[t])))
  }

  method PutTexts(texts: map<TextField, string>) returns (patch: Patch)
    ensures HasTexts(texts, patch) && forall key :: key in patch ==> key.TextKey?
  {
    hide TrimSpace;
    patch := map[];
    for i := 0 to |PROVIDER_TEXTS|
      invariant forall t :: TextKey(t) in patch <==> t in PROVIDER_TEXTS[..i] && !Blank(texts, t)
      invariant forall t :: TextKey(t) in patch ==> patch[TextKey(t)] == Str(TrimSpace(texts[t]))
      invariant forall key :: key in patch ==> key.TextKey?
    {
      patch := PutProviderString(patch, PROVIDER_TEXTS[i], texts);
    }
    AllProviderTexts();
  }

  method PutNumber(patch: Patch, key: NumberField, numbers: map<NumberField, int>) returns (updated: Patch)
    ensures updated == if key in numbers then patch[NumberKey(key) := Num(numbers[key] as real)] else patch
  {
    updated := if key in numbers then patch[NumberKey(key) := Num(numbers[key] as real)] else patch;
  }

  // The number entries of a provider's patch, its other entries unchanged.
  method PutNumbers(patch: Patch, numbers: map<NumberField, int>) returns (updated: Patch)
    requires forall key :: key in patch ==> key.TextKey?
    ensures forall key: Key :: !key.NumberKey? ==> (key in updated <==> key in patch)
    ensures forall key :: key in patch ==> updated[key] == patch[key]
    ensures forall n :: NumberKey(n) in updated <==> IsProviderNumber(n) && n in numbers
    ensures forall n :: NumberKey(n) in updated ==> updated[NumberKey(n)] == Num(numbers[n] as real)
  {
    updated := PutNumber(patch, Year, numbers);
    updated := PutNumber(updated, Season, numbers);
    updated := PutNumber(updated, Episode, numbers);
  }

  // providerPatchFields
  method ProviderPatchFields(fields: ProviderFields) returns (patch: Patch)
    requires ValidProviderFields(fields)
    ensures IsPatchOf(ProviderPatch(fields), patch)
  {
    hide TrimSpace, TrimmedGenres, HasTexts, IsPatchOf, ProviderPatch, IsProviderNumber, ValidProviderFields, Strings;
    var texts := PutTexts(fields.texts);
    patch := PutNumbers(texts, fields.numbers);
    var genres := CollectGenres(fields.genres);
    if |genres| > 0 {
      patch := patch[ListKey(Genres) := Items(Strings(genres))];
    }
    PatchIsProviders(fields, texts, patch);
  }

  lemma PatchIsProviders(fields: ProviderFields, texts: Patch, patch: Patch)
    requires ValidProviderFields(fields) && HasTexts(fields.texts, texts)
    requires forall key :: key in texts ==> key.TextKey?
    requires forall t :: TextKey(t) in patch <==> TextKey(t) in texts
    requires forall t :: TextKey(t) in patch ==> patch[TextKey(t)] == texts[TextKey(t)]
    requires forall n :: NumberKey(n) in patch <==> IsProviderNumber(n) && n in fields.numbers
    requires forall n :: NumberKey(n) in patch ==> patch[NumberKey(n)] == Num(fields.numbers[n] as real)
    requires var genres := TrimmedGenres(fields.genres);
             && (forall l :: ListKey(l) in patch <==> l == Genres && genres != [])
             && (ListKey(Genres) in patch ==> patch[ListKey(Genres)] == Items(Strings(genres)))
    requires (forall name :: UnknownKey(name) !in patch) && DurationKey !in patch
    ensures IsPatchOf(ProviderPatch(fields), patch)
  {
    hide TrimSpace, TrimmedGenres;
  }

  lemma AllProviderTexts()
    ensures PROVIDER_TEXTS[..|PROVIDER_TEXTS|] == PROVIDER_TEXTS
    ensures forall t :: t in PROVIDER_TEXTS <==> IsProviderText(t)
  {
  }

  lemma {:induction false} StringsConvert(c: Conversions, items: seq<string>)
    ensures AsStrings(c, Strings(items)) == Some(items)
  {
    if items != [] {
      var front, last := items[..|items| - 1], items[|items| - 1];
      StringsConvert(c, front);
      assert Strings(items)[..|items| - 1] == Strings(front);
      assert items == front + [last];
    }
  }

  /** A record written out as a patch: editable entries are accepted, and it merges that record over the override. */
  lemma PatchOfApplies(c: Conversions, override: VideoFields, fields: VideoFields, patch: Patch, updated: VideoFields)
    requires IsPatchOf(fields, patch)
    requires forall l :: l in fields.lists ==> AsStrings(c, Strings(fields.lists[l])) == Some(fields.lists[l])
    ensures forall key :: key in patch && Editable(key) ==> Accepts(c, key, patch[key])
    ensures Patched(c, override, patch, updated) ==> updated == ApplyPatch(override, fields)
  {
    hide AsStrings, CloneFields, Editable;
    if Patched(c, override, patch, updated) {
      var merged := ApplyPatch(override, fields);
      forall t
        ensures Text(updated, t) == Text(merged, t)
      {
        MergedText(override, fields, t);
      }
      forall n
        ensures Number(updated, n) == Number(merged, n)
      {
        MergedNumber(override, fields, n);
      }
      forall l
        ensures MaybeList(updated, l) == MaybeList(merged, l)
      {
        MergedMaybeList(CloneFields(override), fields, l);
      }
      SameFields(updated, merged);
    }
  }

  lemma MergedMaybeList(target: VideoFields, override: VideoFields, l: ListField)
    ensures MaybeList(ApplyOverride(target, override), l) ==
            if l in override.lists then Some(override.lists[l]) else MaybeList(target, l)
  {
  }

  /** A provider's patch is never refused, and is empty exactly when there is nothing to write. */
  lemma ProviderPatchApplies(c: Conversions, override: VideoFields, fields: ProviderFields, patch: Patch,
                             updated: VideoFields)
    requires ValidProviderFields(fields) && IsPatchOf(ProviderPatch(fields), patch)
    ensures forall key :: key in patch ==> Accepts(c, key, patch[key])
    ensures Patched(c, override, patch, updated) ==> updated == ApplyPatch(override, ProviderPatch(fields))
    ensures patch == map[] <==> EmptyPatch(ProviderPatch(fields))
  {
    hide ProviderPatch, AsStrings, Accepts, Patched, ApplyPatch, IsPatchOf, EmptyPatch, Strings;
    var written := ProviderPatch(fields);
    ProviderListsConvert(c, fields);
    PatchOfApplies(c, override, written, patch, updated);
    ProviderKeysEditable(fields, patch);
    EmptyIff(written, patch);
  }

  lemma ProviderListsConvert(c: Conversions, fields: ProviderFields)
    ensures var lists := ProviderPatch(fields).lists;
            forall l :: l in lists ==> AsStrings(c, Strings(lists[l])) == Some(lists[l])
  {
    hide AsStrings, Strings;
    StringsConvert(c, TrimmedGenres(fields.genres));
  }

  lemma ProviderKeysEditable(fields: ProviderFields, patch: Patch)
    requires ValidProviderFields(fields) && IsPatchOf(ProviderPatch(fields), patch)
    ensures forall key :: key in patch ==> Editable(key)
  {
    hide TrimSpace, TrimmedGenres;
  }

  lemma EmptyIff(fields: VideoFields, patch: Patch)
    requires IsPatchOf(fields, patch)
    ensures patch == map[] <==> EmptyPatch(fields)
  {
    if patch == map[] {
      assert forall t :: TextKey(t) !in patch;
      assert forall n :: NumberKey(n) !in patch;
      assert forall l :: ListKey(l) !in patch;
    } else if EmptyPatch(fields) {
      forall key
        ensures key !in patch
      {
        match key
        case TextKey(t) => assert t !in fields.texts;
        case NumberKey(n) => assert n !in fields.numbers;
        case ListKey(l) => assert l !in fields.lists;
        case DurationKey =>
        case UnknownKey(_) =>
      }
    }
  }

  // ----- The stored row -----

  class MetadataRow {
    const original: VideoFields
    var override: VideoFields
    var storeWrites: nat
    var applied: nat
    var errors: nat

    // What reading the row back promises.
    ghost predicate Valid()
      reads this
    {
      NoEmptyLists(override)
    }

    constructor (original: VideoFields, override: VideoFields)
      ensures this.original == Stored(original) && this.override == Stored(override) && Valid()
      ensures storeWrites == 0 && applied == 0 && errors == 0
    {
      this.original, this.override := Stored(original), Stored(override);
      storeWrites, applied, errors := 0, 0, 0;
    }

    /**
     * patchOverride. A refused patch and a failing store leave the row alone; else fields that are not
     * lists and lists that the patch does not name read back as patched or as they were, and a list it
     * names reads back as patched unless that is empty.
     */
    method PatchOverride(c: Conversions, patch: Patch, storeUp: bool) returns (ok: bool)
      requires Valid()
      modifies this`override, this`storeWrites
      ensures Valid()
      ensures ok <==> storeUp && forall key :: key in patch ==> Accepts(c, key, patch[key])
      ensures ok ==> storeWrites == old(storeWrites) + 1
                     && exists updated :: Patched(c, old(override), patch, updated) && override == Stored(updated)
      ensures !ok ==> override == old(override) && storeWrites == old(storeWrites)
    {
      var updated := ApplyPatchFields(c, override, patch);
      if updated.None? || !storeUp {
        return false;
      }
      override := Stored(updated.value);
      storeWrites := storeWrites + 1;
      return true;
    }

    /**
     * writeFields with the override target, in both modes. The patch itself is never refused; a call
     * with fields left counts as applied even when their patch is empty and the store is not touched.
     */
    method WriteFields(c: Conversions, p: PathParsers, libraryType: LibraryType, relPath: string,
                       fullRewrite: bool, fields: ProviderFields, storeUp: bool)
      requires Valid() && ValidProviderFields(fields)
      modifies this`override, this`storeWrites, this`applied, this`errors
      ensures Valid()
      ensures var before := EffectiveFields(p, libraryType, relPath, original, old(override));
              var left := if fullRewrite then fields else FillMissingOnly(fields, before);
              var patch := ProviderPatch(left);
              var writes := !EmptyPatch(patch);
              && override == (if writes && storeUp then ApplyPatch(old(override), patch) else old(override))
              && storeWrites == old(storeWrites) + (if writes && storeUp then 1 else 0)
              && errors == old(errors) + (if writes && !storeUp then 1 else 0)
              && applied == old(applied) + (if ProviderFieldsEmpty(left) || (writes && !storeUp) then 0 else 1)
      ensures !fullRewrite && storeUp ==>
                var before := EffectiveFields(p, libraryType, relPath, original, old(override));
                (override, storeWrites > old(storeWrites)) == WriteMissing(before, old(override), fields)
    {
      hide TrimSpace, TrimmedGenres, EffectiveFields, ApplyPatch, ProviderPatch, Patched, IsPatchOf, EmptyPatch,
           Accepts, ProviderFieldsEmpty, FillMissingOnly, ValidProviderFields;
      var left := fields;
      ghost var before := EffectiveFields(p, libraryType, relPath, original, override);
      WrittenIffPatch(before, override, fields);
      if !fullRewrite {
        var effective := ComputeEffectiveFields(p, libraryType, relPath, original, override);
        left := FillMissingOnly(fields, effective);
        MissingIsValid(fields, effective);
      }
      EmptyHasNoPatch(left);
      if ProviderFieldsEmpty(left) {
        return;
      }
      var patch := ProviderPatchFields(left);
      ghost var was := override;
      ProviderPatchApplies(c, was, left, patch, was);
      if patch != map[] {
        var ok := PatchOverride(c, patch, storeUp);
        if !ok {
          errors := errors + 1;
          return;
        }
        ghost var updated :| Patched(c, was, patch, updated) && override == Stored(updated);
        ProviderPatchApplies(c, was, left, patch, updated);
        ProviderPatchIsStored(was, left);
      }
      applied := applied + 1;
    }
  }

  // A provider writes no empty lists, so nothing is lost on the way to the store.
  lemma ProviderPatchIsStored(override: VideoFields, fields: ProviderFields)
    ensures Stored(ApplyPatch(override, ProviderPatch(fields))) == ApplyPatch(override, ProviderPatch(fields))
  {
    hide TrimSpace, TrimmedGenres;
    var merged := ApplyPatch(override, ProviderPatch(fields));
    assert Stored(merged).lists == merged.lists;
  }

  lemma MissingIsValid(fields: ProviderFields, effective: VideoFields)
    requires ValidProviderFields(fields)
    ensures ValidProviderFields(FillMissingOnly(fields, effective))
  {
  }

  lemma EmptyHasNoPatch(fields: ProviderFields)
    ensures ProviderFieldsEmpty(fields) ==> EmptyPatch(ProviderPatch(fields))
  {
    hide TrimSpace;
    if ProviderFieldsEmpty(fields) {
      assert forall t :: t !in ProviderPatch(fields).texts;
    }
  }
}
