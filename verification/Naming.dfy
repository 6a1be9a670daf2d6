/**
 * How an episode title is read from a file name (cleanTitleAndYear in internal/metadata/naming.go).
 * The regular expressions are a parameter.
 */
module Naming {
  import opened AccessPaths
  import opened Picking
  import opened WordRuns
  import opened Wrappers

  // A title as the parser returns it: none, or text that neither starts nor ends in a space.
  predicate IsTitle(t: string) {
    t == "" || (!IsSpace(t[0]) && !IsSpace(t[|t| - 1]))
  }

  type Title = t: string | IsTitle(t)

  // metadata.ParseSeriesIdentity
  datatype SeriesIdentity = SeriesIdentity(
    show: string, season: Option<int>, episode: Option<int>, episodeTitle: Title)

  // `strip` blanks out years and bracketed tags, `drop` tells release junk and year tokens.
  datatype TitlePatterns = TitlePatterns(strip: string -> string, drop: string -> bool)

  // strings.Fields: the maximal runs of characters that are not spaces.
  function Fields(s: string): (words: seq<string>)
    ensures WordList(NonSpace(), words)
  {
    Words(NonSpace(), s)
  }

  function NonSpace(): char -> bool {
    c => !IsSpace(c)
  }

  // Dots, underscores and dashes become spaces.
  function Unpunctuated(s: string): (r: string)
    ensures |r| == |s|
    ensures forall i :: 0 <= i < |s| ==> r[i] == if s[i] == '.' || s[i] == '_' || s[i] == '-' then ' ' else s[i]
  {
    if s == "" then ""
    else
      var c := s[|s| - 1];
      Unpunctuated(s[..|s| - 1]) + [if c == '.' || c == '_' || c == '-' then ' ' else c]
  }

  function Kept(drop: string -> bool, tokens: seq<string>): (kept: seq<string>)
    ensures forall w :: w in kept <==> w in tokens && !drop(w)
  {
    if tokens == [] then []
    else
      var front, last := tokens[..|tokens| - 1], tokens[|tokens| - 1];
      assert tokens == front + [last];
      Kept(drop, front) + (if drop(last) then [] else [last])
  }

  function NotDropped(drop: string -> bool): string -> bool {
    token => !drop(token)
  }

  /** The tokens kept are those that are not dropped, each once and in their order. */
  lemma {:induction false} KeptInOrder(drop: string -> bool, tokens: seq<string>) returns (at: seq<int>)
    ensures PicksOut(tokens, NotDropped(drop), at) && |at| == |Kept(drop, tokens)|
    ensures forall j :: 0 <= j < |at| ==> Kept(drop, tokens)[j] == tokens[at[j]]
  {
    at := [];
    if tokens != [] {
      var last := |tokens| - 1;
      var before := KeptInOrder(drop, tokens[..last]);
      at := if NotDropped(drop)(tokens[last]) then before + [last] else before;
      PickLast(tokens, NotDropped(drop), before);
    }
  }

  // The tokens of a name that belong to its title.
  function TitleTokens(p: TitlePatterns, raw: string): seq<string> {
    var trimmed := TrimSpace(raw);
    if trimmed == "" then [] else Kept(p.drop, Fields(Unpunctuated(p.strip(trimmed))))
  }

  lemma SpacedIsTitle(words: seq<string>)
    requires WordList(NonSpace(), words)
    ensures IsTitle(Join(words, ' ')) && (Join(words, ' ') == "" <==> words == [])
  {
    hide IsSpace;
    if words != [] {
      JoinEnds(NonSpace(), ' ', words);
    }
  }

  /**
   * A cleaned title is the kept tokens of the name joined by single spaces: collapsing spaces once more
   * changes nothing, and the title is never blank text.
   */
  method CleanTitle(p: TitlePatterns, raw: string) returns (title: Title)
    ensures title == Join(TitleTokens(p, raw), ' ') && (title == "" <==> TitleTokens(p, raw) == [])
    ensures title != "" ==> TrimSpace(title) == title
  {
    hide IsSpace, TrimSpace, Fields, Join;
    var trimmed := TrimSpace(raw);
    if trimmed == "" {
      SpacedIsTitle([]);
      return "";
    }
    var tokens := Fields(Unpunctuated(p.strip(trimmed)));
    var kept: seq<string> := [];
    for i := 0 to |tokens|
      invariant kept == Kept(p.drop, tokens[..i])
    {
      assert tokens[..i + 1][..i] == tokens[..i];
      if p.drop(tokens[i]) {
        continue;
      }
      kept := kept + [tokens[i]];
    }
    assert tokens[..|tokens|] == tokens;
    forall i | 0 <= i < |kept|
      ensures IsWord(NonSpace(), kept[i])
    {
      assert kept[i] in kept && kept[i] in tokens;
    }
    SpacedIsTitle(kept);
    if |kept| == 0 {
      return "";
    }
    SpaceIsNoWord();
    WordsOfJoin(NonSpace(), ' ', kept);
    FieldsAre(Join(kept, ' '));
    title := Join(kept, ' ');
    title := Join(Fields(title), ' ');
    TrimSpaceFixes(title);
  }

  lemma SpaceIsNoWord()
    ensures !NonSpace()(' ')
  {
  }

  lemma FieldsAre(s: string)
    ensures Fields(s) == Words(NonSpace(), s)
  {
  }
}
