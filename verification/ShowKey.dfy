/**
 * Show keys and library slugs (NormalizeShowKey in internal/metadata/naming.go, slugify in
 * internal/access/service.go): the dash-join of the words of the lowercased name.
 */
module ShowKey {
  import opened AccessPaths
  import opened WordRuns

  // The Unicode tables: which characters are letters or digits, and lower-casing.
  datatype Unicode = Unicode(isWord: char -> bool, lower: char -> char)

  // What the real tables satisfy: dashes and spaces are not letters and have no case, and
  // lower-casing a lower-case character changes nothing.
  ghost predicate Sound(u: Unicode) {
    && !u.isWord('-') && u.lower('-') == '-'
    && (forall c :: IsSpace(c) ==> !u.isWord(c) && u.lower(c) == c)
    && forall c :: u.lower(u.lower(c)) == u.lower(c)
  }

  function ToLower(u: Unicode, s: string): (r: string)
    ensures |r| == |s| && forall i :: 0 <= i < |s| ==> r[i] == u.lower(s[i])
  {
    if s == "" then "" else ToLower(u, s[..|s| - 1]) + [u.lower(s[|s| - 1])]
  }

  function TrimDashes(s: string): string
    decreases |s|
  {
    if s != "" && s[0] == '-' then TrimDashes(s[1..])
    else if s != "" && s[|s| - 1] == '-' then TrimDashes(s[..|s| - 1])
    else s
  }

  function Key(u: Unicode, name: string): string {
    Join(Words(u.isWord, ToLower(u, TrimSpace(name))), '-')
  }

  // ----- The loop -----

  lemma BuiltTrimsToJoin(u: Unicode, s: string)
    requires !u.isWord('-')
    ensures TrimDashes(Built(u.isWord, '-', s)) == Join(Words(u.isWord, s), '-')
  {
    var words := Words(u.isWord, s);
    if words != [] {
      JoinEnds(u.isWord, '-', words);
      var joined := Join(words, '-');
      var dashed := joined + "-";
      assert dashed[..|dashed| - 1] == joined && dashed[0] == joined[0];
    }
  }

  // The loop shared by both functions.
  method DashWords(u: Unicode, lowered: string) returns (key: string)
    requires !u.isWord('-')
    ensures key == Join(Words(u.isWord, lowered), '-')
  {
    var builder := "";
    var prevDash := false;
    for i := 0 to |lowered|
      invariant builder == Built(u.isWord, '-', lowered[..i])
      invariant prevDash <==> Words(u.isWord, lowered[..i]) != [] && !EndsInWord(u.isWord, lowered[..i])
    {
      var c := lowered[i];
      BuiltStep(u.isWord, '-', lowered[..i], c);
      assert lowered[..i + 1] == lowered[..i] + [c];
      if u.isWord(c) {
        builder := builder + [c];
        prevDash := false;
        continue;
      }
      if !prevDash && |builder| > 0 {
        builder := builder + "-";
        prevDash := true;
      }
    }
    assert lowered[..|lowered|] == lowered;
    BuiltTrimsToJoin(u, lowered);
    key := TrimDashes(builder);
  }

  method NormalizeShowKey(u: Unicode, name: string) returns (key: string)
    requires !u.isWord('-')
    ensures key == Key(u, name)
  {
    var lowered := ToLower(u, TrimSpace(name));
    if lowered == "" {
      return "";
    }
    key := DashWords(u, lowered);
  }

  method Slugify(u: Unicode, value: string) returns (slug: string)
    requires !u.isWord('-')
    ensures slug == Key(u, value)
  {
    slug := DashWords(u, ToLower(u, TrimSpace(value)));
  }

  // ----- What a key is -----

  /** Two names share a key exactly when they have the same words. */
  lemma SameKeyIffSameWords(u: Unicode, a: string, b: string)
    requires !u.isWord('-')
    ensures Key(u, a) == Key(u, b) <==>
            Words(u.isWord, ToLower(u, TrimSpace(a))) == Words(u.isWord, ToLower(u, TrimSpace(b)))
  {
    WordsOfJoin(u.isWord, '-', Words(u.isWord, ToLower(u, TrimSpace(a))));
    WordsOfJoin(u.isWord, '-', Words(u.isWord, ToLower(u, TrimSpace(b))));
  }

  /** A key has no leading, trailing or doubled dash. */
  lemma KeyShape(u: Unicode, name: string)
    requires !u.isWord('-')
    ensures var key := Key(u, name);
            key != "" ==> key[0] != '-' && key[|key| - 1] != '-' && NoDoubleSeparator(key, '-')
  {
    var words := Words(u.isWord, ToLower(u, TrimSpace(name)));
    if words != [] {
      JoinEnds(u.isWord, '-', words);
      JoinHasSingleSeparators(u.isWord, '-', words);
    }
  }

  // ----- Idempotence -----

  // Every character of the text is its own lower-case form.
  predicate Lowered(u: Unicode, s: string) {
    forall k :: 0 <= k < |s| ==> u.lower(s[k]) == s[k]
  }

  lemma {:induction false} WordsKeepCase(u: Unicode, s: string)
    requires Lowered(u, s)
    ensures forall i :: 0 <= i < |Words(u.isWord, s)| ==> Lowered(u, Words(u.isWord, s)[i])
  {
    if s != "" {
      WordsKeepCase(u, s[..|s| - 1]);
    }
  }

  lemma {:induction false} JoinKeepsCase(u: Unicode, words: seq<string>)
    requires u.lower('-') == '-' && forall i :: 0 <= i < |words| ==> Lowered(u, words[i])
    ensures Lowered(u, Join(words, '-'))
  {
    if |words| > 1 {
      JoinKeepsCase(u, words[..|words| - 1]);
    }
  }

  /** The key of a key is the key. */
  lemma KeyIsIdempotent(u: Unicode, name: string)
    requires Sound(u)
    ensures Key(u, Key(u, name)) == Key(u, name)
  {
    hide IsSpace, TrimSpace, Words, Join, ToLower;
    var lowered := ToLower(u, TrimSpace(name));
    assert Lowered(u, lowered);
    var words := Words(u.isWord, lowered);
    WordsKeepCase(u, lowered);
    JoinKeepsCase(u, words);
    var key := Join(words, '-');
    if words == [] {
      NothingToJoin('-');
      TrimSpaceShortens("");
    } else {
      JoinEnds(u.isWord, '-', words);
      TrimSpaceFixes(key);
    }
    assert ToLower(u, key) == key;
    WordsOfJoin(u.isWord, '-', words);
  }
}
