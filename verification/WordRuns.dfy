/** Words of a text: the maximal runs of the characters a predicate accepts, and joining words by a separator. */
module WordRuns {
  predicate EndsInWord(isWord: char -> bool, s: string) {
    s != "" && isWord(s[|s| - 1])
  }

  predicate IsWord(isWord: char -> bool, w: string) {
    w != "" && forall k :: 0 <= k < |w| ==> isWord(w[k])
  }

  predicate WordList(isWord: char -> bool, words: seq<string>) {
    forall i :: 0 <= i < |words| ==> IsWord(isWord, words[i])
  }

  // The maximal runs of word characters, in order.
  function Words(isWord: char -> bool, s: string): (words: seq<string>)
    ensures EndsInWord(isWord, s) ==> words != []
    ensures WordList(isWord, words)
  {
    if s == "" then []
    else
      var before, c := s[..|s| - 1], s[|s| - 1];
      var words := Words(isWord, before);
      if !isWord(c) then words
      else if EndsInWord(isWord, before) then
        assert IsWord(isWord, words[|words| - 1]) && IsWord(isWord, words[|words| - 1] + [c]);
        words[..|words| - 1] + [words[|words| - 1] + [c]]
      else
        assert IsWord(isWord, [c]);
        words + [[c]]
  }

  function Join(words: seq<string>, sep: char): string {
    if words == [] then ""
    else if |words| == 1 then words[0]
    else Join(words[..|words| - 1], sep) + [sep] + words[|words| - 1]
  }

  lemma {:induction false} JoinEnds(isWord: char -> bool, sep: char, words: seq<string>)
    requires words != [] && WordList(isWord, words)
    ensures var joined := Join(words, sep);
            joined != "" && isWord(joined[0]) && isWord(joined[|joined| - 1])
  {
    var last := words[|words| - 1];
    assert IsWord(isWord, last);
    if |words| > 1 {
      JoinEnds(isWord, sep, words[..|words| - 1]);
    }
  }

  // The builder after a prefix: the words so far, and a separator once a gap follows them.
  function Built(isWord: char -> bool, sep: char, s: string): string {
    var words := Words(isWord, s);
    if words == [] || EndsInWord(isWord, s) then Join(words, sep) else Join(words, sep) + [sep]
  }

  // One more character: a word character extends the last word or starts one, anything else changes nothing.
  lemma WordsStep(isWord: char -> bool, s: string, c: char)
    ensures EndsInWord(isWord, s + [c]) <==> isWord(c)
    ensures var words := Words(isWord, s);
            Words(isWord, s + [c]) ==
            if !isWord(c) then words
            else if EndsInWord(isWord, s) then words[..|words| - 1] + [words[|words| - 1] + [c]]
            else words + [[c]]
  {
  }

  lemma JoinStep(front: seq<string>, last: string, sep: char)
    ensures Join(front + [last], sep) == if front == [] then last else Join(front, sep) + [sep] + last
  {
  }

  lemma JoinGrows(words: seq<string>, sep: char, c: char)
    requires words != []
    ensures var front, last := words[..|words| - 1], words[|words| - 1];
            Join(front + [last + [c]], sep) == Join(words, sep) + [c]
  {
    hide Join;
    var front, last := words[..|words| - 1], words[|words| - 1];
    assert words == front + [last];
    JoinStep(front, last, sep);
    JoinStep(front, last + [c], sep);
    assert Join(front, sep) + [sep] + (last + [c]) == Join(front, sep) + [sep] + last + [c];
  }

  lemma BuiltStep(isWord: char -> bool, sep: char, s: string, c: char)
    ensures Words(isWord, s) != [] <==> Built(isWord, sep, s) != ""
    ensures isWord(c) ==> Built(isWord, sep, s + [c]) == Built(isWord, sep, s) + [c]
    ensures !isWord(c) ==>
              Built(isWord, sep, s + [c]) ==
              if EndsInWord(isWord, s) then Built(isWord, sep, s) + [sep] else Built(isWord, sep, s)
  {
    hide Words, Join, EndsInWord, IsWord, WordList;
    WordsStep(isWord, s, c);
    var words := Words(isWord, s);
    if words == [] {
      NothingToJoin(sep);
    } else {
      JoinEnds(isWord, sep, words);
      JoinGrows(words, sep, c);
    }
    JoinStep(words, [c], sep);
  }

  lemma NothingToJoin(sep: char)
    ensures Join([], sep) == ""
  {
  }

  // Appending one word to text that ends outside a word appends it to the words.
  lemma {:induction false} WordsOfConcat(isWord: char -> bool, s: string, w: string)
    requires IsWord(isWord, w) && !EndsInWord(isWord, s)
    ensures Words(isWord, s + w) == Words(isWord, s) + [w] && EndsInWord(isWord, s + w)
    decreases |w|
  {
    hide Words;
    var rest, last := w[..|w| - 1], w[|w| - 1];
    assert s + w == s + rest + [last];
    WordsStep(isWord, s + rest, last);
    if |w| == 1 {
      assert w == [last] && s + rest == s;
    } else {
      assert IsWord(isWord, rest);
      WordsOfConcat(isWord, s, rest);
      var words := Words(isWord, s) + [rest];
      assert rest + [last] == w && words[..|words| - 1] == Words(isWord, s);
    }
  }

  /** The words of a joined word list are that list again. */
  lemma {:induction false} WordsOfJoin(isWord: char -> bool, sep: char, words: seq<string>)
    requires !isWord(sep) && WordList(isWord, words)
    ensures Words(isWord, Join(words, sep)) == words
  {
    if words != [] {
      var last := words[|words| - 1];
      assert IsWord(isWord, last);
      var front := words[..|words| - 1];
      assert words == front + [last];
      if |words| == 1 {
        WordsOfConcat(isWord, "", last);
        assert "" + last == last;
      } else {
        WordsOfJoin(isWord, sep, front);
        var separated := Join(front, sep) + [sep];
        WordsStep(isWord, Join(front, sep), sep);
        WordsOfConcat(isWord, separated, last);
      }
    }
  }

  predicate NoDoubleSeparator(s: string, sep: char) {
    forall i :: 0 < i < |s| ==> !(s[i - 1] == sep && s[i] == sep)
  }

  lemma {:induction false} JoinHasSingleSeparators(isWord: char -> bool, sep: char, words: seq<string>)
    requires !isWord(sep) && WordList(isWord, words)
    ensures NoDoubleSeparator(Join(words, sep), sep)
  {
    if words != [] {
      var last := words[|words| - 1];
      assert IsWord(isWord, last);
      if |words| > 1 {
        var front := words[..|words| - 1];
        JoinHasSingleSeparators(isWord, sep, front);
        JoinEnds(isWord, sep, front);
      }
    }
  }

  // ----- Texts split at one separator -----

  // Everything but the separator.
  function Besides(sep: char): char -> bool {
    c => c != sep
  }

  // No separator at either end and no doubled one.
  predicate Tidy(s: string, sep: char) {
    s == "" || (s[0] != sep && s[|s| - 1] != sep && NoDoubleSeparator(s, sep))
  }

  lemma {:induction false} BuiltIsText(s: string, sep: char)
    requires (s != "" ==> s[0] != sep) && NoDoubleSeparator(s, sep)
    ensures Built(Besides(sep), sep, s) == s
  {
    hide Built, Words;
    if s == "" {
      NothingBuilt(Besides(sep), sep);
    } else {
      var front, c := s[..|s| - 1], s[|s| - 1];
      assert s == front + [c];
      BuiltIsText(front, sep);
      BuiltStep(Besides(sep), sep, front, c);
    }
  }

  lemma NothingBuilt(isWord: char -> bool, sep: char)
    ensures Built(isWord, sep, "") == ""
  {
  }

  /** A tidy text is the join of its own words. */
  lemma TidyIsJoined(s: string, sep: char)
    requires Tidy(s, sep)
    ensures Join(Words(Besides(sep), s), sep) == s
  {
    BuiltIsText(s, sep);
  }

  /** The words on both sides of a separator are the words of the whole. */
  lemma {:induction false} WordsOfSplit(isWord: char -> bool, sep: char, s: string, t: string)
    requires !isWord(sep)
    ensures Words(isWord, s + [sep] + t) == Words(isWord, s) + Words(isWord, t)
    ensures EndsInWord(isWord, s + [sep] + t) <==> EndsInWord(isWord, t)
  {
    hide Words;
    if t == "" {
      assert s + [sep] + t == s + [sep];
      WordsStep(isWord, s, sep);
      NoWords(isWord);
    } else {
      var front, c := t[..|t| - 1], t[|t| - 1];
      assert s + [sep] + t == s + [sep] + front + [c] && t == front + [c];
      WordsOfSplit(isWord, sep, s, front);
      WordsStep(isWord, s + [sep] + front, c);
      WordsStep(isWord, front, c);
    }
  }

  lemma NoWords(isWord: char -> bool)
    ensures Words(isWord, "") == []
  {
  }

  lemma {:induction false} JoinOfConcat(xs: seq<string>, ys: seq<string>, sep: char)
    requires xs != [] && ys != []
    ensures Join(xs + ys, sep) == Join(xs, sep) + [sep] + Join(ys, sep)
    decreases |ys|
  {
    hide Join;
    var front, last := ys[..|ys| - 1], ys[|ys| - 1];
    assert ys == front + [last] && xs + ys == xs + front + [last];
    JoinStep(xs + front, last, sep);
    JoinStep(front, last, sep);
    if front == [] {
      assert xs + front == xs;
    } else {
      JoinOfConcat(xs, front, sep);
      assert Join(xs, sep) + [sep] + Join(front, sep) + [sep] + last ==
             Join(xs, sep) + [sep] + (Join(front, sep) + [sep] + last);
    }
  }

  /** A join of words is tidy. */
  lemma JoinIsTidy(words: seq<string>, sep: char)
    requires WordList(Besides(sep), words)
    ensures Tidy(Join(words, sep), sep)
  {
    if words != [] {
      JoinEnds(Besides(sep), sep, words);
      JoinHasSingleSeparators(Besides(sep), sep, words);
    }
  }
}
