/**
 * What canonicalising a request path does to it (cleanMediaRelPath and unescapePathLimited in
 * internal/access/path.go), said of texts: "." and ".." are resolved, and nothing encoded is left.
 */
module AccessCleaning {
  import opened AccessPaths
  import opened AccessRequests
  import opened WordRuns
  import opened Wrappers

  // ----- Resolving element by element -----

  // Resolution reads its elements in order, so only the resolved front matters for what follows.
  lemma {:induction false} ResolveGoesOn(xs: seq<string>, ys: seq<string>, rest: seq<string>)
    requires Resolve(xs) == Resolve(ys)
    ensures Resolve(xs + rest) == Resolve(ys + rest)
    decreases |rest|
  {
    hide Resolve;
    if rest == [] {
      assert xs + rest == xs && ys + rest == ys;
    } else {
      var front, last := rest[..|rest| - 1], rest[|rest| - 1];
      ResolveGoesOn(xs, ys, front);
      ResolveLast(xs + front, last);
      ResolveLast(ys + front, last);
      assert xs + rest == xs + front + [last] && ys + rest == ys + front + [last];
    }
  }

  lemma ResolveLast(parts: seq<string>, last: string)
    ensures var front := Resolve(parts);
            Resolve(parts + [last]) ==
            if last == "." then front
            else if last == ".." then if front == [] then [] else front[..|front| - 1]
            else front + [last]
  {
    assert (parts + [last])[..|parts|] == parts;
  }

  // A name of a directory: an element that is neither "." nor "..".
  predicate IsName(w: string) {
    w != "" && '/' !in w && w != "." && w != ".."
  }

  lemma OneElement(w: string)
    requires w != "" && '/' !in w
    ensures Components(w) == [w]
  {
    hide Words;
    NoWords(Besides('/'));
    assert IsWord(Besides('/'), w);
    WordsOfConcat(Besides('/'), "", w);
    assert "" + w == w;
  }

  lemma ComponentsOfJoined(a: string, b: string)
    ensures Components(a + "/" + b) == Components(a) + Components(b)
  {
    WordsOfSplit(Besides('/'), '/', a, b);
    assert a + "/" + b == a + ['/'] + b;
  }

  /** Two dots behind a name take the name away. */
  lemma ParentGoesUp(a: string, w: string, b: string)
    requires IsName(w)
    ensures CleanPath(a + "/" + w + "/../" + b) == CleanPath(a + "/" + b)
  {
    hide Components, Resolve, Join;
    var x, up := Components(a), a + "/" + w + "/..";
    assert a + "/" + w + "/../" + b == up + "/" + b;
    assert up == a + "/" + w + "/" + "..";
    ComponentsOfJoined(up, b);
    ComponentsOfJoined(a + "/" + w, "..");
    ComponentsOfJoined(a, w);
    ComponentsOfJoined(a, b);
    OneElement(w);
    OneElement("..");
    ResolveLast(x, w);
    ResolveLast(x + [w], "..");
    assert (Resolve(x) + [w])[..|Resolve(x)|] == Resolve(x);
    ResolveGoesOn(x + [w] + [".."], x, Components(b));
  }

  /** A dot stays where it is. */
  lemma DotStays(a: string, b: string)
    ensures CleanPath(a + "/./" + b) == CleanPath(a + "/" + b)
  {
    hide Components, Resolve, Join;
    assert a + "/./" + b == a + "/" + "." + "/" + b;
    ComponentsOfJoined(a + "/" + ".", b);
    ComponentsOfJoined(a, ".");
    ComponentsOfJoined(a, b);
    OneElement(".");
    ResolveLast(Components(a), ".");
    ResolveGoesOn(Components(a) + ["."], Components(a), Components(b));
  }

  /** Two dots at the media root stay at the media root. */
  lemma ParentOfRootIsRoot(b: string)
    ensures CleanPath("../" + b) == CleanPath(b)
  {
    hide Components, Resolve, Join;
    assert "../" + b == ".." + "/" + b;
    ComponentsOfJoined("..", b);
    OneElement("..");
    NothingResolves();
    ResolveLast([], "..");
    assert [] + [".."] == [".."];
    ResolveGoesOn([".."], [], Components(b));
    assert [] + Components(b) == Components(b);
  }

  lemma NothingResolves()
    ensures Resolve([]) == []
  {
  }

  /** Slashes at either end and doubled ones are no elements. */
  lemma SlashesDrop(a: string, b: string)
    ensures CleanPath("/" + b) == CleanPath(b)
    ensures CleanPath(a + "/") == CleanPath(a)
    ensures CleanPath(a + "//" + b) == CleanPath(a + "/" + b)
  {
    hide Words, Resolve, Join;
    NoWords(Besides('/'));
    ComponentsOfJoined("", b);
    assert "" + "/" + b == "/" + b && [] + Components(b) == Components(b);
    ComponentsOfJoined(a, "");
    assert a + "/" + "" == a + "/" && Components(a) + [] == Components(a);
    ComponentsOfJoined(a + "/", b);
    ComponentsOfJoined(a, b);
    assert a + "//" + b == a + "/" + "/" + b;
  }

  // ----- Decoding -----

  // No dot or slash is left encoded, in either case, and there is no null.
  predicate NothingEncoded(s: string) {
    !Contains(s, "%2e") && !Contains(s, "%2E") && !Contains(s, "%2f") && !Contains(s, "%2F") && '\0' !in s
  }

  /**
   * A path is decoded once, and once more if that changed it; it is refused when a decoding fails or
   * something is still encoded behind the second.
   */
  lemma DecodedIff(unescape: Unescape, path: string, q: string)
    ensures Decoded(unescape, path) == Some(q) <==>
            && NothingEncoded(q) && unescape(path).Some?
            && var once := unescape(path).value; if once == path then q == path else unescape(once) == Some(q)
  {
    hide Contains;
    var once := unescape(path);
    if once.Some? && once.value != path {
      assert Unescaped(unescape, path, 2) == Unescaped(unescape, once.value, 1);
      var twice := unescape(once.value);
      if twice.Some? && twice.value != once.value {
        assert Unescaped(unescape, once.value, 1) == Unescaped(unescape, twice.value, 0) == twice;
      }
    }
  }

  // ----- Nothing encoded in a canonical path -----

  lemma ElementOf(s: string, part: string, i: int, k: int)
    requires OccursAt(s, part, i) && 0 <= k < |part|
    ensures s[i + k] == part[k]
  {
    assert s[i..i + |part|][k] == s[i + k];
  }

  // A text without a slash does not reach across one.
  lemma NotAcross(s: string, part: string, i: int, n: int)
    requires '/' !in part && OccursAt(s, part, i) && 0 <= n < |s| && s[n] == '/'
    ensures n < i || i + |part| <= n
  {
    if i <= n < i + |part| {
      ElementOf(s, part, i, n - i);
    }
  }

  // A text without a slash that occurs in a join occurs in one of the joined words.
  lemma {:induction false} OccursInElement(words: seq<string>, part: string, i: int)
    requires part != "" && '/' !in part && OccursAt(Join(words, '/'), part, i)
    ensures exists w :: w in words && Contains(w, part)
  {
    if |words| == 1 {
      assert Contains(words[0], part);
    } else if |words| > 1 {
      var front, last := Join(words[..|words| - 1], '/'), words[|words| - 1];
      var s := Join(words, '/');
      assert s == front + ['/'] + last && s[|front|] == '/';
      NotAcross(s, part, i, |front|);
      if i + |part| <= |front| {
        assert s[i..i + |part|] == front[i..i + |part|];
        OccursInElement(words[..|words| - 1], part, i);
      } else {
        var j := i - |front| - 1;
        assert s[i..i + |part|] == last[j..j + |part|];
        assert OccursAt(last, part, j) && Contains(last, part);
      }
    }
  }

  lemma ResolvedAreParts(parts: seq<string>, w: string)
    requires w in Resolve(parts)
    ensures w in parts
  {
    if parts != [] {
      var front := parts[..|parts| - 1];
      assert parts == front + [parts[|parts| - 1]];
      if w in Resolve(front) {
        ResolvedAreParts(front, w);
      }
    }
  }

  lemma OccursInWhole(s: string, w: string, part: string)
    requires part != "" && w in Components(s) && Contains(w, part)
    ensures Contains(s, part)
  {
    hide Components;
    ComponentStart(s, w);
    var i :| OccursAt(s, w, i);
    var j :| 0 <= j < |w| && OccursAt(w, part, j);
    forall k | 0 <= k < |part|
      ensures s[i + j + k] == part[k]
    {
      ElementOf(w, part, j, k);
      ElementOf(s, w, i, j + k);
    }
    assert s[i + j..i + j + |part|] == part;
    assert OccursAt(s, part, i + j);
  }

  /** Cleaning brings no text without a slash into a path. */
  lemma CleaningAddsNothing(path: string, part: string)
    requires part != "" && '/' !in part && Contains(CleanPath(path), part)
    ensures Contains(path, part)
  {
    hide Components, Resolve, Join, Contains;
    var i := Occurrence(CleanPath(path), part);
    OccursInElement(Resolve(Components(path)), part, i);
    var w :| w in Resolve(Components(path)) && Contains(w, part);
    ResolvedAreParts(Components(path), w);
    OccursInWhole(path, w, part);
  }

  lemma Occurrence(s: string, part: string) returns (i: int)
    requires Contains(s, part)
    ensures OccursAt(s, part, i)
  {
    i :| 0 <= i < |s| && OccursAt(s, part, i);
  }

  /** An accepted request path has no encoded dot or slash and no null left in it. */
  lemma CanonicalHasNothingEncoded(unescape: Unescape, rawPath: string)
    ensures var r := CanonicalPath(unescape, rawPath); r.Some? ==> NothingEncoded(r.value)
  {
    hide Contains, CleanPath, NormalizeRelPath, Decoded, Escapes;
    var r := CanonicalPath(unescape, rawPath);
    if r.Some? {
      if r.value == "" {
        NothingContains();
      } else {
        var decoded := Decoded(unescape, NormalizeRelPath(rawPath)).value;
        DecodedIff(unescape, NormalizeRelPath(rawPath), decoded);
        CleaningKeepsDecoded(decoded);
      }
    }
  }

  lemma NothingContains()
    ensures NothingEncoded("")
  {
  }

  lemma CleaningKeepsDecoded(path: string)
    requires NothingEncoded(path)
    ensures NothingEncoded(CleanPath(path))
  {
    hide Contains, CleanPath;
    var cleaned := CleanPath(path);
    forall part | part in ["%2e", "%2E", "%2f", "%2F", "\0"] && Contains(cleaned, part)
      ensures Contains(path, part)
    {
      CleaningAddsNothing(path, part);
    }
    NullIsContained(path);
    NullIsContained(cleaned);
  }

  lemma NullIsContained(s: string)
    ensures Contains(s, "\0") <==> '\0' in s
  {
    if '\0' in s {
      var i :| 0 <= i < |s| && s[i] == '\0';
      assert s[i..i + 1] == "\0";
      assert OccursAt(s, "\0", i);
    }
    if Contains(s, "\0") {
      var i :| 0 <= i < |s| && OccursAt(s, "\0", i);
      assert s[i] == s[i..i + 1][0];
    }
  }

  /** The canonical path is what cleaning makes of the decoded one, and nothing is refused that can be decoded. */
  lemma CanonicalIff(unescape: Unescape, rawPath: string, q: string)
    ensures var t := NormalizeRelPath(rawPath);
            CanonicalPath(unescape, rawPath) == Some(q) <==>
            if t == "" then q == "" else exists d :: Decoded(unescape, t) == Some(d) && q == CleanPath(d)
  {
    hide CleanPath, NormalizeRelPath, Decoded, Escapes;
    CanonicalIsCleaned(unescape, rawPath);
    var decoded := Decoded(unescape, NormalizeRelPath(rawPath));
    if decoded.Some? {
      assert Decoded(unescape, NormalizeRelPath(rawPath)) == Some(decoded.value);
    }
  }

  /** The spoof: an encoded ".." in front of another library's path names that library. */
  lemma EncodedParentIsResolved(unescape: Unescape)
    requires unescape("lib/..%2fother/file") == Some("lib/../other/file")
    requires unescape("lib/../other/file") == Some("lib/../other/file")
    ensures CanonicalPath(unescape, "lib/..%2fother/file") == Some("other/file")
  {
    hide Contains, CleanPath, NormalizeRelPath, Decoded, Escapes;
    NormalizeFixes("lib/..%2fother/file");
    WithoutPercent("lib/../other/file");
    DecodedIff(unescape, "lib/..%2fother/file", "lib/../other/file");
    SpoofCleaned();
  }

  lemma SpoofCleaned()
    ensures CleanPath("lib/../other/file") == "other/file" && !Escapes("other/file")
  {
    hide CleanPath, Components, Escapes;
    var path, target := "lib/../other/file", "other/file";
    assert "" + "/" + "lib" + "/../" + target == "/" + path && "" + "/" + target == "/" + target;
    ParentGoesUp("", "lib", target);
    SlashesDrop("", path);
    SlashesDrop("", target);
    assert target == "other" + "/" + "file";
    ComponentsOfJoined("other", "file");
    OneElement("other");
    OneElement("file");
    CleanFixesIff(target);
    CleanedNeverEscapes(target);
  }

  lemma ContainsFirst(s: string, part: string)
    requires part != "" && Contains(s, part)
    ensures part[0] in s
  {
    var i := Occurrence(s, part);
    ElementOf(s, part, i, 0);
  }

  lemma WithoutPercent(s: string)
    requires '%' !in s && '\0' !in s
    ensures NothingEncoded(s)
  {
    hide Contains;
    if Contains(s, "%2e") {
      ContainsFirst(s, "%2e");
    }
    if Contains(s, "%2E") {
      ContainsFirst(s, "%2E");
    }
    if Contains(s, "%2f") {
      ContainsFirst(s, "%2f");
    }
    if Contains(s, "%2F") {
      ContainsFirst(s, "%2F");
    }
  }
}
