/**
 * Request paths and the roots they meet: CanonicalRelPath (internal/access/path.go) with the lexical
 * cleaning of filepath.Clean, and which accepted roots a request can ever reach.
 */
module AccessRequests {
  import opened AccessPaths
  import opened WordRuns
  import opened Wrappers

  const MAX_UNESCAPE_ROUNDS := 2

  // url.PathUnescape.
  type Unescape = string -> Option<string>

  // Decoding until nothing changes, at most `rounds` times.
  function Unescaped(unescape: Unescape, path: string, rounds: nat): Option<string>
    decreases rounds
  {
    if rounds == 0 then Some(path)
    else
      var next := unescape(path);
      if next.None? || next.value == path then next else Unescaped(unescape, next.value, rounds - 1)
  }

  predicate HasResidualEncoding(s: string) {
    || Contains(s, "%2e") || Contains(s, "%2E") || Contains(s, "%2f") || Contains(s, "%2F")
  }

  // The decoded path, unless it cannot be decoded, is still encoded or holds a null.
  function Decoded(unescape: Unescape, path: string): Option<string> {
    var decoded := Unescaped(unescape, path, MAX_UNESCAPE_ROUNDS);
    if decoded.None? || HasResidualEncoding(decoded.value) || '\0' in decoded.value then None else decoded
  }

  predicate Escapes(path: string) {
    path == ".." || HasPrefix(path, "../") || Contains(path, "/../")
  }

  // ----- Cleaning -----

  // The elements of a slash path; empty ones are no elements.
  function Components(s: string): (parts: seq<string>)
    ensures WordList(Besides('/'), parts)
  {
    Words(Besides('/'), s)
  }

  // A dot stays in place, two dots go up one level, and not above the media root.
  function Resolve(parts: seq<string>): (resolved: seq<string>)
    ensures "." !in resolved && ".." !in resolved
    ensures WordList(Besides('/'), parts) ==> WordList(Besides('/'), resolved)
  {
    if parts == [] then []
    else
      var front, last := Resolve(parts[..|parts| - 1]), parts[|parts| - 1];
      assert WordList(Besides('/'), parts) ==>
          WordList(Besides('/'), parts[..|parts| - 1]) && IsWord(Besides('/'), last);
      if last == "." then front
      else if last == ".." then if front == [] then [] else front[..|front| - 1]
      else front + [last]
  }

  // cleanMediaRelPath: filepath.Clean of the path below the media root, without the leading slash.
  function CleanPath(path: string): string {
    Join(Resolve(Components(path)), '/')
  }

  // No slash at either end, none doubled, and no "." or ".." element.
  predicate IsCleaned(path: string) {
    Tidy(path, '/') && "." !in Components(path) && ".." !in Components(path)
  }

  lemma {:induction false} NothingToResolve(parts: seq<string>)
    requires "." !in parts && ".." !in parts
    ensures Resolve(parts) == parts
  {
    if parts != [] {
      var front, last := parts[..|parts| - 1], parts[|parts| - 1];
      assert parts == front + [last];
      NothingToResolve(front);
    }
  }

  lemma CleanedParts(path: string)
    ensures Components(CleanPath(path)) == Resolve(Components(path))
    ensures IsCleaned(CleanPath(path))
  {
    hide Resolve, Join, Tidy;
    WordsOfJoin(Besides('/'), '/', Resolve(Components(path)));
    JoinIsTidy(Resolve(Components(path)), '/');
  }

  /** Cleaning gives a cleaned path, and leaves exactly the cleaned paths alone. */
  lemma CleanFixesIff(path: string)
    ensures IsCleaned(CleanPath(path))
    ensures CleanPath(path) == path <==> IsCleaned(path)
  {
    hide Resolve, Join, Tidy;
    CleanedParts(path);
    if IsCleaned(path) {
      NothingToResolve(Components(path));
      TidyIsJoined(path, '/');
    }
  }

  /** A cleaned path never leaves the media root. */
  lemma CleanedNeverEscapes(path: string)
    requires IsCleaned(path)
    ensures !Escapes(path)
  {
    hide Words, Tidy;
    TwoDots();
    if path == ".." {
      assert false;
    }
    if HasPrefix(path, "../") {
      assert path == ".." + ['/'] + path[3..];
      WordsOfSplit(Besides('/'), '/', "..", path[3..]);
      assert false;
    }
    if Contains(path, "/../") {
      var i :| 0 <= i < |path| && OccursAt(path, "/../", i);
      var before, after := path[..i], path[i + 4..];
      assert path == before + path[i..i + 4] + after && path[i..i + 4] == ['/'] + ".." + ['/'];
      assert path == before + ['/'] + ".." + ['/'] + after;
      WordsOfSplit(Besides('/'), '/', before, "..");
      WordsOfSplit(Besides('/'), '/', before + ['/'] + "..", after);
      assert false;
    }
  }

  lemma TwoDots()
    ensures Components("..") == [".."]
  {
    WordsOfConcat(Besides('/'), "", "..");
    assert "" + ".." == "..";
    NoWords(Besides('/'));
  }

  // ----- Canonical paths -----

  // CanonicalRelPath: no path, or the error, for a request that cannot be decoded.
  function CanonicalPath(unescape: Unescape, rawPath: string): Option<string> {
    var trimmed := NormalizeRelPath(rawPath);
    if trimmed == "" then Some("")
    else
      var decoded := Decoded(unescape, trimmed);
      if decoded.None? then None
      else
        var cleaned := CleanPath(decoded.value);
        if Escapes(cleaned) then None else Some(cleaned)
  }

  method UnescapePathLimited(unescape: Unescape, path: string) returns (r: Option<string>)
    ensures r == Decoded(unescape, path)
  {
    hide HasResidualEncoding;
    var current := path;
    var rounds := MAX_UNESCAPE_ROUNDS;
    while rounds > 0
      invariant rounds >= 0 && Unescaped(unescape, current, rounds) == Unescaped(unescape, path, MAX_UNESCAPE_ROUNDS)
    {
      var unescaped := unescape(current);
      if unescaped.None? {
        return None;
      }
      if unescaped.value == current {
        break;
      }
      current := unescaped.value;
      rounds := rounds - 1;
    }
    assert Unescaped(unescape, path, MAX_UNESCAPE_ROUNDS) == Some(current);
    if HasResidualEncoding(current) || '\0' in current {
      return None;
    }
    return Some(current);
  }

  method CanonicalRelPath(unescape: Unescape, rawPath: string) returns (r: Option<string>)
    ensures r == CanonicalPath(unescape, rawPath)
  {
    hide Decoded, NormalizeRelPath, CleanPath;
    var trimmed := NormalizeRelPath(rawPath);
    if trimmed == "" {
      return Some("");
    }
    var decoded := UnescapePathLimited(unescape, trimmed);
    if decoded.None? {
      return None;
    }
    var relPath := CleanPath(decoded.value);
    return if Escapes(relPath) then None else Some(relPath);
  }

  /**
   * An accepted request path is cleaned, so it has no ".." element; and a request is refused exactly
   * when it cannot be decoded: the check for paths that leave the media root never rejects.
   */
  lemma CanonicalIsCleaned(unescape: Unescape, rawPath: string)
    ensures var r := CanonicalPath(unescape, rawPath);
            && (r.Some? ==> IsCleaned(r.value))
            && (r.None? <==> NormalizeRelPath(rawPath) != "" && Decoded(unescape, NormalizeRelPath(rawPath)).None?)
  {
    hide Decoded, NormalizeRelPath, CleanPath, Escapes, IsCleaned;
    NothingIsCleaned();
    var decoded := Decoded(unescape, NormalizeRelPath(rawPath));
    if decoded.Some? {
      CleanFixesIff(decoded.value);
      CleanedNeverEscapes(CleanPath(decoded.value));
    }
  }

  lemma NothingIsCleaned()
    ensures IsCleaned("")
  {
  }

  // ----- Containment by elements -----

  predicate NoOuterSpace(path: string) {
    path != "" ==> !IsSpace(path[0]) && !IsSpace(path[|path| - 1])
  }

  // A path as requests name media: some element, cleaned, and no space at either end.
  predicate IsPlain(path: string) {
    path != "" && IsCleaned(path) && NoOuterSpace(path)
  }

  lemma PlainIsNormal(path: string)
    requires IsPlain(path)
    ensures NormalizeRelPath(path) == path
  {
    hide IsSpace, NormalizeRelPath, Words;
    if path == "." {
      OneDot();
    }
    NormalizeFixes(path);
  }

  lemma OneDot()
    ensures Components(".") == ["."]
  {
    WordsOfConcat(Besides('/'), "", ".");
    assert "" + "." == ".";
    NoWords(Besides('/'));
  }

  lemma HasComponents(path: string)
    requires path != "" && Tidy(path, '/')
    ensures Components(path) != []
  {
  }

  /** Between plain paths, containment is containment of directories: the elements of the root come first. */
  lemma ContainmentIsByComponents(path: string, root: string)
    requires IsPlain(path) && IsPlain(root)
    ensures PathWithinRoot(path, root) <==> Components(root) <= Components(path)
  {
    hide IsSpace, NormalizeRelPath, Words, Join, Tidy;
    PlainIsNormal(path);
    PlainIsNormal(root);
    TidyIsJoined(path, '/');
    TidyIsJoined(root, '/');
    HasComponents(root);
    var xs, all := Components(root), Components(path);
    if HasPrefix(path, root + "/") {
      var rest := path[|root| + 1..];
      assert path == root + ['/'] + rest;
      WordsOfSplit(Besides('/'), '/', root, rest);
    }
    if xs <= all && xs != all {
      var ys := all[|xs|..];
      assert all == xs + ys;
      JoinOfConcat(xs, ys, '/');
      assert path[..|root| + 1] == root + "/";
    }
  }

  // ----- Which roots a request can reach -----

  // A text that ends in an element ends in its last element.
  lemma {:induction false} LastComponent(s: string)
    requires EndsInWord(Besides('/'), s)
    ensures var w := Components(s)[|Components(s)| - 1];
            |w| <= |s| && s[|s| - |w|..] == w && (|w| == |s| || s[|s| - |w| - 1] == '/')
  {
    var front := s[..|s| - 1];
    if EndsInWord(Besides('/'), front) {
      LastComponent(front);
    }
  }

  lemma OnlyLastIsNew(s: string, w: string)
    requires s != "" && w in Components(s)
    ensures w in Components(s[..|s| - 1]) || (EndsInWord(Besides('/'), s) && w == Components(s)[|Components(s)| - 1])
  {
  }

  // Every element of a path starts behind a slash or at its start.
  lemma {:induction false} ComponentStart(s: string, w: string)
    requires w in Components(s)
    ensures exists i :: OccursAt(s, w, i) && (i == 0 || s[i - 1] == '/')
    decreases |s|
  {
    hide Words, Components;
    NoWordsInNothing(s);
    var front := s[..|s| - 1];
    OnlyLastIsNew(s, w);
    if w in Components(front) {
      ComponentStart(front, w);
      var i :| OccursAt(front, w, i) && (i == 0 || front[i - 1] == '/');
      assert s[i..i + |w|] == front[i..i + |w|] && OccursAt(s, w, i);
    } else {
      LastComponent(s);
      assert OccursAt(s, w, |s| - |w|);
    }
  }

  lemma NoWordsInNothing(s: string)
    ensures Components(s) != [] ==> s != ""
  {
  }

  lemma VisibleHasNoDots(s: string)
    requires !HasDotComponent(s)
    ensures forall w :: w in Components(s) && w != "" ==> w[0] != '.'
    ensures "." !in Components(s) && ".." !in Components(s)
  {
    hide Components;
    forall w | w in Components(s) && w != ""
      ensures w[0] != '.'
    {
      ComponentStart(s, w);
      var i :| OccursAt(s, w, i) && (i == 0 || s[i - 1] == '/');
      assert s[i] == s[i..i + |w|][0] == w[0];
    }
  }

  // A plain path inside a root shows that the normalised root is plain, dots aside.
  lemma ReachedRootIsTidy(path: string, root: string)
    requires IsPlain(path) && PathWithinRoot(path, root)
    ensures var r := NormalizeRelPath(root); r != "" && Tidy(r, '/') && NoOuterSpace(r)
  {
    hide IsSpace, NormalizeRelPath, Words;
    PlainIsNormal(path);
    NormalizedShape(root);
    var r := NormalizeRelPath(root);
    if path != r {
      assert path[..|r| + 1] == r + "/";
      assert forall i :: 0 <= i < |r| ==> path[i] == r[i];
      assert path[|r|] == '/';
    }
  }

  /**
   * A plain request path can lie in an accepted root exactly when the root, normalised once more, is a
   * plain path itself: no slash or space at either end and no doubled slash.
   */
  lemma RootServesIff(rawPath: string)
    ensures var r := ValidateRootPath(rawPath);
            r.Ok? ==>
              ((exists path :: IsPlain(path) && PathWithinRoot(path, r.value)) <==>
               IsPlain(NormalizeRelPath(r.value)))
  {
    hide IsSpace, NormalizeRelPath, Words, Tidy, NoOuterSpace, Contains, HasDotComponent;
    var r := ValidateRootPath(rawPath);
    if r.Ok? {
      AcceptedRootsAreVisible(rawPath);
      var n := NormalizeRelPath(r.value);
      VisibleHasNoDots(n);
      if path :| IsPlain(path) && PathWithinRoot(path, r.value) {
        ReachedRootIsTidy(path, r.value);
      }
      if IsPlain(n) {
        PlainIsNormal(n);
        assert PathWithinRoot(n, r.value);
      }
    }
  }

  /** The condition can fail: a trailing slash is accepted, and no plain path lies in that root. */
  lemma TrailingSlashServesNothing()
    ensures ValidateRootPath("movies/") == Ok("movies/")
    ensures forall path :: IsPlain(path) ==> !PathWithinRoot(path, "movies/")
  {
    hide NormalizeRelPath, IsPlain;
    NormalizeFixes("movies/");
    NotPlain();
    MoviesAccepted();
    RootServesIff("movies/");
  }

  lemma NotPlain()
    ensures !IsPlain("movies/")
  {
    assert "movies/"[6] == '/';
  }

  lemma MoviesAccepted()
    ensures ValidateRootPath("movies/") == Ok("movies/")
  {
    hide NormalizeRelPath, HasDotComponent, Contains;
    NormalizeFixes("movies/");
    WithoutDots("movies/");
  }

  lemma WithoutDots(s: string)
    requires '.' !in s
    ensures !HasDotComponent(s) && !Contains(s, "/../")
  {
    assert forall i :: OccursAt(s, "/../", i) ==> s[i + 1] == s[i..i + 4][1];
  }

  /** And it overlaps no directory below: non-overlap separates directories only between plain roots. */
  lemma TrailingSlashOverlapsNothingBelow()
    ensures !RootsOverlap("movies/", "movies/x") && Components("movies/") <= Components("movies/x")
  {
    hide NormalizeRelPath, Words;
    NormalizeFixes("movies/");
    NormalizeFixes("movies/x");
    assert "movies/x"[7] == 'x' && "movies//"[7] == '/';
    WordsOfSplit(Besides('/'), '/', "movies", "");
    WordsOfSplit(Besides('/'), '/', "movies", "x");
    assert "movies" + ['/'] + "" == "movies/" && "movies" + ['/'] + "x" == "movies/x";
    NoWords(Besides('/'));
  }

  // ----- Paths with outer spaces -----

  // What a root must look like, once normalised, for any request path at all to lie in it.
  predicate IsReachable(root: string) {
    root != "" && root[0] != '/' && NoDoubleSeparator(root, '/')
  }

  // Trimming leaves a stretch of the text.
  lemma TrimmedStretch(s: string) returns (a: int)
    ensures 0 <= a && a + |TrimSpace(s)| <= |s| && TrimSpace(s) == s[a..a + |TrimSpace(s)|]
  {
    hide IsSpace, TrimLeft, TrimRight;
    var left := TrimLeft(s);
    a := |s| - |left|;
    var right := TrimRight(left);
    assert right == left[..|right|] && left[..|right|] == s[a..][..|right|];
    assert s[a..][..|right|] == s[a..a + |right|];
  }

  lemma CleanedIsReachable(path: string)
    requires IsCleaned(path)
    ensures NormalizeRelPath(path) != "" ==> IsReachable(NormalizeRelPath(path))
  {
    hide IsSpace, TrimSpace, NormalizeRelPath, Components;
    NormalizedStart(path);
    var t := TrimSpace(path);
    var a := TrimmedStretch(path);
    assert forall i :: 0 <= i < |t| ==> t[i] == path[a + i];
    var r := NormalizeRelPath(path);
    if r != "" && t[0] == '/' {
      assert forall i :: 0 <= i < |r| ==> r[i] == t[i + 1];
    }
  }

  lemma PrefixIsReachable(path: string, root: string)
    requires IsReachable(path) && Within(path, root) && root != ""
    ensures IsReachable(root)
  {
    assert root == path[..|root|];
  }

  // A text between spaces trims to that text.
  lemma TrimBetween(lead: string, core: string, tail: string)
    requires core != "" && NoOuterSpace(core)
    requires (forall c :: c in lead ==> IsSpace(c)) && forall c :: c in tail ==> IsSpace(c)
    ensures TrimSpace(lead + core + tail) == core
  {
    hide IsSpace;
    var s := lead + core + tail;
    SkipIs(s, 0, |lead|);
    var left := TrimLeft(s);
    assert left == core + tail;
    DropIs(left, |left|, |core|);
  }

  lemma {:induction false} SkipIs(s: string, i: nat, n: nat)
    requires i <= n < |s| && !IsSpace(s[n]) && forall k :: i <= k < n ==> IsSpace(s[k])
    ensures SkipSpaces(s, i) == n
    decreases n - i
  {
    hide IsSpace;
    if i < n {
      SkipIs(s, i + 1, n);
    }
  }

  lemma {:induction false} DropIs(s: string, n: nat, end: nat)
    requires 0 < end <= n <= |s| && !IsSpace(s[end - 1]) && forall k :: end <= k < n ==> IsSpace(s[k])
    ensures DropSpaces(s, n) == end
    decreases n
  {
    hide IsSpace;
    if end < n {
      DropIs(s, n - 1, end);
    }
  }

  // A request path that normalises to a given reachable root: spaces shield an outer space or slash.
  function Shielded(root: string): string
    requires root != ""
  {
    (if IsSpace(root[0]) then " /" else "") + root + (if root[|root| - 1] == '/' then " " else "")
  }

  lemma SinglesMeet(a: string, b: string, sep: char)
    requires NoDoubleSeparator(a, sep) && NoDoubleSeparator(b, sep)
    requires a == "" || b == "" || a[|a| - 1] != sep || b[0] != sep
    ensures NoDoubleSeparator(a + b, sep)
  {
  }

  lemma ShieldedIsTidy(root: string)
    requires IsReachable(root)
    ensures Tidy(Shielded(root), '/')
  {
    hide IsSpace, NoDoubleSeparator;
    var lead := if IsSpace(root[0]) then " /" else "";
    var tail := if root[|root| - 1] == '/' then " " else "";
    ShieldsAreSingle();
    SinglesMeet(lead, root, '/');
    SinglesMeet(lead + root, tail, '/');
    assert (lead + root)[|lead + root| - 1] == root[|root| - 1];
  }

  lemma ShieldsAreSingle()
    ensures NoDoubleSeparator("", '/') && NoDoubleSeparator(" ", '/') && NoDoubleSeparator(" /", '/')
  {
  }

  lemma ShieldedIsCleaned(root: string)
    requires IsReachable(root) && "." !in Components(root) && ".." !in Components(root)
    ensures IsCleaned(Shielded(root))
  {
    hide Words, IsSpace, Tidy;
    ShieldedIsTidy(root);
    var head := (if IsSpace(root[0]) then " /" else "") + root;
    SpaceWord();
    if IsSpace(root[0]) {
      assert head == " " + ['/'] + root;
      WordsOfSplit(Besides('/'), '/', " ", root);
    } else {
      assert head == root;
    }
    if root[|root| - 1] == '/' {
      SpaceBehindSlash(head);
      assert Shielded(root) == head + " ";
    } else {
      assert Shielded(root) == head;
    }
  }

  lemma SpaceBehindSlash(head: string)
    requires head != "" && head[|head| - 1] == '/'
    ensures Components(head + " ") == Components(head) + [" "]
  {
    hide Words;
    var body := head[..|head| - 1];
    assert head == body + ['/'] + "" && head + " " == body + ['/'] + " ";
    WordsOfSplit(Besides('/'), '/', body, "");
    WordsOfSplit(Besides('/'), '/', body, " ");
    NoWords(Besides('/'));
    SpaceWord();
    assert Components(body) + [] == Components(body);
  }

  lemma SpaceWord()
    ensures Components(" ") == [" "]
  {
    WordsOfConcat(Besides('/'), "", " ");
    assert "" + " " == " ";
    NoWords(Besides('/'));
  }

  lemma ShieldedNormalizes(root: string)
    requires IsReachable(root) && !IsSpace(root[|root| - 1]) && root != "."
    ensures NormalizeRelPath(Shielded(root)) == root
  {
    hide IsSpace, TrimSpace;
    SpaceIsSpace();
    NoSpaces();
    var lead, core := if IsSpace(root[0]) then " " else "", if IsSpace(root[0]) then "/" + root else root;
    var tail := if root[|root| - 1] == '/' then " " else "";
    assert Shielded(root) == lead + core + tail;
    TrimBetween(lead, core, tail);
    if IsSpace(root[0]) {
      assert core[1..] == root;
    }
  }

  lemma SpaceIsSpace()
    ensures IsSpace(' ')
  {
  }

  /**
   * Some request path lies in an accepted root exactly when the root, normalised once more, is not
   * empty, has no leading slash and no doubled slash.
   */
  lemma RootReachedIff(rawPath: string)
    ensures var r := ValidateRootPath(rawPath);
            r.Ok? ==>
              ((exists path :: IsCleaned(path) && PathWithinRoot(path, r.value)) <==>
               IsReachable(NormalizeRelPath(r.value)))
  {
    hide IsSpace, NormalizeRelPath, Components, IsCleaned, IsReachable, Shielded, Contains, HasDotComponent;
    var r := ValidateRootPath(rawPath);
    if r.Ok? {
      AcceptedRootsAreVisible(rawPath);
      var n := NormalizeRelPath(r.value);
      NormalizedShape(r.value);
      VisibleHasNoDots(n);
      if path :| IsCleaned(path) && PathWithinRoot(path, r.value) {
        CleanedIsReachable(path);
        PrefixIsReachable(NormalizeRelPath(path), n);
      }
      if n != "" && IsReachable(n) {
        ShieldedIsCleaned(n);
        ShieldedNormalizes(n);
        assert PathWithinRoot(Shielded(n), r.value);
      }
      ReachableIsText(n);
    }
  }

  lemma ReachableIsText(root: string)
    ensures IsReachable(root) ==> root != ""
  {
  }

  /** Whatever is requested, the canonical path never lies in a root that is not reachable. */
  lemma UnreachableNeverMatched(unescape: Unescape, rawPath: string, root: string)
    ensures var r := CanonicalPath(unescape, rawPath);
            r.Some? && PathWithinRoot(r.value, root) ==> IsReachable(NormalizeRelPath(root))
  {
    hide CanonicalPath, NormalizeRelPath, IsCleaned, IsReachable;
    CanonicalIsCleaned(unescape, rawPath);
    var r := CanonicalPath(unescape, rawPath);
    if r.Some? && PathWithinRoot(r.value, root) {
      CleanedIsReachable(r.value);
      PrefixIsReachable(NormalizeRelPath(r.value), NormalizeRelPath(root));
    }
  }
}
