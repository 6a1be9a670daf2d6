/**
 * Media-relative paths and root containment (internal/access/path.go, validateRootPath in
 * internal/access/service.go). Paths are strings of Unicode code points.
 */
module AccessPaths {
  import opened Wrappers

  datatype AccessError =
    | InvalidLibraryRoot | LibraryNotFound | LibraryRootConflict | LibraryRootNotFound

  // unicode.IsSpace
  predicate IsSpace(c: char) {
    var n := c as int;
    || 0x09 <= n <= 0x0d || n == 0x20 || n == 0x85 || n == 0xa0 || n == 0x1680 || 0x2000 <= n <= 0x200a
    || n == 0x2028 || n == 0x2029 || n == 0x202f || n == 0x205f || n == 0x3000
  }

  // The first position from `i` on that holds no space.
  function SkipSpaces(s: string, i: nat): (n: nat)
    requires i <= |s|
    ensures i <= n <= |s| && (n < |s| ==> !IsSpace(s[n]))
    ensures forall k :: i <= k < n ==> IsSpace(s[k])
    decreases |s| - i
  {
    if i < |s| && IsSpace(s[i]) then SkipSpaces(s, i + 1) else i
  }

  // The end of the text before `n` without its last spaces.
  function DropSpaces(s: string, n: nat): (end: nat)
    requires n <= |s|
    ensures end <= n && (end > 0 ==> !IsSpace(s[end - 1]))
    ensures n > 0 && !IsSpace(s[n - 1]) ==> end == n
  {
    if n > 0 && IsSpace(s[n - 1]) then DropSpaces(s, n - 1) else n
  }

  function TrimLeft(s: string): (r: string)
    ensures |r| <= |s| && r == s[|s| - |r|..] && forall i :: 0 <= i < |s| - |r| ==> IsSpace(s[i])
    ensures r != "" ==> !IsSpace(r[0])
    ensures s != "" && !IsSpace(s[0]) ==> r == s
  {
    s[SkipSpaces(s, 0)..]
  }

  function TrimRight(s: string): (r: string)
    ensures |r| <= |s| && r == s[..|r|]
    ensures r != "" ==> !IsSpace(r[|r| - 1])
    ensures s != "" && !IsSpace(s[|s| - 1]) ==> r == s
  {
    s[..DropSpaces(s, |s|)]
  }

  function TrimSpace(s: string): string {
    TrimRight(TrimLeft(s))
  }

  function NormalizeRelPath(rawPath: string): string {
    var trimmed := TrimSpace(rawPath);
    var cleaned := if trimmed != "" && trimmed[0] == '/' then trimmed[1..] else trimmed;
    if cleaned == "" || cleaned == "." then "" else cleaned
  }

  predicate HasPrefix(s: string, prefix: string) {
    |prefix| <= |s| && s[..|prefix|] == prefix
  }

  predicate PathWithinRoot(relPath: string, root: string) {
    var p, r := NormalizeRelPath(relPath), NormalizeRelPath(root);
    p != "" && r != "" && (p == r || HasPrefix(p, r + "/"))
  }

  predicate RootsOverlap(left: string, right: string) {
    PathWithinRoot(left, right) || PathWithinRoot(right, left)
  }

  predicate OccursAt(s: string, part: string, i: int) {
    0 <= i <= |s| - |part| && s[i..i + |part|] == part
  }

  predicate Contains(s: string, part: string) {
    exists i :: 0 <= i < |s| && OccursAt(s, part, i)
  }

  // Some component of the slash path starts with a dot.
  predicate HasDotComponent(s: string) {
    exists i :: 0 <= i < |s| && s[i] == '.' && (i == 0 || s[i - 1] == '/')
  }

  predicate IsHiddenRelPath(relPath: string) {
    HasDotComponent(NormalizeRelPath(relPath))
  }

  predicate IsTrashRelPath(relPath: string) {
    var p := NormalizeRelPath(relPath);
    p == ".trash" || HasPrefix(p, ".trash/")
  }

  function ValidateRootPath(relPath: string): Result<string, AccessError> {
    var cleaned := NormalizeRelPath(relPath);
    if cleaned == "" || cleaned == ".." || Contains(cleaned, "/../") then Err(InvalidLibraryRoot)
    else if IsHiddenRelPath(cleaned) || IsTrashRelPath(cleaned) then Err(InvalidLibraryRoot)
    else Ok(cleaned)
  }

  // The length of a string in UTF-8.
  function ByteLength(s: string): (n: nat)
    ensures n >= |s|
  {
    if s == "" then 0
    else
      var c := s[|s| - 1] as int;
      ByteLength(s[..|s| - 1]) + (if c < 0x80 then 1 else if c < 0x800 then 2 else if c < 0x1_0000 then 3 else 4)
  }

  // ----- Normalisation -----

  lemma TrimSpaceShape(s: string)
    ensures var r := TrimSpace(s); r != "" ==> !IsSpace(r[0]) && !IsSpace(r[|r| - 1])
  {
  }

  predicate Spaces(s: string) {
    forall i :: 0 <= i < |s| ==> IsSpace(s[i])
  }

  lemma {:induction false} DroppedAreSpaces(s: string, n: nat)
    requires n <= |s|
    ensures Spaces(s[DropSpaces(s, n)..n])
  {
    hide IsSpace;
    if n > 0 && IsSpace(s[n - 1]) {
      DroppedAreSpaces(s, n - 1);
      assert s[DropSpaces(s, n)..n] == s[DropSpaces(s, n)..n - 1] + [s[n - 1]];
    }
  }

  lemma TrimRightIsRest(s: string) returns (after: string)
    ensures s == TrimRight(s) + after && Spaces(after)
  {
    hide IsSpace, Spaces;
    DroppedAreSpaces(s, |s|);
    after := s[DropSpaces(s, |s|)..|s|];
  }

  lemma TrimLeftIsRest(s: string) returns (before: string)
    ensures s == before + TrimLeft(s) && Spaces(before)
  {
    hide IsSpace;
    before := s[..SkipSpaces(s, 0)];
  }

  // A text with these spaces around it.
  ghost predicate IsSpacedOut(s: string, middle: string) {
    exists before, after :: Spaces(before) && Spaces(after) && s == before + middle + after
  }

  lemma SpacedOut(before: string, middle: string, after: string)
    requires Spaces(before) && Spaces(after)
    ensures IsSpacedOut(before + (middle + after), middle)
  {
    hide Spaces;
    assert before + (middle + after) == before + middle + after;
  }

  /** A trimmed text is the text without its outer spaces. */
  lemma TrimSpaceIsMiddle(s: string)
    ensures IsSpacedOut(s, TrimSpace(s))
    ensures var r := TrimSpace(s); r != "" ==> !IsSpace(r[0]) && !IsSpace(r[|r| - 1])
  {
    hide IsSpacedOut, Spaces, TrimLeft, TrimRight, IsSpace;
    TrimSpaceShape(s);
    var before := TrimLeftIsRest(s);
    var after := TrimRightIsRest(TrimLeft(s));
    SpacedOut(before, TrimSpace(s), after);
  }

  /** A path is normalised by dropping its outer spaces and then one leading slash; "." stands for the empty path. */
  lemma NormalizedByCases(rawPath: string)
    ensures var t, r := TrimSpace(rawPath), NormalizeRelPath(rawPath);
            && (r == "" <==> t == "" || t == "/" || t == "." || t == "/.")
            && (r != "" ==> t == (if t[0] == '/' then "/" + r else r))
  {
    hide TrimSpace;
    var t := TrimSpace(rawPath);
    if t != "" && t[0] == '/' {
      assert t == "/" + t[1..];
    }
  }

  lemma TrimSpaceFixes(s: string)
    requires s != "" && !IsSpace(s[0]) && !IsSpace(s[|s| - 1])
    ensures TrimSpace(s) == s
  {
  }

  lemma TrimSpaceShortens(s: string)
    ensures |TrimSpace(s)| <= |s|
    ensures |TrimSpace(s)| == |s| ==> TrimSpace(s) == s
    ensures s != "" && IsSpace(s[0]) ==> |TrimSpace(s)| < |s|
  {
  }

  lemma TrimSpaceTwice(s: string)
    ensures TrimSpace(TrimSpace(s)) == TrimSpace(s)
  {
  }

  // What a non-empty normalised path looks like.
  lemma NormalizedShape(rawPath: string)
    ensures var r := NormalizeRelPath(rawPath); r != "" ==> !IsSpace(r[|r| - 1]) && r != "."
  {
    hide IsSpace, TrimSpace;
    TrimSpaceShape(rawPath);
  }

  lemma NormalizeFixes(s: string)
    requires s != "" && !IsSpace(s[0]) && !IsSpace(s[|s| - 1])
    ensures s[0] != '/' && s != "." ==> NormalizeRelPath(s) == s
    ensures s[0] == '/' && |s| > 1 && s != "/." ==> NormalizeRelPath(s) == s[1..]
  {
  }

  lemma NormalizeShortens(s: string)
    requires s != "" && (s[0] == '/' || IsSpace(s[0]))
    ensures |NormalizeRelPath(s)| < |s|
  {
    hide IsSpace, TrimSpace;
    TrimSpaceShortens(s);
  }

  // The path behind the leading slash starts with a slash or a space again.
  predicate HidesEdge(trimmed: string) {
    |trimmed| > 1 && trimmed[0] == '/' && (trimmed[1] == '/' || IsSpace(trimmed[1]))
  }

  /** A second pass changes nothing exactly when the trimmed path has no slash or space right behind a leading slash. */
  lemma NormalizeIdempotentIff(rawPath: string)
    ensures var r := NormalizeRelPath(rawPath); NormalizeRelPath(r) == r <==> !HidesEdge(TrimSpace(rawPath))
  {
    hide IsSpace, NormalizeRelPath, TrimSpace;
    var r, t := NormalizeRelPath(rawPath), TrimSpace(rawPath);
    NormalizedShape(rawPath);
    NormalizedStart(rawPath);
    if r == "" {
      EmptyNormalizes();
    } else if r[0] == '/' || IsSpace(r[0]) {
      NormalizeShortens(r);
    } else {
      NormalizeFixes(r);
    }
  }

  // Where a normalised path starts.
  lemma NormalizedStart(rawPath: string)
    ensures var r, t := NormalizeRelPath(rawPath), TrimSpace(rawPath);
            && (r == "" <==> t == "" || t == "/" || t == "/." || t == ".")
            && (r != "" ==> r == if t[0] == '/' then t[1..] else t)
            && (r != "" && (r[0] == '/' || IsSpace(r[0])) <==> HidesEdge(t))
  {
    hide IsSpace, TrimSpace;
    TrimSpaceShape(rawPath);
    var t := TrimSpace(rawPath);
    if t != "" && t[0] == '/' {
      assert t == "/" + t[1..];
    }
    NoSpaces();
  }

  lemma NoSpaces()
    ensures !IsSpace('.') && !IsSpace('/')
  {
  }

  lemma EmptyNormalizes()
    ensures NormalizeRelPath("") == ""
  {
    hide TrimSpace, IsSpace;
    TrimSpaceShortens("");
  }

  /** The condition is not vacuous: a slash followed by a space survives one pass but not two. */
  lemma NormalizeNotIdempotent()
    ensures NormalizeRelPath("/ a") == " a" && NormalizeRelPath(" a") != " a"
  {
    hide NormalizeRelPath;
    NormalizeFixes("/ a");
    NormalizeShortens(" a");
    assert "/ a"[1..] == " a";
  }

  /** Every non-empty normalised path has a spelling that normalises to it: itself behind a slash. */
  lemma NormalizedHasSpelling(rawPath: string)
    ensures var r := NormalizeRelPath(rawPath); r != "" ==> NormalizeRelPath("/" + r) == r
  {
    hide NormalizeRelPath;
    var r := NormalizeRelPath(rawPath);
    NormalizedShape(rawPath);
    if r != "" {
      var spelled := "/" + r;
      assert spelled[|spelled| - 1] == r[|r| - 1] && spelled[1..] == r;
      assert spelled != "/.";
      NormalizeFixes(spelled);
    }
  }

  /** The hidden check covers the trash check, and an accepted root has no dot component once normalised again. */
  lemma AcceptedRootsAreVisible(rawPath: string)
    ensures IsTrashRelPath(rawPath) ==> IsHiddenRelPath(rawPath)
    ensures var r := ValidateRootPath(rawPath);
            r.Ok? ==> r.value == NormalizeRelPath(rawPath) != "" && !HasDotComponent(NormalizeRelPath(r.value))
  {
    hide NormalizeRelPath, Contains;
    TrashIsHidden(rawPath);
  }

  // A dot behind a slash of a normalised path starts a component of the path normalised once more.
  lemma DotSurvives(v: string, i: int)
    requires v != "" && !IsSpace(v[|v| - 1]) && 0 <= i && i + 2 < |v| && v[i] == '/' && v[i + 1] == '.' == v[i + 2]
    ensures HasDotComponent(NormalizeRelPath(v))
  {
    hide IsSpace, TrimSpace, NormalizeRelPath;
    NoSpaces();
    var k := TrimmedTail(v);
    var w := TrimSpace(v);
    NormalizedStart(v);
    assert k <= i && w[i - k] == '/' && w[i - k + 1] == '.' == w[i - k + 2];
    var r := NormalizeRelPath(v);
    if w[0] == '/' {
      assert r == w[1..] && r[i - k] == '.' && (i > k ==> r[i - k - 1] == '/');
    } else {
      assert r == w;
    }
  }

  /**
   * A root is accepted exactly when it is not empty and, normalised once more, has no component that starts
   * with a dot: the checks for "..", "/../" and the trash directory reject nothing else.
   */
  lemma AcceptedRootIff(rawPath: string)
    ensures ValidateRootPath(rawPath).Ok? <==>
            NormalizeRelPath(rawPath) != "" && !HasDotComponent(NormalizeRelPath(NormalizeRelPath(rawPath)))
  {
    hide IsSpace, NormalizeRelPath, HasDotComponent;
    var n := NormalizeRelPath(rawPath);
    NormalizedShape(rawPath);
    if n == ".." {
      NormalizeFixes("..");
      TwoDotsAreHidden();
    }
    if i :| 0 <= i < |n| && OccursAt(n, "/../", i) {
      assert n[i..i + 4][0] == n[i] && n[i..i + 4][1] == n[i + 1] && n[i..i + 4][2] == n[i + 2];
      DotSurvives(n, i);
    }
    TrashIsHidden(n);
  }

  lemma TwoDotsAreHidden()
    ensures HasDotComponent("..") && NormalizeRelPath("..") == ".."
  {
    NoSpaces();
    NormalizeFixes("..");
    assert ".."[0] == '.';
  }

  lemma TrashIsHidden(path: string)
    ensures IsTrashRelPath(path) ==> IsHiddenRelPath(path)
  {
    hide NormalizeRelPath;
    var p := NormalizeRelPath(path);
    if IsTrashRelPath(path) {
      assert p[0] == (if p == ".trash" then ".trash" else p[..7])[0];
    }
  }

  // The text behind the leading slash of a spelling, trimmed once more; empty when there is no slash.
  function BehindSlash(rawPath: string): string {
    var t := TrimSpace(rawPath);
    if t != "" && t[0] == '/' then TrimSpace(t[1..]) else ""
  }

  // Trimming a text that does not end in a space only takes leading spaces off.
  lemma TrimmedTail(v: string) returns (k: int)
    requires v != "" && !IsSpace(v[|v| - 1])
    ensures 0 <= k < |v| && TrimSpace(v) == v[k..] && !IsSpace(v[k]) && forall i :: 0 <= i < k ==> IsSpace(v[i])
  {
    hide IsSpace, TrimLeft, TrimRight;
    var left := TrimLeft(v);
    k := |v| - |left|;
    assert left != "";
    assert left[|left| - 1] == v[|v| - 1];
  }

  // In a normalised path whose second normalisation has no dot component, a dot component is all there is.
  lemma DotComponentIff(v: string)
    requires v != "" && !IsSpace(v[|v| - 1]) && v != "." && !HasDotComponent(NormalizeRelPath(v))
    ensures HasDotComponent(v) <==> TrimSpace(v) == "/."
  {
    hide IsSpace, TrimSpace, NormalizeRelPath;
    var k := TrimmedTail(v);
    var w := TrimSpace(v);
    NormalizedStart(v);
    NoSpaces();
    if w == "/." {
      assert v[k] == w[0] && v[k + 1] == w[1];
    }
  }

  /**
   * An accepted root has a dot component exactly when its spelling is a lone dot behind two slashes,
   * spaces aside: the hidden check looks at the root normalised a second time, which is empty.
   */
  lemma AcceptedRootHasDotIff(rawPath: string)
    ensures var r := ValidateRootPath(rawPath);
            r.Ok? ==> (HasDotComponent(r.value) <==> BehindSlash(rawPath) == "/.")
  {
    hide IsSpace, TrimSpace, NormalizeRelPath, HasDotComponent, Contains;
    if ValidateRootPath(rawPath).Ok? {
      NormalizedShape(rawPath);
      NormalizedStart(rawPath);
      AcceptedRootsAreVisible(rawPath);
      var v := NormalizeRelPath(rawPath);
      DotComponentIff(v);
      TrimSpaceTwice(rawPath);
      assert TrimSpace(v) == "/." <==> BehindSlash(rawPath) == "/.";
    }
  }

  /** The condition is met: two slashes and a dot are accepted as the root "/.". */
  lemma DotRootAccepted()
    ensures ValidateRootPath("//.") == Ok("/.") && HasDotComponent("/.")
  {
    hide NormalizeRelPath;
    NoSpaces();
    NormalizeFixes("//.");
    assert "//."[1..] == "/.";
    DotNormalizes();
    assert "/."[1] == '.' && "/."[0] == '/';
  }

  lemma DotNormalizes()
    ensures NormalizeRelPath("/.") == ""
  {
    hide TrimSpace;
    NoSpaces();
    TrimSpaceFixes("/.");
    assert "/."[1..] == ".";
  }

  // ----- Containment -----

  /** Two roots that contain one path overlap. */
  lemma ContainersOverlap(path: string, a: string, b: string)
    ensures PathWithinRoot(path, a) && PathWithinRoot(path, b) ==> RootsOverlap(a, b)
  {
    hide NormalizeRelPath;
    var p, x, y := NormalizeRelPath(path), NormalizeRelPath(a), NormalizeRelPath(b);
    if Within(p, x) && Within(p, y) {
      PrefixesNest(p, x, y);
      PrefixesNest(p, y, x);
    }
  }

  predicate Within(p: string, r: string) {
    p == r || HasPrefix(p, r + "/")
  }

  lemma PrefixesNest(p: string, x: string, y: string)
    requires Within(p, x) && Within(p, y)
    ensures |x| <= |y| ==> Within(y, x)
  {
    if |x| <= |y| {
      assert x == p[..|x|] && y == p[..|y|];
      if |x| < |y| {
        assert p[|x|] == (x + "/")[|x|] == '/';
        assert y[..|x| + 1] == x + "/";
      }
    }
  }

  /** Containment is transitive. */
  lemma WithinTransitive(a: string, b: string, c: string)
    ensures PathWithinRoot(a, b) && PathWithinRoot(b, c) ==> PathWithinRoot(a, c)
  {
    hide NormalizeRelPath;
    var p, q, r := NormalizeRelPath(a), NormalizeRelPath(b), NormalizeRelPath(c);
    if PathWithinRoot(a, b) && PathWithinRoot(b, c) && p != q && q != r {
      assert p[..|r| + 1] == p[..|q| + 1][..|r| + 1] == (q + "/")[..|r| + 1] == q[..|r| + 1];
    }
  }

  /** Two roots that are not empty overlap exactly when some path lies in both. */
  lemma OverlapIffShared(a: string, b: string)
    ensures NormalizeRelPath(a) != "" && NormalizeRelPath(b) != "" ==>
              (RootsOverlap(a, b) <==> exists path :: PathWithinRoot(path, a) && PathWithinRoot(path, b))
  {
    hide NormalizeRelPath;
    if path :| PathWithinRoot(path, a) && PathWithinRoot(path, b) {
      ContainersOverlap(path, a, b);
    }
    if NormalizeRelPath(a) != "" && NormalizeRelPath(b) != "" {
      assert PathWithinRoot(a, a) && PathWithinRoot(b, b);
    }
  }

  /** The length in bytes adds up, one to four bytes a character by the UTF-8 ranges. */
  lemma {:induction false} ByteLengthAddsUp(s: string, t: string)
    ensures ByteLength(s + t) == ByteLength(s) + ByteLength(t)
    ensures |t| == 1 ==> (ByteLength(t) == 1 <==> t[0] as int <= 0x7f) && (ByteLength(t) <= 2 <==> t[0] as int <= 0x7ff)
                         && (ByteLength(t) <= 3 <==> t[0] as int <= 0xffff) && 1 <= ByteLength(t) <= 4
    decreases |t|
  {
    if t == "" {
      assert s + t == s;
    } else {
      var front, last := t[..|t| - 1], t[|t| - 1];
      assert (s + t)[..|s + t| - 1] == s + front;
      ByteLengthAddsUp(s, front);
    }
  }
}
