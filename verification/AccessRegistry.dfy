/**
 * The library root registry: what AddRoot, RemoveRoot, DeleteLibrary and PruneMissingRoots do to
 * the registered roots (internal/access/service.go over internal/access/postgres/store.go).
 */
module AccessRegistry {
  import opened Wrappers
  import opened AccessPaths
  import opened AccessRequests

  // Library id to its registered roots.
  type Libs = map<string, set<string>>

  predicate Registered(libs: Libs, id: string, root: string) {
    id in libs && root in libs[id]
  }

  /** Every two registered roots are different and neither contains the other, within and across libraries. */
  ghost predicate NonOverlapping(libs: Libs) {
    forall a, r, b, q :: Registered(libs, a, r) && Registered(libs, b, q) && (a != b || r != q) ==>
      r != q && !RootsOverlap(r, q)
  }

  // ----- Store transactions -----

  function Subsume(roots: set<string>, root: string): set<string> {
    set existing | existing in roots && !PathWithinRoot(existing, root)
  }

  predicate OwnedElsewhere(libs: Libs, id: string, root: string) {
    exists other :: other in libs && other != id && root in libs[other]
  }

  predicate ContainedIn(roots: set<string>, root: string) {
    exists existing :: existing in roots && PathWithinRoot(root, existing)
  }

  predicate OverlapsOther(libs: Libs, id: string, root: string) {
    exists other, existing :: other in libs && other != id && existing in libs[other] && RootsOverlap(existing, root)
  }

  // Take `root` away from every library but `id`, dropping a library that loses its only root.
  function TakeRoot(libs: Libs, id: string, root: string): Libs {
    map other | other in libs && (other == id || libs[other] != {root}) ::
      if other == id then libs[other] else libs[other] - {root}
  }

  function StoreAdd(libs: Libs, id: string, root: string): (Libs, Option<AccessError>) {
    if id !in libs then (libs, Some(LibraryNotFound))
    else if root in libs[id] then (libs, None)
    else if ContainedIn(libs[id], root) then (libs, Some(LibraryRootConflict))
    else if !OwnedElsewhere(libs, id, root) && OverlapsOther(libs, id, root) then (libs, Some(LibraryRootConflict))
    else (TakeRoot(libs, id, root)[id := Subsume(libs[id], root) + {root}], None)
  }

  // Removing the last root deletes the library, which the store reports as "library not found".
  function StoreRemove(libs: Libs, id: string, root: string): (Libs, Option<AccessError>) {
    if !Registered(libs, id, root) then (libs, Some(LibraryRootNotFound))
    else if libs[id] == {root} then (libs - {id}, Some(LibraryNotFound))
    else (libs[id := libs[id] - {root}], None)
  }

  // ----- Service operations -----

  function AddRoot(libs: Libs, id: string, relPath: string): (Libs, Option<AccessError>) {
    var cleaned := ValidateRootPath(relPath);
    if cleaned.Err? then (libs, Some(cleaned.error))
    else if id !in libs then (libs, Some(LibraryNotFound))
    else
      var root := cleaned.value;
      if root in libs[id] then (libs, None)
      else if OwnedElsewhere(libs, id, root) then (TakeRoot(libs, id, root)[id := libs[id] + {root}], None)
      else if OverlapsAny(libs, root) then (libs, Some(LibraryRootConflict))
      else (libs[id := libs[id] + {root}], None)
  }

  predicate OverlapsAny(libs: Libs, root: string) {
    exists id, existing :: id in libs && existing in libs[id] && RootsOverlap(existing, root)
  }

  function RemoveRoot(libs: Libs, id: string, relPath: string): (Libs, Option<AccessError>) {
    var cleaned := NormalizeRelPath(relPath);
    if cleaned == "" then (libs, Some(InvalidLibraryRoot)) else StoreRemove(libs, id, cleaned)
  }

  function DeleteLibrary(libs: Libs, id: string): (Libs, Option<AccessError>) {
    if id in libs then (libs - {id}, None) else (libs, Some(LibraryNotFound))
  }

  // Roots whose directory is gone are dropped; a library left without roots by that is deleted,
  // one that never had any is kept.
  function Prune(libs: Libs, isDir: string -> bool): Libs {
    map id | id in libs && (libs[id] == {} || Present(libs[id], isDir) != {}) :: Present(libs[id], isDir)
  }

  // Every registered root whose directory is gone.
  function MissingRoots(libs: Libs, isDir: string -> bool): set<string> {
    set id, root | id in libs && root in libs[id] && !isDir(root) :: root
  }

  function Present(roots: set<string>, isDir: string -> bool): set<string> {
    set root | root in roots && isDir(root)
  }

  // ----- The invariant over every sequence of operations -----

  /** StoreCommits is the transaction of an AddRoot whose checks ran against an earlier state. */
  datatype Op =
    | Create(id: string)
    | Add(id: string, relPath: string)
    | StoreCommits(id: string, relPath: string)
    | Remove(id: string, relPath: string)
    | Delete(id: string)
    | PruneMissing(isDir: string -> bool)

  function ApplyOp(libs: Libs, op: Op): Libs {
    match op
    case Create(id) => if id in libs then libs else libs[id := {}]
    case Add(id, relPath) => AddRoot(libs, id, relPath).0
    case StoreCommits(id, relPath) =>
      var cleaned := ValidateRootPath(relPath);
      if cleaned.Err? then libs else StoreAdd(libs, id, cleaned.value).0
    case Remove(id, relPath) => RemoveRoot(libs, id, relPath).0
    case Delete(id) => DeleteLibrary(libs, id).0
    case PruneMissing(isDir) => Prune(libs, isDir)
  }

  function ApplyAll(libs: Libs, ops: seq<Op>): Libs
    decreases |ops|
  {
    if ops == [] then libs else ApplyAll(ApplyOp(libs, ops[0]), ops[1..])
  }

  predicate SubRegistry(small: Libs, large: Libs) {
    forall id :: id in small ==> id in large && small[id] <= large[id]
  }

  lemma SubRegistryNonOverlapping(small: Libs, large: Libs)
    requires NonOverlapping(large) && SubRegistry(small, large)
    ensures NonOverlapping(small)
  {
    hide RootsOverlap;
    forall a, r, b, q | Registered(small, a, r) && Registered(small, b, q) && (a != b || r != q)
      ensures r != q && !RootsOverlap(r, q)
    {
      assert Registered(large, a, r) && Registered(large, b, q);
    }
  }

  // Adding one root keeps the invariant if it is new and overlaps nothing that is there.
  lemma AddingNonOverlapping(libs: Libs, id: string, root: string)
    requires NonOverlapping(libs) && id in libs
    requires forall a, r :: Registered(libs, a, r) ==> r != root && !RootsOverlap(r, root)
    ensures NonOverlapping(libs[id := libs[id] + {root}])
  {
    hide PathWithinRoot;
    var added := libs[id := libs[id] + {root}];
    forall a, r, b, q | Registered(added, a, r) && Registered(added, b, q) && (a != b || r != q)
      ensures r != q && !RootsOverlap(r, q)
    {
      if !(a == id && r == root) {
        assert Registered(libs, a, r);
      }
      if !(b == id && q == root) {
        assert Registered(libs, b, q);
      }
    }
  }

  /** The store's AddRoot transaction alone keeps roots non-overlapping, whatever the caller checked before. */
  lemma StoreAddKeepsNonOverlapping(libs: Libs, id: string, root: string)
    requires NonOverlapping(libs)
    ensures NonOverlapping(StoreAdd(libs, id, root).0)
  {
    hide PathWithinRoot;
    var (after, err) := StoreAdd(libs, id, root);
    if err.None? && root !in libs[id] {
      var small := TakeRoot(libs, id, root)[id := Subsume(libs[id], root)];
      assert SubRegistry(small, libs);
      SubRegistryNonOverlapping(small, libs);
      forall a, r | Registered(small, a, r)
        ensures r != root && !RootsOverlap(r, root)
      {
        assert Registered(libs, a, r);
        if a != id && OwnedElsewhere(libs, id, root) {
          var owner :| owner in libs && owner != id && root in libs[owner];
          assert Registered(libs, owner, root);
        }
      }
      AddingNonOverlapping(small, id, root);
      assert small[id := small[id] + {root}] == after;
    }
  }

  /** In a non-overlapping registry the service's AddRoot is its store transaction, guarded by the overlap check. */
  lemma AddRootIsStoreAdd(libs: Libs, id: string, relPath: string)
    requires NonOverlapping(libs)
    ensures var (after, err) := AddRoot(libs, id, relPath);
            var cleaned := ValidateRootPath(relPath);
            err.None? ==> cleaned.Ok? && (after, err) == StoreAdd(libs, id, cleaned.value)
  {
    hide PathWithinRoot, ValidateRootPath;
    var (after, err) := AddRoot(libs, id, relPath);
    if err.None? && ValidateRootPath(relPath).value !in libs[id] {
      var root := ValidateRootPath(relPath).value;
      forall existing | existing in libs[id]
        ensures !RootsOverlap(existing, root)
      {
        assert Registered(libs, id, existing);
        if OwnedElsewhere(libs, id, root) {
          var owner :| owner in libs && owner != id && root in libs[owner];
          assert Registered(libs, owner, root);
        }
      }
      assert Subsume(libs[id], root) == libs[id];
      if !OwnedElsewhere(libs, id, root) {
        assert forall other :: other in libs && other != id ==> root !in libs[other];
        assert forall other :: other in libs && other != id ==> libs[other] - {root} == libs[other];
        assert TakeRoot(libs, id, root) == libs;
      }
    }
  }

  /** AddRoot succeeds exactly on a valid root, for an existing library, that is registered or overlaps nothing. */
  lemma AddRootSucceedsIff(libs: Libs, id: string, relPath: string)
    requires NonOverlapping(libs)
    ensures AddRoot(libs, id, relPath).1 == None <==>
            && ValidateRootPath(relPath).Ok? && id in libs
            && var root := ValidateRootPath(relPath).value;
               (exists owner :: Registered(libs, owner, root)) || !OverlapsAny(libs, root)
  {
    hide PathWithinRoot, ValidateRootPath;
    if ValidateRootPath(relPath).Ok? && id in libs {
      var root := ValidateRootPath(relPath).value;
      if exists owner :: Registered(libs, owner, root) {
        var owner :| Registered(libs, owner, root);
        assert root in libs[id] || OwnedElsewhere(libs, id, root);
      }
      if root in libs[id] {
        assert Registered(libs, id, root);
      } else if OwnedElsewhere(libs, id, root) {
        var owner :| owner in libs && owner != id && root in libs[owner];
        assert Registered(libs, owner, root);
      }
    }
  }

  /** After a successful AddRoot the target library alone owns the root, and every other registration is untouched. */
  lemma AddedRootHasOneOwner(libs: Libs, id: string, relPath: string, other: string, q: string)
    requires NonOverlapping(libs)
    ensures var (after, err) := AddRoot(libs, id, relPath);
            err == None ==>
              var root := ValidateRootPath(relPath).value;
              Registered(after, other, q) <==> if q == root then other == id else Registered(libs, other, q)
  {
    hide RootsOverlap, ValidateRootPath;
    if AddRoot(libs, id, relPath).1 == None {
      var root := ValidateRootPath(relPath).value;
      if Registered(libs, id, root) && Registered(libs, other, root) {
        assert other == id;
      }
      if !OwnedElsewhere(libs, id, root) {
        assert Registered(libs, other, root) ==> other == id;
      }
    }
  }

  lemma OpKeepsNonOverlapping(libs: Libs, op: Op)
    requires NonOverlapping(libs)
    ensures NonOverlapping(ApplyOp(libs, op))
  {
    hide RootsOverlap, ValidateRootPath, StoreAdd, NormalizeRelPath;
    match op
    case Add(id, relPath) =>
      AddRootIsStoreAdd(libs, id, relPath);
      if ValidateRootPath(relPath).Ok? {
        StoreAddKeepsNonOverlapping(libs, id, ValidateRootPath(relPath).value);
      }
    case StoreCommits(id, relPath) =>
      if ValidateRootPath(relPath).Ok? {
        StoreAddKeepsNonOverlapping(libs, id, ValidateRootPath(relPath).value);
      }
    case Create(id) =>
      if id !in libs {
        CreateKeepsNonOverlapping(libs, id);
      }
    case Remove(id, relPath) => SubRegistryNonOverlapping(RemoveRoot(libs, id, relPath).0, libs);
    case Delete(id) => SubRegistryNonOverlapping(DeleteLibrary(libs, id).0, libs);
    case PruneMissing(isDir) => SubRegistryNonOverlapping(Prune(libs, isDir), libs);
  }

  lemma CreateKeepsNonOverlapping(libs: Libs, id: string)
    requires NonOverlapping(libs) && id !in libs
    ensures NonOverlapping(libs[id := {}])
  {
    hide RootsOverlap;
    var created := libs[id := {}];
    forall a, r, b, q | Registered(created, a, r) && Registered(created, b, q) && (a != b || r != q)
      ensures r != q && !RootsOverlap(r, q)
    {
      assert Registered(libs, a, r) && Registered(libs, b, q);
    }
  }

  /** Every sequence of registry operations keeps all registered roots pairwise non-overlapping. */
  lemma {:induction false} EverySequenceNonOverlapping(libs: Libs, ops: seq<Op>)
    requires NonOverlapping(libs)
    ensures NonOverlapping(ApplyAll(libs, ops))
    decreases |ops|
  {
    hide NonOverlapping, ApplyOp;
    if ops != [] {
      OpKeepsNonOverlapping(libs, ops[0]);
      EverySequenceNonOverlapping(ApplyOp(libs, ops[0]), ops[1..]);
    }
  }

  // ----- Every registered root can be named again -----

  // The root is what some accepted or removable spelling normalises to.
  predicate Spelled(root: string) {
    root != "" && NormalizeRelPath("/" + root) == root
  }

  ghost predicate AllSpelled(libs: Libs) {
    forall id, root :: Registered(libs, id, root) ==> Spelled(root)
  }

  lemma OpKeepsSpelled(libs: Libs, op: Op)
    requires AllSpelled(libs)
    ensures AllSpelled(ApplyOp(libs, op))
  {
    hide RootsOverlap, PathWithinRoot, NormalizeRelPath;
    if op.Add? || op.StoreCommits? {
      NormalizedHasSpelling(op.relPath);
    }
    forall id, root | Registered(ApplyOp(libs, op), id, root)
      ensures Spelled(root)
    {
      if !Registered(libs, id, root) {
        assert op.Add? || op.StoreCommits?;
        assert root == ValidateRootPath(op.relPath).value;
      }
    }
  }

  lemma {:induction false} EverySequenceSpelled(libs: Libs, ops: seq<Op>)
    requires AllSpelled(libs)
    ensures AllSpelled(ApplyAll(libs, ops))
    decreases |ops|
  {
    hide AllSpelled, ApplyOp;
    if ops != [] {
      OpKeepsSpelled(libs, ops[0]);
      EverySequenceSpelled(ApplyOp(libs, ops[0]), ops[1..]);
    }
  }

  /**
   * Although RemoveRoot normalises a root a second time, every root registered by any sequence of
   * operations can be removed: spelled behind a slash it reaches exactly that root.
   */
  lemma EveryRootRemovable(ops: seq<Op>, id: string, root: string)
    ensures var libs := ApplyAll(map[], ops);
            Registered(libs, id, root) ==>
              RemoveRoot(libs, id, "/" + root) == StoreRemove(libs, id, root)
              && !Registered(RemoveRoot(libs, id, "/" + root).0, id, root)
  {
    hide NormalizeRelPath, ApplyAll;
    var libs := ApplyAll(map[], ops);
    EverySequenceSpelled(map[], ops);
  }

  // ----- Lookup of the owning library -----

  datatype Library = Library(id: string, roots: seq<string>)

  // A listing shows every library once with exactly its roots; the order of both is free.
  ghost predicate IsListing(libs: Libs, listing: seq<Library>) {
    && (forall i, j :: 0 <= i < j < |listing| ==> listing[i].id != listing[j].id)
    && (forall i :: 0 <= i < |listing| ==> ListsLibrary(libs, listing[i]))
    && (forall id :: id in libs ==> exists i :: 0 <= i < |listing| && listing[i].id == id)
  }

  ghost predicate ListsLibrary(libs: Libs, library: Library) {
    && library.id in libs && (forall root :: root in library.roots <==> root in libs[library.id])
    && forall i, j :: 0 <= i < j < |library.roots| ==> library.roots[i] != library.roots[j]
  }

  ghost predicate RootAt(listing: seq<Library>, i: int, j: int, relPath: string) {
    0 <= i < |listing| && 0 <= j < |listing[i].roots| && PathWithinRoot(relPath, listing[i].roots[j])
  }

  // The first of the longest containing roots, in listing order.
  ghost predicate IsLongestMatch(listing: seq<Library>, relPath: string, i: int, j: int) {
    && RootAt(listing, i, j, relPath)
    && forall a, b :: RootAt(listing, a, b, relPath) ==>
         || ByteLength(listing[a].roots[b]) < ByteLength(listing[i].roots[j])
         || (ByteLength(listing[a].roots[b]) == ByteLength(listing[i].roots[j]) && (i < a || (i == a && j <= b)))
  }

  method MatchLibrary(unescape: Unescape, listing: seq<Library>, rawPath: string) returns (best: Option<Library>)
    ensures var path := CanonicalPath(unescape, rawPath);
            && (best.None? <==>
                  path.None? || path == Some("") || !exists i, j :: RootAt(listing, i, j, path.value))
            && (best.Some? ==>
                  path.Some? && exists i, j :: IsLongestMatch(listing, path.value, i, j) && best.value == listing[i])
  {
    hide PathWithinRoot, CanonicalPath, ByteLength;
    best := None;
    var canonical := CanonicalRelPath(unescape, rawPath);
    if canonical.None? || canonical.value == "" {
      return;
    }
    var relPath := canonical.value;
    var bestLen: int := -1;
    ghost var bi, bj := 0, 0;
    for i := 0 to |listing|
      invariant best.None? <==> bestLen == -1
      invariant best.None? ==> forall a, b :: RootAt(listing, a, b, relPath) ==> a >= i
      invariant best.Some? ==>
                  && RootAt(listing, bi, bj, relPath) && best.value == listing[bi]
                  && bestLen == ByteLength(listing[bi].roots[bj])
      invariant best.Some? ==> BestBefore(listing, relPath, bi, bj, i, 0)
    {
      for j := 0 to |listing[i].roots|
        invariant best.None? <==> bestLen == -1
        invariant best.None? ==> forall a, b :: RootAt(listing, a, b, relPath) ==> a > i || (a == i && b >= j)
        invariant best.Some? ==>
                    && RootAt(listing, bi, bj, relPath) && best.value == listing[bi]
                    && bestLen == ByteLength(listing[bi].roots[bj])
        invariant best.Some? ==> BestBefore(listing, relPath, bi, bj, i, j)
      {
        var root := listing[i].roots[j];
        if PathWithinRoot(relPath, root) && ByteLength(root) > bestLen {
          assert RootAt(listing, i, j, relPath);
          best, bestLen := Some(listing[i]), ByteLength(root);
          bi, bj := i, j;
        }
      }
    }
    if best.Some? {
      assert IsLongestMatch(listing, relPath, bi, bj);
    } else {
      assert forall a, b :: !RootAt(listing, a, b, relPath);
    }
  }

  // (bi, bj) is the longest match among the positions before (i, j).
  ghost predicate BestBefore(listing: seq<Library>, relPath: string, bi: int, bj: int, i: int, j: int)
    requires RootAt(listing, bi, bj, relPath)
  {
    && (bi < i || (bi == i && bj < j))
    && forall a, b :: RootAt(listing, a, b, relPath) && (a < i || (a == i && b < j)) ==>
         || ByteLength(listing[a].roots[b]) < ByteLength(listing[bi].roots[bj])
         || (ByteLength(listing[a].roots[b]) == ByteLength(listing[bi].roots[bj]) && (bi < a || (bi == a && bj <= b)))
  }

  /** In a non-overlapping registry at most one registered root contains a path. */
  lemma AtMostOneRootContains(libs: Libs, a: string, r: string, b: string, q: string, path: string)
    requires NonOverlapping(libs) && Registered(libs, a, r) && Registered(libs, b, q)
    ensures PathWithinRoot(path, r) && PathWithinRoot(path, q) ==> a == b && r == q
  {
    hide PathWithinRoot;
    ContainersOverlap(path, r, q);
  }

  /**
   * MatchLibrary's answer on any listing of a non-overlapping registry is the owner of the path:
   * it finds a library exactly when some registered root contains the path, and then that one.
   */
  lemma MatchIsTheOwner(libs: Libs, listing: seq<Library>, path: string, i: int, j: int, id: string, root: string)
    requires NonOverlapping(libs) && IsListing(libs, listing)
    requires Registered(libs, id, root) && PathWithinRoot(path, root)
    ensures exists a, b :: RootAt(listing, a, b, path)
    ensures IsLongestMatch(listing, path, i, j) ==> listing[i].id == id && listing[i].roots[j] == root
  {
    hide PathWithinRoot;
    var a :| 0 <= a < |listing| && listing[a].id == id;
    assert ListsLibrary(libs, listing[a]) && root in listing[a].roots;
    var b :| 0 <= b < |listing[a].roots| && listing[a].roots[b] == root;
    assert RootAt(listing, a, b, path);
    if IsLongestMatch(listing, path, i, j) {
      assert ListsLibrary(libs, listing[i]) && listing[i].roots[j] in listing[i].roots;
      assert Registered(libs, listing[i].id, listing[i].roots[j]);
      AtMostOneRootContains(libs, listing[i].id, listing[i].roots[j], id, root, path);
    }
  }

  /** A listing has a root containing the path exactly when the registry does. */
  lemma FoundIffOwned(libs: Libs, listing: seq<Library>, path: string)
    requires IsListing(libs, listing)
    ensures (exists i, j :: RootAt(listing, i, j, path)) <==>
            exists id, root :: Registered(libs, id, root) && PathWithinRoot(path, root)
  {
    hide PathWithinRoot;
    forall i, j | RootAt(listing, i, j, path)
      ensures Registered(libs, listing[i].id, listing[i].roots[j])
    {
      assert ListsLibrary(libs, listing[i]) && listing[i].roots[j] in listing[i].roots;
    }
    if exists i, j :: RootAt(listing, i, j, path) {
      var i, j :| RootAt(listing, i, j, path);
      assert Registered(libs, listing[i].id, listing[i].roots[j]) && PathWithinRoot(path, listing[i].roots[j]);
    }
    if exists id, root :: Registered(libs, id, root) && PathWithinRoot(path, root) {
      var id, root :| Registered(libs, id, root) && PathWithinRoot(path, root);
      var a :| 0 <= a < |listing| && listing[a].id == id;
      assert ListsLibrary(libs, listing[a]) && root in listing[a].roots;
      var b :| 0 <= b < |listing[a].roots| && listing[a].roots[b] == root;
      assert RootAt(listing, a, b, path);
    }
  }
}
