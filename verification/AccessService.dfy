/**
 * The access service and its store as one mutable object, in the loops of the source: each method
 * is proved against its function in AccessRegistry, for every order in which the store may list
 * libraries and roots.
 */
module AccessService {
  import opened Wrappers
  import opened AccessPaths
  import opened AccessRegistry

  class Service {
    var libs: Libs

    ghost predicate Valid()
      reads this
    {
      NonOverlapping(libs)
    }

    constructor ()
      ensures Valid() && libs == map[]
    {
      libs := map[];
    }

    // ----- Store -----

    method ListRoots(roots: set<string>) returns (listed: seq<string>)
      ensures forall root :: root in listed <==> root in roots
      ensures forall i, j :: 0 <= i < j < |listed| ==> listed[i] != listed[j]
    {
      listed := [];
      var remaining := roots;
      while remaining != {}
        invariant remaining <= roots
        invariant forall root :: root in listed <==> root in roots - remaining
        invariant forall i, j :: 0 <= i < j < |listed| ==> listed[i] != listed[j]
      {
        var root :| root in remaining;
        assert root !in listed;
        listed := listed + [root];
        remaining := remaining - {root};
      }
    }

    method ListLibraries() returns (listing: seq<Library>)
      ensures IsListing(libs, listing)
    {
      listing := [];
      var remaining := libs.Keys;
      while remaining != {}
        invariant remaining <= libs.Keys
        invariant forall i, j :: 0 <= i < j < |listing| ==> listing[i].id != listing[j].id
        invariant forall i :: 0 <= i < |listing| ==> ListsLibrary(libs, listing[i]) && listing[i].id !in remaining
        invariant forall id :: id in libs && id !in remaining ==> exists i :: 0 <= i < |listing| && listing[i].id == id
      {
        var id :| id in remaining;
        var roots := ListRoots(libs[id]);
        ghost var before := listing;
        listing := listing + [Library(id, roots)];
        remaining := remaining - {id};
        assert listing[|before|].id == id;
        forall other | other in libs && other !in remaining
          ensures exists i :: 0 <= i < |listing| && listing[i].id == other
        {
          if other != id {
            var i :| 0 <= i < |before| && before[i].id == other;
            assert listing[i].id == other;
          }
        }
      }
    }

    method StoreAddRoot(id: string, root: string) returns (err: Option<AccessError>)
      requires Valid()
      modifies this
      ensures (libs, err) == StoreAdd(old(libs), id, root)
      ensures Valid()
    {
      hide PathWithinRoot;
      StoreAddKeepsNonOverlapping(libs, id, root);
      if id !in libs {
        return Some(LibraryNotFound);
      }
      var dest := ListRoots(libs[id]);
      for i := 0 to |dest|
        invariant forall k :: 0 <= k < i ==> dest[k] != root && !PathWithinRoot(root, dest[k])
      {
        assert dest[i] in dest && Registered(libs, id, dest[i]);
        if dest[i] == root {
          return None;
        }
        if PathWithinRoot(root, dest[i]) {
          assert Registered(libs, id, root) == (root in libs[id]);
          assert ContainedIn(libs[id], root);
          return Some(LibraryRootConflict);
        }
      }
      assert root !in libs[id] && !ContainedIn(libs[id], root);
      if !OwnedElsewhere(libs, id, root) && OverlapsOther(libs, id, root) {
        return Some(LibraryRootConflict);
      }
      libs := TakeRoot(libs, id, root);
      var kept := libs[id];
      for i := 0 to |dest|
        invariant kept == set existing |
                            existing in libs[id] && !(existing in dest[..i] && PathWithinRoot(existing, root))
      {
        if PathWithinRoot(dest[i], root) && dest[i] != root {
          kept := kept - {dest[i]};
        }
      }
      assert kept == Subsume(libs[id], root);
      libs := libs[id := kept + {root}];
      return None;
    }

    method StoreRemoveRoot(id: string, root: string) returns (err: Option<AccessError>)
      requires Valid()
      modifies this
      ensures (libs, err) == StoreRemove(old(libs), id, root)
      ensures Valid()
    {
      hide RootsOverlap;
      SubRegistryNonOverlapping(StoreRemove(libs, id, root).0, libs);
      if !Registered(libs, id, root) {
        return Some(LibraryRootNotFound);
      }
      var remaining := libs[id] - {root};
      if remaining == {} {
        libs := libs - {id};
        return Some(LibraryNotFound);
      }
      libs := libs[id := remaining];
      return None;
    }

    // ----- Service -----

    method AddRoot(id: string, relPath: string) returns (err: Option<AccessError>)
      requires Valid()
      modifies this
      ensures (libs, err) == AccessRegistry.AddRoot(old(libs), id, relPath)
      ensures Valid()
    {
      hide PathWithinRoot, ValidateRootPath, StoreAdd;
      OpKeepsNonOverlapping(libs, Add(id, relPath));
      AddRootIsStoreAdd(libs, id, relPath);
      var cleaned := ValidateRootPath(relPath);
      if cleaned.Err? {
        return Some(cleaned.error);
      }
      if id !in libs {
        return Some(LibraryNotFound);
      }
      var root := cleaned.value;
      var listing := ListLibraries();
      for i := 0 to |listing|
        invariant libs == old(libs)
        invariant forall a :: 0 <= a < i ==> NoneMeets(listing[a], root, |listing[a].roots|)
      {
        for j := 0 to |listing[i].roots|
          invariant libs == old(libs)
          invariant NoneMeets(listing[i], root, j)
        {
          var existing := listing[i].roots[j];
          ListedIsRegistered(libs, listing, i, j);
          if existing == root {
            if listing[i].id == id {
              return None;
            }
            NotInTwo(libs, id, listing[i].id, root);
            err := StoreAddRoot(id, root);
            return;
          }
          if RootsOverlap(existing, root) {
            NoOverlapWithRegistered(libs, listing[i].id, existing, root);
            assert !Registered(libs, id, root);
            return Some(LibraryRootConflict);
          }
        }
      }
      NothingMeets(libs, listing, root);
      err := StoreAddRoot(id, root);
    }

    method RemoveRoot(id: string, relPath: string) returns (err: Option<AccessError>)
      requires Valid()
      modifies this
      ensures (libs, err) == AccessRegistry.RemoveRoot(old(libs), id, relPath)
      ensures Valid()
    {
      var cleaned := NormalizeRelPath(relPath);
      if cleaned == "" {
        return Some(InvalidLibraryRoot);
      }
      err := StoreRemoveRoot(id, cleaned);
    }

    method DeleteLibrary(id: string) returns (err: Option<AccessError>)
      requires Valid()
      modifies this
      ensures (libs, err) == AccessRegistry.DeleteLibrary(old(libs), id)
      ensures Valid()
    {
      OpKeepsNonOverlapping(libs, Delete(id));
      if id !in libs {
        return Some(LibraryNotFound);
      }
      libs := libs - {id};
      return None;
    }

    // The removal of the missing root at position j.
    method DropMissing(library: Library, j: int, removed: int, ghost was: Libs, isDir: string -> bool)
      returns (err: Option<AccessError>)
      requires Valid() && ListsLibrary(was, library) && 0 <= j < |library.roots| && !isDir(library.roots[j])
      requires Pruning(was, libs, library, j, isDir, removed) && library.id in libs
      modifies this
      ensures Valid() && Pruning(was, libs, library, j + 1, isDir, removed + 1)
      ensures err.None? <==> library.id in libs
      ensures err.Some? ==> err.value == LibraryNotFound && j + 1 == |library.roots|
    {
      hide NonOverlapping, StoreRemove, Dropped, Registered, MissingBefore, ListsLibrary;
      ghost var missing := MissingBefore(library.roots, j, isDir);
      NotMissingYet(was, library, j, isDir);
      DropOneMore(was, library.id, missing, library.roots[j]);
      err := StoreRemoveRoot(library.id, library.roots[j]);
      if err.Some? {
        AllMissing(was, library, j + 1, isDir);
      }
    }

    method PruneLibraryRoots(isDir: string -> bool, library: Library)
      returns (gone: bool, removed: int, err: Option<AccessError>)
      requires Valid() && ListsLibrary(libs, library)
      modifies this
      ensures Valid() && err.None? && gone == (library.id !in libs)
      ensures Pruning(old(libs), libs, library, |library.roots|, isDir, removed)
    {
      hide NonOverlapping, ListsLibrary, Pruning;
      removed := 0;
      ghost var was := libs;
      NothingPruned(was, library, isDir);
      for j := 0 to |library.roots|
        invariant Valid() && library.id in libs && Pruning(was, libs, library, j, isDir, removed)
      {
        if isDir(library.roots[j]) {
          KeepPresent(was, libs, library, j, isDir, removed);
          continue;
        }
        var removeErr := DropMissing(library, j, removed, was, isDir);
        if removeErr.Some? {
          if removeErr.value == LibraryNotFound {
            return true, removed + 1, None;
          }
          return false, removed, removeErr;
        }
        removed := removed + 1;
      }
      return false, removed, None;
    }

    method PruneMissingRoots(isDir: string -> bool) returns (removed: int, kept: int, err: Option<AccessError>)
      requires Valid()
      modifies this
      ensures Valid() && err.None?
      ensures libs == Prune(old(libs), isDir)
      ensures removed == |MissingRoots(old(libs), isDir)| && kept == |libs|
    {
      hide NonOverlapping, IsListing, PruneProgress, Pruning, Prune, MissingRoots;
      ghost var was := libs;
      var listing := ListLibraries();
      removed, kept := 0, 0;
      ghost var survivors := {};
      StartPruning(was, listing, isDir);
      for i := 0 to |listing|
        invariant Valid() && PruneProgress(was, libs, listing, i, isDir, removed, survivors)
        invariant kept == |survivors|
      {
        NextLibrary(was, libs, listing, i, isDir, removed, survivors);
        ghost var before := libs;
        var emptied, dropped, pruneErr := PruneLibraryRoots(isDir, listing[i]);
        if pruneErr.Some? {
          return removed, kept, pruneErr;
        }
        LibraryPruned(was, before, libs, listing, i, isDir, removed, survivors, dropped);
        removed := removed + dropped;
        if !emptied {
          kept := kept + 1;
          survivors := survivors + {listing[i].id};
        }
      }
      FinishPruning(was, libs, listing, isDir, removed, survivors);
      return removed, kept, None;
    }
  }

  // The first n listed roots of one library have been pruned, `removed` of them away.
  ghost predicate Pruning(was: Libs, now: Libs, library: Library, n: int, isDir: string -> bool, removed: int) {
    && library.id in was && 0 <= n <= |library.roots|
    && now == Dropped(was, library.id, MissingBefore(library.roots, n, isDir))
    && removed == |MissingBefore(library.roots, n, isDir)|
  }

  lemma KeepPresent(was: Libs, now: Libs, library: Library, j: int, isDir: string -> bool, removed: int)
    requires Pruning(was, now, library, j, isDir, removed) && j < |library.roots| && isDir(library.roots[j])
    ensures Pruning(was, now, library, j + 1, isDir, removed)
  {
  }

  lemma NothingPruned(libs: Libs, library: Library, isDir: string -> bool)
    requires ListsLibrary(libs, library)
    ensures library.id in libs && Pruning(libs, libs, library, 0, isDir, 0)
  {
  }

  lemma NotMissingYet(libs: Libs, library: Library, j: int, isDir: string -> bool)
    requires ListsLibrary(libs, library) && 0 <= j < |library.roots|
    ensures library.roots[j] in libs[library.id]
    ensures library.roots[j] !in MissingBefore(library.roots, j, isDir)
    ensures !isDir(library.roots[j]) ==>
              MissingBefore(library.roots, j + 1, isDir) == MissingBefore(library.roots, j, isDir) + {library.roots[j]}
  {
    assert library.roots[j] in library.roots;
    MissingBeforeMembers(library.roots, j, isDir, library.roots[j]);
  }

  // When the roots missing so far are all the roots, the rest of the list is empty and the library is gone.
  lemma AllMissing(libs: Libs, library: Library, n: int, isDir: string -> bool)
    requires ListsLibrary(libs, library) && 0 < n <= |library.roots| && !isDir(library.roots[n - 1])
    requires libs[library.id] - MissingBefore(library.roots, n, isDir) == {}
    ensures n == |library.roots|
    ensures library.id !in Dropped(libs, library.id, MissingBefore(library.roots, n, isDir))
  {
    if n < |library.roots| {
      var last := library.roots[|library.roots| - 1];
      assert last in library.roots && last in MissingBefore(library.roots, n, isDir);
      MissingBeforeMembers(library.roots, n, isDir, last);
    }
  }

  // ----- Facts about pruning -----

  // The registry after the roots in `gone` were removed from one library.
  function Dropped(libs: Libs, id: string, gone: set<string>): Libs
    requires id in libs
  {
    if gone == {} then libs else if libs[id] - gone == {} then libs - {id} else libs[id := libs[id] - gone]
  }

  // The listed roots before position n whose directory is gone.
  function MissingBefore(roots: seq<string>, n: int, isDir: string -> bool): set<string>
    requires 0 <= n <= |roots|
  {
    if n == 0 then {}
    else MissingBefore(roots, n - 1, isDir) + (if isDir(roots[n - 1]) then {} else {roots[n - 1]})
  }

  lemma {:induction false} MissingBeforeMembers(roots: seq<string>, n: int, isDir: string -> bool, root: string)
    requires 0 <= n <= |roots|
    ensures root in MissingBefore(roots, n, isDir) <==> root in roots[..n] && !isDir(root)
  {
    if n > 0 {
      MissingBeforeMembers(roots, n - 1, isDir, root);
      assert roots[..n] == roots[..n - 1] + [roots[n - 1]];
    }
  }

  lemma DropOneMore(libs: Libs, id: string, gone: set<string>, root: string)
    requires id in libs && id in Dropped(libs, id, gone) && root in libs[id] && root !in gone
    ensures Registered(Dropped(libs, id, gone), id, root)
    ensures StoreRemove(Dropped(libs, id, gone), id, root).0 == Dropped(libs, id, gone + {root})
    ensures StoreRemove(Dropped(libs, id, gone), id, root).1 ==
            if libs[id] - (gone + {root}) == {} then Some(LibraryNotFound) else None
    ensures id in Dropped(libs, id, gone + {root}) <==> libs[id] - (gone + {root}) != {}
    ensures |gone + {root}| == |gone| + 1
  {
    var x, y := libs[id] - gone, libs[id] - (gone + {root});
    assert gone == {} ==> x == libs[id];
    assert x - {root} == y && gone + {root} != {};
    assert x == {root} <==> y == {};
    assert libs[id := x][id := y] == libs[id := y] && libs[id := x] - {id} == libs - {id};
    assert libs[id] - gone - {root} == libs[id] - (gone + {root});
    assert libs[id] - gone == {root} <==> libs[id] - (gone + {root}) == {};
  }

  ghost predicate ListedBefore(listing: seq<Library>, n: int, id: string)
    requires 0 <= n <= |listing|
  {
    exists k :: 0 <= k < n && listing[k].id == id
  }

  // The registry when the first n listed libraries have been pruned.
  ghost predicate PrunedUpTo(before: Libs, now: Libs, listing: seq<Library>, n: int, isDir: string -> bool)
    requires 0 <= n <= |listing|
  {
    && (forall id :: id in now <==>
          id in before && (ListedBefore(listing, n, id) ==> before[id] == {} || Present(before[id], isDir) != {}))
    && (forall id :: id in now ==>
          now[id] == if ListedBefore(listing, n, id) then Present(before[id], isDir) else before[id])
  }

  // The missing roots of the first n listed libraries.
  function MissingUpTo(before: Libs, listing: seq<Library>, n: int, isDir: string -> bool): set<string>
    requires 0 <= n <= |listing|
  {
    if n == 0 then {}
    else MissingUpTo(before, listing, n - 1, isDir) +
         (if listing[n - 1].id in before
          then before[listing[n - 1].id] - Present(before[listing[n - 1].id], isDir) else {})
  }

  // The first n listed libraries have been pruned: `removed` roots are gone, `survivors` are left.
  ghost predicate PruneProgress(before: Libs, now: Libs, listing: seq<Library>, n: int, isDir: string -> bool,
                                removed: int, survivors: set<string>)
  {
    && 0 <= n <= |listing| && PrunedUpTo(before, now, listing, n, isDir)
    && removed == |MissingUpTo(before, listing, n, isDir)|
    && forall id :: id in survivors <==> id in now && ListedBefore(listing, n, id)
  }

  lemma StartPruning(before: Libs, listing: seq<Library>, isDir: string -> bool)
    ensures PruneProgress(before, before, listing, 0, isDir, 0, {})
  {
  }

  // The next library on the list is still as it was listed.
  lemma NextLibrary(before: Libs, now: Libs, listing: seq<Library>, i: int, isDir: string -> bool,
                    removed: int, survivors: set<string>)
    requires IsListing(before, listing) && 0 <= i < |listing|
    requires PruneProgress(before, now, listing, i, isDir, removed, survivors)
    ensures !ListedBefore(listing, i, listing[i].id) && listing[i].id !in survivors
    ensures listing[i].id in before && ListsLibrary(now, listing[i]) && now[listing[i].id] == before[listing[i].id]
  {
  }

  lemma {:induction false} MissingUpToMembers(before: Libs, listing: seq<Library>, n: int, isDir: string -> bool,
                                              root: string)
    requires 0 <= n <= |listing|
    ensures root in MissingUpTo(before, listing, n, isDir) <==>
            !isDir(root) && exists k :: 0 <= k < n && Registered(before, listing[k].id, root)
  {
    if n > 0 {
      MissingUpToMembers(before, listing, n - 1, isDir, root);
    }
  }

  lemma LibraryPruned(before: Libs, from: Libs, now: Libs, listing: seq<Library>, i: int, isDir: string -> bool,
                      removed: int, survivors: set<string>, dropped: int)
    requires NonOverlapping(before) && IsListing(before, listing) && 0 <= i < |listing|
    requires PruneProgress(before, from, listing, i, isDir, removed, survivors)
    requires Pruning(from, now, listing[i], |listing[i].roots|, isDir, dropped)
    ensures PruneProgress(before, now, listing, i + 1, isDir, removed + dropped,
                          if listing[i].id in now then survivors + {listing[i].id} else survivors)
  {
    hide NonOverlapping, IsListing, ListsLibrary, MissingUpTo, PrunedUpTo, ListedBefore, Present, Dropped;
    NextLibrary(before, from, listing, i, isDir, removed, survivors);
    var missing := MissingBefore(listing[i].roots, |listing[i].roots|, isDir);
    MissingIsAbsent(from, listing[i], isDir);
    PruneOneMore(before, from, now, listing, i, isDir, missing);
    MissingGrows(before, listing, i, isDir);
    ListedOneMore(listing, i);
  }

  lemma MissingIsAbsent(libs: Libs, library: Library, isDir: string -> bool)
    requires ListsLibrary(libs, library)
    ensures var missing := MissingBefore(library.roots, |library.roots|, isDir);
            && missing == libs[library.id] - Present(libs[library.id], isDir)
            && libs[library.id] - missing == Present(libs[library.id], isDir)
  {
    var missing := MissingBefore(library.roots, |library.roots|, isDir);
    forall root
      ensures root in missing <==> root in libs[library.id] - Present(libs[library.id], isDir)
    {
      MissingBeforeMembers(library.roots, |library.roots|, isDir, root);
      assert library.roots[..|library.roots|] == library.roots;
    }
  }

  lemma MissingGrows(before: Libs, listing: seq<Library>, i: int, isDir: string -> bool)
    requires NonOverlapping(before) && 0 <= i < |listing| && listing[i].id in before
    requires !ListedBefore(listing, i, listing[i].id)
    ensures var missing := before[listing[i].id] - Present(before[listing[i].id], isDir);
            |MissingUpTo(before, listing, i + 1, isDir)| == |MissingUpTo(before, listing, i, isDir)| + |missing|
  {
    hide RootsOverlap;
    var gone := MissingUpTo(before, listing, i, isDir);
    var missing := before[listing[i].id] - Present(before[listing[i].id], isDir);
    forall root | root in missing
      ensures root !in gone
    {
      MissingUpToMembers(before, listing, i, isDir, root);
      assert Registered(before, listing[i].id, root);
    }
    assert gone !! missing;
  }

  lemma ListedOneMore(listing: seq<Library>, i: int)
    requires 0 <= i < |listing|
    ensures forall id :: ListedBefore(listing, i + 1, id) <==> ListedBefore(listing, i, id) || id == listing[i].id
  {
    forall id
      ensures ListedBefore(listing, i + 1, id) <==> ListedBefore(listing, i, id) || id == listing[i].id
    {
      if id == listing[i].id {
        assert 0 <= i < i + 1 && listing[i].id == id;
      }
    }
  }

  lemma PruneOneMore(before: Libs, from: Libs, now: Libs, listing: seq<Library>, i: int, isDir: string -> bool,
                     missing: set<string>)
    requires 0 <= i < |listing| && listing[i].id in before && listing[i].id in from
    requires PrunedUpTo(before, from, listing, i, isDir) && !ListedBefore(listing, i, listing[i].id)
    requires missing <= before[listing[i].id]
    requires before[listing[i].id] - missing == Present(before[listing[i].id], isDir)
    requires now == Dropped(from, listing[i].id, missing)
    ensures PrunedUpTo(before, now, listing, i + 1, isDir)
    ensures forall id :: id != listing[i].id ==> (id in now <==> id in from)
  {
    ListedOneMore(listing, i);
  }

  lemma FinishPruning(before: Libs, now: Libs, listing: seq<Library>, isDir: string -> bool,
                      removed: int, survivors: set<string>)
    requires IsListing(before, listing) && PruneProgress(before, now, listing, |listing|, isDir, removed, survivors)
    ensures now == Prune(before, isDir)
    ensures removed == |MissingRoots(before, isDir)| && survivors == now.Keys
  {
    hide MissingUpTo, MissingRoots, IsListing, ListedBefore;
    AllListed(before, listing);
    AllMissingCounted(before, listing, isDir);
  }

  lemma AllListed(before: Libs, listing: seq<Library>)
    requires IsListing(before, listing)
    ensures forall id :: id in before ==> ListedBefore(listing, |listing|, id)
  {
  }

  lemma AllMissingCounted(before: Libs, listing: seq<Library>, isDir: string -> bool)
    requires IsListing(before, listing)
    ensures MissingUpTo(before, listing, |listing|, isDir) == MissingRoots(before, isDir)
  {
    forall root
      ensures root in MissingUpTo(before, listing, |listing|, isDir) <==> root in MissingRoots(before, isDir)
    {
      MissingUpToMembers(before, listing, |listing|, isDir, root);
      if root in MissingRoots(before, isDir) {
        var id :| id in before && root in before[id];
        var k :| 0 <= k < |listing| && listing[k].id == id;
        assert Registered(before, listing[k].id, root);
      }
    }
  }

  // ----- Facts about a listing -----

  // None of the first n listed roots equals or overlaps `root`.
  ghost predicate NoneMeets(library: Library, root: string, n: int)
    requires 0 <= n <= |library.roots|
  {
    forall k :: 0 <= k < n ==> library.roots[k] != root && !RootsOverlap(library.roots[k], root)
  }

  lemma ListedIsRegistered(libs: Libs, listing: seq<Library>, i: int, j: int)
    requires IsListing(libs, listing) && 0 <= i < |listing| && 0 <= j < |listing[i].roots|
    ensures Registered(libs, listing[i].id, listing[i].roots[j])
  {
  }

  lemma NotInTwo(libs: Libs, id: string, owner: string, root: string)
    requires NonOverlapping(libs) && id != owner && Registered(libs, owner, root)
    ensures !Registered(libs, id, root) && OwnedElsewhere(libs, id, root)
  {
  }

  // A root nobody registered is owned by no library.
  lemma NotOwned(libs: Libs, root: string)
    requires forall id :: !Registered(libs, id, root)
    ensures forall id :: !OwnedElsewhere(libs, id, root)
  {
    assert forall other :: Registered(libs, other, root) <==> other in libs && root in libs[other];
  }

  lemma NoOverlapWithRegistered(libs: Libs, owner: string, existing: string, root: string)
    requires NonOverlapping(libs) && Registered(libs, owner, existing)
    requires existing != root && RootsOverlap(existing, root)
    ensures forall id :: !Registered(libs, id, root) && !OwnedElsewhere(libs, id, root)
    ensures OverlapsAny(libs, root)
  {
    hide PathWithinRoot;
    NotOwned(libs, root);
  }

  lemma NothingMeets(libs: Libs, listing: seq<Library>, root: string)
    requires IsListing(libs, listing)
    requires forall a :: 0 <= a < |listing| ==> NoneMeets(listing[a], root, |listing[a].roots|)
    ensures !OverlapsAny(libs, root)
    ensures forall id :: !Registered(libs, id, root) && !OwnedElsewhere(libs, id, root)
  {
  }
}
