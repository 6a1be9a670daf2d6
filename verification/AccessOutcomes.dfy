/**
 * What every registry operation returns and leaves behind, told by the registrations alone: which
 * error, which library owns which root, and which libraries remain.
 */
module AccessOutcomes {
  import opened Wrappers
  import opened AccessPaths
  import opened AccessRegistry

  // Some library owns the root; some registered root overlaps it.
  ghost predicate Owned(libs: Libs, root: string) {
    exists id :: Registered(libs, id, root)
  }

  ghost predicate OverlapsOne(libs: Libs, root: string) {
    exists id, existing :: Registered(libs, id, existing) && RootsOverlap(existing, root)
  }

  // Every registration of `after`, and every library, as the two predicates say.
  ghost predicate Becomes(after: Libs, registered: (string, string) -> bool, remains: string -> bool) {
    && (forall id, root :: Registered(after, id, root) <==> registered(id, root))
    && forall id :: id in after <==> remains(id)
  }

  /**
   * Adding a root. It is refused as invalid, for a missing library, or as a conflict when it overlaps a
   * root and nobody owns it; a refusal changes nothing. Otherwise the target owns it, nobody else does,
   * no other registration changes, and just the libraries disappear that owned nothing else.
   */
  lemma AddRootOutcome(libs: Libs, id: string, relPath: string)
    requires NonOverlapping(libs)
    ensures var (after, err) := AddRoot(libs, id, relPath);
            var valid := ValidateRootPath(relPath);
            && (err == Some(InvalidLibraryRoot) <==> valid.Err?)
            && (err == Some(LibraryNotFound) <==> valid.Ok? && id !in libs)
            && (err == Some(LibraryRootConflict) <==>
                  valid.Ok? && id in libs && !Owned(libs, valid.value) && OverlapsOne(libs, valid.value))
            && err != Some(LibraryRootNotFound)
            && (err != None ==> after == libs)
            && (err == None ==>
                  Becomes(after,
                          (other, q) => if q == valid.value then other == id else Registered(libs, other, q),
                          other => other in libs && (other == id || libs[other] != {valid.value})))
  {
    hide RootsOverlap, ValidateRootPath;
    ValidateError(relPath);
    var valid := ValidateRootPath(relPath);
    var (after, err) := AddRoot(libs, id, relPath);
    AddRootSucceedsIff(libs, id, relPath);
    if valid.Ok? {
      OverlapsIff(libs, valid.value);
    }
    if err == None {
      forall other, q
        ensures Registered(after, other, q) <==>
                if q == valid.value then other == id else Registered(libs, other, q)
      {
        AddedRootHasOneOwner(libs, id, relPath, other, q);
      }
      LibrariesAfterAdd(libs, id, relPath);
    }
  }

  lemma ValidateError(relPath: string)
    ensures ValidateRootPath(relPath).Err? ==> ValidateRootPath(relPath).error == InvalidLibraryRoot
  {
  }

  lemma OverlapsIff(libs: Libs, root: string)
    ensures OverlapsAny(libs, root) <==> OverlapsOne(libs, root)
  {
    hide RootsOverlap;
    if OverlapsAny(libs, root) {
      var id, existing :| id in libs && existing in libs[id] && RootsOverlap(existing, root);
      assert Registered(libs, id, existing);
    }
  }

  lemma LibrariesAfterAdd(libs: Libs, id: string, relPath: string)
    requires NonOverlapping(libs) && AddRoot(libs, id, relPath).1 == None
    ensures var root := ValidateRootPath(relPath).value;
            forall other :: other in AddRoot(libs, id, relPath).0 <==>
                            other in libs && (other == id || libs[other] != {root})
  {
    hide RootsOverlap, ValidateRootPath;
    var root := ValidateRootPath(relPath).value;
    forall other | other in libs && other != id && libs[other] == {root}
      ensures OwnedElsewhere(libs, id, root) && root !in libs[id]
    {
      assert Registered(libs, other, root);
      assert root in libs[id] ==> Registered(libs, id, root);
    }
  }

  /**
   * Removing a root, by what its spelling normalises to: refused when that is empty or not registered
   * by the library; otherwise just that registration goes, and the library with it when it has no
   * other, which the answer tells as a missing library.
   */
  lemma RemoveRootOutcome(libs: Libs, id: string, relPath: string)
    ensures var (after, err) := RemoveRoot(libs, id, relPath);
            var root := NormalizeRelPath(relPath);
            && (err == Some(InvalidLibraryRoot) <==> root == "")
            && (err == Some(LibraryRootNotFound) <==> root != "" && !Registered(libs, id, root))
            && (err == Some(LibraryNotFound) <==> root != "" && id in libs && libs[id] == {root})
            && err != Some(LibraryRootConflict)
            && (err == Some(InvalidLibraryRoot) || err == Some(LibraryRootNotFound) ==> after == libs)
            && (err == None || err == Some(LibraryNotFound) ==>
                  Becomes(after,
                          (other, q) => Registered(libs, other, q) && (other != id || q != root),
                          other => other in libs && (other != id || libs[id] != {root})))
  {
    hide NormalizeRelPath;
  }

  /** Deleting a library removes it and its registrations, and nothing else. */
  lemma DeleteLibraryOutcome(libs: Libs, id: string)
    ensures var (after, err) := DeleteLibrary(libs, id);
            && err == (if id in libs then None else Some(LibraryNotFound))
            && Becomes(after, (other, q) => Registered(libs, other, q) && other != id,
                       other => other in libs && other != id)
  {
  }

  /** Pruning drops exactly the roots whose directory is gone, and the libraries that lose their last root by it. */
  lemma PruneOutcome(libs: Libs, isDir: string -> bool)
    ensures Becomes(Prune(libs, isDir), (id, root) => Registered(libs, id, root) && isDir(root),
                    id => id in libs && (libs[id] == {} || exists root :: root in libs[id] && isDir(root)))
    ensures forall root :: root in MissingRoots(libs, isDir) <==> Owned(libs, root) && !isDir(root)
  {
    var after := Prune(libs, isDir);
    forall id | id in libs
      ensures Present(libs[id], isDir) != {} <==> exists root :: root in libs[id] && isDir(root)
    {
      if root :| root in libs[id] && isDir(root) {
        assert root in Present(libs[id], isDir);
      }
    }
    forall root
      ensures root in MissingRoots(libs, isDir) <==> Owned(libs, root) && !isDir(root)
    {
      if root in MissingRoots(libs, isDir) {
        var id :| id in libs && root in libs[id];
        assert Registered(libs, id, root);
      }
    }
  }

  /**
   * The store's own transaction, on any registry. It succeeds on a root the library has already, which
   * changes nothing, and else unless one of its roots contains the new one, or a root of another library
   * overlaps it while none owns it. The new root then replaces the roots of the library inside it.
   */
  lemma StoreAddOutcome(libs: Libs, id: string, root: string)
    ensures var (after, err) := StoreAdd(libs, id, root);
            && (err == Some(LibraryNotFound) <==> id !in libs)
            && (err == Some(LibraryRootConflict) <==>
                  id in libs && !Registered(libs, id, root)
                  && ((exists q :: Registered(libs, id, q) && PathWithinRoot(root, q))
                      || (!Owned(libs, root)
                          && exists other, q :: other != id && Registered(libs, other, q) && RootsOverlap(q, root))))
            && (err != None ==> err == Some(LibraryNotFound) || err == Some(LibraryRootConflict))
            && (err != None || Registered(libs, id, root) ==> after == libs)
            && (err == None && !Registered(libs, id, root) ==>
                  Becomes(after,
                          (other, q) =>
                            if other == id then q == root || (Registered(libs, id, q) && !PathWithinRoot(q, root))
                            else Registered(libs, other, q) && q != root,
                          other => other in libs && (other == id || libs[other] != {root})))
  {
    hide PathWithinRoot, RootsOverlap;
    if id in libs && !Registered(libs, id, root) {
      ContainedIff(libs, id, root);
      OwnedIff(libs, id, root);
      OverlapsOtherIff(libs, id, root);
    }
  }

  lemma ContainedIff(libs: Libs, id: string, root: string)
    requires id in libs
    ensures ContainedIn(libs[id], root) <==> exists q :: Registered(libs, id, q) && PathWithinRoot(root, q)
  {
    hide PathWithinRoot;
    if ContainedIn(libs[id], root) {
      var q :| q in libs[id] && PathWithinRoot(root, q);
      assert Registered(libs, id, q);
    }
  }

  lemma OwnedIff(libs: Libs, id: string, root: string)
    requires id in libs && !Registered(libs, id, root)
    ensures OwnedElsewhere(libs, id, root) <==> Owned(libs, root)
  {
    if OwnedElsewhere(libs, id, root) {
      var other :| other in libs && other != id && root in libs[other];
      assert Registered(libs, other, root);
    }
  }

  lemma OverlapsOtherIff(libs: Libs, id: string, root: string)
    ensures OverlapsOther(libs, id, root) <==>
            exists other, q :: other != id && Registered(libs, other, q) && RootsOverlap(q, root)
  {
    hide RootsOverlap;
    if OverlapsOther(libs, id, root) {
      var other, q :| other in libs && other != id && q in libs[other] && RootsOverlap(q, root);
      assert Registered(libs, other, q);
    }
  }
}
