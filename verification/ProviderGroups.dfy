/**
 * Grouping episode files into shows for the provider tasks (groupShows in
 * internal/provider/fields.go), and its agreement with the catalog.
 */
module ProviderGroups {
  import opened Wrappers
  import opened Sorting
  import opened AccessPaths
  import opened ShowKey
  import opened WordRuns
  import Catalog

  datatype ShowGroup = ShowGroup(key: string, name: string, year: Option<int>, posterPath: string, paths: seq<string>)

  // showIdentity: the name and year a path resolves to.
  type Identity = string -> (string, Option<int>)

  // The group of a path, if its name is not blank.
  function GroupKey(u: Unicode, identity: Identity, relPath: string): Option<string> {
    var name := identity(relPath).0;
    if TrimSpace(name) == "" then None else Some(Key(u, name))
  }

  function GroupKeyFn(u: Unicode, identity: Identity): string -> Option<string> {
    path => GroupKey(u, identity, path)
  }

  // The paths of one group, in listing order.
  function Members(u: Unicode, identity: Identity, paths: seq<string>, key: string): seq<string> {
    Catalog.Select(GroupKeyFn(u, identity), paths, Some(key))
  }

  function FirstYear(identity: Identity, members: seq<string>): Option<int> {
    if members == [] then None
    else
      var before := FirstYear(identity, members[..|members| - 1]);
      if before.None? then identity(members[|members| - 1]).1 else before
  }

  // The group as the first loop leaves it, its paths not yet sorted.
  function Collected(identity: Identity, key: string, members: seq<string>): ShowGroup
    requires members != []
  {
    ShowGroup(key, identity(members[0]).0, FirstYear(identity, members), Catalog.LeastPath(members), members)
  }

  function SortPaths(group: ShowGroup): ShowGroup {
    StringLeIsTotalOrder();
    group.(paths := Sort(group.paths, StringLe()))
  }

  ghost predicate Grouping(u: Unicode, identity: Identity, paths: seq<string>, byKey: map<string, ShowGroup>) {
    && (forall key :: key in byKey <==> Members(u, identity, paths, key) != [])
    && (forall key :: key in byKey ==> byKey[key] == Collected(identity, key, Members(u, identity, paths, key)))
  }

  // A group of the result.
  ghost predicate IsGroup(u: Unicode, identity: Identity, paths: seq<string>, group: ShowGroup) {
    var members := Members(u, identity, paths, group.key);
    members != [] && group == SortPaths(Collected(identity, group.key, members))
  }

  lemma MembersStep(u: Unicode, identity: Identity, paths: seq<string>, relPath: string, key: string)
    ensures Members(u, identity, paths + [relPath], key) ==
            if GroupKey(u, identity, relPath) == Some(key) then Members(u, identity, paths, key) + [relPath]
            else Members(u, identity, paths, key)
  {
    hide GroupKey;
    Catalog.SelectStep(GroupKeyFn(u, identity), paths, relPath, Some(key));
  }

  lemma CollectedGrows(identity: Identity, key: string, members: seq<string>, relPath: string)
    ensures Collected(identity, key, members + [relPath]) ==
            if members == [] then ShowGroup(key, identity(relPath).0, identity(relPath).1, relPath, [relPath])
            else
              var group := Collected(identity, key, members);
              ShowGroup(key, group.name, if group.year.None? then identity(relPath).1 else group.year,
                        if StringLess(relPath, group.posterPath) then relPath else group.posterPath,
                        members + [relPath])
    ensures members != [] ==>
              Collected(identity, key, members).key == key && Collected(identity, key, members).paths == members
  {
    hide StringLess;
    var longer := members + [relPath];
    assert longer[..|longer| - 1] == members;
    if members == [] {
      assert longer == [relPath] && FirstYear(identity, []) == None;
    } else {
      assert longer[0] == members[0] && |longer| > 1;
      assert FirstYear(identity, longer) ==
             if FirstYear(identity, members).None? then identity(relPath).1 else FirstYear(identity, members);
    }
  }

  // The loop body for a path with a name.
  function WithPath(identity: Identity, byKey: map<string, ShowGroup>, key: string, relPath: string)
      : map<string, ShowGroup> {
    var (name, year) := identity(relPath);
    var group := if key in byKey then byKey[key] else ShowGroup(key, name, year, relPath, []);
    byKey[key := ShowGroup(group.key, group.name, if group.year.None? then year else group.year,
                           if StringLess(relPath, group.posterPath) then relPath else group.posterPath,
                           group.paths + [relPath])]
  }

  lemma GroupingStep(u: Unicode, identity: Identity, paths: seq<string>, relPath: string, byKey: map<string, ShowGroup>)
    requires Grouping(u, identity, paths, byKey)
    ensures var key := GroupKey(u, identity, relPath);
            Grouping(u, identity, paths + [relPath],
                     if key.None? then byKey else WithPath(identity, byKey, key.value, relPath))
  {
    hide GroupKey, Members, StringLess, Collected;
    var key := GroupKey(u, identity, relPath);
    forall other
      ensures key != Some(other) ==>
              Members(u, identity, paths + [relPath], other) == Members(u, identity, paths, other)
    {
      MembersStep(u, identity, paths, relPath, other);
    }
    if key.Some? {
      MembersStep(u, identity, paths, relPath, key.value);
      CollectedGrows(identity, key.value, Members(u, identity, paths, key.value), relPath);
      Catalog.NotLess(relPath);
    }
  }

  lemma NoGroups(u: Unicode, identity: Identity)
    ensures Grouping(u, identity, [], map[])
  {
  }

  /**
   * The groups are exactly the groups of the paths with a name that is not blank, in strictly
   * increasing key order, whatever order the map is walked in.
   */
  method GroupShows(u: Unicode, identity: Identity, paths: seq<string>) returns (groups: seq<ShowGroup>)
    ensures forall i, j :: 0 <= i < j < |groups| ==> StringLess(groups[i].key, groups[j].key)
    ensures forall group :: group in groups <==> IsGroup(u, identity, paths, group)
  {
    hide Grouping, Key;
    var byKey: map<string, ShowGroup> := map[];
    NoGroups(u, identity);
    for n := 0 to |paths|
      invariant Grouping(u, identity, paths[..n], byKey)
    {
      var relPath := paths[n];
      assert paths[..n + 1] == paths[..n] + [relPath];
      GroupingStep(u, identity, paths[..n], relPath, byKey);
      var (name, year) := identity(relPath);
      if TrimSpace(name) == "" {
        continue;
      }
      var key := Key(u, name);
      var group := if key in byKey then byKey[key] else ShowGroup(key, name, year, relPath, []);
      if year.Some? && group.year.None? {
        group := group.(year := year);
      }
      if StringLess(relPath, group.posterPath) {
        group := group.(posterPath := relPath);
      }
      group := group.(paths := group.paths + [relPath]);
      byKey := byKey[key := group];
    }
    assert paths[..|paths|] == paths;
    var unsorted := ListGroups(u, identity, paths, byKey);
    GroupLeIsTotalOrder();
    groups := Sort(unsorted, GroupLe());
    SortStrictly(unsorted, groups);
  }

  method ListGroups(u: Unicode, identity: Identity, paths: seq<string>, byKey: map<string, ShowGroup>)
    returns (groups: seq<ShowGroup>)
    requires Grouping(u, identity, paths, byKey)
    ensures forall group :: group in groups <==> IsGroup(u, identity, paths, group)
    ensures forall i, j :: 0 <= i < j < |groups| ==> groups[i].key != groups[j].key
  {
    hide Grouping, IsGroup, SortPaths;
    groups := [];
    KeysKept(u, identity, paths, byKey);
    var remaining := byKey.Keys;
    while remaining != {}
      invariant remaining <= byKey.Keys
      invariant forall group :: group in groups <==> Listed(byKey, group) && group.key !in remaining
      invariant forall i, j :: 0 <= i < j < |groups| ==> groups[i].key != groups[j].key
    {
      var key :| key in remaining;
      assert forall i :: 0 <= i < |groups| ==> groups[i] in groups;
      groups := groups + [SortPaths(byKey[key])];
      remaining := remaining - {key};
    }
  }

  lemma KeysKept(u: Unicode, identity: Identity, paths: seq<string>, byKey: map<string, ShowGroup>)
    requires Grouping(u, identity, paths, byKey)
    ensures forall key :: key in byKey ==> SortPaths(byKey[key]).key == key
    ensures forall group :: Listed(byKey, group) <==> IsGroup(u, identity, paths, group)
  {
  }

  ghost predicate Listed(byKey: map<string, ShowGroup>, group: ShowGroup) {
    group.key in byKey && group == SortPaths(byKey[group.key])
  }

  function GroupLe(): (ShowGroup, ShowGroup) -> bool {
    (a: ShowGroup, b: ShowGroup) => !StringLess(b.key, a.key)
  }

  lemma GroupLeIsTotalOrder()
    ensures TotalOrder(GroupLe())
  {
    hide StringLess;
    var le := GroupLe();
    forall a, b
      ensures le(a, b) || le(b, a)
    {
      StringLessTrichotomy(a.key, b.key);
    }
    forall a, b, c | le(a, b) && le(b, c)
      ensures le(a, c)
    {
      StringLeTransitive(a.key, b.key, c.key);
    }
  }

  lemma SortStrictly(unsorted: seq<ShowGroup>, groups: seq<ShowGroup>)
    requires forall i, j :: 0 <= i < j < |unsorted| ==> unsorted[i].key != unsorted[j].key
    requires TotalOrder(GroupLe()) && groups == Sort(unsorted, GroupLe())
    ensures forall i, j :: 0 <= i < j < |groups| ==> StringLess(groups[i].key, groups[j].key)
    ensures forall group :: group in groups <==> group in unsorted
  {
    hide TotalOrder, Sort, StringLess;
    forall i, j | 0 <= i < j < |unsorted|
      ensures !(GroupLe()(unsorted[i], unsorted[j]) && GroupLe()(unsorted[j], unsorted[i]))
    {
      StringLessTrichotomy(unsorted[i].key, unsorted[j].key);
    }
    SortKeepsDistinct(unsorted, GroupLe());
    forall i, j | 0 <= i < j < |groups|
      ensures StringLess(groups[i].key, groups[j].key)
    {
      assert GroupLe()(groups[i], groups[j]) && !(GroupLe()(groups[i], groups[j]) && GroupLe()(groups[j], groups[i]));
    }
  }

  // ----- What the groups promise -----

  /** Every path with a name belongs to exactly the group of its key; a path with a blank name to none. */
  lemma GroupsPartitionPaths(u: Unicode, identity: Identity, paths: seq<string>, path: string, group: ShowGroup)
    ensures IsGroup(u, identity, paths, group) ==>
              (path in group.paths <==> path in paths && GroupKey(u, identity, path) == Some(group.key))
  {
    hide GroupKey, Collected;
    StringLeIsTotalOrder();
    var members := Members(u, identity, paths, group.key);
    assert path in members <==> path in paths && GroupKeyFn(u, identity)(path) == Some(group.key);
    if members != [] {
      CollectedPaths(identity, group.key, members);
    }
  }

  lemma CollectedPaths(identity: Identity, key: string, members: seq<string>)
    requires members != []
    ensures Collected(identity, key, members).paths == members
  {
  }

  /** The poster path is the first of the sorted paths. */
  lemma PosterIsFirstPath(u: Unicode, identity: Identity, paths: seq<string>, group: ShowGroup)
    ensures IsGroup(u, identity, paths, group) ==> group.paths != [] && group.posterPath == group.paths[0]
  {
    hide Members, StringLess;
    StringLeIsTotalOrder();
    if IsGroup(u, identity, paths, group) {
      var members := Members(u, identity, paths, group.key);
      var sorted := group.paths;
      assert sorted[0] in sorted && sorted[0] in members;
      Catalog.LeastIsLeast(members, sorted[0]);
      var k :| 0 <= k < |sorted| && sorted[k] == group.posterPath;
      assert StringLe()(sorted[0], sorted[k]) || k == 0;
      StringLessTrichotomy(sorted[0], group.posterPath);
    }
  }

  // Identity from the path alone, as showIdentity reads it without stored metadata.
  function PathIdentity(p: Catalog.Parser): Identity {
    path => (p.parse(path).show, None)
  }

  lemma KeyIgnoresOuterSpace(p: Catalog.Parser, path: string)
    ensures Catalog.ShowKeyOf(p, path) == Key(p.unicode, p.parse(path).show)
    ensures TrimSpace(p.parse(path).show) == "" ==> Catalog.ShowKeyOf(p, path) == ""
  {
    hide TrimSpace, IsSpace, Words, Join;
    TrimSpaceTwice(p.parse(path).show);
    assert ToLower(p.unicode, "") == "";
    NoWords(p.unicode.isWord);
    NothingToJoin('-');
  }

  /** With identity from the path alone, a group with a key has the catalog's paths of that show and its poster. */
  lemma GroupMatchesCatalog(p: Catalog.Parser, paths: seq<string>, group: ShowGroup)
    ensures var shown := Catalog.ShowPaths(p, paths, group.key);
            IsGroup(p.unicode, PathIdentity(p), paths, group) && group.key != "" ==>
            shown != [] && group.posterPath == Catalog.RowOf(p, shown).posterPath
            && multiset(group.paths) == multiset(shown)
  {
    hide Catalog.Seasons, Catalog.DenormOf, Sort, Members;
    if group.key != "" {
      SameMembers(p, paths, group.key);
    }
    StringLeIsTotalOrder();
  }

  /** And every show of the catalog is the show of such a group: the keys of both are the same. */
  lemma CatalogShowHasGroup(p: Catalog.Parser, paths: seq<string>, showKey: string)
    ensures showKey in Catalog.ShowKeys(p, paths) <==>
            showKey != "" && exists group :: IsGroup(p.unicode, PathIdentity(p), paths, group) && group.key == showKey
  {
    hide Catalog.ShowKeyOf, Catalog.ShowPaths, Members, Catalog.LeastPath, FirstYear, Sort;
    if showKey != "" {
      SameMembers(p, paths, showKey);
      Catalog.KeyedShowHasPaths(p, paths, showKey);
      var members := Members(p.unicode, PathIdentity(p), paths, showKey);
      if members != [] {
        var group := SortPaths(Collected(PathIdentity(p), showKey, members));
        assert IsGroup(p.unicode, PathIdentity(p), paths, group) && group.key == showKey;
      }
    }
  }

  lemma {:induction false} SameMembers(p: Catalog.Parser, paths: seq<string>, key: string)
    requires key != ""
    ensures Members(p.unicode, PathIdentity(p), paths, key) == Catalog.ShowPaths(p, paths, key)
  {
    hide Key, TrimSpace, Catalog.ShowKeyOf;
    if paths != [] {
      SameMembers(p, paths[..|paths| - 1], key);
      KeyIgnoresOuterSpace(p, paths[|paths| - 1]);
    }
  }
}
