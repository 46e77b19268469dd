/** Moving the collected packages of a workspace to the places they have in a lockfile of its own, and what becomes of
    the search for packages there. */
module Relocation {
  import opened Ordering
  import opened Lockfiles
  import opened Dependencies

  datatype Lockfile = Lockfile(name: Option<string>, version: Option<string>, lockfileVersion: int, hasRequires: bool,
                               packages: map<Key, Package>)

  /** A package of this name is taken from the top of the root's node_modules. */
  predicate AtRoot(deps: seq<Dependency>, name: Name) {
    exists d :: d in deps && d.name == name && d.located.at == ROOT
  }

  predicate Conflicting(deps: seq<Dependency>, d: Dependency) {
    d.located.at.workspace.Some? && d.located.at.path == [] && AtRoot(deps, d.name)
  }

  /** The new folder of a dependency: a conflicting one goes below the outermost package of its dependant. */
  function NewFolder(deps: seq<Dependency>, d: Dependency): PackagePath {
    if Conflicting(deps, d) then
      var path := d.located.dependant.path;
      PackagePath(None, if path == [] then [] else path[..1])
    else PackagePath(None, d.located.at.path)
  }

  function Relocate(deps: seq<Dependency>): (moved: seq<Dependency>)
    ensures |moved| == |deps|
  {
    seq(|deps|, i requires 0 <= i < |deps| =>
      deps[i].(located := deps[i].located.(at := NewFolder(deps, deps[i]))))
  }

  /** Object.fromEntries: of entries with the same key the last one stays. */
  function FromEntries(moved: seq<Dependency>): map<Key, Package> {
    if moved == [] then map[]
    else
      var last := moved[|moved| - 1];
      FromEntries(moved[..|moved| - 1])[KeyOf(last.Node()) := last.Package()]
  }

  /** The packages of the new lockfile, the workspace among them under the empty key. */
  function Derived(package: Package, deps: seq<Dependency>): map<Key, Package> {
    map[[] := package] + FromEntries(Relocate(deps))
  }

  function DeriveLockfile(lock: map<Key, Package>, workspace: Key, stack: nat): Result<Lockfile> {
    if workspace !in lock then Err(NoSuchWorkspace)
    else
      var package := lock[workspace];
      if package.name.None? then Err(NameMissing)
      else
        var deps := CollectDeps(lock, PackagePath(Some(workspace), []), package, stack);
        if deps.Err? then Err(deps.error)
        else
          Ok(Lockfile(package.name, package.version, 3, true, Derived(package, deps.value)))
  }

  /***** Facts about what was collected *****/

  /** `deps` was collected for the package of a workspace. */
  predicate Collected(lock: map<Key, Package>, start: Spot, stack: nat, deps: seq<Dependency>) {
    && ValidNames(lock) && ValidSpot(start) && start.at.workspace.Some? && start.at.path == []
    && CollectDeps(lock, start.at, start.package, stack) == Ok(deps)
  }

  /** The packages that look for dependencies: the workspace itself and everything collected. */
  predicate Visited(start: Spot, deps: seq<Dependency>, u: Spot) {
    u == start || exists d :: d in deps && u == SpotOf(d)
  }

  lemma Origin(lock: map<Key, Package>, start: Spot, stack: nat, deps: seq<Dependency>, d: Dependency)
    returns (c: seq<Dependency>, u: Spot)
    requires Collected(lock, start, stack, deps) && d in deps
    ensures IsChain(lock, start, c) && u == End(start, c) && Visited(start, deps, u)
    ensures Edge(lock, u.at, u.package, d)
    ensures ValidName(d.name) && ValidSpot(SpotOf(d)) && ValidPath(d.located.at)
  {
    var whole := CollectedIsReachable(lock, start, stack, d);
    var last := |whole| - 1;
    ChainAt(lock, start, whole, last);
    ValidChain(lock, start, whole, last);
    assert d.located.at.path == d.Node().path[..|d.located.at.path|];
    c, u := whole[..last], End(start, whole[..last]);
    if c != [] {
      ReachableIsCollected(lock, start, stack, c);
    }
  }

  lemma VisitedChain(lock: map<Key, Package>, start: Spot, stack: nat, deps: seq<Dependency>, u: Spot)
    returns (c: seq<Dependency>)
    requires Collected(lock, start, stack, deps) && Visited(start, deps, u)
    ensures IsChain(lock, start, c) && u == End(start, c)
  {
    if u == start {
      c := [];
    } else {
      var d :| d in deps && u == SpotOf(d);
      c := CollectedIsReachable(lock, start, stack, d);
    }
  }

  lemma Closure(lock: map<Key, Package>, start: Spot, stack: nat, deps: seq<Dependency>, u: Spot, e: Dependency)
    requires Collected(lock, start, stack, deps) && Visited(start, deps, u) && Edge(lock, u.at, u.package, e)
    ensures e in deps
  {
    var c := VisitedChain(lock, start, stack, deps, u);
    var want := if (e.name, true) in Wants(u.package) then (e.name, true) else (e.name, false);
    ResultIsClosed(lock, start, stack, c, want);
  }

  /** A dependency lies next to or above its dependant, or at the root. */
  predicate FoundFrom(lock: map<Key, Package>, at: PackagePath, e: Dependency) {
    && Has(lock, e.located.at, e.name)
    && if e.located.at.workspace == at.workspace then
         && e.located.dependant == at
         && e.located.at.path <= at.path
         && Misses(lock, at, |e.located.at.path| + 1, e.name)
       else e.located.at == e.located.dependant == ROOT && Misses(lock, at, 0, e.name)
  }

  lemma EdgeIsFound(lock: map<Key, Package>, u: Spot, e: Dependency)
    requires Edge(lock, u.at, u.package, e)
    ensures FoundFrom(lock, u.at, e)
  {
    LocateIsNearest(lock, u.at, e.name);
  }

  lemma {:induction false} WorkspaceOfChain(lock: map<Key, Package>, start: Spot, c: seq<Dependency>)
    requires IsChain(lock, start, c)
    ensures End(start, c).at.workspace in {start.at.workspace, None}
    decreases |c|
  {
    if c == [] {
    } else {
      var last := |c| - 1;
      ChainAt(lock, start, c, last);
      WorkspaceOfChain(lock, start, c[..last]);
      EdgeIsFound(lock, End(start, c[..last]), c[last]);
    }
  }

  lemma WorkspaceOfEntry(lock: map<Key, Package>, start: Spot, stack: nat, deps: seq<Dependency>, d: Dependency)
    requires Collected(lock, start, stack, deps) && d in deps
    ensures d.located.at.workspace in {start.at.workspace, None}
    ensures Has(lock, d.located.at, d.name) && d.Package() == Follow(lock, lock[KeyOf(d.Node())])
  {
    var c, u := Origin(lock, start, stack, deps, d);
    WorkspaceOfChain(lock, start, c);
    EdgeIsFound(lock, u, d);
    EdgeFacts(lock, u.at, u.package, d);
  }

  lemma WorkspaceOfVisited(lock: map<Key, Package>, start: Spot, stack: nat, deps: seq<Dependency>, u: Spot)
    requires Collected(lock, start, stack, deps) && Visited(start, deps, u)
    ensures u.at.workspace in {start.at.workspace, None}
  {
    var c := VisitedChain(lock, start, stack, deps, u);
    WorkspaceOfChain(lock, start, c);
  }

  /***** The packages of the new lockfile *****/

  lemma {:induction false} EntriesOf(moved: seq<Dependency>, key: Key)
    ensures key in FromEntries(moved) <==> exists i :: 0 <= i < |moved| && KeyOf(moved[i].Node()) == key
    ensures key in FromEntries(moved) ==>
              exists i :: 0 <= i < |moved| && KeyOf(moved[i].Node()) == key
                          && FromEntries(moved)[key] == moved[i].Package()
  {
    if moved == [] {
    } else {
      var last := |moved| - 1;
      EntriesOf(moved[..last], key);
      assert KeyOf(moved[last].Node()) == key ==> FromEntries(moved)[key] == moved[last].Package();
      if key in FromEntries(moved[..last]) && KeyOf(moved[last].Node()) != key {
        var i :| 0 <= i < last && KeyOf(moved[..last][i].Node()) == key
          && FromEntries(moved[..last])[key] == moved[..last][i].Package();
        assert moved[i] == moved[..last][i];
      }
    }
  }

  /** The new lockfile has an entry below a key exactly if a dependency was moved there, and its package with it. */
  lemma DerivedOf(package: Package, deps: seq<Dependency>, at: PackagePath, name: Name)
    ensures at.workspace.None? && Has(Derived(package, deps), at, name) ==>
              exists d :: d in deps && KeyOf(Child(NewFolder(deps, d), d.name)) == KeyOf(Child(at, name))
                          && Derived(package, deps)[KeyOf(Child(at, name))] == d.Package()
    ensures forall d :: d in deps ==> Has(Derived(package, deps), NewFolder(deps, d), d.name)
  {
    var moved := Relocate(deps);
    var key := KeyOf(Child(at, name));
    EntriesOf(moved, key);
    if at.workspace.None? && Has(Derived(package, deps), at, name) {
      assert key != [];
      var i :| 0 <= i < |moved| && KeyOf(moved[i].Node()) == key && FromEntries(moved)[key] == moved[i].Package();
      var d := deps[i];
      assert d in deps && KeyOf(Child(NewFolder(deps, d), d.name)) == key;
    }
    forall d | d in deps
      ensures Has(Derived(package, deps), NewFolder(deps, d), d.name)
    {
      var i :| 0 <= i < |deps| && deps[i] == d;
      EntriesOf(moved, KeyOf(moved[i].Node()));
    }
  }

  lemma NewPlaceIsValid(lock: map<Key, Package>, start: Spot, stack: nat, deps: seq<Dependency>, d: Dependency)
    requires Collected(lock, start, stack, deps) && d in deps
    ensures ValidPath(Child(NewFolder(deps, d), d.name))
  {
    var c, u := Origin(lock, start, stack, deps, d);
    EdgeIsFound(lock, u, d);
    VisitedIsValid(lock, start, stack, deps, u);
  }

  lemma VisitedIsValid(lock: map<Key, Package>, start: Spot, stack: nat, deps: seq<Dependency>, u: Spot)
    requires Collected(lock, start, stack, deps) && Visited(start, deps, u)
    ensures ValidSpot(u)
  {
    if u != start {
      var d :| d in deps && u == SpotOf(d);
      var c, v := Origin(lock, start, stack, deps, d);
    }
  }

  lemma FoldersDiffer(a: PackagePath, b: PackagePath, n: Name, m: Name)
    requires Child(a, n) == Child(b, m)
    ensures a == b && n == m
  {
    assert Child(a, n).path[..|a.path|] == a.path && Child(b, m).path[..|b.path|] == b.path;
    assert Child(a, n).path[|a.path|] == n && Child(b, m).path[|b.path|] == m;
  }

  /** From its new place a package finds the new place of a dependency, with the package it found before. */
  predicate Resolves(derived: map<Key, Package>, deps: seq<Dependency>, at: PackagePath, e: Dependency) {
    Locate(derived, at, e.name) == Some(LocatedPackage(at, NewFolder(deps, e), e.Package()))
  }

  /** One of the collected packages depends on another. */
  predicate Needs(lock: map<Key, Package>, deps: seq<Dependency>, d: Dependency, e: Dependency) {
    d in deps && Edge(lock, d.Node(), d.Package(), e)
  }

  /** The meaning of the lockfile survives: everything a package could load, the workspace included, it still loads from
      its new place. */
  ghost predicate Faithful(lock: map<Key, Package>, start: Spot, deps: seq<Dependency>, derived: map<Key, Package>) {
    && (forall e :: Edge(lock, start.at, start.package, e) ==> e in deps && Resolves(derived, deps, ROOT, e))
    && (forall d, e :: Needs(lock, deps, d, e) ==>
          e in deps && Resolves(derived, deps, Child(NewFolder(deps, d), d.name), e))
  }

  lemma ResolvedPackage(derived: map<Key, Package>, deps: seq<Dependency>, at: PackagePath, e: Dependency)
    requires Resolves(derived, deps, at, e)
    ensures Has(derived, NewFolder(deps, e), e.name)
    ensures derived[KeyOf(Child(NewFolder(deps, e), e.name))] == e.Package()
  {
    LocateIsNearest(derived, at, e.name);
  }

  lemma FaithfulPackage(lock: map<Key, Package>, start: Spot, stack: nat, deps: seq<Dependency>,
                        derived: map<Key, Package>, e: Dependency)
    requires Collected(lock, start, stack, deps) && Faithful(lock, start, deps, derived) && e in deps
    ensures Has(derived, NewFolder(deps, e), e.name)
    ensures derived[KeyOf(Child(NewFolder(deps, e), e.name))] == e.Package()
  {
    var c, u := Origin(lock, start, stack, deps, e);
    if u == start {
      ResolvedPackage(derived, deps, ROOT, e);
    } else {
      var d :| d in deps && u == SpotOf(d);
      assert Needs(lock, deps, d, e);
      ResolvedPackage(derived, deps, Child(NewFolder(deps, d), d.name), e);
    }
  }

  /***** When the meaning survives: an exact condition for every lockfile *****/

  /** Whatever meets at one place of the new lockfile is the same package. */
  predicate MovedAgree(deps: seq<Dependency>) {
    forall d, e :: d in deps && e in deps && Child(NewFolder(deps, d), d.name) == Child(NewFolder(deps, e), e.name) ==>
                     d.Package() == e.Package()
  }

  /** The new folder of a dependency lies on the way up from the new place of the dependant. */
  predicate OnTheWay(deps: seq<Dependency>, at: PackagePath, e: Dependency) {
    NewFolder(deps, e).path <= at.path
  }

  /** A package of the same name has been moved to a folder that comes first on that way. */
  predicate Nearer(deps: seq<Dependency>, at: PackagePath, e: Dependency, s: Dependency) {
    s.name == e.name && |NewFolder(deps, e).path| < |NewFolder(deps, s).path| && NewFolder(deps, s).path <= at.path
  }

  predicate InReach(deps: seq<Dependency>, at: PackagePath, e: Dependency) {
    OnTheWay(deps, at, e) && forall s :: s in deps ==> !Nearer(deps, at, e, s)
  }

  /** Everything a package could load is in reach of its new place. */
  ghost predicate AllInReach(lock: map<Key, Package>, start: Spot, deps: seq<Dependency>) {
    && (forall e :: Edge(lock, start.at, start.package, e) ==> InReach(deps, ROOT, e))
    && (forall d, e :: Needs(lock, deps, d, e) ==>
          InReach(deps, Child(NewFolder(deps, d), d.name), e))
  }

  /** If the packages that meet are the same, what stands at the new place of a dependency is its package. */
  lemma DerivedPackage(lock: map<Key, Package>, start: Spot, stack: nat, deps: seq<Dependency>, e: Dependency)
    requires Collected(lock, start, stack, deps) && MovedAgree(deps) && e in deps
    ensures var derived := Derived(start.package, deps);
            Has(derived, NewFolder(deps, e), e.name)
            && derived[KeyOf(Child(NewFolder(deps, e), e.name))] == e.Package()
  {
    DerivedOf(start.package, deps, NewFolder(deps, e), e.name);
    var key := KeyOf(Child(NewFolder(deps, e), e.name));
    var d :| d in deps && KeyOf(Child(NewFolder(deps, d), d.name)) == key
             && Derived(start.package, deps)[key] == d.Package();
    NewPlaceIsValid(lock, start, stack, deps, d);
    NewPlaceIsValid(lock, start, stack, deps, e);
    KeyInjective(Child(NewFolder(deps, d), d.name), Child(NewFolder(deps, e), e.name));
  }

  /** A folder of the new lockfile has a package of some name only if one was moved there. */
  lemma SomeoneMoved(lock: map<Key, Package>, start: Spot, stack: nat, deps: seq<Dependency>, at: PackagePath,
                     name: Name)
    returns (s: Dependency)
    requires Collected(lock, start, stack, deps) && at.workspace.None? && ValidPath(at) && ValidName(name)
    requires Has(Derived(start.package, deps), at, name)
    ensures s in deps && s.name == name && NewFolder(deps, s) == at
  {
    DerivedOf(start.package, deps, at, name);
    s :| s in deps && KeyOf(Child(NewFolder(deps, s), s.name)) == KeyOf(Child(at, name));
    NewPlaceIsValid(lock, start, stack, deps, s);
    KeyInjective(Child(NewFolder(deps, s), s.name), Child(at, name));
    FoldersDiffer(NewFolder(deps, s), at, s.name, name);
  }

  lemma NameIsValid(lock: map<Key, Package>, start: Spot, stack: nat, deps: seq<Dependency>, e: Dependency)
    requires Collected(lock, start, stack, deps) && e in deps
    ensures ValidName(e.name)
  {
    var c, u := Origin(lock, start, stack, deps, e);
  }

  /** In reach means found. */
  lemma InReachResolves(lock: map<Key, Package>, start: Spot, stack: nat, deps: seq<Dependency>, at: PackagePath,
                        e: Dependency)
    requires Collected(lock, start, stack, deps) && MovedAgree(deps) && e in deps
    requires at.workspace.None? && ValidPath(at) && InReach(deps, at, e)
    ensures Resolves(Derived(start.package, deps), deps, at, e)
  {
    DerivedPackage(lock, start, stack, deps, e);
    NameIsValid(lock, start, stack, deps, e);
    var derived, l := Derived(start.package, deps), LocatedPackage(at, NewFolder(deps, e), e.Package());
    forall j | |l.at.path| + 1 <= j <= |at.path|
      ensures !Has(derived, Upto(at, j), e.name)
    {
      if Has(derived, Upto(at, j), e.name) {
        var s := SomeoneMoved(lock, start, stack, deps, Upto(at, j), e.name);
        assert Nearer(deps, at, e, s);
      }
    }
    NearestIsLocated(derived, at, e.name, l);
  }

  /** ... and found means in reach. */
  lemma ResolvesInReach(package: Package, deps: seq<Dependency>, at: PackagePath, e: Dependency)
    requires at.workspace.None? && Resolves(Derived(package, deps), deps, at, e)
    ensures InReach(deps, at, e)
  {
    var derived := Derived(package, deps);
    LocateIsNearest(derived, at, e.name);
    DerivedOf(package, deps, at, e.name);
    forall s | s in deps
      ensures !Nearer(deps, at, e, s)
    {
      if NewFolder(deps, s).path <= at.path {
        assert NewFolder(deps, s) == Upto(at, |NewFolder(deps, s).path|);
      }
    }
  }

  lemma FaithfulMeansAgree(lock: map<Key, Package>, start: Spot, stack: nat, deps: seq<Dependency>)
    requires Collected(lock, start, stack, deps) && Faithful(lock, start, deps, Derived(start.package, deps))
    ensures MovedAgree(deps)
  {
    var derived := Derived(start.package, deps);
    forall d, e | d in deps && e in deps && Child(NewFolder(deps, d), d.name) == Child(NewFolder(deps, e), e.name)
      ensures d.Package() == e.Package()
    {
      FaithfulPackage(lock, start, stack, deps, derived, d);
      FaithfulPackage(lock, start, stack, deps, derived, e);
    }
  }

  lemma FaithfulMeansInReach(lock: map<Key, Package>, start: Spot, deps: seq<Dependency>)
    requires Faithful(lock, start, deps, Derived(start.package, deps))
    ensures AllInReach(lock, start, deps)
  {
    forall e | Edge(lock, start.at, start.package, e)
      ensures InReach(deps, ROOT, e)
    {
      ResolvesInReach(start.package, deps, ROOT, e);
    }
    forall d, e | Needs(lock, deps, d, e)
      ensures InReach(deps, Child(NewFolder(deps, d), d.name), e)
    {
      ResolvesInReach(start.package, deps, Child(NewFolder(deps, d), d.name), e);
    }
  }

  lemma InReachMeansFaithful(lock: map<Key, Package>, start: Spot, stack: nat, deps: seq<Dependency>)
    requires Collected(lock, start, stack, deps) && MovedAgree(deps) && AllInReach(lock, start, deps)
    ensures Faithful(lock, start, deps, Derived(start.package, deps))
  {
    var derived := Derived(start.package, deps);
    forall e | Edge(lock, start.at, start.package, e)
      ensures e in deps && Resolves(derived, deps, ROOT, e)
    {
      Closure(lock, start, stack, deps, start, e);
      InReachResolves(lock, start, stack, deps, ROOT, e);
    }
    forall d, e | Needs(lock, deps, d, e)
      ensures e in deps && Resolves(derived, deps, Child(NewFolder(deps, d), d.name), e)
    {
      Closure(lock, start, stack, deps, SpotOf(d), e);
      NewPlaceIsValid(lock, start, stack, deps, d);
      InReachResolves(lock, start, stack, deps, Child(NewFolder(deps, d), d.name), e);
    }
  }

  /** For every lockfile: the derived lockfile means what the original one means exactly if packages that meet are the
      same, and from the new place of each dependant the new folder of each of its dependencies lies on the way up with
      no moved package of that name in a nearer folder. */
  lemma FaithfulIff(lock: map<Key, Package>, start: Spot, stack: nat, deps: seq<Dependency>)
    requires Collected(lock, start, stack, deps)
    ensures Faithful(lock, start, deps, Derived(start.package, deps)) <==>
            MovedAgree(deps) && AllInReach(lock, start, deps)
  {
    if Faithful(lock, start, deps, Derived(start.package, deps)) {
      FaithfulMeansAgree(lock, start, stack, deps);
      FaithfulMeansInReach(lock, start, deps);
    }
    if MovedAgree(deps) && AllInReach(lock, start, deps) {
      InReachMeansFaithful(lock, start, stack, deps);
    }
  }

  lemma NoEmptyKey(moved: seq<Dependency>)
    ensures [] !in FromEntries(moved)
  {
    EntriesOf(moved, []);
    forall i | 0 <= i < |moved|
      ensures KeyOf(moved[i].Node()) != []
    {
      assert Flat(moved[i].Node().path) != [];
    }
  }

  /***** The new lockfile as a whole *****/

  /** Where a dependency goes: out of the workspace it keeps its path, except that one found directly in the workspace,
      with a namesake found directly in the root, goes below the outermost package of its dependant. */
  lemma NewFolderIs(deps: seq<Dependency>, d: Dependency)
    ensures d.located.at.workspace.None? || d.located.at.path != [] ==>
              NewFolder(deps, d) == PackagePath(None, d.located.at.path)
    ensures d.located.at.workspace.Some? && d.located.at.path == [] ==>
              var path := d.located.dependant.path;
              var shared := exists e :: e in deps && e.name == d.name && e.located.at == PackagePath(None, []);
              NewFolder(deps, d) == PackagePath(None, if shared && path != [] then [path[0]] else [])
  {
  }

  /** Of the packages that are moved to one place the last one stays. */
  lemma {:induction false} LastStays(moved: seq<Dependency>, i: nat)
    requires i < |moved|
    requires forall j :: i < j < |moved| ==> KeyOf(moved[j].Node()) != KeyOf(moved[i].Node())
    ensures KeyOf(moved[i].Node()) in FromEntries(moved)
    ensures FromEntries(moved)[KeyOf(moved[i].Node())] == moved[i].Package()
    decreases |moved|
  {
    var last := |moved| - 1;
    if i < last {
      assert KeyOf(moved[last].Node()) != KeyOf(moved[i].Node());
      LastStays(moved[..last], i);
    }
  }

  /** The key under which dependency i stands in the new lockfile. */
  function NewKey(deps: seq<Dependency>, i: nat): Key
    requires i < |deps|
  {
    KeyOf(PackagePath(None, NewFolder(deps, deps[i]).path + [deps[i].name]))
  }

  /** No later dependency goes to the same place. */
  predicate IsLast(deps: seq<Dependency>, i: nat)
    requires i < |deps|
  {
    forall j :: i < j < |deps| ==> NewKey(deps, j) != NewKey(deps, i)
  }

  /** deriveLockfile as a function: when it fails, and what it returns. */
  lemma DerivedExactly(lock: map<Key, Package>, workspace: Key, stack: nat)
    ensures var r := DeriveLockfile(lock, workspace, stack);
            if workspace !in lock then r == Err(NoSuchWorkspace)
            else if lock[workspace].name == None then r == Err(NameMissing)
            else
              var deps := CollectDeps(lock, PackagePath(Some(workspace), []), lock[workspace], stack);
              if deps.Err? then r == Err(deps.error)
              else
                && r.Ok? && r.value.name == lock[workspace].name && r.value.version == lock[workspace].version
                && r.value.lockfileVersion == 3 && r.value.hasRequires
                && (forall key :: key in r.value.packages <==>
                                    key == [] || exists i :: 0 <= i < |deps.value| && NewKey(deps.value, i) == key)
                && (forall i :: 0 <= i < |deps.value| && IsLast(deps.value, i) ==>
                                  NewKey(deps.value, i) in r.value.packages &&
                                  r.value.packages[NewKey(deps.value, i)] == deps.value[i].Package())
                && [] in r.value.packages && r.value.packages[[]] == lock[workspace]
  {
    if workspace in lock && lock[workspace].name.Some? {
      var deps := CollectDeps(lock, PackagePath(Some(workspace), []), lock[workspace], stack);
      if deps.Ok? {
        PackagesAre(lock[workspace], deps.value);
      }
    }
  }

  lemma PackagesAre(package: Package, deps: seq<Dependency>)
    ensures forall key :: key in Derived(package, deps) <==>
                            key == [] || exists i :: 0 <= i < |deps| && NewKey(deps, i) == key
    ensures forall i :: 0 <= i < |deps| && IsLast(deps, i) ==>
                          NewKey(deps, i) in Derived(package, deps) &&
                          Derived(package, deps)[NewKey(deps, i)] == deps[i].Package()
    ensures [] in Derived(package, deps) && Derived(package, deps)[[]] == package
  {
    var moved := FromEntries(Relocate(deps));
    forall key
      ensures key in moved <==> exists i :: 0 <= i < |deps| && NewKey(deps, i) == key
    {
      SomeoneThere(deps, key);
    }
    forall i | 0 <= i < |deps| && IsLast(deps, i)
      ensures NewKey(deps, i) in moved && moved[NewKey(deps, i)] == deps[i].Package()
    {
      LastThere(deps, i);
    }
    NoEmptyKey(Relocate(deps));
  }

  lemma MovedKey(deps: seq<Dependency>, i: nat)
    requires i < |deps|
    ensures KeyOf(Relocate(deps)[i].Node()) == NewKey(deps, i) && Relocate(deps)[i].Package() == deps[i].Package()
  {
  }

  lemma SomeoneThere(deps: seq<Dependency>, key: Key)
    ensures key in FromEntries(Relocate(deps)) <==> exists i :: 0 <= i < |deps| && NewKey(deps, i) == key
  {
    var moved := Relocate(deps);
    EntriesOf(moved, key);
    forall i | 0 <= i < |deps|
      ensures KeyOf(moved[i].Node()) == NewKey(deps, i)
    {
      MovedKey(deps, i);
    }
  }

  lemma LastThere(deps: seq<Dependency>, i: nat)
    requires i < |deps| && IsLast(deps, i)
    ensures NewKey(deps, i) in FromEntries(Relocate(deps))
    ensures FromEntries(Relocate(deps))[NewKey(deps, i)] == deps[i].Package()
  {
    var moved := Relocate(deps);
    forall j | i <= j < |deps|
      ensures KeyOf(moved[j].Node()) == NewKey(deps, j)
    {
      MovedKey(deps, j);
    }
    MovedKey(deps, i);
    LastStays(moved, i);
  }

  /** Everything the workspace or a collected package demands has an entry in the new lockfile, where what the search
      found was moved to. */
  lemma DerivedHasDemands(lock: map<Key, Package>, workspace: Key, stack: nat, c: seq<Dependency>, name: Name)
    requires workspace in lock && DeriveLockfile(lock, workspace, stack).Ok?
    requires IsChain(lock, Spot(PackagePath(Some(workspace), []), lock[workspace]), c)
    requires var p := End(Spot(PackagePath(Some(workspace), []), lock[workspace]), c).package;
             name in p.dependencies || name in p.devDependencies ||
             (name in p.peerDependencies && name !in p.optionalPeers)
    ensures var start := Spot(PackagePath(Some(workspace), []), lock[workspace]);
            var deps := CollectDeps(lock, start.at, start.package, stack);
            var l := Locate(lock, End(start, c).at, name);
            && deps.Ok? && l.Some? && Entry(lock, l.value, name) in deps.value
            && KeyOf(PackagePath(None, NewFolder(deps.value, Entry(lock, l.value, name)).path + [name])) in
               DeriveLockfile(lock, workspace, stack).value.packages
  {
    var start := Spot(PackagePath(Some(workspace), []), lock[workspace]);
    DemandsAreMet(lock, start, stack, c, name);
    var deps := CollectDeps(lock, start.at, start.package, stack).value;
    var e := Entry(lock, Locate(lock, End(start, c).at, name).value, name);
    var i :| 0 <= i < |deps| && deps[i] == e;
    assert NewKey(deps, i) == KeyOf(PackagePath(None, NewFolder(deps, e).path + [name]));
    DerivedExactly(lock, workspace, stack);
  }
}
