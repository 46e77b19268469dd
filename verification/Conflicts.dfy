/** Names that are taken both from the workspace and from the root: which of them break the derived lockfile. */
module Conflicts {
  import opened Ordering
  import opened Lockfiles
  import opened Dependencies
  import opened Relocation

  /** A conflicting package that really gets a folder of its own: its dependant is not the workspace itself. */
  predicate Pushed(deps: seq<Dependency>, d: Dependency) {
    Conflicting(deps, d) && d.located.dependant.path != []
  }

  /** A conflicting direct dependency of the workspace, and its namesake at the root. */
  predicate Meet(deps: seq<Dependency>, d: Dependency, e: Dependency) {
    && Conflicting(deps, d) && !Pushed(deps, d) && e.name == d.name && e.located.at == ROOT
  }

  /** A conflicting package that is a direct dependency of the workspace is the same as its namesake at the root. */
  predicate DirectConflictsAgree(deps: seq<Dependency>) {
    forall d, e :: d in deps && e in deps && Meet(deps, d, e) ==> d.Package() == e.Package()
  }

  ghost predicate DirectConflictsAreLeaves(lock: map<Key, Package>, deps: seq<Dependency>) {
    forall d, e :: Needs(lock, deps, d, e) ==> !Conflicting(deps, d) || Pushed(deps, d)
  }

  /** No pushed package has a dependency below itself. */
  ghost predicate NothingNested(lock: map<Key, Package>, deps: seq<Dependency>) {
    forall d, e :: Needs(lock, deps, d, e) && Pushed(deps, d) ==> e.located.at != d.Node()
  }

  /** No pushed package depends on a pushed package. */
  ghost predicate NothingChained(lock: map<Key, Package>, deps: seq<Dependency>) {
    forall d, e :: Needs(lock, deps, d, e) && Pushed(deps, d) ==> !Pushed(deps, e)
  }

  /** A package in the way of what a pushed package looks for: below the top folder it is pushed into, be it that of the
      workspace or that of the root, or below its namesake there. */
  predicate InTheWay(d: Dependency, s: Dependency)
    requires d.located.dependant.path != []
  {
    var top := d.located.dependant.path[0];
    s.located.at in
      {PackagePath(d.located.at.workspace, [top]), PackagePath(None, [top]), PackagePath(None, [top, d.name])}
  }

  ghost predicate NothingShadowed(lock: map<Key, Package>, deps: seq<Dependency>) {
    forall d, e, s :: Needs(lock, deps, d, e) && Pushed(deps, d) && s in deps && s.name == e.name ==>
                        !InTheWay(d, s)
  }

  /***** Facts *****/

  /** Whoever sits below a folder was reached through the package of that folder. */
  lemma {:induction false} ChainPasses(lock: map<Key, Package>, start: Spot, c: seq<Dependency>, k: nat)
    returns (i: nat)
    requires IsChain(lock, start, c) && start.at.path == [] && 0 < k <= |End(start, c).at.path|
    ensures i < |c| && c[i].Node() == Upto(End(start, c).at, k)
    ensures k < |End(start, c).at.path| ==> i + 1 < |c|
    decreases |c|
  {
    var last := |c| - 1;
    var d := c[last];
    if k == |d.Node().path| {
      i := last;
      assert d.Node().path[..k] == d.Node().path;
    } else {
      ChainAt(lock, start, c, last);
      var before := End(start, c[..last]);
      EdgeIsFound(lock, before, d);
      assert d.Node().path[..k] == d.located.at.path[..k] == before.at.path[..k];
      i := ChainPasses(lock, start, c[..last], k);
    }
  }

  /** All folders on the way to a collected package are collected packages themselves. */
  lemma FolderIsCollected(lock: map<Key, Package>, start: Spot, stack: nat, deps: seq<Dependency>, u: Spot, k: nat)
    returns (p: Dependency)
    requires Collected(lock, start, stack, deps) && Visited(start, deps, u) && 0 < k <= |u.at.path|
    ensures p in deps && p.Node() == Upto(u.at, k)
  {
    var c := VisitedChain(lock, start, stack, deps, u);
    var i := ChainPasses(lock, start, c, k);
    ChainSplit(lock, start, c, i + 1);
    ReachableIsCollected(lock, start, stack, c[..i + 1]);
    p := c[i];
  }

  lemma AtTop(d: Dependency, workspace: Option<Key>, name: Name)
    requires d.Node() == PackagePath(workspace, [name])
    ensures d.located.at == PackagePath(workspace, []) && d.name == name
  {
    assert d.Node().path[|d.located.at.path|] == d.name;
    assert d.located.at.path == d.Node().path[..|d.located.at.path|];
  }

  /** Whatever lies below the root lies below a package at the top of its node_modules. */
  lemma TopOfRootIsThere(lock: map<Key, Package>, start: Spot, stack: nat, deps: seq<Dependency>, u: Spot)
    requires Collected(lock, start, stack, deps) && Visited(start, deps, u)
    requires u.at.workspace.None? && u.at.path != []
    ensures AtRoot(deps, u.at.path[0])
  {
    var p := FolderIsCollected(lock, start, stack, deps, u, 1);
    assert Upto(u.at, 1) == PackagePath(None, [u.at.path[0]]);
    AtTop(p, None, u.at.path[0]);
  }

  /** Where a pushed package comes from and goes to. */
  lemma PushedFacts(lock: map<Key, Package>, start: Spot, stack: nat, deps: seq<Dependency>, d: Dependency)
    returns (u: Spot, top: Name)
    requires Collected(lock, start, stack, deps) && d in deps && Pushed(deps, d)
    ensures Visited(start, deps, u) && Edge(lock, u.at, u.package, d) && d.located.dependant == u.at
    ensures u.at.workspace == start.at.workspace && u.at.path != [] && u.at.path[0] == top
    ensures d.located.at == start.at && NewFolder(deps, d) == PackagePath(None, [top])
    ensures !Has(lock, PackagePath(start.at.workspace, [top]), d.name)
  {
    var c;
    c, u := Origin(lock, start, stack, deps, d);
    EdgeIsFound(lock, u, d);
    WorkspaceOfEntry(lock, start, stack, deps, d);
    top := u.at.path[0];
    assert u.at.path[..1] == [top];
    assert !Has(lock, Upto(u.at, 1), d.name);
  }

  /** A package is never pushed below itself: that would take a cycle. */
  lemma PushedElsewhere(lock: map<Key, Package>, start: Spot, stack: nat, deps: seq<Dependency>, d: Dependency)
    requires Collected(lock, start, stack, deps) && d in deps && Pushed(deps, d)
    ensures d.located.dependant.path[0] != d.name
  {
    var c, u := Origin(lock, start, stack, deps, d);
    EdgeIsFound(lock, u, d);
    WorkspaceOfEntry(lock, start, stack, deps, d);
    if u.at.path[0] == d.name {
      var i := ChainPasses(lock, start, c, 1);
      assert Upto(u.at, 1) == d.Node();
      ExtendChain(lock, start, c, d);
      var whole := c + [d];
      assert whole[i].Node() == whole[|c|].Node();
      CyclicNeverReturns(lock, start, stack);
    }
  }

  lemma ExtendChain(lock: map<Key, Package>, start: Spot, c: seq<Dependency>, d: Dependency)
    requires IsChain(lock, start, c) && Edge(lock, End(start, c).at, End(start, c).package, d)
    ensures IsChain(lock, start, c + [d])
  {
    assert [d][1..] == [];
    ChainAppend(lock, start, c, [d]);
  }

  /***** Dependants that are pushed *****/

  /** What a pushed package depends on goes to its own new folder, as seen from where it was, or to the top. */
  lemma DependencyOfPushed(lock: map<Key, Package>, start: Spot, stack: nat, deps: seq<Dependency>, d: Dependency,
                           e: Dependency)
    requires Collected(lock, start, stack, deps) && d in deps && Pushed(deps, d) && Edge(lock, d.Node(), d.Package(), e)
    ensures NewFolder(deps, e) ==
            PackagePath(None, if e.located.at == d.Node() || Pushed(deps, e) then [d.name] else [])
    ensures e.located.at in {d.Node(), start.at, ROOT}
  {
    EdgeIsFound(lock, SpotOf(d), e);
    WorkspaceOfEntry(lock, start, stack, deps, d);
    assert d.Node().path == [d.name] && [d.name][..1] == [d.name];
    var k := |e.located.at.path|;
    assert k == 1 && e.located.at.workspace.Some? ==> e.located.at.path == d.Node().path[..1];
  }

  lemma PlaceOfPushed(lock: map<Key, Package>, start: Spot, stack: nat, deps: seq<Dependency>, d: Dependency)
    requires Collected(lock, start, stack, deps) && d in deps && Pushed(deps, d)
    ensures Child(NewFolder(deps, d), d.name) == PackagePath(None, [d.located.dependant.path[0], d.name])
    ensures d.located.dependant.path[0] != d.name
  {
    var u, top := PushedFacts(lock, start, stack, deps, d);
    PushedElsewhere(lock, start, stack, deps, d);
  }

  /** A pushed package leaves behind exactly what was nested below it and what was pushed on its account. */
  lemma OnTheWayOfPushed(lock: map<Key, Package>, start: Spot, stack: nat, deps: seq<Dependency>, d: Dependency,
                         e: Dependency)
    requires Collected(lock, start, stack, deps) && d in deps && Pushed(deps, d) && Edge(lock, d.Node(), d.Package(), e)
    ensures OnTheWay(deps, Child(NewFolder(deps, d), d.name), e) <==> e.located.at != d.Node() && !Pushed(deps, e)
  {
    DependencyOfPushed(lock, start, stack, deps, d, e);
    PlaceOfPushed(lock, start, stack, deps, d);
  }

  /** Nothing can be in the folder of the workspace where a pushed package goes. */
  lemma NotBelowPushed(lock: map<Key, Package>, start: Spot, stack: nat, deps: seq<Dependency>, d: Dependency,
                       s: Dependency)
    requires Collected(lock, start, stack, deps) && d in deps && Pushed(deps, d) && s in deps
    ensures s.located.at != PackagePath(start.at.workspace, [d.located.dependant.path[0], d.name])
  {
    var u, top := PushedFacts(lock, start, stack, deps, d);
    if s.located.at == PackagePath(start.at.workspace, [top, d.name]) {
      var p := FolderIsCollected(lock, start, stack, deps, SpotOf(s), 2);
      assert Upto(s.Node(), 2) == s.located.at == Child(PackagePath(start.at.workspace, [top]), d.name);
      WorkspaceOfEntry(lock, start, stack, deps, p);
    }
  }

  /** From the new place of a pushed package, what comes before a dependency that goes to the top is what is in the
      way. */
  lemma NearerOfPushed(lock: map<Key, Package>, start: Spot, stack: nat, deps: seq<Dependency>, d: Dependency,
                       e: Dependency, s: Dependency)
    requires Collected(lock, start, stack, deps) && d in deps && Pushed(deps, d) && Edge(lock, d.Node(), d.Package(), e)
    requires e.located.at != d.Node() && !Pushed(deps, e) && s in deps && s.name == e.name
    ensures Nearer(deps, Child(NewFolder(deps, d), d.name), e, s) <==> InTheWay(d, s)
  {
    DependencyOfPushed(lock, start, stack, deps, d, e);
    PlaceOfPushed(lock, start, stack, deps, d);
    var u, top := PushedFacts(lock, start, stack, deps, d);
    WorkspaceOfEntry(lock, start, stack, deps, s);
    NotBelowPushed(lock, start, stack, deps, d, s);
    SameNameNotPushed(lock, start, stack, deps, d, e, s);
    var p := s.located.at.path;
    assert p <= [top, d.name] && |p| == 1 ==> p == [top];
    assert p <= [top, d.name] && |p| == 2 ==> p == [top, d.name];
  }

  /** If a dependency of a pushed package is not pushed, no package of its name is. */
  lemma SameNameNotPushed(lock: map<Key, Package>, start: Spot, stack: nat, deps: seq<Dependency>, d: Dependency,
                          e: Dependency, s: Dependency)
    requires Collected(lock, start, stack, deps) && d in deps && Pushed(deps, d) && Edge(lock, d.Node(), d.Package(), e)
    requires e.located.at != d.Node() && !Pushed(deps, e) && s in deps && s.name == e.name
    ensures !Pushed(deps, s)
  {
    DependencyOfPushed(lock, start, stack, deps, d, e);
    EdgeIsFound(lock, SpotOf(d), e);
    WorkspaceOfEntry(lock, start, stack, deps, s);
    WorkspaceOfEntry(lock, start, stack, deps, d);
    assert Upto(d.Node(), 0) == PackagePath(d.located.at.workspace, []);
  }

  /***** Dependants that are not pushed *****/

  /** The workspace, or a package that goes straight up. */
  predicate Stays(start: Spot, deps: seq<Dependency>, u: Spot) {
    u == start || exists v :: v in deps && !Pushed(deps, v) && u == SpotOf(v)
  }

  /** From the new place of a package that is not pushed, all its dependencies lie on the way. */
  lemma OnTheWayOfPlain(lock: map<Key, Package>, u: Spot, deps: seq<Dependency>, e: Dependency)
    requires Edge(lock, u.at, u.package, e)
    ensures OnTheWay(deps, PackagePath(None, u.at.path), e)
  {
    EdgeIsFound(lock, u, e);
  }

  /** Every dependency lies on the way. */
  ghost predicate AllOnTheWay(lock: map<Key, Package>, start: Spot, deps: seq<Dependency>) {
    && (forall e :: Edge(lock, start.at, start.package, e) ==> OnTheWay(deps, ROOT, e))
    && (forall d, e :: Needs(lock, deps, d, e) ==>
          OnTheWay(deps, Child(NewFolder(deps, d), d.name), e))
  }

  lemma NewPlaceOfPlain(deps: seq<Dependency>, d: Dependency)
    requires !Pushed(deps, d)
    ensures Child(NewFolder(deps, d), d.name) == PackagePath(None, d.Node().path)
  {
  }

  lemma OnTheWayOfEntry(lock: map<Key, Package>, start: Spot, stack: nat, deps: seq<Dependency>, d: Dependency,
                        e: Dependency)
    requires Collected(lock, start, stack, deps) && d in deps && Edge(lock, d.Node(), d.Package(), e)
    ensures OnTheWay(deps, Child(NewFolder(deps, d), d.name), e) <==>
            (Pushed(deps, d) ==> e.located.at != d.Node() && !Pushed(deps, e))
  {
    if Pushed(deps, d) {
      OnTheWayOfPushed(lock, start, stack, deps, d, e);
    } else {
      NewPlaceOfPlain(deps, d);
      OnTheWayOfPlain(lock, SpotOf(d), deps, e);
    }
  }

  lemma OnTheWayIf(lock: map<Key, Package>, start: Spot, stack: nat, deps: seq<Dependency>)
    requires Collected(lock, start, stack, deps) && NothingNested(lock, deps) && NothingChained(lock, deps)
    ensures AllOnTheWay(lock, start, deps)
  {
    forall e | Edge(lock, start.at, start.package, e)
      ensures OnTheWay(deps, ROOT, e)
    {
      OnTheWayOfPlain(lock, start, deps, e);
    }
    forall d, e | Needs(lock, deps, d, e)
      ensures OnTheWay(deps, Child(NewFolder(deps, d), d.name), e)
    {
      OnTheWayOfEntry(lock, start, stack, deps, d, e);
    }
  }

  lemma OnTheWayOnlyIf(lock: map<Key, Package>, start: Spot, stack: nat, deps: seq<Dependency>)
    requires Collected(lock, start, stack, deps) && AllOnTheWay(lock, start, deps)
    ensures NothingNested(lock, deps) && NothingChained(lock, deps)
  {
    if !NothingNested(lock, deps) {
      var d, e :| Needs(lock, deps, d, e) && Pushed(deps, d) && e.located.at == d.Node();
      NotLeftBehind(lock, start, stack, deps, d, e);
    } else if !NothingChained(lock, deps) {
      var d, e :| Needs(lock, deps, d, e) && Pushed(deps, d) && Pushed(deps, e);
      NotLeftBehind(lock, start, stack, deps, d, e);
    }
  }

  lemma NotLeftBehind(lock: map<Key, Package>, start: Spot, stack: nat, deps: seq<Dependency>, d: Dependency,
                      e: Dependency)
    requires Collected(lock, start, stack, deps) && AllOnTheWay(lock, start, deps)
    requires d in deps && Pushed(deps, d) && Edge(lock, d.Node(), d.Package(), e)
    ensures e.located.at != d.Node() && !Pushed(deps, e)
  {
    assert Needs(lock, deps, d, e);
    OnTheWayOfEntry(lock, start, stack, deps, d, e);
  }

  /** For every lockfile: no dependency is left behind exactly if nothing is nested below a pushed package and no pushed
      package depends on another one. */
  lemma OnTheWayIff(lock: map<Key, Package>, start: Spot, stack: nat, deps: seq<Dependency>)
    requires Collected(lock, start, stack, deps)
    ensures AllOnTheWay(lock, start, deps) <==> NothingNested(lock, deps) && NothingChained(lock, deps)
  {
    if AllOnTheWay(lock, start, deps) {
      OnTheWayOnlyIf(lock, start, stack, deps);
    } else if NothingNested(lock, deps) && NothingChained(lock, deps) {
      OnTheWayIf(lock, start, stack, deps);
    }
  }

  /** Something comes from the workspace into the folder of a top package. */
  predicate FilledBy(deps: seq<Dependency>, s: Dependency, top: Name) {
    || (s.located.at.workspace.Some? && s.located.at.path != [] && s.located.at.path[0] == top)
    || (Pushed(deps, s) && s.located.dependant.path[0] == top)
  }

  ghost predicate Tidy(lock: map<Key, Package>, deps: seq<Dependency>) {
    DirectConflictsAreLeaves(lock, deps) && NothingNested(lock, deps) && NothingChained(lock, deps)
  }

  /** What lies below a package of the workspace starts with something directly below it. */
  lemma {:induction false} FirstBelow(lock: map<Key, Package>, start: Spot, stack: nat, deps: seq<Dependency>,
                                      c: seq<Dependency>)
    returns (d: Dependency, e: Dependency)
    requires Collected(lock, start, stack, deps) && IsChain(lock, start, c) && |End(start, c).at.path| > 1
    ensures d in deps && d.Node() == Upto(End(start, c).at, 1)
    ensures Edge(lock, d.Node(), d.Package(), e) && e.located.at == d.Node()
    decreases |c|
  {
    var last := |c| - 1;
    ChainAt(lock, start, c, last);
    var before := End(start, c[..last]);
    e := c[last];
    EdgeIsFound(lock, before, e);
    assert e.Node().path[..1] == e.located.at.path[..1] == before.at.path[..1];
    if |before.at.path| > 1 {
      d, e := FirstBelow(lock, start, stack, deps, c[..last]);
    } else {
      d := c[last - 1];
      ReachableIsCollected(lock, start, stack, c[..last]);
      assert before.at.path[..1] == before.at.path;
    }
  }

  /** In a tidy lockfile nothing comes from the workspace into the folder of a package that is also at the root. */
  lemma FilledIsNotShared(lock: map<Key, Package>, start: Spot, stack: nat, deps: seq<Dependency>, s: Dependency,
                          top: Name)
    requires Collected(lock, start, stack, deps) && Tidy(lock, deps) && s in deps && FilledBy(deps, s, top)
    ensures !AtRoot(deps, top)
  {
    WorkspaceOfEntry(lock, start, stack, deps, s);
    if Pushed(deps, s) {
      var u, t := PushedFacts(lock, start, stack, deps, s);
      if |u.at.path| > 1 {
        DeepIsNotShared(lock, start, stack, deps, u);
      } else {
        ChainedIsNotShared(lock, start, stack, deps, u, s);
      }
    } else {
      DeepIsNotShared(lock, start, stack, deps, SpotOf(s));
    }
  }

  lemma DeepIsNotShared(lock: map<Key, Package>, start: Spot, stack: nat, deps: seq<Dependency>, u: Spot)
    requires Collected(lock, start, stack, deps) && Tidy(lock, deps) && Visited(start, deps, u)
    requires u.at.workspace == start.at.workspace && |u.at.path| > 1
    ensures !AtRoot(deps, u.at.path[0])
  {
    var c := VisitedChain(lock, start, stack, deps, u);
    var d, e := FirstBelow(lock, start, stack, deps, c);
    assert Needs(lock, deps, d, e);
    assert Upto(u.at, 1) == PackagePath(start.at.workspace, [u.at.path[0]]);
    AtTop(d, start.at.workspace, u.at.path[0]);
    assert AtRoot(deps, d.name) ==> Conflicting(deps, d);
  }

  lemma ChainedIsNotShared(lock: map<Key, Package>, start: Spot, stack: nat, deps: seq<Dependency>, u: Spot,
                           s: Dependency)
    requires Collected(lock, start, stack, deps) && Tidy(lock, deps) && Visited(start, deps, u)
    requires u.at.workspace == start.at.workspace && |u.at.path| == 1
    requires Edge(lock, u.at, u.package, s) && s in deps && Pushed(deps, s)
    ensures !AtRoot(deps, u.at.path[0])
  {
    var d :| d in deps && u == SpotOf(d);
    assert Needs(lock, deps, d, s);
    AtTop(d, start.at.workspace, u.at.path[0]);
    assert AtRoot(deps, d.name) ==> Conflicting(deps, d);
  }

  lemma WorkspaceOfPlain(lock: map<Key, Package>, start: Spot, stack: nat, deps: seq<Dependency>, u: Spot)
    requires Collected(lock, start, stack, deps) && Stays(start, deps, u)
    ensures Visited(start, deps, u) && u.at.workspace in {start.at.workspace, None}
  {
    WorkspaceOfVisited(lock, start, stack, deps, u);
  }

  /** A package of the workspace that stays and has dependencies does not share its top with the root. */
  lemma StayingIsNotShared(lock: map<Key, Package>, start: Spot, stack: nat, deps: seq<Dependency>, u: Spot,
                           e: Dependency)
    requires Collected(lock, start, stack, deps) && Tidy(lock, deps) && Stays(start, deps, u)
    requires u.at.workspace == start.at.workspace && u.at.path != [] && Edge(lock, u.at, u.package, e)
    ensures !AtRoot(deps, u.at.path[0])
  {
    if |u.at.path| > 1 {
      DeepIsNotShared(lock, start, stack, deps, u);
    } else {
      var v :| v in deps && !Pushed(deps, v) && u == SpotOf(v);
      assert Needs(lock, deps, v, e);
      AtTop(v, start.at.workspace, u.at.path[0]);
      assert AtRoot(deps, v.name) ==> Conflicting(deps, v);
    }
  }

  lemma NoPlainNearer(lock: map<Key, Package>, start: Spot, stack: nat, deps: seq<Dependency>, u: Spot,
                      e: Dependency, s: Dependency)
    requires Collected(lock, start, stack, deps) && Tidy(lock, deps) && Stays(start, deps, u)
    requires Edge(lock, u.at, u.package, e) && s in deps && !Pushed(deps, s)
    ensures !Nearer(deps, PackagePath(None, u.at.path), e, s)
  {
    WorkspaceOfPlain(lock, start, stack, deps, u);
    WorkspaceOfEntry(lock, start, stack, deps, s);
    EdgeIsFound(lock, u, e);
    var p := s.located.at.path;
    if s.name == e.name && |NewFolder(deps, e).path| < |p| && p <= u.at.path {
      assert p[0] == u.at.path[0] && p == u.at.path[..|p|];
      if s.located.at.workspace == u.at.workspace {
        NotMissed(lock, u, deps, e, s);
      } else if s.located.at.workspace.None? {
        StayingIsNotShared(lock, start, stack, deps, u, e);
        TopOfRootIsThere(lock, start, stack, deps, SpotOf(s));
      } else {
        FilledIsNotShared(lock, start, stack, deps, s, p[0]);
        TopOfRootIsThere(lock, start, stack, deps, u);
      }
    }
  }

  /** The search from the old place would have met a nearer package. */
  lemma NotMissed(lock: map<Key, Package>, u: Spot, deps: seq<Dependency>, e: Dependency, s: Dependency)
    requires Edge(lock, u.at, u.package, e) && s.name == e.name && !Pushed(deps, s)
    requires s.located.at.workspace == u.at.workspace && s.located.at.path <= u.at.path
    requires Has(lock, s.located.at, s.name)
    ensures |s.located.at.path| <= |NewFolder(deps, e).path|
  {
    EdgeIsFound(lock, u, e);
    assert s.located.at == Upto(u.at, |s.located.at.path|);
  }

  lemma NoPushedNearer(lock: map<Key, Package>, start: Spot, stack: nat, deps: seq<Dependency>, u: Spot,
                       e: Dependency, s: Dependency)
    requires Collected(lock, start, stack, deps) && Tidy(lock, deps) && Stays(start, deps, u)
    requires Edge(lock, u.at, u.package, e) && s in deps && Pushed(deps, s)
    ensures !Nearer(deps, PackagePath(None, u.at.path), e, s)
  {
    WorkspaceOfPlain(lock, start, stack, deps, u);
    WorkspaceOfEntry(lock, start, stack, deps, s);
    EdgeIsFound(lock, u, e);
    var v, top := PushedFacts(lock, start, stack, deps, s);
    assert u.at.workspace.Some? ==> Upto(u.at, 0) == start.at;
    if Nearer(deps, PackagePath(None, u.at.path), e, s) && u.at.workspace.None? {
      FilledIsNotShared(lock, start, stack, deps, s, top);
      TopOfRootIsThere(lock, start, stack, deps, u);
    }
  }

  /** In a tidy lockfile everything that is not pushed still reaches its dependencies. */
  lemma PlainInReach(lock: map<Key, Package>, start: Spot, stack: nat, deps: seq<Dependency>, u: Spot, e: Dependency)
    requires Collected(lock, start, stack, deps) && Tidy(lock, deps) && Stays(start, deps, u)
    requires Edge(lock, u.at, u.package, e)
    ensures InReach(deps, PackagePath(None, u.at.path), e)
  {
    OnTheWayOfPlain(lock, u, deps, e);
    forall s | s in deps
      ensures !Nearer(deps, PackagePath(None, u.at.path), e, s)
    {
      if Pushed(deps, s) {
        NoPushedNearer(lock, start, stack, deps, u, e, s);
      } else {
        NoPlainNearer(lock, start, stack, deps, u, e, s);
      }
    }
  }

  /** A pushed package reaches a dependency exactly if that is neither nested, nor pushed itself, nor shadowed. */
  lemma PushedInReachIff(lock: map<Key, Package>, start: Spot, stack: nat, deps: seq<Dependency>, d: Dependency,
                         e: Dependency)
    requires Collected(lock, start, stack, deps) && d in deps && Pushed(deps, d) && Edge(lock, d.Node(), d.Package(), e)
    ensures InReach(deps, Child(NewFolder(deps, d), d.name), e) <==>
            && e.located.at != d.Node() && !Pushed(deps, e)
            && forall s :: s in deps && s.name == e.name ==> !InTheWay(d, s)
  {
    OnTheWayOfPushed(lock, start, stack, deps, d, e);
    if e.located.at != d.Node() && !Pushed(deps, e) {
      forall s | s in deps && s.name == e.name
        ensures Nearer(deps, Child(NewFolder(deps, d), d.name), e, s) <==> InTheWay(d, s)
      {
        NearerOfPushed(lock, start, stack, deps, d, e, s);
      }
    }
  }

  /***** Packages that meet *****/

  lemma PushedVersusPlain(lock: map<Key, Package>, start: Spot, stack: nat, deps: seq<Dependency>, d: Dependency,
                          e: Dependency)
    requires Collected(lock, start, stack, deps) && Tidy(lock, deps) && d in deps && e in deps
    requires Pushed(deps, d) && !Pushed(deps, e) && d.name == e.name
    ensures NewFolder(deps, d) != NewFolder(deps, e)
  {
    var u, top := PushedFacts(lock, start, stack, deps, d);
    WorkspaceOfEntry(lock, start, stack, deps, e);
    if e.located.at == PackagePath(None, [top]) {
      FilledIsNotShared(lock, start, stack, deps, d, top);
      assert e.Node().path[0] == top;
      TopOfRootIsThere(lock, start, stack, deps, SpotOf(e));
    }
  }

  lemma PlainVersusPlain(lock: map<Key, Package>, start: Spot, stack: nat, deps: seq<Dependency>, d: Dependency,
                         e: Dependency)
    requires Collected(lock, start, stack, deps) && Tidy(lock, deps) && d in deps && e in deps
    requires !Pushed(deps, d) && d.name == e.name && d.located.at.path == e.located.at.path
    requires d.located.at.workspace == start.at.workspace && e.located.at.workspace.None?
    ensures Meet(deps, d, e)
  {
    if d.located.at.path == [] {
      assert e.located.at == ROOT;
      assert AtRoot(deps, d.name);
    } else {
      var top := d.located.at.path[0];
      FilledIsNotShared(lock, start, stack, deps, d, top);
      assert e.Node().path[0] == top;
      TopOfRootIsThere(lock, start, stack, deps, SpotOf(e));
    }
  }

  /** In a tidy lockfile different packages go to different places, except for direct dependencies of the workspace with
      a namesake at the root. */
  lemma SameNewPlace(lock: map<Key, Package>, start: Spot, stack: nat, deps: seq<Dependency>, d: Dependency,
                     e: Dependency)
    requires Collected(lock, start, stack, deps) && Tidy(lock, deps) && d in deps && e in deps
    requires Child(NewFolder(deps, d), d.name) == Child(NewFolder(deps, e), e.name)
    ensures d.Node() == e.Node() || Meet(deps, d, e) || Meet(deps, e, d)
  {
    FoldersDiffer(NewFolder(deps, d), NewFolder(deps, e), d.name, e.name);
    WorkspaceOfEntry(lock, start, stack, deps, d);
    WorkspaceOfEntry(lock, start, stack, deps, e);
    if Pushed(deps, d) && !Pushed(deps, e) {
      PushedVersusPlain(lock, start, stack, deps, d, e);
    } else if !Pushed(deps, d) && Pushed(deps, e) {
      PushedVersusPlain(lock, start, stack, deps, e, d);
    } else if !Pushed(deps, d) {
      if d.located.at.workspace != e.located.at.workspace {
        if d.located.at.workspace.Some? {
          PlainVersusPlain(lock, start, stack, deps, d, e);
        } else {
          PlainVersusPlain(lock, start, stack, deps, e, d);
        }
      }
    }
  }

  lemma MovedAgreeIff(lock: map<Key, Package>, start: Spot, stack: nat, deps: seq<Dependency>)
    requires Collected(lock, start, stack, deps) && Tidy(lock, deps)
    ensures MovedAgree(deps) <==> DirectConflictsAgree(deps)
  {
    if DirectConflictsAgree(deps) {
      forall d, e | d in deps && e in deps && Child(NewFolder(deps, d), d.name) == Child(NewFolder(deps, e), e.name)
        ensures d.Package() == e.Package()
      {
        SameNewPlace(lock, start, stack, deps, d, e);
        WorkspaceOfEntry(lock, start, stack, deps, d);
        WorkspaceOfEntry(lock, start, stack, deps, e);
      }
    }
    AgreeOnlyIf(deps);
  }

  lemma AgreeOnlyIf(deps: seq<Dependency>)
    ensures MovedAgree(deps) ==> DirectConflictsAgree(deps)
  {
    forall d, e | d in deps && e in deps && Meet(deps, d, e) && MovedAgree(deps)
      ensures d.Package() == e.Package()
    {
      assert Child(NewFolder(deps, d), d.name) == Child(NewFolder(deps, e), e.name);
    }
  }

  /***** The condition in terms of the branches of the relocation *****/

  lemma AllInReachIff(lock: map<Key, Package>, start: Spot, stack: nat, deps: seq<Dependency>)
    requires Collected(lock, start, stack, deps) && Tidy(lock, deps)
    ensures AllInReach(lock, start, deps) <==> NothingShadowed(lock, deps)
  {
    forall e | Edge(lock, start.at, start.package, e)
      ensures InReach(deps, ROOT, e)
    {
      PlainInReach(lock, start, stack, deps, start, e);
      assert ROOT == PackagePath(None, start.at.path);
    }
    forall d, e | Needs(lock, deps, d, e)
      ensures InReach(deps, Child(NewFolder(deps, d), d.name), e) <==>
              (Pushed(deps, d) ==> forall s :: s in deps && s.name == e.name ==> !InTheWay(d, s))
    {
      if Pushed(deps, d) {
        PushedInReachIff(lock, start, stack, deps, d, e);
      } else {
        NewPlaceOfPlain(deps, d);
        PlainInReach(lock, start, stack, deps, SpotOf(d), e);
      }
    }
  }

  /** The condition a lockfile can be checked for. */
  ghost predicate Harmless(lock: map<Key, Package>, deps: seq<Dependency>) {
    && DirectConflictsAgree(deps) && NothingNested(lock, deps) && NothingChained(lock, deps)
    && NothingShadowed(lock, deps)
  }

  /** When direct dependencies with a namesake at the root have no dependencies themselves, the derived lockfile means
      what the original one means exactly if those namesakes agree and nothing is nested below, chained to or shadowed
      for a pushed package. */
  lemma FaithfulIffHarmless(lock: map<Key, Package>, start: Spot, stack: nat, deps: seq<Dependency>)
    requires Collected(lock, start, stack, deps) && DirectConflictsAreLeaves(lock, deps)
    ensures Faithful(lock, start, deps, Derived(start.package, deps)) <==> Harmless(lock, deps)
  {
    FaithfulIff(lock, start, stack, deps);
    OnTheWayIff(lock, start, stack, deps);
    ReachIsOnTheWay(lock, start, deps);
    if Tidy(lock, deps) {
      MovedAgreeIff(lock, start, stack, deps);
      AllInReachIff(lock, start, stack, deps);
    }
  }

  lemma ReachIsOnTheWay(lock: map<Key, Package>, start: Spot, deps: seq<Dependency>)
    ensures AllInReach(lock, start, deps) ==> AllOnTheWay(lock, start, deps)
  {
  }

  /** For every lockfile: faithfulness fails if direct namesakes differ, or if anything is nested below, chained to or
      shadowed for a pushed package. */
  lemma HarmfulBreaks(lock: map<Key, Package>, start: Spot, stack: nat, deps: seq<Dependency>)
    requires Collected(lock, start, stack, deps) && !Harmless(lock, deps)
    ensures !Faithful(lock, start, deps, Derived(start.package, deps))
  {
    FaithfulIff(lock, start, stack, deps);
    OnTheWayIff(lock, start, stack, deps);
    ReachIsOnTheWay(lock, start, deps);
    AgreeOnlyIf(deps);
    if AllInReach(lock, start, deps) {
      forall d, e, s | Needs(lock, deps, d, e) && Pushed(deps, d) && s in deps && s.name == e.name
        ensures !InTheWay(d, s)
      {
        PushedInReachIff(lock, start, stack, deps, d, e);
      }
    }
  }

  /** Without any conflict the derived lockfile always means what the original one means, and different packages stay
      apart. */
  lemma NoConflictIsFaithful(lock: map<Key, Package>, start: Spot, stack: nat, deps: seq<Dependency>)
    requires Collected(lock, start, stack, deps)
    requires forall d :: d in deps ==> !Conflicting(deps, d)
    ensures Faithful(lock, start, deps, Derived(start.package, deps))
    ensures forall d, e :: d in deps && e in deps
                           && Child(NewFolder(deps, d), d.name) == Child(NewFolder(deps, e), e.name) ==>
                             d.Node() == e.Node()
  {
    FaithfulIffHarmless(lock, start, stack, deps);
    forall d, e | d in deps && e in deps
                  && Child(NewFolder(deps, d), d.name) == Child(NewFolder(deps, e), e.name)
      ensures d.Node() == e.Node()
    {
      SameNewPlace(lock, start, stack, deps, d, e);
    }
  }

  /** A lockfile that means what the original one means for everything the workspace needs. */
  ghost predicate Standalone(lock: map<Key, Package>, start: Spot, stack: nat, derived: map<Key, Package>) {
    exists deps :: Collected(lock, start, stack, deps) && Faithful(lock, start, deps, derived)
  }

  /** deriveLockfile as a whole. */
  lemma DeriveLockfileIsFaithful(lock: map<Key, Package>, workspace: Key, stack: nat)
    requires ValidNames(lock) && ValidName(workspace) && DeriveLockfile(lock, workspace, stack).Ok?
    ensures workspace in lock
    ensures var start := Spot(PackagePath(Some(workspace), []), lock[workspace]);
            var deps := CollectDeps(lock, start.at, start.package, stack);
            var derived := DeriveLockfile(lock, workspace, stack).value;
            && deps.Ok?
            && [] in derived.packages && derived.packages[[]] == lock[workspace]
            && derived.name == lock[workspace].name && derived.name.Some? && derived.version == lock[workspace].version
            && (Standalone(lock, start, stack, derived.packages) <==>
                MovedAgree(deps.value) && AllInReach(lock, start, deps.value))
  {
    var start := Spot(PackagePath(Some(workspace), []), lock[workspace]);
    var deps := CollectDeps(lock, start.at, start.package, stack).value;
    forall w | w in Wants(start.package)
      ensures ValidName(w.0)
    {
    }
    assert Collected(lock, start, stack, deps);
    FaithfulIff(lock, start, stack, deps);
    NoEmptyKey(Relocate(deps));
  }
}
