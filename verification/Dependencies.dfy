/** What collectDeps returns: exactly the packages that can be reached, provided no package depends on itself. */
module Dependencies {
  import opened Ordering
  import opened Lockfiles

  predicate Wanted(package: Package, name: Name) {
    (name, true) in Wants(package) || (name, false) in Wants(package)
  }

  /** A package at `at` depends on `d`, which is the nearest package of that name. */
  predicate Edge(lock: map<Key, Package>, at: PackagePath, package: Package, d: Dependency) {
    var l := Locate(lock, at, d.name);
    Wanted(package, d.name) && l.Some? && !Broken(l.value.package) && d == Entry(lock, l.value, d.name)
  }

  datatype Spot = Spot(at: PackagePath, package: Package)

  function SpotOf(d: Dependency): Spot {
    Spot(d.Node(), d.Package())
  }

  /** Every package of the chain is a dependency of the one before it, and the first one of the package at `from`. */
  predicate IsChain(lock: map<Key, Package>, from: Spot, c: seq<Dependency>)
    decreases |c|
  {
    c == [] || (Edge(lock, from.at, from.package, c[0]) && IsChain(lock, SpotOf(c[0]), c[1..]))
  }

  function End(from: Spot, c: seq<Dependency>): Spot {
    if c == [] then from else SpotOf(c[|c| - 1])
  }

  lemma ChainCons(lock: map<Key, Package>, from: Spot, d: Dependency, c: seq<Dependency>)
    requires Edge(lock, from.at, from.package, d) && IsChain(lock, SpotOf(d), c)
    ensures IsChain(lock, from, [d] + c)
  {
    assert ([d] + c)[1..] == c;
  }

  lemma {:induction false} ChainAppend(lock: map<Key, Package>, from: Spot, a: seq<Dependency>, b: seq<Dependency>)
    requires IsChain(lock, from, a) && IsChain(lock, End(from, a), b)
    ensures IsChain(lock, from, a + b)
    decreases |a|
  {
    if a == [] {
      assert a + b == b;
    } else {
      var next, rest := SpotOf(a[0]), a[1..] + b;
      assert IsChain(lock, next, rest) by {
        assert End(from, a) == End(next, a[1..]);
        ChainAppend(lock, next, a[1..], b);
      }
      ChainCons(lock, from, a[0], rest);
      assert a + b == [a[0]] + rest;
    }
  }

  lemma {:induction false} ChainSplit(lock: map<Key, Package>, from: Spot, c: seq<Dependency>, k: nat)
    requires IsChain(lock, from, c) && k <= |c|
    ensures IsChain(lock, from, c[..k]) && IsChain(lock, End(from, c[..k]), c[k..])
    decreases |c|
  {
    if k == 0 {
    } else {
      ChainSplit(lock, SpotOf(c[0]), c[1..], k - 1);
      assert c[..k] == [c[0]] + c[1..][..k - 1] && c[k..] == c[1..][k - 1..];
      ChainCons(lock, from, c[0], c[1..][..k - 1]);
    }
  }

  lemma ChainAt(lock: map<Key, Package>, from: Spot, c: seq<Dependency>, i: nat)
    requires IsChain(lock, from, c) && i < |c|
    ensures IsChain(lock, from, c[..i])
    ensures var s := End(from, c[..i]); Edge(lock, s.at, s.package, c[i])
  {
    ChainSplit(lock, from, c, i);
  }

  /** A wanted name that was looked up without a failure, together with everything below it. */
  predicate Settled(lock: map<Key, Package>, at: PackagePath, want: (Name, bool), stack: nat, all: seq<Dependency>)
    requires stack > 0
  {
    var one := CollectOne(lock, at, want.0, want.1, stack);
    one.Ok? && forall d :: d in one.value ==> d in all
  }

  /** Where an entry of the result comes from. */
  predicate Source(lock: map<Key, Package>, at: PackagePath, want: (Name, bool), stack: nat, d: Dependency)
    requires stack > 0
  {
    var one := CollectOne(lock, at, want.0, want.1, stack);
    one.Ok? && d in one.value
  }

  predicate Failure(lock: map<Key, Package>, at: PackagePath, want: (Name, bool), stack: nat, error: Error)
    requires stack > 0
  {
    CollectOne(lock, at, want.0, want.1, stack) == Err(error)
  }

  lemma {:induction false} AllSettled(lock: map<Key, Package>, at: PackagePath, wants: seq<(Name, bool)>, stack: nat,
                                      want: (Name, bool))
    requires stack > 0 && CollectAll(lock, at, wants, stack).Ok? && want in wants
    ensures Settled(lock, at, want, stack, CollectAll(lock, at, wants, stack).value)
  {
    if want != wants[0] {
      AllSettled(lock, at, wants[1..], stack, want);
    }
  }

  lemma {:induction false} AllSourced(lock: map<Key, Package>, at: PackagePath, wants: seq<(Name, bool)>, stack: nat,
                                      d: Dependency)
    returns (want: (Name, bool))
    requires stack > 0 && CollectAll(lock, at, wants, stack).Ok? && d in CollectAll(lock, at, wants, stack).value
    ensures want in wants && Source(lock, at, want, stack, d)
  {
    if Source(lock, at, wants[0], stack, d) {
      want := wants[0];
    } else {
      want := AllSourced(lock, at, wants[1..], stack, d);
    }
  }

  lemma {:induction false} AllFailures(lock: map<Key, Package>, at: PackagePath, wants: seq<(Name, bool)>, stack: nat)
    returns (want: (Name, bool))
    requires stack > 0 && CollectAll(lock, at, wants, stack).Err?
    ensures want in wants && Failure(lock, at, want, stack, CollectAll(lock, at, wants, stack).error)
  {
    if CollectOne(lock, at, wants[0].0, wants[0].1, stack).Err? {
      want := wants[0];
    } else {
      want := AllFailures(lock, at, wants[1..], stack);
    }
  }

  /** A dependency of a package is among the collected ones, and so is everything collected below it. */
  lemma StepDown(lock: map<Key, Package>, at: PackagePath, package: Package, stack: nat, d: Dependency)
    requires CollectDeps(lock, at, package, stack).Ok? && Edge(lock, at, package, d)
    ensures stack > 0 && d in CollectDeps(lock, at, package, stack).value
    ensures CollectDeps(lock, d.Node(), d.Package(), stack - 1).Ok?
    ensures forall e :: e in CollectDeps(lock, d.Node(), d.Package(), stack - 1).value ==>
                          e in CollectDeps(lock, at, package, stack).value
  {
    var want := if (d.name, true) in Wants(package) then (d.name, true) else (d.name, false);
    AllSettled(lock, at, Wants(package), stack, want);
    var one := CollectOne(lock, at, want.0, want.1, stack).value;
    assert d in one;
  }

  /** What was collected for a package that can be reached is part of the whole. */
  predicate PartOf(lock: map<Key, Package>, s: Spot, stack: nat, all: seq<Dependency>) {
    var part := CollectDeps(lock, s.at, s.package, stack);
    part.Ok? && forall d :: d in part.value ==> d in all
  }

  lemma {:induction false} ReachablePart(lock: map<Key, Package>, from: Spot, stack: nat, c: seq<Dependency>)
    requires CollectDeps(lock, from.at, from.package, stack).Ok? && IsChain(lock, from, c)
    ensures |c| < stack
    ensures PartOf(lock, End(from, c), stack - |c|, CollectDeps(lock, from.at, from.package, stack).value)
    decreases |c|
  {
    if c == [] {
    } else {
      StepDown(lock, from.at, from.package, stack, c[0]);
      ReachablePart(lock, SpotOf(c[0]), stack - 1, c[1..]);
    }
  }

  /** Everything reachable is collected. */
  lemma {:induction false} ReachableIsCollected(lock: map<Key, Package>, from: Spot, stack: nat, c: seq<Dependency>)
    requires CollectDeps(lock, from.at, from.package, stack).Ok? && IsChain(lock, from, c) && c != []
    ensures c[|c| - 1] in CollectDeps(lock, from.at, from.package, stack).value
  {
    var last := |c| - 1;
    ChainAt(lock, from, c, last);
    ReachablePart(lock, from, stack, c[..last]);
    var s := End(from, c[..last]);
    StepDown(lock, s.at, s.package, stack - last, c[last]);
  }

  /** The result is closed: whatever a collected package wants is collected as well, where the search of the lockfile
      finds it, unless it is an optional peer that is nowhere. */
  lemma ResultIsClosed(lock: map<Key, Package>, from: Spot, stack: nat, c: seq<Dependency>, want: (Name, bool))
    requires CollectDeps(lock, from.at, from.package, stack).Ok? && IsChain(lock, from, c)
    requires want in Wants(End(from, c).package)
    ensures var l := Locate(lock, End(from, c).at, want.0);
            if l.None? then want.1
            else !Broken(l.value.package)
                 && Entry(lock, l.value, want.0) in CollectDeps(lock, from.at, from.package, stack).value
  {
    ReachablePart(lock, from, stack, c);
    var s := End(from, c);
    AllSettled(lock, s.at, Wants(s.package), stack - |c|, want);
    var l := Locate(lock, s.at, want.0);
    if l.Some? && !Broken(l.value.package) {
      StepDown(lock, s.at, s.package, stack - |c|, Entry(lock, l.value, want.0));
    }
  }

  /** Below a wanted name: the package found for it, and what was collected for that. */
  lemma OneIsEdge(lock: map<Key, Package>, from: Spot, want: (Name, bool), stack: nat) returns (e: Dependency)
    requires stack > 0 && want in Wants(from.package)
    requires var l := Locate(lock, from.at, want.0); l.Some? && !Broken(l.value.package)
    ensures Edge(lock, from.at, from.package, e)
    ensures CollectOne(lock, from.at, want.0, want.1, stack) ==
            var below := CollectDeps(lock, e.Node(), e.Package(), stack - 1);
            if below.Err? then below else Ok([e] + below.value)
  {
    e := Entry(lock, Locate(lock, from.at, want.0).value, want.0);
  }

  /** Nothing else is collected. */
  lemma {:induction false} CollectedIsReachable(lock: map<Key, Package>, from: Spot, stack: nat, d: Dependency)
    returns (c: seq<Dependency>)
    requires CollectDeps(lock, from.at, from.package, stack).Ok?
    requires d in CollectDeps(lock, from.at, from.package, stack).value
    ensures IsChain(lock, from, c) && c != [] && c[|c| - 1] == d
    decreases stack
  {
    var want := AllSourced(lock, from.at, Wants(from.package), stack, d);
    var e := OneIsEdge(lock, from, want, stack);
    if d == e {
      c := [e];
    } else {
      var rest := CollectedIsReachable(lock, SpotOf(e), stack - 1, d);
      ChainCons(lock, from, e, rest);
      c := [e] + rest;
    }
  }

  /** A failure is reported for a package that can be reached: a name nobody provides and somebody needs, a link
      to nowhere, or a chain of dependencies as long as the stack is deep. */
  predicate Blame(lock: map<Key, Package>, from: Spot, stack: nat, c: seq<Dependency>, error: Error) {
    && IsChain(lock, from, c)
    && var s := End(from, c);
       match error
       case CannotLocate(name) => (name, false) in Wants(s.package) && Locate(lock, s.at, name).None?
       case LinkNotResolved(name) =>
         Wanted(s.package, name) && Locate(lock, s.at, name).Some? && Broken(Locate(lock, s.at, name).value.package)
       case StackOverflow => |c| == stack
       case _ => false
  }

  lemma BlameBelow(lock: map<Key, Package>, from: Spot, stack: nat, e: Dependency, rest: seq<Dependency>, error: Error)
    requires stack > 0 && Edge(lock, from.at, from.package, e) && Blame(lock, SpotOf(e), stack - 1, rest, error)
    ensures Blame(lock, from, stack, [e] + rest, error)
  {
    ChainCons(lock, from, e, rest);
    assert End(from, [e] + rest) == End(SpotOf(e), rest);
  }

  lemma {:induction false} FailureHasCause(lock: map<Key, Package>, from: Spot, stack: nat)
    returns (c: seq<Dependency>)
    requires CollectDeps(lock, from.at, from.package, stack).Err?
    ensures Blame(lock, from, stack, c, CollectDeps(lock, from.at, from.package, stack).error)
    decreases stack
  {
    c := [];
    if stack > 0 {
      var want := AllFailures(lock, from.at, Wants(from.package), stack);
      var l := Locate(lock, from.at, want.0);
      if l.Some? && !Broken(l.value.package) {
        var e := OneIsEdge(lock, from, want, stack);
        var rest := FailureHasCause(lock, SpotOf(e), stack - 1);
        BlameBelow(lock, from, stack, e, rest, CollectDeps(lock, from.at, from.package, stack).error);
        c := [e] + rest;
      }
    }
  }

  lemma EdgeFacts(lock: map<Key, Package>, at: PackagePath, package: Package, d: Dependency)
    requires Edge(lock, at, package, d)
    ensures Has(lock, d.located.at, d.name)
    ensures d.Package() == Follow(lock, lock[KeyOf(d.Node())])
  {
    LocateIsNearest(lock, at, d.name);
  }

  /** A link with a target never fails at the link itself: it stands for the target without its name, or, if there is no
      such package, for an empty one with nothing below it. */
  lemma LinkIsFollowed(lock: map<Key, Package>, at: PackagePath, name: Name, optional: bool, stack: nat)
    requires stack > 1 && Locate(lock, at, name).Some?
    requires var p := Locate(lock, at, name).value.package; p.link && p.resolved.Some?
    ensures var l := Locate(lock, at, name).value;
            var target := l.package.resolved.value;
            if target in lock then
              var e := Dependency(name, l.(package := lock[target].(name := None)));
              var below := CollectDeps(lock, e.Node(), e.Package(), stack - 1);
              CollectOne(lock, at, name, optional, stack) == if below.Err? then below else Ok([e] + below.value)
            else
              CollectOne(lock, at, name, optional, stack) == Ok([Dependency(name, l.(package := EMPTY_PACKAGE))])
  {
    var l := Locate(lock, at, name).value;
    var e := Dependency(name, l.(package := EMPTY_PACKAGE));
    assert Wants(EMPTY_PACKAGE) == [];
    assert CollectDeps(lock, e.Node(), EMPTY_PACKAGE, stack - 1) == Ok([]);
    assert [e] + [] == [e];
  }

  /** No package that can be reached is reached again from itself. */
  ghost predicate Acyclic(lock: map<Key, Package>, from: Spot) {
    forall c: seq<Dependency>, i, j :: IsChain(lock, from, c) && 0 <= i < j < |c| ==> c[i].Node() != c[j].Node()
  }

  lemma {:induction false} DistinctFit(keys: seq<Key>, all: set<Key>)
    requires forall i :: 0 <= i < |keys| ==> keys[i] in all
    requires forall i, j :: 0 <= i < j < |keys| ==> keys[i] != keys[j]
    ensures |keys| <= |all|
  {
    if keys == [] {
    } else {
      var last := |keys| - 1;
      DistinctFit(keys[..last], all - {keys[last]});
    }
  }

  predicate ValidSpot(s: Spot) {
    ValidPath(s.at) && forall w :: w in Wants(s.package) ==> ValidName(w.0)
  }

  lemma ValidFollow(lock: map<Key, Package>, key: Key, w: (Name, bool))
    requires ValidNames(lock) && key in lock && w in Wants(Follow(lock, lock[key]))
    ensures ValidName(w.0)
  {
    var package := lock[key];
    if package.link && package.resolved.Some? && package.resolved.value in lock {
      assert Wants(Follow(lock, package)) == Wants(lock[package.resolved.value]);
    }
  }

  lemma ValidStep(lock: map<Key, Package>, s: Spot, d: Dependency)
    requires ValidNames(lock) && ValidSpot(s) && Edge(lock, s.at, s.package, d)
    ensures ValidName(d.name) && ValidSpot(SpotOf(d))
  {
    LocateIsNearest(lock, s.at, d.name);
    EdgeFacts(lock, s.at, s.package, d);
    assert d.located.at.path <= s.at.path;
    forall w | w in Wants(d.Package())
      ensures ValidName(w.0)
    {
      ValidFollow(lock, KeyOf(d.Node()), w);
    }
  }

  lemma {:induction false} ValidChain(lock: map<Key, Package>, from: Spot, c: seq<Dependency>, i: nat)
    requires ValidNames(lock) && ValidSpot(from) && IsChain(lock, from, c) && i < |c|
    ensures ValidName(c[i].name) && ValidSpot(SpotOf(c[i])) && KeyOf(c[i].Node()) in lock
    decreases |c|
  {
    ValidStep(lock, from, c[0]);
    if i > 0 {
      ValidChain(lock, SpotOf(c[0]), c[1..], i - 1);
    } else {
      EdgeFacts(lock, from.at, from.package, c[0]);
    }
  }

  lemma ChainFits(lock: map<Key, Package>, from: Spot, c: seq<Dependency>)
    requires ValidNames(lock) && ValidSpot(from) && Acyclic(lock, from) && IsChain(lock, from, c)
    ensures |c| <= |lock|
  {
    var keys := seq(|c|, i requires 0 <= i < |c| => KeyOf(c[i].Node()));
    forall i | 0 <= i < |keys|
      ensures keys[i] in lock.Keys
    {
      ValidChain(lock, from, c, i);
    }
    forall i, j | 0 <= i < j < |keys|
      ensures keys[i] != keys[j]
    {
      ValidChain(lock, from, c, i);
      ValidChain(lock, from, c, j);
      if keys[i] == keys[j] {
        KeyInjective(c[i].Node(), c[j].Node());
      }
    }
    DistinctFit(keys, lock.Keys);
  }

  /** Without cycles the stack never grows deeper than the lockfile has entries. */
  lemma AcyclicTerminates(lock: map<Key, Package>, from: Spot, stack: nat)
    requires ValidNames(lock) && ValidSpot(from) && Acyclic(lock, from) && stack > |lock|
    ensures CollectDeps(lock, from.at, from.package, stack) != Err(StackOverflow)
  {
    if CollectDeps(lock, from.at, from.package, stack) == Err(StackOverflow) {
      var c := FailureHasCause(lock, from, stack);
      ChainFits(lock, from, c);
    }
  }

  /** A cycle can be walked any number of times. */
  lemma {:induction false} Pump(lock: map<Key, Package>, from: Spot, stem: seq<Dependency>, loop: seq<Dependency>,
                                n: nat)
    returns (longer: seq<Dependency>)
    requires IsChain(lock, from, stem) && IsChain(lock, End(from, stem), loop)
    requires loop != [] && End(End(from, stem), loop) == End(from, stem)
    ensures IsChain(lock, from, longer) && |longer| >= n && End(from, longer) == End(from, stem)
  {
    if n == 0 {
      longer := stem;
    } else {
      var shorter := Pump(lock, from, stem, loop, n - 1);
      ChainAppend(lock, from, shorter, loop);
      assert End(from, shorter + loop) == End(End(from, shorter), loop);
      longer := shorter + loop;
    }
  }

  /** With a cycle there is no result, however deep the stack may be. */
  lemma CyclicNeverReturns(lock: map<Key, Package>, from: Spot, stack: nat)
    requires !Acyclic(lock, from)
    ensures CollectDeps(lock, from.at, from.package, stack).Err?
  {
    if CollectDeps(lock, from.at, from.package, stack).Ok? {
      var c: seq<Dependency>, i, j :| IsChain(lock, from, c) && 0 <= i < j < |c| && c[i].Node() == c[j].Node();
      var stem, loop := c[..i + 1], c[i + 1..j + 1];
      CutLoop(lock, from, c, i, j);
      var longer := Pump(lock, from, stem, loop, stack);
      ReachablePart(lock, from, stack, longer);
    }
  }

  lemma CutLoop(lock: map<Key, Package>, from: Spot, c: seq<Dependency>, i: nat, j: nat)
    requires IsChain(lock, from, c) && i < j < |c| && c[i].Node() == c[j].Node()
    ensures IsChain(lock, from, c[..i + 1]) && IsChain(lock, End(from, c[..i + 1]), c[i + 1..j + 1])
    ensures End(from, c[..i + 1]) == SpotOf(c[i]) == End(SpotOf(c[i]), c[i + 1..j + 1])
  {
    SameSpot(lock, from, c, i, j);
    CutTwice(lock, from, c, i + 1, j + 1);
    LoopEnds(from, c, i, j);
  }

  lemma SameSpot(lock: map<Key, Package>, from: Spot, c: seq<Dependency>, i: nat, j: nat)
    requires IsChain(lock, from, c) && i < |c| && j < |c| && c[i].Node() == c[j].Node()
    ensures SpotOf(c[i]) == SpotOf(c[j])
  {
    ChainAt(lock, from, c, i);
    ChainAt(lock, from, c, j);
    SamePlace(lock, End(from, c[..i]), End(from, c[..j]), c[i], c[j]);
  }

  lemma CutTwice(lock: map<Key, Package>, from: Spot, c: seq<Dependency>, i: nat, j: nat)
    requires IsChain(lock, from, c) && i <= j <= |c|
    ensures IsChain(lock, from, c[..i]) && IsChain(lock, End(from, c[..i]), c[i..j])
  {
    ChainSplit(lock, from, c, j);
    ChainSplit(lock, from, c[..j], i);
    assert c[..j][..i] == c[..i] && c[..j][i..] == c[i..j];
  }

  lemma LoopEnds(from: Spot, c: seq<Dependency>, i: nat, j: nat)
    requires i < j < |c| && SpotOf(c[i]) == SpotOf(c[j])
    ensures End(from, c[..i + 1]) == SpotOf(c[i]) == End(SpotOf(c[i]), c[i + 1..j + 1])
  {
    assert c[..i + 1][i] == c[i] && c[i + 1..j + 1][j - i - 1] == c[j];
  }

  /** At one place there is one package. */
  lemma SamePlace(lock: map<Key, Package>, s: Spot, t: Spot, d: Dependency, e: Dependency)
    requires Edge(lock, s.at, s.package, d) && Edge(lock, t.at, t.package, e) && d.Node() == e.Node()
    ensures SpotOf(d) == SpotOf(e)
  {
    EdgeFacts(lock, s.at, s.package, d);
    EdgeFacts(lock, t.at, t.package, e);
  }

  /***** What is collected, in terms of the fields of a package *****/

  /** What a package wants: its dependencies, then its development dependencies, then its peers, of which those marked
      as optional may be missing. */
  lemma WantsInOrder(p: Package)
    ensures var a, b, c := |p.dependencies|, |p.devDependencies|, |p.peerDependencies|;
            && |Wants(p)| == a + b + c
            && (forall i :: 0 <= i < a ==> Wants(p)[i] == (p.dependencies[i], false))
            && (forall i :: 0 <= i < b ==> Wants(p)[a + i] == (p.devDependencies[i], false))
            && (forall i :: 0 <= i < c ==>
                  Wants(p)[a + b + i] == (p.peerDependencies[i], p.peerDependencies[i] in p.optionalPeers))
  {
  }

  lemma WantsAre(p: Package, name: Name)
    ensures (name, false) in Wants(p) <==>
            name in p.dependencies || name in p.devDependencies ||
            (name in p.peerDependencies && name !in p.optionalPeers)
    ensures (name, true) in Wants(p) <==> name in p.peerDependencies && name in p.optionalPeers
  {
    var a, b := |p.dependencies|, |p.devDependencies|;
    WantsInOrder(p);
    if name in p.dependencies {
      var i :| 0 <= i < a && p.dependencies[i] == name;
      assert Wants(p)[i] == (name, false);
    }
    if name in p.devDependencies {
      var i :| 0 <= i < b && p.devDependencies[i] == name;
      assert Wants(p)[a + i] == (name, false);
    }
    if name in p.peerDependencies {
      var i :| 0 <= i < |p.peerDependencies| && p.peerDependencies[i] == name;
      assert Wants(p)[a + b + i] == (name, name in p.optionalPeers);
    }
    WantsNothingElse(p, name);
  }

  lemma WantsNothingElse(p: Package, name: Name)
    ensures (name, false) in Wants(p) ==>
              name in p.dependencies || name in p.devDependencies ||
              (name in p.peerDependencies && name !in p.optionalPeers)
    ensures (name, true) in Wants(p) ==> name in p.peerDependencies && name in p.optionalPeers
  {
    var a, b := |p.dependencies|, |p.devDependencies|;
    forall k | 0 <= k < |Wants(p)| && Wants(p)[k].0 == name
      ensures if Wants(p)[k].1 then name in p.peerDependencies && name in p.optionalPeers
              else name in p.dependencies || name in p.devDependencies ||
                   (name in p.peerDependencies && name !in p.optionalPeers)
    {
      if k < a {
        assert Wants(p)[k] == (p.dependencies[k], false);
      } else if k < a + b {
        assert Wants(p)[a + (k - a)] == (p.devDependencies[k - a], false);
      } else {
        var i := k - a - b;
        assert Wants(p)[a + b + i] == (p.peerDependencies[i], p.peerDependencies[i] in p.optionalPeers);
      }
    }
  }

  /** The entry made of what the search has found: a link stands for its target without the name, or for an empty
      package if there is no target. */
  lemma EntryIs(lock: map<Key, Package>, l: LocatedPackage, name: Name)
    ensures var p := l.package;
            Entry(lock, l, name) ==
            Dependency(name,
                       LocatedPackage(l.dependant, l.at,
                                      if !p.link || p.resolved.None? then p
                                      else if p.resolved.value in lock then lock[p.resolved.value].(name := None)
                                      else Package.Package(false, None, None, None, [], [], [], {}, "")))
  {
  }

  /** Everything a package at the end of a chain demands is collected, where the search finds it; and the search finds
      it, or there is no result. Of its optional peers those are collected that are found. */
  lemma DemandsAreMet(lock: map<Key, Package>, from: Spot, stack: nat, c: seq<Dependency>, name: Name)
    requires IsChain(lock, from, c)
    ensures var r, s := CollectDeps(lock, from.at, from.package, stack), End(from, c);
            var p, l := s.package, Locate(lock, s.at, name);
            && (name in p.dependencies || name in p.devDependencies ||
                (name in p.peerDependencies && name !in p.optionalPeers) ==>
                  if l.None? || (l.value.package.link && l.value.package.resolved.None?) then r.Err?
                  else r.Ok? ==> Entry(lock, l.value, name) in r.value)
            && (name in p.peerDependencies && name in p.optionalPeers && l.Some? ==>
                  if l.value.package.link && l.value.package.resolved.None? then r.Err?
                  else r.Ok? ==> Entry(lock, l.value, name) in r.value)
  {
    WantsAre(End(from, c).package, name);
    if CollectDeps(lock, from.at, from.package, stack).Ok? {
      if (name, false) in Wants(End(from, c).package) {
        ResultIsClosed(lock, from, stack, c, (name, false));
      }
      if (name, true) in Wants(End(from, c).package) {
        ResultIsClosed(lock, from, stack, c, (name, true));
      }
    }
  }

  /** Nothing else is collected: each entry was found by the search from the package at `from` or from another collected
      one, which names it among its dependencies, development dependencies or peers. */
  lemma OnlyDemandsAreMet(lock: map<Key, Package>, from: Spot, stack: nat, d: Dependency)
    returns (c: seq<Dependency>)
    requires CollectDeps(lock, from.at, from.package, stack).Ok?
    requires d in CollectDeps(lock, from.at, from.package, stack).value
    ensures IsChain(lock, from, c) && (c == [] || c[|c| - 1] in CollectDeps(lock, from.at, from.package, stack).value)
    ensures var s := End(from, c);
            && (d.name in s.package.dependencies || d.name in s.package.devDependencies ||
                d.name in s.package.peerDependencies)
            && Locate(lock, s.at, d.name).Some? && d == Entry(lock, Locate(lock, s.at, d.name).value, d.name)
  {
    var whole := CollectedIsReachable(lock, from, stack, d);
    c := whole[..|whole| - 1];
    ChainAt(lock, from, whole, |whole| - 1);
    WantsAre(End(from, c).package, d.name);
    if c != [] {
      ReachableIsCollected(lock, from, stack, c);
    }
  }

  /** The order: for each wanted name in turn, the package found for it and then what is collected below that; part i of
      the result lies between a[i] and b[i]. */
  lemma CollectedInOrder(lock: map<Key, Package>, at: PackagePath, package: Package, stack: nat)
    returns (a: seq<nat>, b: seq<nat>)
    requires stack > 0 && CollectDeps(lock, at, package, stack).Ok?
    ensures var all, n := CollectDeps(lock, at, package, stack).value, |Wants(package)|;
            && |a| == |b| == n
            && (if n == 0 then all == [] else a[0] == 0 && b[n - 1] == |all|)
            && (forall i, j :: 0 <= i && j == i + 1 < n ==> b[i] == a[j])
            && (forall i :: 0 <= i < n ==> a[i] <= b[i] <= |all|)
            && (forall i :: 0 <= i < n && Locate(lock, at, Wants(package)[i].0).None? ==> a[i] == b[i])
            && (forall i :: 0 <= i < n && Locate(lock, at, Wants(package)[i].0).Some? ==>
                  var name := Wants(package)[i].0;
                  var e := Entry(lock, Locate(lock, at, name).value, name);
                  var below := CollectDeps(lock, e.Node(), e.Package(), stack - 1);
                  below.Ok? && all[a[i]..b[i]] == [e] + below.value)
  {
    var all, wants := CollectDeps(lock, at, package, stack).value, Wants(package);
    var o := AllInOrder(lock, at, wants, stack);
    a, b := o[..|wants|], o[1..];
    forall i | 0 <= i < |wants|
      ensures IsPart(lock, at, wants[i].0, stack, all, a[i], b[i])
    {
      assert a[i] == o[i] && b[i] == o[i + 1];
    }
  }

  predicate InOrder(lock: map<Key, Package>, at: PackagePath, wants: seq<(Name, bool)>, stack: nat,
                    all: seq<Dependency>, o: seq<nat>)
    requires stack > 0
  {
    && |o| == |wants| + 1 && o[0] == 0 && o[|wants|] == |all|
    && forall i :: 0 <= i < |wants| ==> IsPart(lock, at, wants[i].0, stack, all, o[i], o[i + 1])
  }

  /** From position a to position b stands what was collected for a name. */
  predicate IsPart(lock: map<Key, Package>, at: PackagePath, name: Name, stack: nat, all: seq<Dependency>, a: nat,
                   b: nat)
    requires stack > 0
  {
    && a <= b <= |all|
    && var l := Locate(lock, at, name);
       if l.None? then a == b
       else
         var e := Entry(lock, l.value, name);
         var below := CollectDeps(lock, e.Node(), e.Package(), stack - 1);
         below.Ok? && all[a..b] == [e] + below.value
  }

  lemma {:induction false} AllInOrder(lock: map<Key, Package>, at: PackagePath, wants: seq<(Name, bool)>, stack: nat)
    returns (o: seq<nat>)
    requires stack > 0 && CollectAll(lock, at, wants, stack).Ok?
    ensures InOrder(lock, at, wants, stack, CollectAll(lock, at, wants, stack).value, o)
    decreases |wants|
  {
    if wants == [] {
      o := [0];
    } else {
      var first := CollectOne(lock, at, wants[0].0, wants[0].1, stack).value;
      var rest := AllInOrder(lock, at, wants[1..], stack);
      o := [0] + seq(|rest|, i requires 0 <= i < |rest| => |first| + rest[i]);
      var others := CollectAll(lock, at, wants[1..], stack).value;
      var all := first + others;
      assert all[0..|first|] == first;
      forall i | 0 <= i < |wants|
        ensures IsPart(lock, at, wants[i].0, stack, all, o[i], o[i + 1])
      {
        if i > 0 {
          assert IsPart(lock, at, wants[1..][i - 1].0, stack, others, rest[i - 1], rest[i]);
          assert all[o[i]..o[i + 1]] == others[rest[i - 1]..rest[i]];
        }
      }
    }
  }
}
