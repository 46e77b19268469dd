/** Deriving a standalone lockfile for a workspace from the lockfile of the root: finding packages, collecting the
    dependencies of a workspace and moving them to their new places. */
module Lockfiles {
  import opened Ordering

  /** A path of the lockfile, cut at its slashes; likewise a package name, which may have a scope in front. */
  type Key = seq<string>
  type Name = seq<string>

  const MODULES := "node_modules"

  /** Dependencies are listed by name; `optionalPeers` are the peer dependencies marked as optional, and `other` is the
      rest of the entry, such as version ranges and checksums, which is copied and never looked at. */
  datatype Package = Package(
    link: bool,
    resolved: Option<Key>,
    name: Option<string>,
    version: Option<string>,
    dependencies: seq<Name>,
    devDependencies: seq<Name>,
    peerDependencies: seq<Name>,
    optionalPeers: set<Name>,
    other: string)

  const EMPTY_PACKAGE := Package(false, None, None, None, [], [], [], {}, "")

  /** The folder of a workspace, if any, and a path of package names below it. */
  datatype PackagePath = PackagePath(workspace: Option<Key>, path: seq<Name>)

  datatype LocatedPackage = LocatedPackage(dependant: PackagePath, at: PackagePath, package: Package)

  datatype Dependency = Dependency(name: Name, located: LocatedPackage) {
    /** The place of the package itself. */
    function Node(): PackagePath {
      Child(located.at, name)
    }

    function Package(): Package {
      located.package
    }
  }

  datatype Error =
    | CannotLocate(name: Name)
    | LinkNotResolved(name: Name)
    | StackOverflow
    | NameMissing
    | NoSuchWorkspace

  datatype Result<T> = Ok(value: T) | Err(error: Error)

  const ROOT := PackagePath(None, [])

  function Child(at: PackagePath, name: Name): PackagePath {
    PackagePath(at.workspace, at.path + [name])
  }

  /** node_modules/a/node_modules/b ... */
  function Flat(path: seq<Name>): Key {
    if path == [] then [] else [MODULES] + path[0] + Flat(path[1..])
  }

  function KeyOf(at: PackagePath): Key {
    (if at.workspace.Some? then at.workspace.value else []) + Flat(at.path)
  }

  /** The search of locatePackageDependency: first below the dependant, then one folder up at a time, and from a
      workspace finally at the root. There the dependant is forgotten. */
  function LocateFrom(lock: map<Key, Package>, dependant: PackagePath, search: PackagePath, name: Name)
    : Option<LocatedPackage>
    decreases if search.workspace.Some? then 1 else 0, |search.path|
  {
    var key := KeyOf(Child(search, name));
    if key in lock then Some(LocatedPackage(dependant, search, lock[key]))
    else if search.path != [] then
      LocateFrom(lock, dependant, PackagePath(search.workspace, search.path[..|search.path| - 1]), name)
    else if search.workspace.Some? then LocateFrom(lock, ROOT, ROOT, name)
    else None
  }

  function Locate(lock: map<Key, Package>, dependant: PackagePath, name: Name): Option<LocatedPackage> {
    LocateFrom(lock, dependant, dependant, name)
  }

  predicate Has(lock: map<Key, Package>, at: PackagePath, name: Name) {
    KeyOf(Child(at, name)) in lock
  }

  function Upto(at: PackagePath, k: nat): PackagePath
    requires k <= |at.path|
  {
    PackagePath(at.workspace, at.path[..k])
  }

  /** None of the folders from `from` down to `at` itself has the package. */
  predicate Misses(lock: map<Key, Package>, at: PackagePath, from: nat, name: Name) {
    forall j :: from <= j <= |at.path| ==> !Has(lock, Upto(at, j), name)
  }

  /** The rule of Node.js when a file of the package at `at` asks for `name`: the nearest folder on the way up wins. The
      place of a link is where the link is; Node.js itself would follow the link and start from its target. */
  predicate Nearest(lock: map<Key, Package>, at: PackagePath, name: Name, l: LocatedPackage) {
    && Has(lock, l.at, name)
    && l.package == lock[KeyOf(Child(l.at, name))]
    && if l.at.workspace == at.workspace then
         && l.dependant == at
         && l.at.path <= at.path
         && Misses(lock, at, |l.at.path| + 1, name)
       else l.at == l.dependant == ROOT && Misses(lock, at, 0, name)
  }

  lemma {:induction false} LocateFromIsNearest(lock: map<Key, Package>, at: PackagePath, k: nat, name: Name)
    requires k <= |at.path| && Misses(lock, at, k + 1, name)
    ensures LocateFrom(lock, at, Upto(at, k), name).Some? ==>
              Nearest(lock, at, name, LocateFrom(lock, at, Upto(at, k), name).value)
    ensures LocateFrom(lock, at, Upto(at, k), name).None? ==> Misses(lock, at, 0, name) && !Has(lock, ROOT, name)
    decreases if at.workspace.Some? then 1 else 0, k
  {
    var search := Upto(at, k);
    if Has(lock, search, name) {
    } else if k > 0 {
      assert search.path[..k - 1] == at.path[..k - 1];
      LocateFromIsNearest(lock, at, k - 1, name);
    } else if at.workspace.Some? {
      assert Upto(ROOT, 0) == ROOT;
      LocateFromIsNearest(lock, ROOT, 0, name);
    } else {
      assert search == ROOT;
    }
  }

  /** locatePackageDependency finds the nearest package, and gives up only if there is none anywhere. */
  lemma LocateIsNearest(lock: map<Key, Package>, at: PackagePath, name: Name)
    ensures Locate(lock, at, name).Some? ==> Nearest(lock, at, name, Locate(lock, at, name).value)
    ensures Locate(lock, at, name).None? ==> Misses(lock, at, 0, name) && !Has(lock, ROOT, name)
  {
    assert Upto(at, |at.path|) == at;
    LocateFromIsNearest(lock, at, |at.path|, name);
  }

  /** There is at most one nearest package, so the search finds exactly it. */
  lemma NearestIsLocated(lock: map<Key, Package>, at: PackagePath, name: Name, l: LocatedPackage)
    requires Nearest(lock, at, name, l)
    ensures Locate(lock, at, name) == Some(l)
  {
    LocateIsNearest(lock, at, name);
    if l.at.workspace == at.workspace {
      assert l.at == Upto(at, |l.at.path|);
    }
    var found := Locate(lock, at, name);
    if found.Some? && found.value.at.workspace == at.workspace {
      assert found.value.at == Upto(at, |found.value.at.path|);
    }
  }

  /** A link stands for the package it resolves to, without its name; a missing target gives an empty package. */
  function Follow(lock: map<Key, Package>, package: Package): Package {
    if package.link && package.resolved.Some? then
      (if package.resolved.value in lock then lock[package.resolved.value] else EMPTY_PACKAGE).(name := None)
    else package
  }

  predicate Broken(package: Package) {
    package.link && package.resolved.None?
  }

  /** All names a package depends on, with whether a failure to find them is tolerated. */
  function Wants(package: Package): seq<(Name, bool)> {
    Required(package.dependencies) + Required(package.devDependencies) + Peers(package.peerDependencies, package)
  }

  function Required(names: seq<Name>): seq<(Name, bool)> {
    seq(|names|, i requires 0 <= i < |names| => (names[i], false))
  }

  function Peers(names: seq<Name>, package: Package): seq<(Name, bool)> {
    seq(|names|, i requires 0 <= i < |names| => (names[i], names[i] in package.optionalPeers))
  }

  function Entry(lock: map<Key, Package>, l: LocatedPackage, name: Name): Dependency {
    Dependency(name, l.(package := Follow(lock, l.package)))
  }

  /** collectDeps on a call stack of limited depth. */
  function CollectDeps(lock: map<Key, Package>, at: PackagePath, package: Package, stack: nat): Result<seq<Dependency>>
    decreases stack, 0, 0
  {
    if stack == 0 then Err(StackOverflow) else CollectAll(lock, at, Wants(package), stack)
  }

  function CollectAll(lock: map<Key, Package>, at: PackagePath, wants: seq<(Name, bool)>, stack: nat)
    : Result<seq<Dependency>>
    requires stack > 0
    decreases stack - 1, 1, |wants|
  {
    if wants == [] then Ok([])
    else
      var first := CollectOne(lock, at, wants[0].0, wants[0].1, stack);
      if first.Err? then first
      else
        var others := CollectAll(lock, at, wants[1..], stack);
        if others.Err? then others else Ok(first.value + others.value)
  }

  function CollectOne(lock: map<Key, Package>, at: PackagePath, name: Name, optional: bool, stack: nat)
    : Result<seq<Dependency>>
    requires stack > 0
    decreases stack - 1, 0, 1
  {
    var l := Locate(lock, at, name);
    if l.None? then (if optional then Ok([]) else Err(CannotLocate(name)))
    else if Broken(l.value.package) then Err(LinkNotResolved(name))
    else
      var entry := Entry(lock, l.value, name);
      var below := CollectDeps(lock, entry.Node(), entry.Package(), stack - 1);
      if below.Err? then below else Ok([entry] + below.value)
  }

  /** A name without a folder called node_modules in it, as npm demands of packages. */
  predicate ValidName(name: Name) {
    name != [] && MODULES !in name
  }

  predicate ValidNames(lock: map<Key, Package>) {
    forall k, w :: k in lock && w in Wants(lock[k]) ==> ValidName(w.0)
  }

  predicate ValidPath(at: PackagePath) {
    && (at.workspace.Some? ==> ValidName(at.workspace.value))
    && forall n :: n in at.path ==> ValidName(n)
  }

  predicate Opens(rest: Key) {
    rest == [] || rest[0] == MODULES
  }

  lemma LongerName(x: Key, y: Key, f: Key, g: Key)
    requires |x| < |y| && MODULES !in y && Opens(f)
    ensures x + f != y + g
  {
    if f != [] {
      assert (x + f)[|x|] == MODULES && (y + g)[|x|] == y[|x|];
    }
  }

  lemma SplitAtModules(x: Key, y: Key, f: Key, g: Key)
    requires x + f == y + g && MODULES !in x && MODULES !in y && Opens(f) && Opens(g)
    ensures x == y && f == g
  {
    if |x| < |y| {
      LongerName(x, y, f, g);
    } else if |y| < |x| {
      LongerName(y, x, g, f);
    } else {
      assert (x + f)[|x|..] == f && (y + g)[|y|..] == g;
      assert (x + f)[..|x|] == x && (y + g)[..|y|] == y;
    }
  }

  lemma {:induction false} FlatInjective(p: seq<Name>, q: seq<Name>)
    requires Flat(p) == Flat(q)
    requires forall n :: n in p + q ==> ValidName(n)
    ensures p == q
  {
    if p != [] && q != [] {
      assert p[0] in p + q && q[0] in p + q;
      assert Flat(p)[1..] == p[0] + Flat(p[1..]) && Flat(q)[1..] == q[0] + Flat(q[1..]);
      SplitAtModules(p[0], q[0], Flat(p[1..]), Flat(q[1..]));
      FlatInjective(p[1..], q[1..]);
      assert p == [p[0]] + p[1..] && q == [q[0]] + q[1..];
    }
  }

  /** Different places of a lockfile have different keys. */
  lemma KeyInjective(a: PackagePath, b: PackagePath)
    requires ValidPath(a) && ValidPath(b) && KeyOf(a) == KeyOf(b)
    ensures a == b
  {
    var x := if a.workspace.Some? then a.workspace.value else [];
    var y := if b.workspace.Some? then b.workspace.value else [];
    SplitAtModules(x, y, Flat(a.path), Flat(b.path));
    FlatInjective(a.path, b.path);
  }

  lemma {:induction false} FlatGrows(path: seq<Name>, name: Name)
    ensures Flat(path + [name]) == Flat(path) + [MODULES] + name
    decreases |path|
  {
    if path == [] {
      assert [name][1..] == [] && [] + [name] == [name];
    } else {
      assert (path + [name])[1..] == path[1..] + [name];
      FlatGrows(path[1..], name);
    }
  }

  /** The keys of the lockfile: a workspace is its folder, and a package lies in the node_modules of the one above. */
  lemma KeysAre(workspace: Option<Key>, path: seq<Name>, name: Name)
    ensures KeyOf(PackagePath(None, [])) == []
    ensures workspace.Some? ==> KeyOf(PackagePath(workspace, [])) == workspace.value
    ensures KeyOf(PackagePath(workspace, path + [name])) ==
            KeyOf(PackagePath(workspace, path)) + ["node_modules"] + name
  {
    FlatGrows(path, name);
  }
}
