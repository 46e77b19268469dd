/** A lockfile that the derivation breaks: of two packages pushed out of the way one depends on the other. */
module ConflictExample {
  import opened Ordering
  import opened Lockfiles
  import opened Dependencies
  import opened Relocation
  import opened Conflicts

  const SERVER: Key := ["server"]
  const ARGS: Name := ["args"]
  const CLI: Name := ["cli"]
  const CAMELCASE: Name := ["camelcase"]
  const DECAMELIZE: Name := ["decamelize"]

  function Make(version: string, dependencies: seq<Name>): Package {
    Package(false, None, Some("some"), Some(version), dependencies, [], [], {}, "")
  }

  /** An entry of a lockfile. */
  predicate Holds(lock: map<Key, Package>, at: PackagePath, name: Name, package: Package) {
    Has(lock, at, name) && lock[KeyOf(Child(at, name))] == package
  }

  /** The workspace has args, which needs camelcase 5, which needs decamelize 1; the root has cli, which needs later
      versions of both. No package has a folder of its own. */
  predicate IsExample(lock: map<Key, Package>) {
    && ValidNames(lock)
    && SERVER in lock && lock[SERVER] == Make("1", [ARGS, CLI])
    && Holds(lock, AT, ARGS, Make("1", [CAMELCASE]))
    && Holds(lock, AT, CAMELCASE, Make("5", [DECAMELIZE]))
    && Holds(lock, AT, DECAMELIZE, Make("1", []))
    && Holds(lock, ROOT, CLI, Make("1", [CAMELCASE, DECAMELIZE]))
    && Holds(lock, ROOT, CAMELCASE, Make("6", []))
    && Holds(lock, ROOT, DECAMELIZE, Make("5", []))
    && !Has(lock, AT, CLI)
    && forall k :: k in lock ==> |k| <= 3
  }

  const AT := PackagePath(Some(SERVER), [])

  /** The place of a package next to the workspace. */
  function Beside(name: Name): PackagePath {
    PackagePath(Some(SERVER), [name])
  }

  lemma WantsOf(version: string, dependencies: seq<Name>)
    ensures Wants(Make(version, dependencies)) == Required(dependencies)
  {
    var p := Make(version, dependencies);
    assert Required([]) == [] && Peers([], p) == [];
  }

  /** No package has a folder of its own. */
  lemma NoFolder(lock: map<Key, Package>, at: PackagePath, name: Name)
    requires IsExample(lock) && |at.path| == 1 && at.path[0] != [] && name != []
    ensures !Has(lock, at, name)
  {
    var p := at.path + [name];
    assert p[1..] == [name] && [name][1..] == [];
    assert Flat(p) == [MODULES] + p[0] + Flat([name]);
    assert Flat([name]) == [MODULES] + name + Flat([]);
    assert |KeyOf(Child(at, name))| >= 4;
  }

  /** What is next to the workspace is found there, from the workspace itself and from a package next to it. */
  lemma FoundHere(lock: map<Key, Package>, at: PackagePath, name: Name, package: Package)
    requires IsExample(lock) && name != [] && Holds(lock, AT, name, package)
    requires at == AT || (|at.path| == 1 && at.path[0] != [] && at == Beside(at.path[0]))
    ensures Locate(lock, at, name) == Some(LocatedPackage(at, AT, package))
  {
    assert Upto(at, |at.path|) == at;
    if at != AT {
      NoFolder(lock, at, name);
    }
    NearestIsLocated(lock, at, name, LocatedPackage(at, AT, package));
  }

  lemma FoundAbove(lock: map<Key, Package>)
    requires IsExample(lock)
    ensures Locate(lock, AT, CLI) == Some(LocatedPackage(ROOT, ROOT, Make("1", [CAMELCASE, DECAMELIZE])))
  {
    assert Upto(AT, 0) == AT;
    NearestIsLocated(lock, AT, CLI, LocatedPackage(ROOT, ROOT, Make("1", [CAMELCASE, DECAMELIZE])));
  }

  lemma FoundAtRoot(lock: map<Key, Package>, name: Name, package: Package)
    requires IsExample(lock) && name != [] && Holds(lock, ROOT, name, package)
    ensures var at := PackagePath(None, [CLI]); Locate(lock, at, name) == Some(LocatedPackage(at, ROOT, package))
  {
    var at := PackagePath(None, [CLI]);
    NoFolder(lock, at, name);
    assert Upto(at, 1) == at;
    NearestIsLocated(lock, at, name, LocatedPackage(at, ROOT, package));
  }

  lemma CollectsNothing(lock: map<Key, Package>, at: PackagePath, version: string, stack: nat)
    requires stack > 0
    ensures CollectDeps(lock, at, Make(version, []), stack) == Ok([])
  {
    WantsOf(version, []);
  }

  /** A dependency that is found, with what is collected below it. */
  predicate Collects(lock: map<Key, Package>, at: PackagePath, e: Dependency, stack: nat, below: seq<Dependency>)
    requires stack > 0
  {
    && Locate(lock, at, e.name) == Some(e.located) && !e.located.package.link
    && CollectDeps(lock, e.Node(), e.Package(), stack - 1) == Ok(below)
  }

  lemma CollectsFirst(lock: map<Key, Package>, at: PackagePath, e: Dependency, stack: nat, below: seq<Dependency>,
                      wants: seq<(Name, bool)>, others: seq<Dependency>)
    requires stack > 0 && Collects(lock, at, e, stack, below)
    requires CollectAll(lock, at, wants, stack) == Ok(others)
    ensures CollectAll(lock, at, [(e.name, false)] + wants, stack) == Ok([e] + below + others)
  {
    assert Entry(lock, e.located, e.name) == e;
    assert CollectOne(lock, at, e.name, false, stack) == Ok([e] + below);
    assert ([(e.name, false)] + wants)[1..] == wants;
  }

  lemma CollectsOne(lock: map<Key, Package>, at: PackagePath, version: string, e: Dependency, stack: nat,
                    below: seq<Dependency>)
    requires stack > 0 && Collects(lock, at, e, stack, below)
    ensures CollectDeps(lock, at, Make(version, [e.name]), stack) == Ok([e] + below)
  {
    WantsOf(version, [e.name]);
    assert Required([e.name]) == [(e.name, false)] + [];
    CollectsFirst(lock, at, e, stack, below, [], []);
    assert [e] + below + [] == [e] + below;
  }

  lemma CollectsTwo(lock: map<Key, Package>, at: PackagePath, version: string, e: Dependency, f: Dependency,
                    stack: nat, below: seq<Dependency>, after: seq<Dependency>)
    requires stack > 0 && Collects(lock, at, e, stack, below) && Collects(lock, at, f, stack, after)
    ensures CollectDeps(lock, at, Make(version, [e.name, f.name]), stack) == Ok([e] + below + ([f] + after))
  {
    WantsOf(version, [e.name, f.name]);
    assert Required([e.name, f.name]) == [(e.name, false)] + ([(f.name, false)] + []);
    CollectsFirst(lock, at, f, stack, after, [], []);
    assert [f] + after + [] == [f] + after;
    CollectsFirst(lock, at, e, stack, below, [(f.name, false)] + [], [f] + after);
  }

  function EntryOfArgs(): Dependency {
    Dependency(ARGS, LocatedPackage(AT, AT, Make("1", [CAMELCASE])))
  }

  function Camelcase5(): Dependency {
    Dependency(CAMELCASE, LocatedPackage(Beside(ARGS), AT, Make("5", [DECAMELIZE])))
  }

  function Decamelize1(): Dependency {
    Dependency(DECAMELIZE, LocatedPackage(Beside(CAMELCASE), AT, Make("1", [])))
  }

  function EntryOfCli(): Dependency {
    Dependency(CLI, LocatedPackage(ROOT, ROOT, Make("1", [CAMELCASE, DECAMELIZE])))
  }

  function Camelcase6(): Dependency {
    Dependency(CAMELCASE, LocatedPackage(PackagePath(None, [CLI]), ROOT, Make("6", [])))
  }

  function Decamelize5(): Dependency {
    Dependency(DECAMELIZE, LocatedPackage(PackagePath(None, [CLI]), ROOT, Make("5", [])))
  }

  function BelowArgs(): seq<Dependency> {
    [Camelcase5()] + [Decamelize1()]
  }

  function BelowCli(): seq<Dependency> {
    [Camelcase6()] + [] + ([Decamelize5()] + [])
  }

  function Deps(): seq<Dependency> {
    [EntryOfArgs()] + BelowArgs() + ([EntryOfCli()] + BelowCli())
  }

  lemma CollectsDecamelize(lock: map<Key, Package>)
    requires IsExample(lock)
    ensures CollectDeps(lock, Beside(CAMELCASE), Make("5", [DECAMELIZE]), 2) == Ok([Decamelize1()])
  {
    var e := Decamelize1();
    assert e.Node() == Beside(DECAMELIZE);
    CollectsNothing(lock, e.Node(), "1", 1);
    FoundHere(lock, Beside(CAMELCASE), DECAMELIZE, e.Package());
    CollectsOne(lock, Beside(CAMELCASE), "5", e, 2, []);
    assert [e] + [] == [e];
  }

  lemma CollectsCamelcase(lock: map<Key, Package>)
    requires IsExample(lock)
    ensures CollectDeps(lock, Beside(ARGS), Make("1", [CAMELCASE]), 3) == Ok(BelowArgs())
  {
    var e := Camelcase5();
    assert e.Node() == Beside(CAMELCASE);
    CollectsDecamelize(lock);
    FoundHere(lock, Beside(ARGS), CAMELCASE, e.Package());
    CollectsOne(lock, Beside(ARGS), "1", e, 3, [Decamelize1()]);
  }

  lemma CollectsBelowCli(lock: map<Key, Package>)
    requires IsExample(lock)
    ensures CollectDeps(lock, PackagePath(None, [CLI]), Make("1", [CAMELCASE, DECAMELIZE]), 3) == Ok(BelowCli())
  {
    var e, f := Camelcase6(), Decamelize5();
    CollectsNothing(lock, e.Node(), "6", 2);
    CollectsNothing(lock, f.Node(), "5", 2);
    FoundAtRoot(lock, CAMELCASE, e.Package());
    FoundAtRoot(lock, DECAMELIZE, f.Package());
    CollectsTwo(lock, PackagePath(None, [CLI]), "1", e, f, 3, [], []);
  }

  lemma CollectsDeps(lock: map<Key, Package>)
    requires IsExample(lock)
    ensures CollectDeps(lock, AT, Make("1", [ARGS, CLI]), 4) == Ok(Deps())
  {
    var e, f := EntryOfArgs(), EntryOfCli();
    assert e.Node() == Beside(ARGS) && f.Node() == PackagePath(None, [CLI]);
    CollectsCamelcase(lock);
    CollectsBelowCli(lock);
    FoundHere(lock, AT, ARGS, e.Package());
    FoundAbove(lock);
    CollectsTwo(lock, AT, "1", e, f, 4, BelowArgs(), BelowCli());
  }

  lemma DepsAre()
    ensures Deps() == [EntryOfArgs(), Camelcase5(), Decamelize1(), EntryOfCli(), Camelcase6(), Decamelize5()]
  {
  }

  lemma BothArePushed()
    ensures Camelcase5() in Deps() && Decamelize1() in Deps()
    ensures Pushed(Deps(), Camelcase5()) && Pushed(Deps(), Decamelize1())
  {
    DepsAre();
    var deps := [EntryOfArgs(), Camelcase5(), Decamelize1(), EntryOfCli(), Camelcase6(), Decamelize5()];
    assert deps[1] in deps && deps[2] in deps;
    assert deps[4] in deps && deps[4].name == CAMELCASE && deps[4].located.at == ROOT;
    assert deps[5] in deps && deps[5].name == DECAMELIZE && deps[5].located.at == ROOT;
    assert AtRoot(deps, CAMELCASE) && AtRoot(deps, DECAMELIZE);
  }

  lemma OneNeedsTheOther(lock: map<Key, Package>)
    requires IsExample(lock)
    ensures Edge(lock, Camelcase5().Node(), Camelcase5().Package(), Decamelize1())
  {
    var e := Decamelize1();
    assert Camelcase5().Node() == Beside(CAMELCASE);
    FoundHere(lock, Beside(CAMELCASE), DECAMELIZE, e.Package());
    WantsOf("5", [DECAMELIZE]);
    assert Required([DECAMELIZE])[0] == (DECAMELIZE, false);
  }

  /** camelcase 5 goes below args and decamelize 1 below camelcase, where camelcase 5 no longer sees it. */
  lemma ChainedConflictBreaks(lock: map<Key, Package>)
    requires IsExample(lock)
    ensures var start := Spot(AT, lock[SERVER]);
            && Collected(lock, start, 4, Deps())
            && Pushed(Deps(), Camelcase5()) && Pushed(Deps(), Decamelize1())
            && Edge(lock, Camelcase5().Node(), Camelcase5().Package(), Decamelize1())
            && Camelcase5().Node() != Decamelize1().located.at
            && !Faithful(lock, start, Deps(), Derived(start.package, Deps()))
  {
    var start := Spot(AT, lock[SERVER]);
    StartIsValid(lock);
    CollectsDeps(lock);
    BothArePushed();
    OneNeedsTheOther(lock);
    assert Needs(lock, Deps(), Camelcase5(), Decamelize1());
    HarmfulBreaks(lock, start, 4, Deps());
  }

  lemma StartIsValid(lock: map<Key, Package>)
    requires IsExample(lock)
    ensures ValidSpot(Spot(AT, lock[SERVER]))
  {
    forall w | w in Wants(lock[SERVER])
      ensures ValidName(w.0)
    {
    }
  }

  /***** Such a lockfile *****/

  function Here(name: string): Key {
    ["server", MODULES, name]
  }

  function Top(name: string): Key {
    [MODULES, name]
  }

  function Root(): map<Key, Package> {
    map[SERVER := Make("1", [ARGS, CLI]),
        Here("args") := Make("1", [CAMELCASE]),
        Here("camelcase") := Make("5", [DECAMELIZE]),
        Here("decamelize") := Make("1", []),
        Top("cli") := Make("1", [CAMELCASE, DECAMELIZE]),
        Top("camelcase") := Make("6", []),
        Top("decamelize") := Make("5", [])]
  }

  lemma DifferentKeys(a: string, b: string)
    ensures |Here(a)| == 3 && |Top(a)| == 2 && |SERVER| == 1
    ensures a != b ==> Here(a) != Here(b) && Top(a) != Top(b)
  {
    assert Here(a)[2] == a && Here(b)[2] == b && Top(a)[1] == a && Top(b)[1] == b;
  }

  lemma RootEntries()
    ensures SERVER in Root() && Root()[SERVER] == Make("1", [ARGS, CLI])
    ensures Here("args") in Root() && Root()[Here("args")] == Make("1", [CAMELCASE])
    ensures Here("camelcase") in Root() && Root()[Here("camelcase")] == Make("5", [DECAMELIZE])
    ensures Here("decamelize") in Root() && Root()[Here("decamelize")] == Make("1", [])
    ensures Top("cli") in Root() && Root()[Top("cli")] == Make("1", [CAMELCASE, DECAMELIZE])
    ensures Top("camelcase") in Root() && Root()[Top("camelcase")] == Make("6", [])
    ensures Top("decamelize") in Root() && Root()[Top("decamelize")] == Make("5", [])
    ensures Here("cli") !in Root()
  {
    DifferentKeys("args", "camelcase");
    DifferentKeys("args", "decamelize");
    DifferentKeys("camelcase", "decamelize");
    DifferentKeys("cli", "args");
    DifferentKeys("cli", "camelcase");
    DifferentKeys("cli", "decamelize");
  }

  lemma KeyIs(at: PackagePath, name: string)
    requires at == AT || at == ROOT
    ensures KeyOf(Child(at, [name])) == if at == AT then Here(name) else Top(name)
  {
    assert [] + [[name]] == [[name]] && [[name]][1..] == [] && Flat([]) == [];
    assert Flat([[name]]) == [MODULES] + [name] + [];
  }

  lemma NamesOf(version: string, dependencies: seq<Name>, w: (Name, bool))
    requires w in Wants(Make(version, dependencies))
    ensures w.0 in dependencies
  {
    WantsOf(version, dependencies);
  }

  /** Every package of the lockfile depends on some of four names. */
  lemma RootNames(k: Key)
    requires k in Root()
    ensures |k| <= 3
    ensures Root()[k] == Make(Root()[k].version.value, Root()[k].dependencies)
    ensures forall n :: n in Root()[k].dependencies ==> n in {ARGS, CLI, CAMELCASE, DECAMELIZE}
  {
  }

  lemma RootNamesAreValid()
    ensures ValidNames(Root())
  {
    forall k, w | k in Root() && w in Wants(Root()[k])
      ensures ValidName(w.0)
    {
      RootNames(k);
      NamesOf(Root()[k].version.value, Root()[k].dependencies, w);
      assert |w.0| == 1 && w.0[0] in {"args", "cli", "camelcase", "decamelize"};
    }
  }

  lemma RootIsExample()
    ensures IsExample(Root())
  {
    RootNamesAreValid();
    RootEntries();
    KeyIs(AT, "args");
    KeyIs(AT, "camelcase");
    KeyIs(AT, "decamelize");
    KeyIs(AT, "cli");
    KeyIs(ROOT, "cli");
    KeyIs(ROOT, "camelcase");
    KeyIs(ROOT, "decamelize");
    forall k | k in Root()
      ensures |k| <= 3
    {
      RootNames(k);
    }
  }
}
