/** The project after a squash, and why it means the same. */
module SquashedProjects {
  import opened Ordering
  import opened Readers
  import opened Runner
  import opened Pipeline
  import opened SquashMeaning

  /** The directories of vs are moved away, and one directory for version `at` takes their place. A text that was never
      written to gives no file. */
  function SquashedProject(src: Source, vs: set<nat>, at: nat, up: string, down: string): Source {
    Source((src.up - vs) + (if up == "" then map[] else map[at := up]),
           (src.down - vs) + (if down == "" then map[] else map[at := down]),
           src.metaUp - vs, src.metaDown - vs)
  }

  /** The file a text is written to; an empty text leaves none. */
  function FileOf(text: string): Option<string> {
    if text == "" then None else Some(text)
  }

  /** One file with the text of the middle part does what the middle part does. */
  lemma SqueezedActs<S(!new)>(act: (string, S) -> S, files: map<nat, string>, files': map<nat, string>,
                              a: seq<nat>, mid: seq<nat>, b: seq<nat>, at: nat, s: S)
    requires NothingDoesNothing(act) && AllSeparable(act, SqlOf(files, mid))
    requires forall v :: v in a || v in b ==> Lookup(files, v) == Lookup(files', v)
    requires Lookup(files', at) == FileOf(Text(SqlOf(files, mid)))
    ensures Acts(act, SqlOf(files', a + ([at] + b)), s) == Acts(act, SqlOf(files, a + (mid + b)), s)
  {
    SqlSame(files, files', a);
    SqlSame(files, files', b);
    SqlConcat(files, a, mid + b);
    SqlConcat(files, mid, b);
    SqlConcat(files', a, [at] + b);
    SqlConcat(files', [at], b);
    var s1 := Acts(act, SqlOf(files, a), s);
    ActsConcat(act, SqlOf(files, a), SqlOf(files, mid) + SqlOf(files, b), s);
    ActsConcat(act, SqlOf(files, a), SqlOf(files', [at]) + SqlOf(files, b), s);
    ActsConcat(act, SqlOf(files, mid), SqlOf(files, b), s1);
    ActsConcat(act, SqlOf(files', [at]), SqlOf(files, b), s1);
    OneFileActs(act, files, files', mid, at, s1);
  }

  lemma OneFileActs<S(!new)>(act: (string, S) -> S, files: map<nat, string>, files': map<nat, string>, mid: seq<nat>,
                             at: nat, s: S)
    requires NothingDoesNothing(act) && AllSeparable(act, SqlOf(files, mid))
    requires Lookup(files', at) == FileOf(Text(SqlOf(files, mid)))
    ensures Acts(act, SqlOf(files', [at]), s) == Acts(act, SqlOf(files, mid), s)
  {
    TextActs(act, SqlOf(files, mid), s);
    assert [at][1..] == [];
  }

  /** A range that can be squashed: it does not start at version 0 and has up SQL throughout. */
  ghost predicate Squashable(src: Source, from: nat, to: int) {
    && IsRange(src, from, to) && from > 0
    && Fits(src.Versions()) && NoEmptyFiles(src)
    && Range(src, from, to) <= src.up.Keys
  }

  function At(src: Source, from: nat, to: int): nat
    requires IsRange(src, from, to)
  {
    assert from in Range(src, from, to);
    MaxOf(Range(src, from, to))
  }

  function UpText(src: Source, range: set<nat>): string {
    Text(SqlOf(src.up, SortAsc(range)))
  }

  function DownText(src: Source, range: set<nat>): string {
    Text(SqlOf(src.down, SortDesc(range)))
  }

  /** The project after squashing a range. */
  function After(src: Source, from: nat, to: int): Source
    requires IsRange(src, from, to)
  {
    var range := Range(src, from, to);
    SquashedProject(src, range, At(src, from, to), UpText(src, range), DownText(src, range))
  }

  lemma SquashReturns(src: Source, from: nat, to: int)
    requires Squashable(src, from, to)
    ensures var range := Range(src, from, to);
            Squash(src, from, to, false) == Squashed(SortAsc(range), UpText(src, range), DownText(src, range))
  {
    SquashExact(src, from, to);
    assert Range(src, from, to) - {0} == Range(src, from, to);
  }

  /** Squash hands the command exactly what After is made of. */
  lemma SquashGivesAfter(src: Source, from: nat, to: int, r: SquashResult)
    requires Squashable(src, from, to)
    requires var range := Range(src, from, to); r == Squashed(SortAsc(range), UpText(src, range), DownText(src, range))
    ensures r.versions != [] && r.versions[|r.versions| - 1] == At(src, from, to)
    ensures After(src, from, to) == SquashedProject(src, Elems(r.versions), At(src, from, to), r.up, r.down)
  {
    var range := Range(src, from, to);
    assert from in range;
    SortAscEnumerates(range);
    LastIsMax(range);
  }

  lemma LastIsMax(s: set<nat>)
    requires s != {}
    ensures var vs := SortAsc(s); vs != [] && vs[|vs| - 1] == MaxOf(s)
  {
    var vs := SortAsc(s);
    SortAscEnumerates(s);
    assert MaxOf(s) in Elems(vs) && vs[|vs| - 1] in Elems(vs);
    var i :| 0 <= i < |vs| && vs[i] == MaxOf(s);
  }

  lemma TextNotEmpty(files: map<nat, string>, vs: seq<nat>)
    requires vs != [] && vs[0] in files
    ensures Text(SqlOf(files, vs)) != ""
  {
    SqlHead(files, vs);
  }

  lemma AfterVersions(src: Source, from: nat, to: int)
    requires Squashable(src, from, to)
    ensures var range, at := Range(src, from, to), At(src, from, to);
            UpText(src, range) != "" &&
            After(src, from, to).Versions() == src.Versions() - range + {at} &&
            (forall v :: v !in range ==>
              Lookup(After(src, from, to).up, v) == Lookup(src.up, v) &&
              Lookup(After(src, from, to).down, v) == Lookup(src.down, v)) &&
            Lookup(After(src, from, to).up, at) == Some(UpText(src, range))
  {
    var range := Range(src, from, to);
    assert from in range;
    assert SortAsc(range)[0] in range;
    TextNotEmpty(src.up, SortAsc(range));
    var after := After(src, from, to);
    assert after.up.Keys == src.up.Keys - range + {At(src, from, to)};
  }

  /***** A squash of versions that are not applied *****/

  lemma CutAsc(s: set<nat>, range: set<nat>, low: nat, high: nat)
    requires range <= s && IsMin(low, range) && IsMax(high, range)
    requires forall x :: x in s && low <= x <= high ==> x in range
    ensures var below, above := UpTo(s, low - 1), Above(s, high);
            SortAsc(s) == SortAsc(below) + (SortAsc(range) + SortAsc(above)) &&
            SortAsc(s - range + {high}) == SortAsc(below) + ([high] + SortAsc(above))
  {
    var below, above := UpTo(s, low - 1), Above(s, high);
    JoinAsc(range, above);
    JoinAsc(below, range + above);
    assert s == below + (range + above);
    JoinAsc({high}, above);
    assert {high} - {high} == {} && SortAsc({high}) == [high];
    JoinAsc(below, {high} + above);
    assert s - range + {high} == below + ({high} + above);
  }

  lemma CutDesc(s: set<nat>, range: set<nat>, low: nat, high: nat)
    requires range <= s && IsMin(low, range) && IsMax(high, range)
    requires forall x :: x in s && low <= x <= high ==> x in range
    ensures var below, above := UpTo(s, low - 1), Above(s, high);
            SortDesc(s) == SortDesc(above) + (SortDesc(range) + SortDesc(below)) &&
            SortDesc(s - range + {high}) == SortDesc(above) + ([high] + SortDesc(below))
  {
    var below, above := UpTo(s, low - 1), Above(s, high);
    JoinDesc(range, below);
    JoinDesc(above, range + below);
    assert s == above + (range + below);
    JoinDesc({high}, below);
    assert {high} - {high} == {} && SortDesc({high}) == [high];
    JoinDesc(above, {high} + below);
    assert s - range + {high} == above + ({high} + below);
  }

  lemma RangeEnds(src: Source, from: nat, to: int)
    requires IsRange(src, from, to)
    ensures Range(src, from, to) <= src.Versions()
    ensures IsMin(from, Range(src, from, to)) && IsMax(At(src, from, to), Range(src, from, to))
    ensures forall x :: x in src.Versions() && from <= x <= At(src, from, to) ==> x in Range(src, from, to)
  {
    assert from in Range(src, from, to);
  }

  lemma SortedMembers(s: set<nat>)
    ensures forall v :: v in SortAsc(s) ==> v in s
    ensures forall v :: v in SortDesc(s) ==> v in s
  {
    SortAscEnumerates(s);
    SortDescEnumerates(s);
    assert forall v :: v in SortAsc(s) ==> v in Elems(SortAsc(s));
    assert forall v :: v in SortDesc(s) ==> v in Elems(SortDesc(s));
  }

  /** The SQL of all pending versions, before and after the squash, does the same. */
  lemma PendingSqlSame<S(!new)>(act: (string, S) -> S, src: Source, applied: set<nat>, from: nat, to: int, s: S)
    requires Squashable(src, from, to) && Range(src, from, to) !! applied
    requires NothingDoesNothing(act) && forall v :: v in Range(src, from, to) ==> Separable(act, src.up[v])
    ensures var after := After(src, from, to);
            Acts(act, SqlOf(after.up, SortAsc(after.Versions() - applied)), s) ==
            Acts(act, SqlOf(src.up, SortAsc(src.Versions() - applied)), s)
  {
    var range, at, after := Range(src, from, to), At(src, from, to), After(src, from, to);
    var missing := src.Versions() - applied;
    AfterVersions(src, from, to);
    RangeEnds(src, from, to);
    CutAsc(missing, range, from, at);
    assert after.Versions() - applied == missing - range + {at};
    var below, above := UpTo(missing, from - 1), Above(missing, at);
    SortedMembers(below);
    SortedMembers(above);
    SeparableRange(act, src.up, SortAsc(range), range);
    SqueezedActs(act, src.up, after.up, SortAsc(below), SortAsc(range), SortAsc(above), at, s);
  }

  /***** A range that starts at version 0 *****/

  /** What the command makes of it: version 0 is not moved away. */
  function AfterZero(src: Source, to: int): Source
    requires IsRange(src, 0, to)
  {
    var range := Range(src, 0, to);
    SquashedProject(src, range - {0}, At(src, 0, to), UpText(src, range), DownText(src, range))
  }

  lemma ZeroRange(src: Source, to: int)
    requires IsRange(src, 0, to) && Range(src, 0, to) <= src.up.Keys && Range(src, 0, to) != {0}
    ensures var range, at := Range(src, 0, to), At(src, 0, to);
            at != 0 && at in range && 0 in range && UpText(src, range) != ""
  {
    var range := Range(src, 0, to);
    RangeEnds(src, 0, to);
    assert SortAsc(range)[0] in range;
    TextNotEmpty(src.up, SortAsc(range));
    var v :| v in range && v != 0;
  }

  lemma ZeroVersions(src: Source, to: int)
    requires IsRange(src, 0, to) && Range(src, 0, to) <= src.up.Keys && Range(src, 0, to) != {0}
    ensures var range, at, after := Range(src, 0, to), At(src, 0, to), AfterZero(src, to);
            && at != 0 && at in range && 0 in range
            && after.Versions() == src.Versions() - range + {0} + {at}
            && Lookup(after.up, at) == Some(UpText(src, range))
            && forall v :: v !in range - {0} ==> Lookup(after.up, v) == Lookup(src.up, v)
  {
    ZeroRange(src, to);
    var range := Range(src, 0, to);
    ProjectVersions(src, range - {0}, At(src, 0, to), UpText(src, range), DownText(src, range));
    assert 0 in src.Versions();
  }

  lemma ProjectVersions(src: Source, vs: set<nat>, at: nat, up: string, down: string)
    requires up != ""
    ensures SquashedProject(src, vs, at, up, down).Versions() == src.Versions() - vs + {at}
  {
    var after := SquashedProject(src, vs, at, up, down);
    assert after.up.Keys == src.up.Keys - vs + {at};
    assert after.down.Keys <= src.down.Keys - vs + {at} && src.down.Keys - vs <= after.down.Keys;
  }

  /** The order in which Up takes what is missing then. */
  lemma ZeroOrder(src: Source, applied: set<nat>, to: int)
    requires IsRange(src, 0, to) && Range(src, 0, to) <= src.up.Keys && Range(src, 0, to) != {0}
    requires Range(src, 0, to) !! applied
    ensures var range, at := Range(src, 0, to), At(src, 0, to);
            var above := Above(src.Versions() - applied, at);
            && SortAsc(src.Versions() - applied) == SortAsc(range) + SortAsc(above)
            && SortAsc(AfterZero(src, to).Versions() - applied) == [0] + ([at] + SortAsc(above))
  {
    var range, at := Range(src, 0, to), At(src, 0, to);
    var missing := src.Versions() - applied;
    ZeroVersions(src, to);
    RangeEnds(src, 0, to);
    CutAtZero(missing, range, at);
    ZeroFirst(missing - range + {at});
    assert AfterZero(src, to).Versions() - applied == {0} + (missing - range + {at});
  }

  lemma CutAtZero(s: set<nat>, range: set<nat>, high: nat)
    requires range <= s && IsMin(0, range) && IsMax(high, range)
    requires forall x :: x in s && x <= high ==> x in range
    ensures var above := Above(s, high);
            SortAsc(s) == SortAsc(range) + SortAsc(above) && SortAsc(s - range + {high}) == [high] + SortAsc(above)
  {
    CutAsc(s, range, 0, high);
    assert UpTo(s, -1) == {} && SortAsc({}) == [];
  }

  lemma ZeroFirst(rest: set<nat>)
    requires 0 !in rest
    ensures SortAsc({0} + rest) == [0] + SortAsc(rest)
  {
    JoinAsc({0}, rest);
    OnlyOne(0);
  }

  lemma OnlyOne(v: nat)
    ensures SortAsc({v}) == [v]
  {
    assert MinOf({v}) == v && {v} - {v} == {};
  }

  /** The text of the whole range after version 0 on its own: as if the SQL of version 0 had run before. */
  lemma ZeroActs<S(!new)>(act: (string, S) -> S, src: Source, to: int, b: seq<nat>, s: S)
    requires IsRange(src, 0, to) && Range(src, 0, to) <= src.up.Keys && Range(src, 0, to) != {0}
    requires Elems(b) !! Range(src, 0, to)
    requires NothingDoesNothing(act) && forall v :: v in Range(src, 0, to) ==> Separable(act, src.up[v])
    ensures var range, at := Range(src, 0, to), At(src, 0, to);
            && 0 in src.up
            && Acts(act, SqlOf(AfterZero(src, to).up, [0] + ([at] + b)), s) ==
               Acts(act, SqlOf(src.up, SortAsc(range) + b), act(src.up[0], s))
  {
    var range, at, after := Range(src, 0, to), At(src, 0, to), AfterZero(src, to);
    ZeroVersions(src, to);
    SeparableRange(act, src.up, SortAsc(range), range);
    assert forall v :: v in b ==> v in Elems(b);
    SqueezedActs(act, src.up, after.up, [0], SortAsc(range), b, at, s);
    var all := SortAsc(range) + b;
    SqlHead(src.up, [0] + all);
    assert ([0] + all)[1..] == all;
  }

  lemma ZeroSql<S(!new)>(act: (string, S) -> S, src: Source, applied: set<nat>, to: int, s: S)
    requires IsRange(src, 0, to) && Range(src, 0, to) <= src.up.Keys && Range(src, 0, to) != {0}
    requires Range(src, 0, to) !! applied
    requires NothingDoesNothing(act) && forall v :: v in Range(src, 0, to) ==> Separable(act, src.up[v])
    ensures var after := AfterZero(src, to);
            && 0 in src.up
            && Acts(act, SqlOf(after.up, SortAsc(after.Versions() - applied)), s) ==
               Acts(act, SqlOf(src.up, SortAsc(src.Versions() - applied)), act(src.up[0], s))
  {
    var above := Above(src.Versions() - applied, At(src, 0, to));
    ZeroOrder(src, applied, to);
    RangeEnds(src, 0, to);
    SortAscEnumerates(above);
    ZeroActs(act, src, to, SortAsc(above), s);
  }

  /***** A squash of versions that are applied *****/

  /** What the command leaves recorded once it has removed all squashed versions but the last. */
  function Forgotten(srv: Server, src: Source, from: nat, to: int): Server
    requires IsRange(src, from, to)
  {
    srv.(store := srv.store - (Range(src, from, to) - {At(src, from, to)}))
  }

  /** Squashing versions that are all applied: of the range only the last version stays recorded, nothing of it is
      pending, and what was pending outside it still is. */
  lemma SquashKeepsPending(src: Source, srv: Server, from: nat, to: int)
    requires Squashable(src, from, to) && Range(src, from, to) <= srv.store.Keys
    ensures var range, at := Range(src, from, to), At(src, from, to);
            var recorded := Forgotten(srv, src, from, to).store.Keys;
            recorded == srv.store.Keys - range + {at} &&
            After(src, from, to).Versions() - recorded == src.Versions() - srv.store.Keys
  {
    AfterVersions(src, from, to);
    RangeEnds(src, from, to);
  }

  /** All versions after `from` up to `to` are in the project, and applied exactly if `from` is. */
  ghost predicate InSync(present: set<nat>, applied: set<nat>, from: nat, to: nat) {
    forall v :: v in present + applied && from < v <= to ==> v in present && (v in applied <==> from in applied)
  }

  /** A range that is applied as a whole, nothing else between its ends. */
  ghost predicate InForce(src: Source, applied: set<nat>, from: nat, to: int)
    requires IsRange(src, from, to)
  {
    from in applied && InSync(src.Versions(), applied, from, At(src, from, to))
  }

  lemma InForceCut(src: Source, applied: set<nat>, from: nat, to: int)
    requires IsRange(src, from, to) && InForce(src, applied, from, to)
    ensures Range(src, from, to) <= applied
    ensures forall x :: x in applied && from <= x <= At(src, from, to) ==> x in Range(src, from, to)
  {
    RangeEnds(src, from, to);
  }

  /** The down file of the squashed project: none if nothing in the range has down SQL. */
  lemma AfterDownFile(src: Source, from: nat, to: int)
    requires IsRange(src, from, to)
    ensures var range, at := Range(src, from, to), At(src, from, to);
            && Lookup(After(src, from, to).down, at) == FileOf(DownText(src, range))
            && (DownText(src, range) == "" <==> range !! src.down.Keys)
  {
    var range := Range(src, from, to);
    RangeEnds(src, from, to);
    SortDescEnumerates(range);
    NoTextIff(src.down, SortDesc(range));
  }

  lemma {:induction false} NoTextIff(files: map<nat, string>, vs: seq<nat>)
    ensures Text(SqlOf(files, vs)) == "" <==> Elems(vs) !! files.Keys
    decreases |vs|
  {
    if vs == [] {
    } else {
      NoTextIff(files, vs[1..]);
      SqlHead(files, vs);
      assert vs == [vs[0]] + vs[1..];
      ConsElems(vs[0], vs[1..]);
    }
  }

  /** The SQL of a complete rollback, before and after the squash, does the same, whatever down files are lacking. */
  lemma RollbackSqlSame<S(!new)>(act: (string, S) -> S, src: Source, srv: Server, from: nat, to: int, s: S)
    requires Squashable(src, from, to) && InForce(src, srv.store.Keys, from, to)
    requires NothingDoesNothing(act)
    requires forall v :: v in Range(src, from, to) && v in src.down ==> Separable(act, src.down[v])
    ensures var recorded := Forgotten(srv, src, from, to).store.Keys;
            Acts(act, SqlOf(After(src, from, to).down, SortDesc(recorded)), s) ==
            Acts(act, SqlOf(src.down, SortDesc(srv.store.Keys)), s)
  {
    var range, at, after := Range(src, from, to), At(src, from, to), After(src, from, to);
    var applied := srv.store.Keys;
    AfterVersions(src, from, to);
    RangeEnds(src, from, to);
    InForceCut(src, applied, from, to);
    AfterDownFile(src, from, to);
    SquashKeepsPending(src, srv, from, to);
    CutDesc(applied, range, from, at);
    var below, above := UpTo(applied, from - 1), Above(applied, at);
    SortedMembers(below);
    SortedMembers(above);
    SeparableRange(act, src.down, SortDesc(range), range);
    SqueezedActs(act, src.down, after.down, SortDesc(above), SortDesc(range), SortDesc(below), at, s);
  }
}
