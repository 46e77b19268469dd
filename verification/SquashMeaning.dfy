/** What Squash computes for a range of versions, and what the squashed SQL does. */
module SquashMeaning {
  import opened Ordering
  import opened Readers
  import opened Laws
  import opened Outcomes
  import opened History
  import opened DryRun
  import opened SquashReaders
  import opened Pipeline
  import opened PipelineFailure

  /** Scanning a project leaves out files without content. */
  ghost predicate NoEmptyFiles(src: Source) {
    (forall v :: v in src.up ==> src.up[v] != "") && (forall v :: v in src.down ==> src.down[v] != "")
  }

  /** The SQL of one direction for some versions, in the given order. */
  function SqlOf(files: map<nat, string>, vs: seq<nat>): seq<string> {
    if vs == [] then [] else (if vs[0] in files then [files[vs[0]]] else []) + SqlOf(files, vs[1..])
  }

  /** What Squash returns: the versions, the up text and the down text, or the error of the up reader. With more parts
      in front of the error than the channels hold it does not return at all. */
  datatype SquashResult =
    | Squashed(versions: seq<nat>, up: string, down: string)
    | SquashError(error: Error)
    | SquashBlocks

  /** The capacity of every channel of the pipeline. */
  const PREFETCH: nat := 10

  function Squash(src: Source, from: nat, to: int, stopping: bool): SquashResult
    requires to >= -1
  {
    var ups := if stopping then [] else SquashUps(src, from, to);
    var downs := if stopping then [] else SquashDowns(src, from, DownStart(src, to));
    var error := FirstError(ups);
    if error.Some? then (if |Parts(ups)| <= PREFETCH then SquashError(error.value) else SquashBlocks)
    else Squashed(Reported(ups, 0), Text(Parts(ups)), Text(Parts(downs)))
  }

  lemma {:induction false} UpsFail(src: Source, vs: seq<nat>)
    ensures var ms := Ups(src, vs, []);
            if FirstError(ms).Some? then Fails(ms, FirstError(ms).value) else ErrorFree(ms)
    decreases |vs|
  {
    if vs == [] || !src.UpExists(vs[0]) {
    } else {
      UpsFail(src, vs[1..]);
      var rest := Ups(src, vs[1..], []);
      assert ([NewMigration(src, vs[0], vs[0])] + rest)[1..] == rest;
    }
  }

  /** Why there is no result with an error and many parts: in any schedule the up direction ends up blocked, or has
      returned the error, just as Squash says. */
  lemma SquashBlocksIff(src: Source, from: nat, to: int, run: seq<FailState>)
    requires to >= -1 && FirstError(SquashUps(src, from, to)).Some?
    requires IsFailRun(PREFETCH, SquashUps(src, from, to), run) && Stuck(PREFETCH, run[|run| - 1])
    ensures var last, r := run[|run| - 1], Squash(src, from, to, false);
            && (last.Returned() <==> r.SquashError?)
            && (!last.Returned() <==> r.SquashBlocks?)
            && (last.Returned() ==> last.stage == Caught(r.error))
  {
    UpsFail(src, [from] + SortAsc(WalkAfter(src.Versions(), from, to)));
    var ups := SquashUps(src, from, to);
    ReturnsIffFits(PREFETCH, ups, FirstError(ups).value, run);
  }

  function Range(src: Source, from: nat, to: int): set<nat> {
    AtLeast(if to == -1 then src.Versions() else UpTo(src.Versions(), to), from)
  }

  lemma {:induction false} PartsOfUps(src: Source, vs: seq<nat>)
    requires NoEmptyFiles(src) && Fits(src.up.Keys) && forall i :: 0 <= i < |vs| ==> src.UpExists(vs[i])
    requires forall i :: 0 <= i < |vs| ==> vs[i] < TWO_TO_THE_63
    ensures FirstError(Ups(src, vs, [])) == None
    ensures Parts(Ups(src, vs, [])) == SqlOf(src.up, vs)
    decreases |vs|
  {
    if vs == [] {
    } else {
      PartsOfUps(src, vs[1..]);
      var m := NewMigration(src, vs[0], vs[0]);
      var rest := Ups(src, vs[1..], []);
      assert ([m] + rest)[1..] == rest;
    }
  }

  /** The reported versions are those walked, but for a version 0 in front, which is never reported. */
  lemma {:induction false} ReportedOfUps(src: Source, vs: seq<nat>, latest: nat)
    requires forall i :: 0 <= i < |vs| ==> src.UpExists(vs[i]) && vs[i] >= latest
    requires Ascending(vs)
    ensures Reported(Ups(src, vs, []), latest) == if vs != [] && vs[0] == latest then vs[1..] else vs
    decreases |vs|
  {
    if vs == [] {
    } else {
      ReportedOfUps(src, vs[1..], vs[0]);
      var m := NewMigration(src, vs[0], vs[0]);
      var rest := Ups(src, vs[1..], []);
      assert ([m] + rest)[1..] == rest;
      assert vs == [vs[0]] + vs[1..];
    }
  }

  lemma {:induction false} PartsOfDowns(src: Source, vs: seq<nat>)
    requires NoEmptyFiles(src) && forall i :: 0 <= i < |vs| ==> vs[i] < TWO_TO_THE_63
    ensures Parts(DownsOf(src, vs)) == SqlOf(src.down, vs)
    decreases |vs|
  {
    if vs == [] {
    } else {
      PartsOfDowns(src, vs[1..]);
      PartsConcat(DownOf(src, vs[0]), DownsOf(src, vs[1..]));
      PartsOfDown(src, vs[0]);
    }
  }

  lemma PartsOfDown(src: Source, v: nat)
    requires NoEmptyFiles(src) && v < TWO_TO_THE_63
    ensures Parts(DownOf(src, v)) == if v in src.down then [src.down[v]] else []
  {
    var m := NewMigration(src, v, -1);
    assert [m][1..] == [];
    var prev := if v in src.Versions() then PrevIn(src.Versions(), v) else None;
    if prev.Some? {
      var n := NewMigration(src, v, prev.value);
      assert [n][1..] == [];
    }
  }

  /** A range Squash can be asked for: it starts at a version of the project and ends at a later one or at the last. */
  predicate IsRange(src: Source, from: nat, to: int) {
    from in src.Versions() && (to == -1 || (to in src.Versions() && to > from))
  }

  lemma RangeWalks(src: Source, from: nat, to: int)
    requires IsRange(src, from, to)
    ensures [from] + SortAsc(WalkAfter(src.Versions(), from, to)) == SortAsc(Range(src, from, to))
    ensures SquashDowns(src, from, DownStart(src, to)) == DownsOf(src, SortDesc(Range(src, from, to)))
  {
    var range := Range(src, from, to);
    assert IsMin(from, range);
    assert range - {from} == WalkAfter(src.Versions(), from, to);
    var start := DownStart(src, to);
    assert UpTo(src.Versions(), start) == if to == -1 then src.Versions() else UpTo(src.Versions(), to);
  }

  lemma RangeFits(src: Source, range: set<nat>)
    requires Fits(range) && forall v :: v in range ==> src.UpExists(v)
    ensures var ups, downs := SortAsc(range), SortDesc(range);
            (forall i :: 0 <= i < |ups| ==> src.UpExists(ups[i]) && ups[i] < TWO_TO_THE_63) && Ascending(ups) &&
            (forall i :: 0 <= i < |downs| ==> downs[i] < TWO_TO_THE_63)
  {
    FitsSorted(range);
    SortAscEnumerates(range);
    forall i | 0 <= i < |SortAsc(range)| ensures SortAsc(range)[i] in range {
      assert SortAsc(range)[i] in Elems(SortAsc(range));
    }
  }

  lemma WithoutZero(range: set<nat>)
    requires range != {}
    ensures var vs := SortAsc(range);
            SortAsc(range - {0}) == if vs[0] == 0 then vs[1..] else vs
  {
    if MinOf(range) != 0 {
      assert range - {0} == range;
    }
  }

  /** Squash reads exactly the range: its up SQL ascending, its down SQL descending. It reports exactly its versions,
      except that version 0 goes unreported. */
  lemma SquashExact(src: Source, from: nat, to: int)
    requires IsRange(src, from, to) && Fits(src.Versions()) && NoEmptyFiles(src)
    requires forall v :: v in Range(src, from, to) ==> src.UpExists(v)
    ensures var range := Range(src, from, to);
            Squash(src, from, to, false) ==
            Squashed(SortAsc(range - {0}), Text(SqlOf(src.up, SortAsc(range))), Text(SqlOf(src.down, SortDesc(range))))
  {
    var range := Range(src, from, to);
    assert from in range;
    RangeWalks(src, from, to);
    RangeFits(src, range);
    WithoutZero(range);
    PartsOfUps(src, SortAsc(range));
    ReportedOfUps(src, SortAsc(range), 0);
    PartsOfDowns(src, SortDesc(range));
  }

  /** The versions of a set with up SQL that is not empty. */
  function WithSql(src: Source, vs: set<nat>): set<nat> {
    set w | w in vs && w in src.up && src.up[w] != ""
  }

  /** The number of parts: one for each version with up SQL. */
  lemma {:induction false} PartsCounted(src: Source, vs: seq<nat>)
    requires Ascending(vs) && Fits(Elems(vs))
    ensures |Parts(UpMessages(src, vs))| == |WithSql(src, Elems(vs))|
    decreases |vs|
  {
    if vs == [] {
    } else {
      var n := |vs| - 1;
      SplitElems(vs, n);
      PartsCounted(src, vs[..n]);
      var m := NewMigration(src, vs[n], vs[n]);
      assert UpMessages(src, vs) == UpMessages(src, vs[..n]) + [m];
      PartsConcat(UpMessages(src, vs[..n]), [m]);
      OneMore(src, vs);
    }
  }

  /** The last of some versions in ascending order is not among those before it. */
  lemma OneMore(src: Source, vs: seq<nat>)
    requires vs != [] && Ascending(vs) && Fits(Elems(vs))
    ensures var n := |vs| - 1;
            |WithSql(src, Elems(vs))| ==
            |WithSql(src, Elems(vs[..n]))| + |Parts([NewMigration(src, vs[n], vs[n])])|
  {
    var n := |vs| - 1;
    var before, all := WithSql(src, Elems(vs[..n])), WithSql(src, Elems(vs));
    SplitElems(vs, n);
    assert vs[n..] == [vs[n]] && vs[n] in Elems(vs);
    assert vs[n] !in before;
    OnePart(src, vs[n]);
    if vs[n] in src.up && src.up[vs[n]] != "" {
      assert all == before + {vs[n]};
    } else {
      assert all == before;
    }
  }

  lemma OnePart(src: Source, v: nat)
    requires v < TWO_TO_THE_63
    ensures |Parts([NewMigration(src, v, v)])| == if v in src.up && src.up[v] != "" then 1 else 0
  {
    var m := NewMigration(src, v, v);
    assert [m][1..] == [] && Parts([m][1..]) == [];
  }

  lemma {:induction false} UpsConcat(src: Source, a: seq<nat>, b: seq<nat>, tail: seq<Message>)
    ensures Ups(src, a + b, tail) == Ups(src, a, Ups(src, b, tail))
    decreases |a|
  {
    if a == [] {
      assert a + b == b;
    } else {
      assert (a + b)[1..] == a[1..] + b;
      UpsConcat(src, a[1..], b, tail);
    }
  }

  /** The versions of a range in order, cut in front of v. */
  lemma CutBefore(range: set<nat>, v: nat)
    requires v in range
    ensures var below, above := UpTo(range, v - 1), Above(range, v);
            SortAsc(range) == SortAsc(below) + ([v] + SortAsc(above))
  {
    var below, rest := UpTo(range, v - 1), Above(range, v - 1);
    JoinAsc(below, rest);
    assert range == below + rest;
    assert MinOf(rest) == v && rest - {v} == Above(range, v);
  }

  /** The messages of the up reader of a range whose first version without an up file is v. */
  lemma ReadsToMissing(src: Source, range: set<nat>, v: nat)
    requires v in range && !src.UpExists(v) && forall w :: w in range && w < v ==> src.UpExists(w)
    ensures var below := UpTo(range, v - 1);
            Ups(src, SortAsc(range), []) == UpMessages(src, SortAsc(below)) + [Failed(UpMissing(v))]
  {
    var vs, rest := SortAsc(UpTo(range, v - 1)), SortAsc(Above(range, v));
    CutBefore(range, v);
    UpsConcat(src, vs, [v] + rest, []);
    assert Ups(src, [v] + rest, []) == [Failed(UpMissing(v))];
    AllThere(src, UpTo(range, v - 1));
    UpsShape(src, vs, [Failed(UpMissing(v))]);
    assert vs[..|vs|] == vs;
  }

  lemma AllThere(src: Source, range: set<nat>)
    requires forall w :: w in range ==> src.UpExists(w)
    ensures UpReach(src, SortAsc(range)) == |SortAsc(range)|
  {
    var vs := SortAsc(range);
    SortAscEnumerates(range);
    forall i | 0 <= i < |vs| ensures src.UpExists(vs[i]) {
      assert vs[i] in Elems(vs);
    }
  }

  lemma {:induction false} ErrorAtEnd(ms: seq<Message>, error: Error)
    requires forall m :: m in ms ==> m.Migration?
    ensures FirstError(ms + [Failed(error)]) == Some(error)
    ensures Parts(ms + [Failed(error)]) == Parts(ms)
    decreases |ms|
  {
    var all := ms + [Failed(error)];
    PartsConcat(ms, [Failed(error)]);
    assert [Failed(error)][1..] == [];
    if ms == [] {
    } else {
      assert all[1..] == ms[1..] + [Failed(error)];
      ErrorAtEnd(ms[1..], error);
    }
  }

  /** The up messages of such a range: how many parts they make, and the error they end with. */
  lemma MissingRead(src: Source, range: set<nat>, v: nat)
    requires Fits(range) && v in range && !src.UpExists(v) && forall w :: w in range && w < v ==> src.UpExists(w)
    ensures var ups := Ups(src, SortAsc(range), []);
            FirstError(ups) == Some(UpMissing(v)) && |Parts(ups)| == |WithSql(src, UpTo(range, v - 1))|
  {
    var below := UpTo(range, v - 1);
    ReadsToMissing(src, range, v);
    SortAscEnumerates(below);
    PartsCounted(src, SortAsc(below));
    ErrorAtEnd(UpMessages(src, SortAsc(below)), UpMissing(v));
  }

  /** A range with a version that has no up file: the first one is reported, if at most ten versions with up SQL come
      before it in the range; otherwise the command blocks. */
  lemma SquashReportsMissing(src: Source, from: nat, to: int, v: nat)
    requires IsRange(src, from, to) && Fits(src.Versions())
    requires v in Range(src, from, to) && !src.UpExists(v)
    requires forall w :: w in Range(src, from, to) && w < v ==> src.UpExists(w)
    ensures var before := set w | w in Range(src, from, to) && w < v && w in src.up && src.up[w] != "";
            Squash(src, from, to, false) == if |before| <= 10 then SquashError(UpMissing(v)) else SquashBlocks
  {
    var range := Range(src, from, to);
    RangeWalks(src, from, to);
    MissingRead(src, range, v);
    assert WithSql(src, UpTo(range, v - 1)) == set w | w in range && w < v && w in src.up && src.up[w] != "";
  }

  /** With equal bounds Squash returns no versions at all, whatever the project. */
  lemma EqualBoundsReportNothing(src: Source, from: nat, stopping: bool)
    ensures Squash(src, from, from, stopping).Squashed? && Squash(src, from, from, stopping).versions == []
    ensures Squash(src, from, from, stopping).up == ""
  {
  }

  /** ... and as down text that of the one version. */
  lemma EqualBoundsDown(src: Source, from: nat)
    requires Fits(src.Versions()) && from < TWO_TO_THE_63
    ensures Squash(src, from, from, false).Squashed?
    ensures Squash(src, from, from, false).down ==
            if from in src.down && src.down[from] != "" then "\n" + src.down[from] else ""
  {
    var here := AtLeast(UpTo(src.Versions(), from), from);
    var m := NewMigration(src, from, -1);
    assert [m][1..] == [];
    if from in src.Versions() {
      assert here == {from} && MaxOf(here) == from && here - {from} == {};
      assert SortDesc(here) == [from] && [from][1..] == [];
      assert DownsOf(src, [from]) == DownOf(src, from) + DownsOf(src, []);
      var prev := PrevIn(src.Versions(), from);
      if prev.Some? {
        var n := NewMigration(src, from, prev.value);
        assert [n][1..] == [];
      }
    }
  }

  /***** The effect of squashed SQL *****/

  /** Nothing, or something on a new line: what follows a file in the squashed text. */
  predicate OnNewLine(rest: string) {
    rest == "" || rest[0] == '\n'
  }

  /** A piece of SQL that can be put on lines of its own in front of others; it may end in a line comment. */
  ghost predicate Separable<S(!new)>(act: (string, S) -> S, sql: string) {
    forall rest, s :: OnNewLine(rest) ==> act("\n" + sql + rest, s) == act(rest, act(sql, s))
  }

  ghost predicate NothingDoesNothing<S(!new)>(act: (string, S) -> S) {
    forall s :: act("", s) == s
  }

  ghost predicate AllSeparable<S(!new)>(act: (string, S) -> S, parts: seq<string>) {
    forall i :: 0 <= i < |parts| ==> Separable(act, parts[i])
  }

  function Acts<S>(act: (string, S) -> S, parts: seq<string>, s: S): S {
    if parts == [] then s else Acts(act, parts[1..], act(parts[0], s))
  }

  lemma {:induction false} TextActs<S(!new)>(act: (string, S) -> S, parts: seq<string>, s: S)
    requires NothingDoesNothing(act) && AllSeparable(act, parts)
    ensures act(Text(parts), s) == Acts(act, parts, s)
    decreases |parts|
  {
    if parts == [] {
    } else {
      TextActs(act, parts[1..], act(parts[0], s));
    }
  }

  lemma {:induction false} ActsConcat<S>(act: (string, S) -> S, a: seq<string>, b: seq<string>, s: S)
    ensures Acts(act, a + b, s) == Acts(act, b, Acts(act, a, s))
    decreases |a|
  {
    if a == [] {
      assert a + b == b;
    } else {
      assert (a + b)[1..] == a[1..] + b;
      ActsConcat(act, a[1..], b, act(a[0], s));
    }
  }

  lemma {:induction false} SqlConcat(files: map<nat, string>, a: seq<nat>, b: seq<nat>)
    ensures SqlOf(files, a + b) == SqlOf(files, a) + SqlOf(files, b)
    decreases |a|
  {
    if a == [] {
      assert a + b == b;
    } else {
      assert (a + b)[1..] == a[1..] + b;
      SqlConcat(files, a[1..], b);
    }
  }

  lemma {:induction false} SqlSame(files: map<nat, string>, files': map<nat, string>, vs: seq<nat>)
    requires forall v :: v in vs ==> Lookup(files, v) == Lookup(files', v)
    ensures SqlOf(files, vs) == SqlOf(files', vs)
    decreases |vs|
  {
    if vs == [] {
    } else {
      assert vs[0] in vs && forall v :: v in vs[1..] ==> v in vs;
      SqlSame(files, files', vs[1..]);
    }
  }

  lemma {:induction false} SqlSeparable<S(!new)>(act: (string, S) -> S, files: map<nat, string>, vs: seq<nat>)
    requires forall v :: v in vs && v in files ==> Separable(act, files[v])
    ensures AllSeparable(act, SqlOf(files, vs))
    decreases |vs|
  {
    if vs == [] {
    } else {
      assert vs[0] in vs && forall v :: v in vs[1..] ==> v in vs;
      SqlSeparable(act, files, vs[1..]);
      var parts, rest := SqlOf(files, vs), SqlOf(files, vs[1..]);
      SqlHead(files, vs);
      forall i | 0 <= i < |parts| ensures Separable(act, parts[i]) {
        if vs[0] !in files {
          assert parts[i] == rest[i];
        } else if i > 0 {
          assert parts[i] == rest[i - 1];
        }
      }
    }
  }

  lemma SqlHead(files: map<nat, string>, vs: seq<nat>)
    requires vs != []
    ensures var parts, rest := SqlOf(files, vs), SqlOf(files, vs[1..]);
            if vs[0] in files then parts != [] && parts[0] == files[vs[0]] && parts[1..] == rest else parts == rest
  {
  }

  /** Executing migrations one by one or their SQL in a row. */
  lemma {:induction false} ReplayUps<S>(act: (string, S) -> S, src: Source, vs: seq<nat>, s: S)
    requires forall i :: 0 <= i < |vs| ==> vs[i] < TWO_TO_THE_63
    ensures Replay(act, UpMessages(src, vs), s) == Acts(act, SqlOf(src.up, vs), s)
    decreases |vs|
  {
    if vs == [] {
    } else {
      assert UpMessages(src, vs)[1..] == UpMessages(src, vs[1..]);
      SqlHead(src.up, vs);
      ReplayUps(act, src, vs[1..], if vs[0] in src.up then act(src.up[vs[0]], s) else s);
    }
  }

  lemma {:induction false} ReplayDowns<S>(act: (string, S) -> S, src: Source, applied: set<nat>, vs: seq<nat>, s: S)
    requires forall i :: 0 <= i < |vs| ==> vs[i] < TWO_TO_THE_63
    ensures Replay(act, DownMessages(src, applied, vs), s) == Acts(act, SqlOf(src.down, vs), s)
    decreases |vs|
  {
    if vs == [] {
    } else {
      assert DownMessages(src, applied, vs)[1..] == DownMessages(src, applied, vs[1..]);
      SqlHead(src.down, vs);
      ReplayDowns(act, src, applied, vs[1..], if vs[0] in src.down then act(src.down[vs[0]], s) else s);
    }
  }

  /** The squashed down text takes back what the squashed up text does. */
  lemma SquashedDownUndoesUp<S(!new)>(act: (string, S) -> S, src: Source, range: set<nat>, s: S)
    requires Fits(range) && NothingDoesNothing(act)
    requires forall v :: v in range ==> Undoes(act, src, v) && Separable(act, src.up[v]) && Separable(act, src.down[v])
    ensures act(Text(SqlOf(src.down, SortDesc(range))), act(Text(SqlOf(src.up, SortAsc(range))), s)) == s
  {
    var ups, downs := SortAsc(range), SortDesc(range);
    SeparableRange(act, src.up, ups, range);
    SeparableRange(act, src.down, downs, range);
    TextActs(act, SqlOf(src.up, ups), s);
    TextActs(act, SqlOf(src.down, downs), Acts(act, SqlOf(src.up, ups), s));
    FitsSorted(range);
    ReplayUps(act, src, ups, s);
    ReplayDowns(act, src, range, downs, Replay(act, UpMessages(src, ups), s));
    ReplayConcat(act, UpMessages(src, ups), DownMessages(src, range, downs), s);
    UpAndDownAgain(act, src, range, range, s);
  }

  lemma SeparableRange<S(!new)>(act: (string, S) -> S, files: map<nat, string>, vs: seq<nat>, range: set<nat>)
    requires vs == SortAsc(range) || vs == SortDesc(range)
    requires forall v :: v in range && v in files ==> Separable(act, files[v])
    ensures AllSeparable(act, SqlOf(files, vs))
  {
    SortAscEnumerates(range);
    SortDescEnumerates(range);
    forall v | v in vs ensures v in range {
      assert v in Elems(vs);
    }
    SqlSeparable(act, files, vs);
  }
}
