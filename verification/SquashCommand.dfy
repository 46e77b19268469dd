/** The squash command: checks, the squash itself, the exchange of directories, and the state on the server. */
module SquashCommand {
  import opened Ordering
  import opened Readers
  import opened Runner
  import opened Statuses
  import opened Engine
  import opened SquashReaders
  import opened Pipeline
  import opened SquashMeaning
  import opened SquashedProjects
  import opened DryRun

  datatype Report =
    | NewProject(project: Source, versions: seq<nat>)
    | NoSuchVersion(asked: int)
    | WrongOrder
    | OutOfSync(version: nat)
    | NoMode
    | SquashFailed(error: Error)
    | Blocked
    | NothingToWrite
    | Panic

  /** The first loop of validateMigrations: the positions of two versions in the index. */
  method FindIndices(index: seq<nat>, from: nat, to: nat) returns (fromIndex: nat, toIndex: nat)
    requires from in index && to in index
    ensures fromIndex < |index| && index[fromIndex] == from
    ensures toIndex < |index| && index[toIndex] == to
  {
    fromIndex, toIndex := 0, 0;
    var idx := 0;
    while idx < |index|
      invariant 0 <= idx <= |index|
      invariant from in index[..idx] ==> fromIndex < idx && index[fromIndex] == from
      invariant to in index[..idx] ==> toIndex < idx && index[toIndex] == to
    {
      assert index[..idx + 1] == index[..idx] + [index[idx]];
      if index[idx] == from {
        fromIndex := idx;
      }
      if index[idx] == to {
        toIndex := idx;
      }
      idx := idx + 1;
    }
    assert index[..idx] == index;
  }

  ghost predicate Synced(index: seq<nat>, present: set<nat>, applied: set<nat>, first: nat, k: nat)
    requires first < |index| && k < |index|
  {
    index[k] in present && (index[k] in applied <==> index[first] in applied)
  }

  /** Everything between two positions is in sync with the first. */
  ghost predicate AllSynced(index: seq<nat>, present: set<nat>, applied: set<nat>, first: nat, end: nat)
    requires first < end <= |index|
  {
    forall k :: first < k < end ==> Synced(index, present, applied, first, k)
  }

  lemma AllKnown(index: seq<nat>, known: set<nat>)
    requires index == SortAsc(known)
    ensures forall k :: 0 <= k < |index| ==> index[k] in known
  {
    SortAscEnumerates(known);
    assert forall k :: 0 <= k < |index| ==> index[k] in Elems(index);
  }

  /** The second loop: everything after the first position up to the last is compared with the first. */
  method CompareFrom(status: Status, first: nat, last: nat) returns (mismatch: Option<nat>)
    requires status.Valid() && first <= last < |status.index|
    ensures mismatch.None? ==> AllSynced(status.index, status.present, status.applied, first, last + 1)
    ensures mismatch.Some? ==> first < mismatch.value <= last &&
                               !Synced(status.index, status.present, status.applied, first, mismatch.value) &&
                               AllSynced(status.index, status.present, status.applied, first, mismatch.value)
  {
    AllKnown(status.index, status.migrations.Keys);
    var prevApplied := status.migrations[status.index[first]].isApplied;
    var idx := first + 1;
    while idx <= last
      invariant first < idx <= last + 1
      invariant AllSynced(status.index, status.present, status.applied, first, idx)
    {
      var migration := status.migrations[status.index[idx]];
      if !(migration.isApplied == prevApplied && migration.isPresent) {
        return Some(idx);
      }
      idx := idx + 1;
    }
    return None;
  }

  /** In an ascending index the positions are in order, too. */
  method FindOrdered(index: seq<nat>, from: nat, to: nat) returns (fromIndex: nat, toIndex: nat)
    requires Ascending(index) && from in Elems(index) && to in Elems(index) && from <= to
    ensures fromIndex <= toIndex < |index| && index[fromIndex] == from && index[toIndex] == to
  {
    fromIndex, toIndex := FindIndices(index, from, to);
  }

  /** validateMigrations. The result is the first version that is out of sync with `from`. */
  method ValidateMigrations(status: Status, from: nat, to: nat) returns (mismatch: Option<nat>)
    requires status.Valid() && from in status.migrations && to in status.migrations && from <= to
    ensures mismatch == None <==>
            forall v :: v in status.present + status.applied && from < v <= to ==>
                          v in status.present && (v in status.applied <==> from in status.applied)
    ensures mismatch.Some? ==>
              var bad := mismatch.value;
              && from < bad <= to && bad in status.migrations
              && (bad in status.present ==> !(bad in status.applied <==> from in status.applied))
              && forall v :: v in status.present + status.applied && from < v < bad ==>
                               v in status.present && (v in status.applied <==> from in status.applied)
  {
    var index := status.index;
    SortAscEnumerates(status.migrations.Keys);
    var fromIndex, toIndex := FindOrdered(index, from, to);
    var bad := CompareFrom(status, fromIndex, toIndex);
    match bad {
      case None =>
        SyncedRange(index, status.present, status.applied, fromIndex, toIndex + 1);
        return None;
      case Some(k) =>
        FirstMismatch(index, status.present, status.applied, fromIndex, toIndex, k);
        return Some(index[k]);
    }
  }

  /** The first position out of sync is the first version out of sync. */
  lemma FirstMismatch(index: seq<nat>, present: set<nat>, applied: set<nat>, first: nat, last: nat, k: nat)
    requires Ascending(index) && Elems(index) == present + applied && first < k <= last < |index|
    requires AllSynced(index, present, applied, first, k) && !Synced(index, present, applied, first, k)
    ensures index[first] < index[k] <= index[last] && index[k] in present + applied
    ensures InSync(present, applied, index[first], index[k] - 1)
    ensures index[k] in present ==> !(index[k] in applied <==> index[first] in applied)
  {
    SyncedRange(index, present, applied, first, k);
    assert index[k] in Elems(index);
  }

  /** In the index and in the set: being in sync up to a position. */
  lemma SyncedRange(index: seq<nat>, present: set<nat>, applied: set<nat>, first: nat, end: nat)
    requires Ascending(index) && Elems(index) == present + applied && first < end <= |index|
    requires AllSynced(index, present, applied, first, end)
    ensures InSync(present, applied, index[first], index[end - 1])
    ensures end < |index| && index[end] > 0 ==> InSync(present, applied, index[first], index[end] - 1)
  {
    forall v | v in present + applied && index[first] < v && (end < |index| ==> v < index[end])
      ensures v in present && (v in applied <==> index[first] in applied)
    {
      assert v in Elems(index);
      var k :| 0 <= k < |index| && index[k] == v;
      assert first < k < end && Synced(index, present, applied, first, k);
    }
  }

  /** The version the new migration gets: the end of the range, for -1 the last one in the status index. */
  ghost function EndVersion(known: set<nat>, to: int): int {
    if to == -1 && known != {} then MaxOf(known) else to
  }

  /** The checks before the squash. */
  ghost predicate Accepted(present: set<nat>, applied: set<nat>, from: nat, to: int) {
    var known := present + applied;
    && from in known
    && (to == -1 || (from <= to && to in known))
    && InSync(present, applied, from, EndVersion(known, to))
  }

  /** The outcome once the checks are passed. */
  ghost function Outcome(src: Source, from: nat, to: int, at: nat, stopping: bool): Report
    requires to >= -1
  {
    match Squash(src, from, to, stopping)
    case SquashError(e) => SquashFailed(e)
    case SquashBlocks => Blocked
    case Squashed(versions, up, down) =>
      if up == "" && down == "" then NothingToWrite
      else if versions == [] then Panic
      else NewProject(SquashedProject(src, Elems(versions), at, up, down), versions)
  }

  /** Builds the new migration and swaps the directories. Indexing the empty list of versions panics. `Blocked` stands
      for a command that never returns. */
  method SquashFiles(m: Migrate, from: nat, to: int, at: nat) returns (r: Report)
    requires m.DriversValid() && from < TWO_TO_THE_63 && -1 <= to < TWO_TO_THE_63
    ensures r == Outcome(m.files, from, to, at, m.Stopping())
    ensures r.NewProject? ==> r.versions != []
  {
    var stopping := m.isGracefulStop || m.gracefulStop;
    var ups := SquashUp(m.files, m.sourceDrv, from, to, stopping);
    var downs := SquashDown(m.files, m.sourceDrv, from, to, stopping);
    var error := FirstError(ups);
    if error.Some? {
      return if |Parts(ups)| <= PREFETCH then SquashFailed(error.value) else Blocked;
    }
    var versions, up, down := Reported(ups, 0), Text(Parts(ups)), Text(Parts(downs));
    if up == "" && down == "" {
      return NothingToWrite;
    }
    if versions == [] {
      return Panic;
    }
    return NewProject(SquashedProject(m.files, Elems(versions), at, up, down), versions);
  }

  /** The first known version after `from` that is out of sync with it. */
  ghost predicate FirstMismatchIs(present: set<nat>, applied: set<nat>, from: nat, end: int, bad: nat) {
    && bad in present + applied && from < bad <= end
    && (bad in present ==> !(bad in applied <==> from in applied))
    && forall v :: v in present + applied && from < v < bad ==> v in present && (v in applied <==> from in applied)
  }

  /** What the checks refuse a range for. */
  ghost predicate Refuses(present: set<nat>, applied: set<nat>, from: nat, to: int, r: Report) {
    var known := present + applied;
    if from !in known then r == NoSuchVersion(from)
    else if to != -1 && from > to then r == WrongOrder
    else if to != -1 && to !in known then r == NoSuchVersion(to)
    else r.OutOfSync? && FirstMismatchIs(present, applied, from, EndVersion(known, to), r.version)
  }

  /** The checks of run, up to validateMigrations. */
  method Check(status: Status, from: nat, to: int) returns (refusal: Option<Report>, at: nat)
    requires status.Valid()
    ensures refusal.None? <==> Accepted(status.present, status.applied, from, to)
    ensures refusal.None? ==> at == EndVersion(status.present + status.applied, to)
    ensures refusal.Some? ==> Refuses(status.present, status.applied, from, to, refusal.value)
  {
    var known := status.Read(from);
    if known.None? {
      return Some(NoSuchVersion(from)), 0;
    }
    if to == -1 {
      LastIsMax(status.migrations.Keys);
      at := status.index[|status.index| - 1];
    } else {
      if from > to {
        return Some(WrongOrder), 0;
      }
      var end := status.Read(to);
      if end.None? {
        return Some(NoSuchVersion(to)), 0;
      }
      at := to;
    }
    var mismatch := ValidateMigrations(status, from, at);
    refusal := if mismatch.Some? then Some(OutOfSync(mismatch.value)) else None;
  }

  /** What the command reports: a new project only if the checks are passed, and then what Squash makes of it. */
  ghost predicate Answers(src: Source, applied: set<nat>, mode: bool, stopping: bool, from: nat, to: int, r: Report)
  {
    if !Accepted(src.Versions(), applied, from, to) then Refuses(src.Versions(), applied, from, to, r)
    else if !mode then r == NoMode
    else r == Outcome(src, from, to, EndVersion(src.Versions() + applied, to), stopping)
  }

  /** The checks and the squash, up to the exchange of directories. */
  method CheckAndSquash(m: Migrate, from: nat, to: int) returns (r: Report)
    requires m.Valid() && to < TWO_TO_THE_63
    ensures Answers(m.files, m.databaseDrv.scanned.Keys, m.migrationMode, m.Stopping(), from, to, r)
    ensures r.NewProject? ==> m.migrationMode && r.versions != [] && Ascending(r.versions)
  {
    var refusal, at := Check(m.status, from, to);
    if refusal.Some? {
      return refusal.value;
    }
    if !m.migrationMode {
      return NoMode;
    }
    r := SquashFiles(m, from, to, at);
    if r.NewProject? {
      NewVersionsAscend(m.files, from, to, at, m.Stopping());
    }
  }

  /** After a squash the server forgets, if that was asked for, all squashed versions but the last. When the server
      refuses to forget, the new project stays. */
  method ForgetSquashed(m: Migrate, r: Report, deleteSource: bool)
    requires r.NewProject? ==> m.migrationMode && r.versions != [] && Ascending(r.versions)
    modifies m`isLocked, m.databaseDrv`isLocked, m.databaseDrv`store
    ensures !deleteSource || !r.NewProject? || old(m.isLocked || m.databaseDrv.isLocked) ==>
              m.databaseDrv.store == old(m.databaseDrv.store)
    ensures deleteSource && r.NewProject? && !old(m.isLocked || m.databaseDrv.isLocked) ==>
              var vs := r.versions;
              m.databaseDrv.store == old(m.databaseDrv.store) - (Elems(vs) - {vs[|vs| - 1]})
  {
    if r.NewProject? && deleteSource {
      AscendingButLast(r.versions);
      var _ := m.RemoveVersions(r.versions[..|r.versions| - 1]);
    }
  }

  /** The same with a status calculated first. */
  method WithStatus(m: Migrate, from: nat, to: int) returns (r: Report)
    requires m.Valid() && to < TWO_TO_THE_63
    modifies m`status
    ensures Answers(m.files, m.databaseDrv.scanned.Keys, m.migrationMode, old(m.Stopping()), from, to, r)
    ensures r.NewProject? ==> m.migrationMode && r.versions != [] && Ascending(r.versions)
  {
    m.CalculateStatus();
    r := CheckAndSquash(m, from, to);
  }

  /** The squash command. */
  method Run(m: Migrate, from: nat, to: int, deleteSource: bool) returns (r: Report)
    requires m.Valid() && to < TWO_TO_THE_63
    modifies m`status, m`isLocked, m.databaseDrv`isLocked, m.databaseDrv`store
    ensures Answers(m.files, m.databaseDrv.scanned.Keys, m.migrationMode, old(m.Stopping()), from, to, r)
    ensures r.NewProject? ==> r.versions != []
    ensures !deleteSource || !r.NewProject? || old(m.isLocked || m.databaseDrv.isLocked) ==>
              m.databaseDrv.store == old(m.databaseDrv.store)
    ensures deleteSource && r.NewProject? && !old(m.isLocked || m.databaseDrv.isLocked) ==>
              var vs := r.versions;
              m.databaseDrv.store == old(m.databaseDrv.store) - (Elems(vs) - {vs[|vs| - 1]})
  {
    r := WithStatus(m, from, to);
    ForgetSquashed(m, r, deleteSource);
  }

  /** The versions of a new project are in ascending order. */
  lemma NewVersionsAscend(src: Source, from: nat, to: int, at: nat, stopping: bool)
    requires to >= -1 && Outcome(src, from, to, at, stopping).NewProject?
    ensures Ascending(Outcome(src, from, to, at, stopping).versions)
  {
    var walk := WalkAfter(src.Versions(), from, to);
    WalkAscends(from, walk);
    if !stopping && from != to {
      ReportAscends(src, [from] + SortAsc(walk));
    }
  }

  lemma WalkAscends(from: nat, walk: set<nat>)
    requires forall v :: v in walk ==> v > from
    ensures Ascending([from] + SortAsc(walk))
  {
    SortAscEnumerates(walk);
    assert forall i :: 0 <= i < |SortAsc(walk)| ==> SortAsc(walk)[i] in Elems(SortAsc(walk));
  }

  lemma ReportAscends(src: Source, vs: seq<nat>)
    requires Ascending(vs) && FirstError(Ups(src, vs, [])) == None
    ensures Ascending(Reported(Ups(src, vs, []), 0))
  {
    ReadToEnd(src, vs);
    ReportedOfUps(src, vs, 0);
  }

  /** Without an error everything has an up file. */
  lemma {:induction false} ReadToEnd(src: Source, vs: seq<nat>)
    requires FirstError(Ups(src, vs, [])) == None
    ensures forall i :: 0 <= i < |vs| ==> src.UpExists(vs[i])
    decreases |vs|
  {
    if vs == [] {
    } else {
      var rest := Ups(src, vs[1..], []);
      assert ([NewMigration(src, vs[0], vs[0])] + rest)[1..] == rest;
      ReadToEnd(src, vs[1..]);
      forall i | 0 <= i < |vs|
        ensures src.UpExists(vs[i])
      {
        assert i > 0 ==> vs[i] == vs[1..][i - 1];
      }
    }
  }

  /** What the command reports, spelled out. */
  lemma AnswersAre(src: Source, applied: set<nat>, mode: bool, stopping: bool, from: nat, to: int, r: Report)
    requires Answers(src, applied, mode, stopping, from, to, r)
    ensures var known := src.Versions() + applied;
            if from !in known then r == NoSuchVersion(from)
            else if to != -1 && from > to then r == WrongOrder
            else if to != -1 && to !in known then r == NoSuchVersion(to)
            else
              var end := if to == -1 then MaxOf(known) else to;
              if forall v :: v in known && from < v <= end ==>
                               v in src.Versions() && (v in applied <==> from in applied)
              then r == if mode then Outcome(src, from, to, end, stopping) else NoMode
              else
                && r.OutOfSync? && r.version in known && from < r.version <= end
                && (r.version in src.Versions() ==> !(r.version in applied <==> from in applied))
                && (forall v :: v in known && from < v < r.version ==>
                                  v in src.Versions() && (v in applied <==> from in applied))
  {
  }

  /** The end of the range is the version the new migration gets, and the range is applied as a whole or not at all. */
  lemma AcceptedRange(src: Source, applied: set<nat>, from: nat, to: int)
    requires IsRange(src, from, to) && InSync(src.Versions(), applied, from, EndVersion(src.Versions() + applied, to))
    ensures Accepted(src.Versions(), applied, from, to)
    ensures EndVersion(src.Versions() + applied, to) == At(src, from, to)
    ensures if from in applied then Range(src, from, to) <= applied else Range(src, from, to) !! applied
  {
    var known := src.Versions() + applied;
    RangeEnds(src, from, to);
    assert from in known;
    var end := EndVersion(known, to);
    assert end in known && end in src.Versions();
    assert end in Range(src, from, to);
    forall v | v in Range(src, from, to) ensures v in applied <==> from in applied {
      assert v in known && v <= end;
    }
  }

  /** A range with up SQL that passes the checks is replaced by one migration, and on the server, if asked, by its last
      version: exactly the project and the recorded set whose meaning SquashedProjects compares with the original. */
  lemma CommandGivesAfter(src: Source, srv: Server, from: nat, to: int)
    requires Squashable(src, from, to)
    requires InSync(src.Versions(), srv.store.Keys, from, EndVersion(src.Versions() + srv.store.Keys, to))
    ensures Accepted(src.Versions(), srv.store.Keys, from, to)
    ensures var at := EndVersion(src.Versions() + srv.store.Keys, to);
            at >= 0 &&
            var r := Outcome(src, from, to, at, false);
            r == NewProject(After(src, from, to), SortAsc(Range(src, from, to))) &&
            srv.store - (Elems(r.versions) - {at}) == Forgotten(srv, src, from, to).store
  {
    AcceptedRange(src, srv.store.Keys, from, to);
    OutcomeIsAfter(src, from, to);
    SortAscEnumerates(Range(src, from, to));
  }

  lemma OutcomeIsAfter(src: Source, from: nat, to: int)
    requires Squashable(src, from, to)
    ensures Outcome(src, from, to, At(src, from, to), false) ==
            NewProject(After(src, from, to), SortAsc(Range(src, from, to)))
  {
    var range := Range(src, from, to);
    SquashReturns(src, from, to);
    SquashGivesAfter(src, from, to, Squashed(SortAsc(range), UpText(src, range), DownText(src, range)));
    AfterVersions(src, from, to);
  }

  lemma AscendingButLast(vs: seq<nat>)
    requires vs != [] && Ascending(vs)
    ensures Elems(vs[..|vs| - 1]) == Elems(vs) - {vs[|vs| - 1]}
  {
    var n := |vs| - 1;
    SplitElems(vs, n);
    assert vs[n..] == [vs[n]];
    forall v | v in Elems(vs[..n]) ensures v != vs[n] {
      var i :| 0 <= i < n && vs[..n][i] == v;
    }
  }

  /** With --from equal to --to the checks can pass, but the command never succeeds: nothing is read upwards, so that it
      panics on the empty list of versions, or fails for lack of text if there is no down SQL either. */
  lemma EqualBoundsNeverSucceed(src: Source, from: nat, at: nat)
    requires Fits(src.Versions()) && from < TWO_TO_THE_63
    ensures Outcome(src, from, from, at, false) ==
            if from in src.down && src.down[from] != "" then Panic else NothingToWrite
  {
    EqualBoundsReportNothing(src, from, false);
    EqualBoundsDown(src, from);
  }

  /** A pending stop leaves nothing to write. */
  lemma StoppedWritesNothing(src: Source, from: nat, to: int, at: nat)
    requires to >= -1
    ensures Outcome(src, from, to, at, true) == NothingToWrite
  {
  }

  /** Without an up file for some version of the range there is no new project: the command reports the first such
      version, or blocks if more than ten versions with up SQL come before it. */
  lemma MissingFileReported(src: Source, from: nat, to: int, at: nat, v: nat)
    requires IsRange(src, from, to) && Fits(src.Versions())
    requires v in Range(src, from, to) && !src.UpExists(v)
    requires forall w :: w in Range(src, from, to) && w < v ==> src.UpExists(w)
    ensures var before := set w | w in Range(src, from, to) && w < v && w in src.up && src.up[w] != "";
            Outcome(src, from, to, at, false) == if |before| <= 10 then SquashFailed(UpMissing(v)) else Blocked
  {
    SquashReportsMissing(src, from, to, v);
  }

  /** A range that starts at version 0: its SQL is in the squashed text, but it is not among the versions that are moved
      away, so it stays in the project as well. If it is the whole range the command panics. */
  lemma VersionZeroStays(src: Source, to: int, at: nat)
    requires IsRange(src, 0, to) && Fits(src.Versions()) && NoEmptyFiles(src) && Range(src, 0, to) <= src.up.Keys
    ensures var range := Range(src, 0, to);
            Outcome(src, 0, to, at, false) ==
            if range == {0} then Panic
            else NewProject(SquashedProject(src, range - {0}, at, UpText(src, range), DownText(src, range)),
                            SortAsc(range - {0}))
  {
    var range := Range(src, 0, to);
    assert 0 in range;
    SquashExact(src, 0, to);
    assert SortAsc(range)[0] in range;
    TextNotEmpty(src.up, SortAsc(range));
    SortAscEnumerates(range - {0});
    assert range != {0} ==> range - {0} != {};
  }
}
