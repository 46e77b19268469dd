/** The status index: one record per known version, saying whether it is in the project and on the database. */
module Statuses {
  import opened Ordering

  class MigrationStatus {
    const version: nat
    var isApplied: bool
    var isPresent: bool
    var isDirty: bool

    constructor (version: nat, isDirty: bool)
      ensures this.version == version && this.isDirty == isDirty && !isApplied && !isPresent
    {
      this.version, this.isDirty, this.isApplied, this.isPresent := version, isDirty, false, false;
    }
  }

  class Status {
    var index: seq<nat>
    var migrations: map<nat, MigrationStatus>

    /** The record objects, and the versions noted as present in the project, as applied, and as dirty. */
    ghost var repr: set<MigrationStatus>
    ghost var present: set<nat>
    ghost var applied: set<nat>
    ghost var dirty: set<nat>

    /** Every record is filed under its own version, and the index enumerates the versions in order. */
    ghost predicate Filed()
      reads this
    {
      && (forall v :: v in migrations ==> migrations[v].version == v && migrations[v] in repr)
      && index == SortAsc(migrations.Keys)
    }

    /** The records say exactly what has been noted. */
    ghost predicate Valid()
      reads this, repr
    {
      && Filed()
      && migrations.Keys == present + applied && dirty <= applied
      && forall v :: v in migrations ==> Says(v, v in present, v in applied, v in dirty)
    }

    /** The record of a version has these flags. */
    ghost predicate Says(v: nat, isPresent: bool, isApplied: bool, isDirty: bool)
      reads this, repr
      requires Filed() && v in migrations
    {
      var r := migrations[v];
      r.isPresent == isPresent && r.isApplied == isApplied && r.isDirty == isDirty
    }

    constructor ()
      ensures Valid() && repr == {} && present == {} && applied == {}
    {
      index, migrations, repr, present, applied, dirty := [], map[], {}, {}, {}, {};
    }

    /** Files a new record; of a record for a known version only the applied flag is taken over. */
    method Append(m: MigrationStatus)
      requires Filed()
      modifies this, if m.version in migrations then {migrations[m.version]} else {}
      ensures Filed() && repr == old(repr) + {m}
      ensures present == old(present) && applied == old(applied) && dirty == old(dirty)
      ensures m.version !in old(migrations) ==>
                migrations == old(migrations)[m.version := m]
      ensures m.version in old(migrations) ==>
                migrations == old(migrations) &&
                var known := migrations[m.version];
                known.isApplied == old(m.isApplied) &&
                known.isPresent == old(known.isPresent) && known.isDirty == old(known.isDirty)
    {
      repr := repr + {m};
      if m.version !in migrations {
        migrations := migrations[m.version := m];
      } else {
        migrations[m.version].isApplied := m.isApplied;
      }
      BuildIndex();
    }

    /** Collects the keys in whatever order the map yields them and sorts them. */
    method BuildIndex()
      modifies this`index
      ensures index == SortAsc(migrations.Keys)
    {
      var collected := [];
      var left := migrations.Keys;
      while left != {}
        invariant left <= migrations.Keys && Elems(collected) == migrations.Keys - left
        decreases left
      {
        var v :| v in left;
        ConcatElems(collected, [v]);
        collected := collected + [v];
        left := left - {v};
      }
      assert Elems(collected) == migrations.Keys;
      index := SortAsc(Elems(collected));
    }

    method Read(version: nat) returns (r: Option<MigrationStatus>)
      ensures r == if version in migrations then Some(migrations[version]) else None
    {
      r := if version in migrations then Some(migrations[version]) else None;
    }
  }
}

/** calculateStatus: the records are filled from both drivers, the first and the last version before the ones between
    them, and a record on file is changed in place before it is appended again. */
module StatusCalculation {
  import opened Ordering
  import opened Readers
  import opened Drivers
  import opened Statuses

  /** newMigrationStatus: the record on file, changed in place, or a new one. */
  method NewMigrationStatus(status: Status, version: nat, fromSource: bool, dirty: bool) returns (m: MigrationStatus)
    requires status.Filed()
    modifies if version in status.migrations then {status.migrations[version]} else {}
    ensures m.version == version
    ensures version in status.migrations ==> m == status.migrations[version]
    ensures version !in status.migrations ==> fresh(m)
    ensures fromSource ==> m.isPresent &&
                           (version in status.migrations ==> m.isApplied == old(status.migrations[version].isApplied)
                                                             && m.isDirty == old(status.migrations[version].isDirty)) &&
                           (version !in status.migrations ==> !m.isApplied && m.isDirty == dirty)
    ensures !fromSource ==> m.isApplied && m.isDirty == dirty &&
                            (m.isPresent <==> version in status.migrations && old(status.migrations[version].isPresent))
  {
    var known := status.Read(version);
    match known {
      case Some(r) => m := r;
      case None => m := new MigrationStatus(version, dirty);
    }
    if fromSource {
      m.isPresent := true;
    } else {
      m.isApplied := true;
      m.isDirty := dirty;
    }
  }

  /** One status.Append(m.newMigrationStatus(...)). The record may be shared: Append then writes it onto itself. */
  method FileRecord(status: Status, version: nat, fromSource: bool, dirty: bool)
    requires status.Valid() && (fromSource ==> !dirty)
    modifies status, status.repr
    ensures status.Filed() && fresh(status.repr - old(status.repr))
    ensures status.present == old(status.present) && status.applied == old(status.applied)
    ensures status.dirty == old(status.dirty)
    ensures status.migrations.Keys == old(status.migrations.Keys) + {version}
    ensures forall v :: v in status.migrations && v != version ==>
                          status.Says(v, v in status.present, v in status.applied, v in status.dirty)
    ensures status.Says(version, fromSource || version in status.present, !fromSource || version in status.applied,
                        if fromSource then version in status.dirty else dirty)
  {
    var m := NewMigrationStatus(status, version, fromSource, dirty);
    status.Append(m);
  }

  method NoteSource(status: Status, version: nat)
    requires status.Valid()
    modifies status, status.repr
    ensures status.Valid() && fresh(status.repr - old(status.repr))
    ensures status.present == old(status.present) + {version}
    ensures status.applied == old(status.applied) && status.dirty == old(status.dirty)
  {
    FileRecord(status, version, true, false);
    status.present := status.present + {version};
  }

  lemma DirtyGrows(recorded: map<nat, bool>, noted: set<nat>, v: nat)
    requires v in recorded
    ensures var before, after := DirtyOf(recorded) * noted, DirtyOf(recorded) * (noted + {v});
            after == if recorded[v] then before + {v} else before - {v}
  {
  }

  method NoteApplied(status: Status, version: nat, dirty: bool)
    requires status.Valid()
    modifies status, status.repr
    ensures status.Valid() && fresh(status.repr - old(status.repr))
    ensures status.present == old(status.present) && status.applied == old(status.applied) + {version}
    ensures status.dirty == if dirty then old(status.dirty) + {version} else old(status.dirty) - {version}
  {
    FileRecord(status, version, false, dirty);
    assert version in status.migrations && status.Says(version, version in status.present, true, dirty);
    status.applied := status.applied + {version};
    status.dirty := if dirty then status.dirty + {version} else status.dirty - {version};
    assert forall v :: v in status.migrations ==>
                         status.Says(v, v in status.present, v in status.applied, v in status.dirty);
  }

  method NoteDatabase(status: Status, version: nat, dirty: bool, ghost recorded: map<nat, bool>)
    requires status.Valid() && status.dirty == DirtyOf(recorded) * status.applied
    requires version in recorded && dirty == recorded[version]
    modifies status, status.repr
    ensures status.Valid() && fresh(status.repr - old(status.repr))
    ensures status.present == old(status.present) && status.applied == old(status.applied) + {version}
    ensures status.dirty == DirtyOf(recorded) * status.applied
  {
    DirtyGrows(recorded, status.applied, version);
    NoteApplied(status, version, dirty);
  }

  function DirtyOf(recorded: map<nat, bool>): set<nat> {
    set v | v in recorded && recorded[v]
  }

  method ReadStatusFromSource(status: Status, drv: Index)
    requires drv.Valid() && Fits(drv.Versions())
    requires status.Valid() && status.present == {} && status.applied == {}
    modifies status, status.repr
    ensures status.Valid() && fresh(status.repr - old(status.repr))
    ensures status.present == drv.Versions() && status.applied == {}
  {
    var first := drv.First();
    if first.None? {
      return;
    }
    FirstAndLast(drv.Versions());
    var last := drv.Last();
    NoteSourceEnds(status, first.value, last.value);
    ReadSourceBetween(status, drv, Int64(first.value), Int64(last.value));
  }

  /** The first and the last version, before the ones between them. */
  method NoteSourceEnds(status: Status, first: nat, last: nat)
    requires status.Valid() && status.present == {} && status.applied == {}
    modifies status, status.repr
    ensures status.Valid() && fresh(status.repr - old(status.repr))
    ensures status.present == {first} + {last} && status.applied == {}
  {
    NoteSource(status, first);
    NoteSource(status, last);
  }

  /** The next version on the way from the first to the last. */
  method NextBetween(drv: Index, from: nat, ghost to: nat) returns (next: nat)
    requires drv.Valid() && from in drv.Versions() && to in drv.Versions() && from < to
    ensures next in drv.Versions() && from < next <= to
    ensures UpTo(drv.Versions(), from) + {to} + {next} == UpTo(drv.Versions(), next) + {to}
  {
    assert to in Above(drv.Versions(), from);
    var r := drv.Next(from);
    next := r.value;
  }

  /** The loop over the versions from the first, already noted, to the last, noted too. */
  method ReadSourceBetween(status: Status, drv: Index, first: nat, to: nat)
    requires drv.Valid() && Fits(drv.Versions()) && first in drv.Versions() && to in drv.Versions() && first <= to
    requires status.Valid() && status.present == UpTo(drv.Versions(), first) + {to}
    modifies status, status.repr
    ensures status.Valid() && fresh(status.repr - old(status.repr))
    ensures status.present == UpTo(drv.Versions(), to)
    ensures status.applied == old(status.applied) && status.dirty == old(status.dirty)
  {
    ghost var versions := drv.Versions();
    var from := first;
    while from < to
      invariant from in versions && from <= to
      invariant status.Valid() && fresh(status.repr - old(status.repr))
      invariant status.present == UpTo(versions, from) + {to}
      invariant status.applied == old(status.applied) && status.dirty == old(status.dirty)
    {
      var next := NextBetween(drv, from, to);
      NoteSource(status, next);
      from := Int64(next);
    }
  }

  lemma FirstAndLast(s: set<nat>)
    requires s != {}
    ensures UpTo(s, MinOf(s)) == {MinOf(s)} && UpTo(s, MaxOf(s)) == s
  {
  }

  method ReadStatusFromDatabase(status: Status, drv: HasuraDB)
    requires drv.Valid() && Fits(drv.scanned.Keys) && status.Valid() && status.applied == {}
    modifies status, status.repr
    ensures status.Valid() && fresh(status.repr - old(status.repr))
    ensures status.present == old(status.present)
    ensures status.applied == drv.scanned.Keys && status.dirty == DirtyOf(drv.scanned)
  {
    var first := drv.migrations.First();
    if first.None? {
      return;
    }
    FirstAndLast(drv.scanned.Keys);
    var last := drv.migrations.Last();
    NoteEnds(status, drv, first.value, last.value);
    ReadDatabaseBetween(status, drv, Int64(first.value), Int64(last.value));
  }

  /** First the ends of the range. */
  method NoteEnds(status: Status, drv: HasuraDB, first: nat, last: nat)
    requires drv.Valid() && first in drv.scanned && last in drv.scanned && status.Valid() && status.applied == {}
    modifies status, status.repr
    ensures status.Valid() && fresh(status.repr - old(status.repr))
    ensures status.present == old(status.present) && status.applied == {first} + {last}
    ensures status.dirty == DirtyOf(drv.scanned) * status.applied
  {
    NoteDatabase(status, first, drv.scanned[first], drv.scanned);
    NoteDatabase(status, last, drv.scanned[last], drv.scanned);
  }

  /** Then the loop from the first to the last. */
  method ReadDatabaseBetween(status: Status, drv: HasuraDB, first: nat, to: nat)
    requires drv.Valid() && Fits(drv.scanned.Keys) && first in drv.scanned && to in drv.scanned && first <= to
    requires status.Valid() && status.applied == UpTo(drv.scanned.Keys, first) + {to}
    requires status.dirty == DirtyOf(drv.scanned) * status.applied
    modifies status, status.repr
    ensures status.Valid() && fresh(status.repr - old(status.repr))
    ensures status.present == old(status.present) && status.applied == UpTo(drv.scanned.Keys, to)
    ensures status.dirty == DirtyOf(drv.scanned) * status.applied
  {
    ghost var recorded := drv.scanned.Keys;
    var from := first;
    while from < to
      invariant from in recorded && from <= to
      invariant status.Valid() && fresh(status.repr - old(status.repr))
      invariant status.present == old(status.present) && status.applied == UpTo(recorded, from) + {to}
      invariant status.dirty == DirtyOf(drv.scanned) * status.applied
    {
      var next := NextBetween(drv.migrations, from, to);
      NoteDatabase(status, next, drv.scanned[next], drv.scanned);
      from := Int64(next);
    }
  }

  /** calculateStatus: a status that knows exactly the versions of the project and of the last scan. */
  method Calculate(sourceDrv: Index, databaseDrv: HasuraDB) returns (status: Status)
    requires sourceDrv.Valid() && Fits(sourceDrv.Versions())
    requires databaseDrv.Valid() && Fits(databaseDrv.scanned.Keys)
    ensures status.Valid() && fresh(status) && fresh(status.repr)
    ensures status.present == sourceDrv.Versions()
    ensures status.applied == databaseDrv.scanned.Keys && status.dirty == DirtyOf(databaseDrv.scanned)
    ensures status.index == SortAsc(sourceDrv.Versions() + databaseDrv.scanned.Keys)
    ensures status.migrations.Keys == sourceDrv.Versions() + databaseDrv.scanned.Keys
    ensures forall v :: v in status.migrations ==>
              var r := status.migrations[v];
              && r.version == v
              && (r.isPresent <==> v in sourceDrv.Versions())
              && (r.isApplied <==> v in databaseDrv.scanned)
              && (r.isDirty <==> v in databaseDrv.scanned && databaseDrv.scanned[v])
  {
    status := new Status();
    ReadStatusFromSource(status, sourceDrv);
    ReadStatusFromDatabase(status, databaseDrv);
    assert forall v :: v in status.migrations ==>
                         status.Says(v, v in status.present, v in status.applied, v in status.dirty);
  }

  /** The migrations that need applying, as the progress bar counts them. */
  method CountUnapplied(status: Status, bound: Option<int>) returns (count: nat)
    requires status.Valid()
    ensures count == |set v | v in status.present - status.applied && (bound.None? || v <= bound.value)|
  {
    count := 0;
    var left := status.migrations.Keys;
    ghost var counted: set<nat> := {};
    while left != {}
      invariant left <= status.migrations.Keys && count == |counted|
      invariant counted ==
                set v | v in status.present - status.applied && v !in left && (bound.None? || v <= bound.value)
      decreases left
    {
      var v :| v in left;
      left := left - {v};
      var r := status.migrations[v];
      if bound.Some? && v > bound.value {
        continue;
      }
      if r.isPresent && !r.isApplied {
        count, counted := count + 1, counted + {v};
      }
    }
    assert counted == set v | v in status.present - status.applied && (bound.None? || v <= bound.value);
  }

  /** The migrations that can be rolled back between two versions. */
  method CountApplied(status: Status, from: int, to: int) returns (count: nat)
    requires status.Valid()
    ensures count == |set v | v in status.present * status.applied && v <= from && (to < 0 || v > to)|
  {
    count := 0;
    var left := status.migrations.Keys;
    ghost var counted: set<nat> := {};
    while left != {}
      invariant left <= status.migrations.Keys && count == |counted|
      invariant counted == set v | v in status.present * status.applied && v !in left && v <= from && (to < 0 || v > to)
      decreases left
    {
      var v :| v in left;
      left := left - {v};
      var r := status.migrations[v];
      if v > from || (to >= 0 && v <= to) {
        continue;
      }
      if r.isPresent && r.isApplied {
        count, counted := count + 1, counted + {v};
      }
    }
    assert counted == set v | v in status.present * status.applied && v <= from && (to < 0 || v > to);
  }
}
