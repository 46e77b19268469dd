/** The Migrate object: the reader loops, the runner loop and the commands built from them. */
module Engine {
  import opened Ordering
  import opened Readers
  import opened Runner
  import opened Drivers
  import opened Statuses
  import opened StatusCalculation
  import opened DryRun
  import opened Laws
  import opened Outcomes
  import opened History

  /** What a reader sends when everything is read before anything is run: all of its plan, or, when a stop is pending,
      only what comes before the first look at the stop signal. */
  ghost function SentBy(src: Source, applied: set<nat>, job: Job, stopping: bool): seq<Message> {
    if !stopping then Plan(src, applied, job, Start)
    else if job.ReadOne? then []
    else Iterate(src, applied, job, Start, applied).out
  }

  /** One more iteration of a loop that has sent `ret` out of `all`. */
  lemma Advance(src: Source, applied: set<nat>, job: Job, ret: seq<Message>, st: Reader, all: seq<Message>)
    requires Fits(src.Versions()) && Fits(applied) && ValidReader(src, applied, job, st) && st.Walk?
    requires ret + Sends(src, applied, job, st) == all
    ensures var it := Iterate(src, applied, job, st, applied);
            && ValidReader(src, applied, job, it.next)
            && (ret + it.out) + Sends(src, applied, job, it.next) == all
            && (!it.next.Walk? ==> ret + it.out == all)
            && Rank(src, applied, job, it.next) < Rank(src, applied, job, st)
  {
    IterationLaw(src, applied, job, st, applied);
    var it := Iterate(src, applied, job, st, applied);
    Associate(ret, it.out, Sends(src, applied, job, it.next));
  }

  /** A reader that has reached its target ends. */
  lemma AtTarget(src: Source, applied: set<nat>, job: Job, to: int, count: nat)
    requires (job.ReadUpTo? || job.ReadDownTo?) && job.to == to
    ensures Iterate(src, applied, job, Walk(to, count), applied) == Iteration([], Finished)
  {
  }

  /** What readUp sends: the error before the loop, or what the loop sends. */
  lemma SentUp(src: Source, applied: set<nat>, limit: int, stopping: bool)
    requires Fits(src.Versions()) && Fits(applied)
    ensures SentBy(src, applied, Job.ReadUp(limit), stopping) ==
            if limit == 0 || (limit == -1 && src.Versions() - applied == {}) then [Failed(NoChange)]
            else if stopping then []
            else Sends(src, applied, Job.ReadUp(limit), Walk(-1, 0))
  {
    SendsPlan(src, applied, Job.ReadUp(limit), Walk(-1, 0));
  }

  class Migrate {
    const files: Source
    const sourceDrv: Index
    const databaseDrv: HasuraDB
    var status: Status
    var migrationMode: bool
    var isLocked: bool
    /** What the GracefulStop channel holds, and whether a stop has been seen. */
    var gracefulStop: bool
    var isGracefulStop: bool
    var skipExecution: bool
    var dryRun: bool
    /** What the last dry run printed. */
    var printed: seq<Message>

    constructor (files: Source, databaseDrv: HasuraDB, migrationMode: bool, skipExecution: bool, dryRun: bool)
      requires databaseDrv.Valid() && Fits(files.Versions()) && Fits(databaseDrv.store.Keys)
      modifies databaseDrv`migrations, databaseDrv`scanned
      ensures Valid() && databaseDrv.scanned == databaseDrv.store
      ensures this.files == files && this.databaseDrv == databaseDrv && !isLocked && !gracefulStop && !isGracefulStop
      ensures this.migrationMode == migrationMode && this.skipExecution == skipExecution && this.dryRun == dryRun
    {
      databaseDrv.Scan();
      var drv := new Index(files.Versions());
      var first := Calculate(drv, databaseDrv);
      this.files, this.databaseDrv, sourceDrv, status := files, databaseDrv, drv, first;
      this.migrationMode, this.skipExecution, this.dryRun := migrationMode, skipExecution, dryRun;
      isLocked, gracefulStop, isGracefulStop, printed := false, false, false, [];
    }

    /** The drivers hold an index each; all versions survive the conversion to a signed number. */
    ghost predicate DriversValid()
      reads sourceDrv, databaseDrv`migrations, databaseDrv`scanned, databaseDrv.migrations
    {
      && sourceDrv.Valid() && sourceDrv.Versions() == files.Versions()
      && databaseDrv.Valid()
      && Fits(files.Versions()) && Fits(databaseDrv.scanned.Keys)
    }

    /** ... and the status agrees with the last scan. */
    ghost predicate Valid()
      reads this`status, status, status.repr
      reads sourceDrv, databaseDrv`migrations, databaseDrv`scanned, databaseDrv.migrations
    {
      DriversValid() && status.Valid() &&
      status.present == files.Versions() &&
      status.applied == databaseDrv.scanned.Keys && status.dirty == DirtyOf(databaseDrv.scanned)
    }

    /** A new status from both drivers. */
    method CalculateStatus()
      requires DriversValid()
      modifies this`status
      ensures Valid() && fresh(status) && fresh(status.repr)
    {
      status := Calculate(sourceDrv, databaseDrv);
    }

    /** ReScan: the database index is read again from the recorded versions, then the status. */
    method ReScan()
      requires sourceDrv.Valid() && sourceDrv.Versions() == files.Versions() && databaseDrv.Valid()
      requires Fits(files.Versions()) && Fits(databaseDrv.store.Keys)
      modifies this`status, databaseDrv`migrations, databaseDrv`scanned
      ensures Valid() && fresh(status) && fresh(databaseDrv.migrations)
      ensures databaseDrv.scanned == databaseDrv.store
    {
      databaseDrv.Scan();
      CalculateStatus();
    }

    /** A stop has been seen, or the channel holds one. */
    predicate Stopping()
      reads this`gracefulStop, this`isGracefulStop
    {
      isGracefulStop || gracefulStop
    }

    method Stop() returns (stop: bool)
      modifies this`gracefulStop, this`isGracefulStop
      ensures stop == old(Stopping()) == Stopping() == isGracefulStop
    {
      if isGracefulStop {
        return true;
      }
      if gracefulStop {
        gracefulStop, isGracefulStop := false, true;
        return true;
      }
      return false;
    }

    /** The part the upward loops share: skip version v when it is applied, otherwise send it. */
    method VisitVersion(v: nat, count: nat) returns (it: Iteration)
      requires DriversValid()
      ensures it == Visit(files, databaseDrv.scanned.Keys, v, count)
    {
      var known := databaseDrv.migrations.Contains(v);
      if known {
        return Iteration([], Walk(Int64(v), count));
      }
      if !files.UpExists(v) {
        return Readers.Stop(UpMissing(v));
      }
      return Iteration([NewMigration(files, v, Int64(v))], Walk(Int64(v), count + 1));
    }

    /** The body of the loop of ReadUp. */
    method UpBody(limit: int, from: int, count: nat) returns (it: Iteration)
      requires DriversValid() && (limit == -1 || count < limit) && (from == -1 || from in files.Versions())
      ensures it == Iterate(files, databaseDrv.scanned.Keys, Job.ReadUp(limit), Walk(from, count),
                            databaseDrv.scanned.Keys)
    {
      if from == -1 {
        var first := sourceDrv.First();
        if first.None? {
          return Readers.Stop(NoFirst);
        }
        it := VisitVersion(first.value, count);
        return;
      }
      var next := sourceDrv.Next(from);
      if next.None? {
        if count == 0 {
          return Readers.Stop(NoChange);
        }
        if limit == -1 {
          return Iteration([], Finished);
        }
        return Readers.Stop(ShortLimit(limit - count));
      }
      it := VisitVersion(next.value, count);
    }

    /** The loop of ReadUp. */
    method UpLoop(limit: int) returns (ret: seq<Message>)
      requires DriversValid()
      modifies this`gracefulStop, this`isGracefulStop
      ensures ret == if old(Stopping()) then [] else
                     Sends(files, databaseDrv.scanned.Keys, Job.ReadUp(limit), Walk(-1, 0))
      ensures Stopping() == old(Stopping())
    {
      ghost var applied, job := databaseDrv.scanned.Keys, Job.ReadUp(limit);
      ghost var all := Sends(files, applied, job, Walk(-1, 0));
      ret := [];
      assert [] + all == all;
      var count, from := 0, -1;
      while count < limit || limit == -1
        invariant Stopping() == old(Stopping()) && (Stopping() ==> ret == [])
        invariant 0 <= count && ValidReader(files, applied, job, Walk(from, count))
        invariant ret + Sends(files, applied, job, Walk(from, count)) == all
        decreases Rank(files, applied, job, Walk(from, count))
      {
        var stop := Stop();
        if stop {
          return;
        }
        Advance(files, applied, job, ret, Walk(from, count), all);
        var it := UpBody(limit, from, count);
        ret := ret + it.out;
        if !it.next.Walk? {
          return;
        }
        from, count := it.next.from, it.next.count;
      }
    }

    method ReadUp(limit: int) returns (ret: seq<Message>)
      requires Valid()
      modifies this`gracefulStop, this`isGracefulStop
      ensures ret == SentBy(files, databaseDrv.scanned.Keys, Job.ReadUp(limit), old(Stopping()))
      ensures Stopping() == old(Stopping())
    {
      SentUp(files, databaseDrv.scanned.Keys, limit, Stopping());
      if limit == 0 {
        return [Failed(NoChange)];
      }
      if limit == -1 {
        var unapplied := CountUnapplied(status, None);
        assert files.Versions() - databaseDrv.scanned.Keys == set v | v in status.present - status.applied;
        if unapplied == 0 {
          return [Failed(NoChange)];
        }
      }
      ret := UpLoop(limit);
    }

    /** The body of the loop of ReadDown. */
    method DownBody(limit: int, from: int, count: nat) returns (it: Iteration)
      requires DriversValid() && (limit == -1 || count < limit) && from in databaseDrv.scanned
      ensures it == Iterate(files, databaseDrv.scanned.Keys, Job.ReadDown(limit), Walk(from, count),
                            databaseDrv.scanned.Keys)
    {
      if !files.DownExists(from) {
        return Readers.Stop(DownMissing(from));
      }
      var prev := databaseDrv.migrations.Prev(from);
      if prev.None? {
        var last := [NewMigration(files, from, -1)];
        if count + 1 < limit {
          last := last + [Failed(ShortLimit(limit - count - 1))];
        }
        return Iteration(last, Finished);
      }
      return Iteration([NewMigration(files, from, Int64(prev.value))], Walk(Int64(prev.value), count + 1));
    }

    method DownLoop(limit: int, start: int) returns (ret: seq<Message>)
      requires DriversValid() && (start in databaseDrv.scanned || limit < -1)
      modifies this`gracefulStop, this`isGracefulStop
      ensures ret == if old(Stopping()) then [] else
                     Sends(files, databaseDrv.scanned.Keys, Job.ReadDown(limit), Walk(start, 0))
      ensures Stopping() == old(Stopping())
    {
      ghost var applied, job := databaseDrv.scanned.Keys, Job.ReadDown(limit);
      ghost var all := Sends(files, applied, job, Walk(start, 0));
      ret := [];
      var count, from := 0, start;
      while count < limit || limit == -1
        invariant Stopping() == old(Stopping()) && (Stopping() ==> ret == [])
        invariant 0 <= count && ValidReader(files, applied, job, Walk(from, count))
        invariant ret + Sends(files, applied, job, Walk(from, count)) == all
        decreases Rank(files, applied, job, Walk(from, count))
      {
        var stop := Stop();
        if stop {
          return;
        }
        Advance(files, applied, job, ret, Walk(from, count), all);
        var it := DownBody(limit, from, count);
        ret := ret + it.out;
        if !it.next.Walk? {
          return;
        }
        from, count := it.next.from, it.next.count;
      }
    }

    method ReadDown(limit: int) returns (ret: seq<Message>)
      requires Valid()
      modifies this`gracefulStop, this`isGracefulStop
      ensures ret == SentBy(files, databaseDrv.scanned.Keys, Job.ReadDown(limit), old(Stopping()))
      ensures Stopping() == old(Stopping())
    {
      if limit == 0 {
        return [Failed(NoChange)];
      }
      var from, _ := databaseDrv.Version();
      if from == -1 && (limit == -1 || limit > 0) {
        return [Failed(NoChange)];
      }
      SendsPlan(files, databaseDrv.scanned.Keys, Job.ReadDown(limit), Start);
      ret := DownLoop(limit, from);
    }

    method UpToBody(to: int, from: int, count: nat) returns (it: Iteration)
      requires DriversValid() && (from == -1 || from in files.Versions()) && from != to
      ensures it == Iterate(files, databaseDrv.scanned.Keys, ReadUpTo(to), Walk(from, count), databaseDrv.scanned.Keys)
    {
      if from == -1 {
        var first := sourceDrv.First();
        if first.None? {
          return Readers.Stop(NoFirst);
        }
        it := VisitVersion(first.value, count);
        return;
      }
      var next := sourceDrv.Next(from);
      if next.None? {
        return Readers.Stop(NoNext(from));
      }
      it := VisitVersion(next.value, count);
    }

    method UpToLoop(to: int) returns (ret: seq<Message>)
      requires DriversValid() && to != -1
      modifies this`gracefulStop, this`isGracefulStop
      ensures ret == if old(Stopping()) then [] else
                     Sends(files, databaseDrv.scanned.Keys, ReadUpTo(to), Walk(-1, 0))
      ensures Stopping() == old(Stopping())
    {
      ghost var applied, job := databaseDrv.scanned.Keys, ReadUpTo(to);
      ghost var all := Sends(files, applied, job, Walk(-1, 0));
      ret := [];
      assert [] + all == all;
      var count, from := 0, -1;
      while true
        invariant Stopping() == old(Stopping()) && (Stopping() ==> ret == [])
        invariant 0 <= count && ValidReader(files, applied, job, Walk(from, count))
        invariant ret + Sends(files, applied, job, Walk(from, count)) == all
        decreases Rank(files, applied, job, Walk(from, count))
      {
        var stop := Stop();
        if stop {
          return;
        }
        Advance(files, applied, job, ret, Walk(from, count), all);
        if from == to {
          AtTarget(files, applied, job, to, count);
          return;
        }
        var it := UpToBody(to, from, count);
        ret := ret + it.out;
        if !it.next.Walk? {
          return;
        }
        from, count := it.next.from, it.next.count;
      }
    }

    method ReadUpFromVersion(to: int) returns (ret: seq<Message>)
      requires Valid()
      modifies this`gracefulStop, this`isGracefulStop
      ensures ret == SentBy(files, databaseDrv.scanned.Keys, ReadUpTo(to), old(Stopping()))
      ensures Stopping() == old(Stopping())
    {
      if to == -1 {
        return [Failed(NoChange)];
      }
      var unapplied := CountUnapplied(status, Some(Uint64(to)));
      assert UpTo(files.Versions() - databaseDrv.scanned.Keys, Uint64(to))
          == set v | v in status.present - status.applied && (Some(Uint64(to)).None? || v <= Uint64(to));
      if unapplied == 0 {
        return [Failed(NoChange)];
      }
      SendsPlan(files, databaseDrv.scanned.Keys, ReadUpTo(to), Start);
      ret := UpToLoop(to);
    }

    method DownToBody(ghost start: int, to: int, from: int, count: nat) returns (it: Iteration)
      requires DriversValid() && from in databaseDrv.scanned && from != to
      ensures it == Iterate(files, databaseDrv.scanned.Keys, ReadDownTo(start, to), Walk(from, count),
                            databaseDrv.scanned.Keys)
    {
      if !files.DownExists(from) {
        return Readers.Stop(DownMissing(from));
      }
      var prev := databaseDrv.migrations.Prev(from);
      if prev.None? {
        var before := sourceDrv.Prev(from);
        if before.None? && to == -1 {
          return Iteration([NewMigration(files, from, -1)], Walk(-1, count + 1));
        }
        if before.None? {
          return Readers.Stop(NoPrev(from));
        }
        return Readers.Stop(NotOnDatabase(before.value));
      }
      return Iteration([NewMigration(files, from, Int64(prev.value))], Walk(Int64(prev.value), count + 1));
    }

    method DownToLoop(start: int, to: int) returns (ret: seq<Message>)
      requires DriversValid() && start in databaseDrv.scanned && start > to
      modifies this`gracefulStop, this`isGracefulStop
      ensures ret == if old(Stopping()) then [] else
                     Sends(files, databaseDrv.scanned.Keys, ReadDownTo(start, to), Walk(start, 0))
      ensures Stopping() == old(Stopping())
    {
      ghost var applied, job := databaseDrv.scanned.Keys, ReadDownTo(start, to);
      ghost var all := Sends(files, applied, job, Walk(start, 0));
      ret := [];
      assert [] + all == all;
      var count, from := 0, start;
      while true
        invariant Stopping() == old(Stopping()) && (Stopping() ==> ret == [])
        invariant 0 <= count && ValidReader(files, applied, job, Walk(from, count))
        invariant ret + Sends(files, applied, job, Walk(from, count)) == all
        decreases Rank(files, applied, job, Walk(from, count))
      {
        var stop := Stop();
        if stop {
          return;
        }
        Advance(files, applied, job, ret, Walk(from, count), all);
        if from == to {
          AtTarget(files, applied, job, to, count);
          return;
        }
        var it := DownToBody(start, to, from, count);
        ret := ret + it.out;
        if !it.next.Walk? {
          return;
        }
        from, count := it.next.from, it.next.count;
      }
    }

    method ReadDownFromVersion(from: int, to: int) returns (ret: seq<Message>)
      requires Valid() && (from == -1 || from in databaseDrv.scanned) && from > to
      modifies this`gracefulStop, this`isGracefulStop
      ensures ret == SentBy(files, databaseDrv.scanned.Keys, ReadDownTo(from, to), old(Stopping()))
      ensures Stopping() == old(Stopping())
    {
      if from == -1 {
        return [Failed(NoChange)];
      }
      var applied := CountApplied(status, Uint64(from), to);
      assert (set v | v in files.Versions() * databaseDrv.scanned.Keys && v <= Uint64(from) && (to < 0 || v > to))
          == set v | v in status.present * status.applied && v <= Uint64(from) && (to < 0 || v > to);
      if applied == 0 {
        return [Failed(NoChange)];
      }
      SendsPlan(files, databaseDrv.scanned.Keys, ReadDownTo(from, to), Start);
      ret := DownToLoop(from, to);
    }

    method ReadOneBody(version: nat, up: bool) returns (ret: seq<Message>)
      requires DriversValid()
      ensures ret == IterateOne(files, version, up, databaseDrv.scanned.Keys).out
    {
      var known := databaseDrv.migrations.Contains(version);
      if up {
        if known {
          return [Failed(AlreadyApplied)];
        }
        if !files.UpExists(version) {
          return [Failed(UpMissing(version))];
        }
        return [NewMigration(files, version, Int64(version))];
      }
      if !known {
        return [Failed(NotApplied)];
      }
      if !files.DownExists(version) {
        return [Failed(DownMissing(version))];
      }
      var prev := sourceDrv.Prev(version);
      return [NewMigration(files, version, if prev.None? then -1 else Int64(prev.value))];
    }

    /** The single-version reader, for one direction. */
    method Read(version: nat, up: bool) returns (ret: seq<Message>)
      requires Valid()
      modifies this`gracefulStop, this`isGracefulStop
      ensures ret == SentBy(files, databaseDrv.scanned.Keys, ReadOne(version, up), old(Stopping()))
      ensures Stopping() == old(Stopping())
    {
      var stop := Stop();
      if stop {
        return [];
      }
      ret := ReadOneBody(version, up);
    }

    /** Runs what was read, in order, until an error comes or a stop is seen. */
    method RunMigrations(ret: seq<Message>) returns (error: Option<Error>)
      modifies this`gracefulStop, this`isGracefulStop, databaseDrv`store, databaseDrv`log
      ensures Stopping() == old(Stopping())
      ensures Outcome(databaseDrv.Remote(), error) ==
              if old(Stopping()) then Outcome(old(databaseDrv.Remote()), None)
              else RunAll(databaseDrv.accepts, skipExecution, ret, old(databaseDrv.Remote()))
    {
      var i := 0;
      while i < |ret|
        invariant i <= |ret| && Stopping() == old(Stopping())
        invariant Stopping() ==> databaseDrv.Remote() == old(databaseDrv.Remote())
        invariant RunAll(databaseDrv.accepts, skipExecution, ret[i..], databaseDrv.Remote())
               == RunAll(databaseDrv.accepts, skipExecution, ret, old(databaseDrv.Remote()))
      {
        var stop := Stop();
        if stop {
          return None;
        }
        var r := ret[i];
        if r.Failed? {
          return Some(r.error);
        }
        if r.body.Some? {
          if !skipExecution {
            var ok := databaseDrv.Run(r);
            if !ok {
              return Some(SqlFailed(r.version));
            }
          }
          databaseDrv.SetVersion(r.version, false);
          if r.version != r.target {
            databaseDrv.RemoveVersion(r.version);
          }
        }
        assert ret[i..][1..] == ret[i + 1..];
        i := i + 1;
      }
      return None;
    }

    /** The dry run prints its list when no error came and no stop was seen; a stop is looked for once per message. */
    method RunDryRun(ret: seq<Message>) returns (error: Option<Error>)
      modifies this`gracefulStop, this`isGracefulStop, this`printed
      ensures Stopping() == old(Stopping())
      ensures error == if old(Stopping()) then None else FirstError(ret)
      ensures printed == if (old(Stopping()) && ret != []) || error.Some? then old(printed) else Listed(ret, 0)
    {
      if ret != [] {
        var stop := Stop();
        if stop {
          return None;
        }
      }
      var migrations, e := CollectDryRun(ret);
      error := e;
      if e.None? {
        printed := migrations;
      }
    }

    method Lock() returns (ok: bool)
      modifies this`isLocked, databaseDrv`isLocked
      ensures ok <==> !old(isLocked) && !old(databaseDrv.isLocked)
      ensures if ok then isLocked && databaseDrv.isLocked
              else isLocked == old(isLocked) && databaseDrv.isLocked == old(databaseDrv.isLocked)
    {
      if isLocked || databaseDrv.isLocked {
        return false;
      }
      databaseDrv.isLocked, isLocked := true, true;
      return true;
    }

    method Unlock()
      modifies this`isLocked, databaseDrv`isLocked
      ensures !isLocked && !databaseDrv.isLocked
    {
      databaseDrv.isLocked, isLocked := false, false;
    }

    /** What a command that runs `job` leaves on the server and returns. */
    ghost function Expected(job: Job, before: Server, stopping: bool): Outcome
      reads this`skipExecution, this`dryRun, databaseDrv`scanned
    {
      var plan := Plan(files, databaseDrv.scanned.Keys, job, Start);
      if stopping then Outcome(before, None)
      else if dryRun then Outcome(before, FirstError(plan))
      else RunAll(databaseDrv.accepts, skipExecution, plan, before)
    }

    /** A command has run `job`: server, error and lock are as they should be, and a dry run that found no error has
        printed its list. */
    ghost predicate Done(job: Job, before: Server, stopping: bool, error: Option<Error>)
      reads this`skipExecution, this`dryRun, this`printed, this`isLocked
      reads databaseDrv`scanned, databaseDrv`store, databaseDrv`log, databaseDrv`isLocked
    {
      && !isLocked && !databaseDrv.isLocked
      && Outcome(databaseDrv.Remote(), error) == Expected(job, before, stopping)
      && (dryRun && !stopping && error == None ==>
            printed == Listed(Plan(files, databaseDrv.scanned.Keys, job, Start), 0))
    }

    /** Runs or lists what a reader has sent, then unlocks. */
    method RunAndUnlock(ret: seq<Message>) returns (error: Option<Error>)
      modifies this`gracefulStop, this`isGracefulStop, this`printed, this`isLocked
      modifies databaseDrv`store, databaseDrv`log, databaseDrv`isLocked
      ensures Stopping() == old(Stopping()) && !isLocked && !databaseDrv.isLocked
      ensures Outcome(databaseDrv.Remote(), error) ==
              if old(Stopping()) then Outcome(old(databaseDrv.Remote()), None)
              else if dryRun then Outcome(old(databaseDrv.Remote()), FirstError(ret))
              else RunAll(databaseDrv.accepts, skipExecution, ret, old(databaseDrv.Remote()))
      ensures dryRun && !old(Stopping()) && error == None ==> printed == Listed(ret, 0)
    {
      if dryRun {
        error := RunDryRun(ret);
      } else {
        error := RunMigrations(ret);
      }
      Unlock();
    }

    /** Reads for one job. */
    method ReadJob(job: Job) returns (ret: seq<Message>)
      requires Valid() && ValidJob(databaseDrv.scanned.Keys, job)
      modifies this`gracefulStop, this`isGracefulStop
      ensures ret == SentBy(files, databaseDrv.scanned.Keys, job, old(Stopping()))
      ensures Stopping() == old(Stopping())
    {
      match job {
        case ReadUp(limit) => ret := ReadUp(limit);
        case ReadDown(limit) => ret := ReadDown(limit);
        case ReadUpTo(to) => ret := ReadUpFromVersion(to);
        case ReadDownTo(start, to) => ret := ReadDownFromVersion(start, to);
        case ReadOne(version, up) => ret := Read(version, up);
      }
    }

    /** The tail every command shares once it holds the lock: read, run or list, unlock. */
    method Finish(job: Job) returns (error: Option<Error>)
      requires Valid() && ValidJob(databaseDrv.scanned.Keys, job)
      modifies this`gracefulStop, this`isGracefulStop, this`printed, this`isLocked
      modifies databaseDrv`store, databaseDrv`log, databaseDrv`isLocked
      ensures Done(job, old(databaseDrv.Remote()), old(isGracefulStop || gracefulStop), error)
    {
      var ret := ReadJob(job);
      error := RunAndUnlock(ret);
    }

    method LockAndFinish(job: Job) returns (error: Option<Error>)
      requires Valid() && ValidJob(databaseDrv.scanned.Keys, job)
      modifies this`gracefulStop, this`isGracefulStop, this`printed, this`isLocked
      modifies databaseDrv`store, databaseDrv`log, databaseDrv`isLocked
      ensures old(isLocked || databaseDrv.isLocked) ==>
                error == Some(Locked) && unchanged(this`isLocked, databaseDrv)
      ensures !old(isLocked || databaseDrv.isLocked) ==>
                Done(job, old(databaseDrv.Remote()), old(isGracefulStop || gracefulStop), error)
    {
      var ok := Lock();
      if !ok {
        return Some(Locked);
      }
      error := Finish(job);
    }

    /** Steps. The least signed number is its own negative. */
    method Steps(n: int) returns (error: Option<Error>)
      requires Valid()
      modifies this`gracefulStop, this`isGracefulStop, this`printed, this`isLocked
      modifies databaseDrv`store, databaseDrv`log, databaseDrv`isLocked
      ensures !migrationMode ==> error == Some(NoMigrationMode) && unchanged(this`isLocked, databaseDrv)
      ensures migrationMode && n == 0 ==> error == Some(NoChange) && unchanged(this`isLocked, databaseDrv)
      ensures migrationMode && n != 0 && old(isLocked || databaseDrv.isLocked) ==>
                error == Some(Locked) && unchanged(this`isLocked, databaseDrv)
      ensures migrationMode && n != 0 && !old(isLocked || databaseDrv.isLocked) ==>
                Done(if n > 0 then Job.ReadUp(n)
                     else if n == -TWO_TO_THE_63 then Job.ReadDown(n)
                     else Job.ReadDown(-n),
                     old(databaseDrv.Remote()), old(isGracefulStop || gracefulStop), error)
    {
      if !migrationMode {
        return Some(NoMigrationMode);
      }
      if n == 0 {
        return Some(NoChange);
      }
      error := LockAndFinish(if n > 0 then Job.ReadUp(n)
                             else if n == -TWO_TO_THE_63 then Job.ReadDown(n)
                             else Job.ReadDown(-n));
    }

    /** Reads, runs and unlocks, unless the database is dirty: that is an error, and then the lock is kept. */
    method FinishUnlessDirty(job: Job) returns (error: Option<Error>)
      requires Valid() && ValidJob(databaseDrv.scanned.Keys, job)
      modifies this`gracefulStop, this`isGracefulStop, this`printed, this`isLocked
      modifies databaseDrv`store, databaseDrv`log, databaseDrv`isLocked
      ensures var scanned := databaseDrv.scanned;
              if scanned.Keys != {} && scanned[MaxOf(scanned.Keys)] then
                error == Some(Dirty(MaxOf(scanned.Keys))) &&
                unchanged(this`isLocked, databaseDrv`isLocked, databaseDrv`store, databaseDrv`log)
              else Done(job, old(databaseDrv.Remote()), old(isGracefulStop || gracefulStop), error)
    {
      var current, dirty := databaseDrv.Version();
      if dirty {
        return Some(Dirty(current));
      }
      error := Finish(job);
    }

    /** What Up and Down share: the lock is taken before the look for a dirty database. */
    method LockAndFinishUnlessDirty(job: Job) returns (error: Option<Error>)
      requires Valid() && ValidJob(databaseDrv.scanned.Keys, job)
      modifies this`gracefulStop, this`isGracefulStop, this`printed, this`isLocked
      modifies databaseDrv`store, databaseDrv`log, databaseDrv`isLocked
      ensures old(isLocked || databaseDrv.isLocked) ==> error == Some(Locked) && unchanged(this`isLocked, databaseDrv)
      ensures !old(isLocked || databaseDrv.isLocked) ==>
                var scanned := databaseDrv.scanned;
                if scanned.Keys != {} && scanned[MaxOf(scanned.Keys)] then
                  error == Some(Dirty(MaxOf(scanned.Keys))) && unchanged(databaseDrv`store, databaseDrv`log) &&
                  isLocked && databaseDrv.isLocked
                else Done(job, old(databaseDrv.Remote()), old(isGracefulStop || gracefulStop), error)
    {
      var ok := Lock();
      if !ok {
        return Some(Locked);
      }
      assert databaseDrv.Remote() == old(databaseDrv.Remote());
      error := FinishUnlessDirty(job);
    }

    /** Up. A dirty database is an error, and then the lock is kept. */
    method Up() returns (error: Option<Error>)
      requires Valid()
      modifies this`gracefulStop, this`isGracefulStop, this`printed, this`isLocked
      modifies databaseDrv`store, databaseDrv`log, databaseDrv`isLocked
      ensures !migrationMode ==> error == Some(NoMigrationMode) && unchanged(this`isLocked, databaseDrv)
      ensures migrationMode && old(isLocked || databaseDrv.isLocked) ==>
                error == Some(Locked) && unchanged(this`isLocked, databaseDrv)
      ensures migrationMode && !old(isLocked || databaseDrv.isLocked) ==>
                var scanned := databaseDrv.scanned;
                if scanned.Keys != {} && scanned[MaxOf(scanned.Keys)] then
                  error == Some(Dirty(MaxOf(scanned.Keys))) && unchanged(databaseDrv`store, databaseDrv`log) &&
                  isLocked && databaseDrv.isLocked
                else Done(Job.ReadUp(-1), old(databaseDrv.Remote()), old(isGracefulStop || gracefulStop), error)
    {
      if !migrationMode {
        return Some(NoMigrationMode);
      }
      error := LockAndFinishUnlessDirty(Job.ReadUp(-1));
    }

    /** Down, with the same treatment of a dirty database. */
    method Down() returns (error: Option<Error>)
      requires Valid()
      modifies this`gracefulStop, this`isGracefulStop, this`printed, this`isLocked
      modifies databaseDrv`store, databaseDrv`log, databaseDrv`isLocked
      ensures !migrationMode ==> error == Some(NoMigrationMode) && unchanged(this`isLocked, databaseDrv)
      ensures migrationMode && old(isLocked || databaseDrv.isLocked) ==>
                error == Some(Locked) && unchanged(this`isLocked, databaseDrv)
      ensures migrationMode && !old(isLocked || databaseDrv.isLocked) ==>
                var scanned := databaseDrv.scanned;
                if scanned.Keys != {} && scanned[MaxOf(scanned.Keys)] then
                  error == Some(Dirty(MaxOf(scanned.Keys))) && unchanged(databaseDrv`store, databaseDrv`log) &&
                  isLocked && databaseDrv.isLocked
                else Done(Job.ReadDown(-1), old(databaseDrv.Remote()), old(isGracefulStop || gracefulStop), error)
    {
      if !migrationMode {
        return Some(NoMigrationMode);
      }
      error := LockAndFinishUnlessDirty(Job.ReadDown(-1));
    }

    /** GotoVersion looks for a dirty database before it takes the lock. The current version is the greatest recorded
        one, -1 for none. */
    method GotoVersion(target: int) returns (error: Option<Error>)
      requires Valid()
      modifies this`gracefulStop, this`isGracefulStop, this`printed, this`isLocked
      modifies databaseDrv`store, databaseDrv`log, databaseDrv`isLocked
      ensures !migrationMode ==> error == Some(NoMigrationMode) && unchanged(this`isLocked, databaseDrv)
      ensures migrationMode ==>
                var scanned := databaseDrv.scanned;
                if scanned.Keys != {} && scanned[MaxOf(scanned.Keys)] then
                  error == Some(Dirty(MaxOf(scanned.Keys))) && unchanged(this`isLocked, databaseDrv)
                else if old(isLocked || databaseDrv.isLocked) then
                  error == Some(Locked) && unchanged(this`isLocked, databaseDrv)
                else
                  var current := if scanned.Keys == {} then -1 else MaxOf(scanned.Keys);
                  Done(if current <= target then ReadUpTo(target) else ReadDownTo(current, target),
                       old(databaseDrv.Remote()), old(isGracefulStop || gracefulStop), error)
    {
      if !migrationMode {
        return Some(NoMigrationMode);
      }
      var current, dirty := databaseDrv.Version();
      if dirty {
        return Some(Dirty(current));
      }
      error := LockAndFinish(if current <= target then ReadUpTo(target) else ReadDownTo(current, target));
    }

    /** Migrate: one version, up or down. */
    method MigrateOne(version: nat, direction: string) returns (error: Option<Error>)
      requires Valid()
      modifies this`gracefulStop, this`isGracefulStop, this`printed, this`isLocked
      modifies databaseDrv`store, databaseDrv`log, databaseDrv`isLocked
      ensures !migrationMode ==> error == Some(NoMigrationMode) && unchanged(this`isLocked, databaseDrv)
      ensures migrationMode && old(isLocked || databaseDrv.isLocked) ==>
                error == Some(Locked) && unchanged(this`isLocked, databaseDrv)
      ensures migrationMode && !old(isLocked || databaseDrv.isLocked) ==>
                Done(ReadOne(version, direction == "up"), old(databaseDrv.Remote()),
                     old(isGracefulStop || gracefulStop), error)
    {
      if !migrationMode {
        return Some(NoMigrationMode);
      }
      error := LockAndFinish(ReadOne(version, direction == "up"));
    }

    /** Forgets versions, executing nothing. */
    method RemoveVersions(versions: seq<nat>) returns (error: Option<Error>)
      modifies this`isLocked, databaseDrv`isLocked, databaseDrv`store
      ensures !migrationMode ==> error == Some(NoMigrationMode) && unchanged(this`isLocked, databaseDrv)
      ensures migrationMode && old(isLocked || databaseDrv.isLocked) ==>
                error == Some(Locked) && unchanged(this`isLocked, databaseDrv)
      ensures migrationMode && !old(isLocked || databaseDrv.isLocked) ==>
                error == None && !isLocked && !databaseDrv.isLocked &&
                databaseDrv.store == old(databaseDrv.store) - Elems(versions)
    {
      if !migrationMode {
        return Some(NoMigrationMode);
      }
      var ok := Lock();
      if !ok {
        return Some(Locked);
      }
      for i := 0 to |versions|
        invariant databaseDrv.store == old(databaseDrv.store) - Elems(versions[..i])
      {
        ConcatElems(versions[..i], [versions[i]]);
        assert versions[..i + 1] == versions[..i] + [versions[i]];
        databaseDrv.RemoveVersion(versions[i]);
      }
      assert versions[..|versions|] == versions;
      Unlock();
      return None;
    }
  }

  /***** What a command has done *****/

  /** A command that has run: the lock is free again; a stop that was pending leaves the server alone, and so does a dry
      run, which returns the first error of its reader and otherwise prints; any other run is the run of the plan. */
  lemma DoneMeans(m: Migrate, job: Job, before: Server, stopping: bool, error: Option<Error>)
    requires m.Done(job, before, stopping, error)
    ensures !m.isLocked && !m.databaseDrv.isLocked
    ensures stopping || m.dryRun ==> m.databaseDrv.store == before.store && m.databaseDrv.log == before.log
    ensures stopping ==> error == None
    ensures var plan := Plan(m.files, m.databaseDrv.scanned.Keys, job, Start);
            && (m.dryRun && !stopping ==> error == FirstError(plan) && (error == None ==> m.printed == Listed(plan, 0)))
            && (!m.dryRun && !stopping ==>
                  Outcome(Server(m.databaseDrv.store, m.databaseDrv.log), error) ==
                  RunAll(m.databaseDrv.accepts, m.skipExecution, plan, before))
  {
  }

  /** The command found the server as it was scanned, on a server that accepts everything. */
  ghost predicate Plainly(m: Migrate, job: Job, before: Server, error: Option<Error>)
    reads m, m.databaseDrv, m.databaseDrv.migrations, m.sourceDrv
  {
    && m.DriversValid() && m.Done(job, before, false, error) && !m.dryRun
    && Willing(m.databaseDrv.accepts, m.skipExecution) && m.databaseDrv.scanned == before.store
  }

  /** Up records everything that is pending if all of it has up SQL, not dirty, and leaves the other flags alone. */
  lemma UpRecordsAll(m: Migrate, before: Server, error: Option<Error>)
    requires Plainly(m, Job.ReadUp(-1), before, error)
    requires m.files.Versions() - before.store.Keys <= m.files.up.Keys
    ensures error == None || error == Some(NoChange)
    ensures m.databaseDrv.store.Keys == before.store.Keys + m.files.Versions()
    ensures forall v :: v in m.databaseDrv.store ==>
                          m.databaseDrv.store[v] == (v in before.store && before.store[v])
  {
    UpTakesAll(m.databaseDrv.accepts, m.skipExecution, m.files, before);
  }

  lemma UpTakesAll(accepts: Verdict, skip: bool, src: Source, srv: Server)
    requires Willing(accepts, skip) && Fits(src.Versions()) && src.Versions() - srv.store.Keys <= src.up.Keys
    ensures var missing := src.Versions() - srv.store.Keys;
            var o := RunJob(accepts, skip, src, Job.ReadUp(-1), srv);
            o.server.store == Noted(srv.store, missing) && (o.error == None || o.error == Some(NoChange))
  {
    var missing := src.Versions() - srv.store.Keys;
    StepsUp(accepts, skip, src, -1, srv);
    WholeWalk(src, missing);
  }

  lemma WholeWalk(src: Source, missing: set<nat>)
    requires missing <= src.up.Keys
    ensures var vs := SortAsc(missing);
            vs[..|vs|] == vs && UpReach(src, vs) == |vs| && Elems(vs) * src.up.Keys == missing
  {
    SortAscEnumerates(missing);
    FullUpReach(src, SortAsc(missing));
    assert SortAsc(missing)[..|SortAsc(missing)|] == SortAsc(missing);
  }

  /** Down forgets everything if all of it has down SQL. */
  lemma DownForgetsAll(m: Migrate, before: Server, error: Option<Error>)
    requires Plainly(m, Job.ReadDown(-1), before, error)
    requires before.store.Keys <= m.files.down.Keys
    ensures error == None || error == Some(NoChange)
    ensures m.databaseDrv.store == map[]
  {
    DownTakesAll(m.databaseDrv.accepts, m.skipExecution, m.files, before);
  }

  lemma DownTakesAll(accepts: Verdict, skip: bool, src: Source, srv: Server)
    requires Willing(accepts, skip) && Fits(srv.store.Keys) && srv.store.Keys <= src.down.Keys
    ensures var o := RunJob(accepts, skip, src, Job.ReadDown(-1), srv);
            o.server.store == map[] && (o.error == None || o.error == Some(NoChange))
  {
    StepsDown(accepts, skip, src, -1, srv);
    WholeWalkDown(src, srv.store.Keys);
    assert srv.store - srv.store.Keys == map[];
  }

  lemma WholeWalkDown(src: Source, recorded: set<nat>)
    requires recorded <= src.down.Keys
    ensures var vs := SortDesc(recorded);
            vs[..|vs|] == vs && DownReach(src, vs) == |vs| && Elems(vs) * src.down.Keys == recorded
  {
    SortDescEnumerates(recorded);
    FullDownReach(src, SortDesc(recorded));
    assert SortDesc(recorded)[..|SortDesc(recorded)|] == SortDesc(recorded);
  }

  /** Steps(n) records exactly the n least pending versions if they have up SQL. */
  lemma StepsRecordLeast(m: Migrate, n: int, before: Server, error: Option<Error>)
    requires n > 0 && Plainly(m, Job.ReadUp(n), before, error)
    requires var missing := m.files.Versions() - before.store.Keys;
             n <= |missing| && Least(missing, n) <= m.files.up.Keys
    ensures error == None
    ensures m.databaseDrv.store.Keys == before.store.Keys + Least(m.files.Versions() - before.store.Keys, n)
  {
    StepsUpTakesLeast(m.databaseDrv.accepts, m.skipExecution, m.files, n, before);
  }

  /** Steps(-n) forgets exactly the n greatest recorded versions if they have down SQL. */
  lemma StepsForgetGreatest(m: Migrate, n: int, before: Server, error: Option<Error>)
    requires n > 0 && Plainly(m, Job.ReadDown(n), before, error)
    requires n <= |before.store.Keys| && Greatest(before.store.Keys, n) <= m.files.down.Keys
    ensures error == None
    ensures m.databaseDrv.store.Keys == before.store.Keys - Greatest(before.store.Keys, n)
  {
    StepsDownTakesGreatest(m.databaseDrv.accepts, m.skipExecution, m.files, n, before);
  }
}
