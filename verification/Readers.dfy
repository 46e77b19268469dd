/** The reader goroutines of the migration engine, one loop iteration at a time.

    A reader walks the source versions upwards or the applied versions downwards and emits migrations and errors.
    `Iterate` is one iteration of the loop; it looks at the applied set through `view`, which another process may be
    changing. `Plan` says in closed form which messages are still to come when the applied set stays as it was. */
module Readers {
  import opened Ordering

  const TWO_TO_THE_63 := 0x8000_0000_0000_0000
  const TWO_TO_THE_64 := 0x1_0000_0000_0000_0000

  /** The conversion int64(v) of an unsigned 64-bit version. */
  function Int64(v: nat): int {
    if v < TWO_TO_THE_63 then v else v - TWO_TO_THE_64
  }

  /** The conversion uint64(n) of a signed 64-bit number. */
  function Uint64(n: int): int {
    if n >= 0 then n else n + TWO_TO_THE_64
  }

  predicate Fits(s: set<nat>) {
    forall v :: v in s ==> v < TWO_TO_THE_63
  }

  /** The migration files of a project: contents of the up and down SQL files, and which versions have yaml files. */
  datatype Source = Source(up: map<nat, string>, down: map<nat, string>, metaUp: set<nat>, metaDown: set<nat>) {
    function Versions(): set<nat> {
      up.Keys + down.Keys + metaUp + metaDown
    }

    predicate UpExists(v: nat) {
      v in up || v in metaUp
    }

    predicate DownExists(v: nat) {
      v in down || v in metaDown
    }
  }

  datatype Error =
    | NoChange
    | ShortLimit(short: nat)
    | UpMissing(version: nat)
    | DownMissing(version: nat)
    | NoFirst
    | NoNext(version: nat)
    | NoPrev(version: nat)
    | NotOnDatabase(version: nat)
    | AlreadyApplied
    | NotApplied
    | SqlFailed(version: nat)
    | StoreFailed(version: nat)
    | Dirty(current: int)
    | Locked
    | NoMigrationMode

  /** What travels from reader to runner. A migration without SQL of its direction has no body. */
  datatype Message =
    | Migration(version: nat, target: int, body: Option<string>)
    | Failed(error: Error)

  datatype Job =
    | ReadUp(limit: int)
    | ReadDown(limit: int)
    | ReadUpTo(to: int)
    | ReadDownTo(start: int, to: int)
    | ReadOne(version: nat, up: bool)
  {
    predicate Upward() {
      ReadUp? || ReadUpTo? || (ReadOne? && up)
    }
  }

  /** Where a reader stands. `from` is the version it handled last (going up) or handles next (going down). */
  datatype Reader = Start | Walk(from: int, count: nat) | Finished | Panicked {
    predicate Active() {
      Start? || Walk?
    }
  }

  datatype Iteration = Iteration(out: seq<Message>, next: Reader)

  function Lookup(files: map<nat, string>, v: nat): Option<string> {
    if v in files then Some(files[v]) else None
  }

  function NewMigration(src: Source, version: nat, target: int): Message {
    Migration(version, target, Lookup(if target >= Int64(version) then src.up else src.down, version))
  }

  function Stop(error: Error): Iteration {
    Iteration([Failed(error)], Finished)
  }

  /** Version v is next on the way up: skip it when applied, otherwise send it. */
  function Visit(src: Source, view: set<nat>, v: nat, count: nat): Iteration {
    if v in view then Iteration([], Walk(Int64(v), count))
    else if !src.UpExists(v) then Stop(UpMissing(v))
    else Iteration([NewMigration(src, v, Int64(v))], Walk(Int64(v), count + 1))
  }

  function LastOrNil(view: set<nat>): int {
    if view == {} then -1 else Int64(MaxOf(view))
  }

  function IterateUp(src: Source, status: set<nat>, limit: int, st: Reader, view: set<nat>): Iteration
    requires st.Active()
  {
    var versions := src.Versions();
    if st.Start? then
      if limit == 0 || (limit == -1 && versions - status == {}) then Stop(NoChange)
      else Iteration([], Walk(-1, 0))
    else if limit != -1 && st.count >= limit then Iteration([], Finished)
    else if st.from == -1 then
      if versions == {} then Stop(NoFirst) else Visit(src, view, MinOf(versions), st.count)
    else if st.from < 0 then Iteration([], Panicked)
    else
      var next := if st.from in versions then NextIn(versions, st.from) else None;
      if next.None? then
        if st.count == 0 then Stop(NoChange)
        else if limit == -1 then Iteration([], Finished)
        else Stop(ShortLimit(limit - st.count))
      else Visit(src, view, next.value, st.count)
  }

  function IterateUpTo(src: Source, status: set<nat>, to: int, st: Reader, view: set<nat>): Iteration
    requires st.Active()
  {
    var versions := src.Versions();
    if st.Start? then
      if to == -1 || UpTo(versions - status, Uint64(to)) == {} then Stop(NoChange)
      else Iteration([], Walk(-1, 0))
    else if st.from == to then Iteration([], Finished)
    else if st.from == -1 then
      if versions == {} then Stop(NoFirst) else Visit(src, view, MinOf(versions), st.count)
    else if st.from < 0 then Iteration([], Panicked)
    else
      var next := if st.from in versions then NextIn(versions, st.from) else None;
      if next.None? then Stop(NoNext(st.from)) else Visit(src, view, next.value, st.count)
  }

  function IterateDown(src: Source, limit: int, st: Reader, view: set<nat>): Iteration
    requires st.Active()
  {
    if st.Start? then
      var from := LastOrNil(view);
      if limit == 0 || (from == -1 && limit >= -1) then Stop(NoChange)
      else Iteration([], Walk(from, 0))
    else if limit != -1 && st.count >= limit then Iteration([], Finished)
    else if st.from < 0 then Iteration([], Panicked)
    else if !src.DownExists(st.from) then Stop(DownMissing(st.from))
    else
      var prev := if st.from in view then PrevIn(view, st.from) else None;
      if prev.None? then
        var last := [NewMigration(src, st.from, -1)];
        Iteration(if st.count + 1 < limit then last + [Failed(ShortLimit(limit - st.count - 1))] else last, Finished)
      else Iteration([NewMigration(src, st.from, Int64(prev.value))], Walk(Int64(prev.value), st.count + 1))
  }

  function IterateDownTo(src: Source, status: set<nat>, start: int, to: int, st: Reader, view: set<nat>): Iteration
    requires st.Active()
  {
    var versions := src.Versions();
    if st.Start? then
      if start == -1 || (set v | v in versions * status && v <= Uint64(start) && (to < 0 || v > to)) == {} then
        Stop(NoChange)
      else Iteration([], Walk(start, 0))
    else if st.from == to then Iteration([], Finished)
    else if st.from < 0 then Iteration([], Panicked)
    else if !src.DownExists(st.from) then Stop(DownMissing(st.from))
    else
      var prev := if st.from in view then PrevIn(view, st.from) else None;
      if prev.None? then
        var before := if st.from in versions then PrevIn(versions, st.from) else None;
        if before.None? && to == -1 then Iteration([NewMigration(src, st.from, -1)], Walk(-1, st.count + 1))
        else if before.None? then Stop(NoPrev(st.from))
        else Stop(NotOnDatabase(before.value))
      else Iteration([NewMigration(src, st.from, Int64(prev.value))], Walk(Int64(prev.value), st.count + 1))
  }

  function IterateOne(src: Source, version: nat, up: bool, view: set<nat>): Iteration {
    if up then
      if version in view then Stop(AlreadyApplied)
      else if !src.UpExists(version) then Stop(UpMissing(version))
      else Iteration([NewMigration(src, version, Int64(version))], Finished)
    else
      if version !in view then Stop(NotApplied)
      else if !src.DownExists(version) then Stop(DownMissing(version))
      else
        var prev := if version in src.Versions() then PrevIn(src.Versions(), version) else None;
        Iteration([NewMigration(src, version, if prev.None? then -1 else Int64(prev.value))], Finished)
  }

  /** One iteration of a reader. `status` is the applied set as the status index recorded it at the last scan. */
  function Iterate(src: Source, status: set<nat>, job: Job, st: Reader, view: set<nat>): Iteration
    requires st.Active()
  {
    match job
    case ReadUp(limit) => IterateUp(src, status, limit, st, view)
    case ReadDown(limit) => IterateDown(src, limit, st, view)
    case ReadUpTo(to) => IterateUpTo(src, status, to, st, view)
    case ReadDownTo(start, to) => IterateDownTo(src, status, start, to, st, view)
    case ReadOne(version, up) => IterateOne(src, version, up, view)
  }

  /***** The messages of a whole walk, in closed form *****/

  /** The up migrations of vs in order, cut short by the first version without an up file; then the tail. */
  function Ups(src: Source, vs: seq<nat>, tail: seq<Message>): seq<Message> {
    if vs == [] then tail
    else if !src.UpExists(vs[0]) then [Failed(UpMissing(vs[0]))]
    else [NewMigration(src, vs[0], vs[0])] + Ups(src, vs[1..], tail)
  }

  /** The recorded version after rolling back v: the applied version below it, or the nil version. */
  function TargetBelow(applied: set<nat>, v: nat): int {
    var prev := PrevIn(applied, v);
    if prev.None? then -1 else prev.value
  }

  function Downs(src: Source, applied: set<nat>, vs: seq<nat>, tail: seq<Message>): seq<Message> {
    if vs == [] then tail
    else if !src.DownExists(vs[0]) then [Failed(DownMissing(vs[0]))]
    else [NewMigration(src, vs[0], TargetBelow(applied, vs[0]))] + Downs(src, applied, vs[1..], tail)
  }

  /** The missing versions up to the limit; too few of them is an error at the end. */
  function LimitedUps(src: Source, missing: seq<nat>, limit: int, count: nat): seq<Message> {
    if limit == -1 then Ups(src, missing, if count + |missing| == 0 then [Failed(NoChange)] else [])
    else if count >= limit then []
    else if count + |missing| >= limit then Ups(src, missing[..limit - count], [])
    else
      var short := if count + |missing| == 0 then NoChange else ShortLimit(limit - count - |missing|);
      Ups(src, missing, [Failed(short)])
  }

  function PlanUp(src: Source, applied: set<nat>, limit: int, from: int, count: nat): seq<Message> {
    if limit != -1 && count >= limit then []
    else if from == -1 && src.Versions() == {} then [Failed(NoFirst)]
    else LimitedUps(src, SortAsc(Above(src.Versions() - applied, from)), limit, count)
  }

  function PlanUpTo(src: Source, applied: set<nat>, to: int, from: int): seq<Message> {
    var versions := src.Versions();
    if from == to then []
    else if from == -1 && versions == {} then [Failed(NoFirst)]
    else if to in versions && to > from then Ups(src, SortAsc(Above(UpTo(versions - applied, to), from)), [])
    else Ups(src, SortAsc(Above(versions - applied, from)),
             [Failed(NoNext(if versions == {} then 0 else MaxOf(versions)))])
  }

  function LimitedDowns(src: Source, applied: set<nat>, left: seq<nat>, limit: int, count: nat): seq<Message> {
    if limit == -1 then Downs(src, applied, left, [])
    else if count >= limit then []
    else if count + |left| >= limit then Downs(src, applied, left[..limit - count], [])
    else Downs(src, applied, left, [Failed(ShortLimit(limit - count - |left|))])
  }

  function PlanDown(src: Source, applied: set<nat>, limit: int, from: int, count: nat): seq<Message> {
    LimitedDowns(src, applied, SortDesc(UpTo(applied, from)), limit, count)
  }

  /** What happens at the lowest applied version on the way down to a target that is not applied. */
  function Bottom(src: Source, applied: set<nat>, to: int, low: nat): seq<Message> {
    var before := PrevIn(src.Versions(), low);
    if !src.DownExists(low) then [Failed(DownMissing(low))]
    else if before.Some? then [Failed(NotOnDatabase(before.value))]
    else if to == -1 then [NewMigration(src, low, -1)]
    else [Failed(NoPrev(low))]
  }

  function PlanDownTo(src: Source, applied: set<nat>, to: int, from: int): seq<Message> {
    if from == to || applied == {} then []
    else if to in applied && to < from then Downs(src, applied, SortDesc(Above(UpTo(applied, from), to)), [])
    else
      var low := MinOf(applied);
      Downs(src, applied, SortDesc(UpTo(applied - {low}, from)), Bottom(src, applied, to, low))
  }

  /** All messages a reader in state st will still send when the applied set is and stays `applied`. */
  function Plan(src: Source, applied: set<nat>, job: Job, st: Reader): seq<Message> {
    match st
    case Start =>
      var first := Iterate(src, applied, job, st, applied);
      first.out + (if first.next.Walk? then WalkPlan(src, applied, job, first.next) else [])
    case Walk(_, _) => WalkPlan(src, applied, job, st)
    case _ => []
  }

  function WalkPlan(src: Source, applied: set<nat>, job: Job, st: Reader): seq<Message>
    requires st.Walk?
  {
    match job
    case ReadUp(limit) => PlanUp(src, applied, limit, st.from, st.count)
    case ReadDown(limit) => PlanDown(src, applied, limit, st.from, st.count)
    case ReadUpTo(to) => PlanUpTo(src, applied, to, st.from)
    case ReadDownTo(_, to) => PlanDownTo(src, applied, to, st.from)
    case ReadOne(_, _) => []
  }

  /***** One iteration against a changing view *****/

  ghost predicate ValidJob(applied: set<nat>, job: Job) {
    match job
    case ReadDownTo(start, to) => (start == -1 || start in applied) && start > to
    case _ => true
  }

  ghost predicate ValidReader(src: Source, applied: set<nat>, job: Job, st: Reader) {
    match st
    case Start => ValidJob(applied, job)
    case Finished => true
    case Panicked => false
    case Walk(from, count) =>
      match job
      case ReadUp(_) => from == -1 || from in src.Versions()
      case ReadUpTo(to) => (from == -1 || from in src.Versions()) && to != -1
      case ReadDown(limit) => from in applied || limit < -1
      case ReadDownTo(_, to) => from in applied || (from == -1 == to)
      case ReadOne(_, _) => false
  }

  /** The versions whose recorded state the reader may still ask for: those it has not sent. */
  ghost predicate Untouched(job: Job, st: Reader, v: nat) {
    match st
    case Start => true
    case Walk(from, _) => if job.Upward() then v > from else v <= from
    case _ => false
  }

  ghost function Rank(src: Source, applied: set<nat>, job: Job, st: Reader): nat {
    match st
    case Start => |src.Versions()| + |applied| + 2
    case Walk(from, _) => 1 + (if job.Upward() then |Above(src.Versions(), from)| else |UpTo(applied, from)|)
    case _ => 0
  }

  /** The law every iteration obeys: what it sends followed by the plan of its successor is its own plan, no version
      it has not sent is forgotten, and it makes progress. */
  ghost predicate GoodIteration(src: Source, applied: set<nat>, job: Job, st: Reader, it: Iteration) {
    && Plan(src, applied, job, st) == it.out + Plan(src, applied, job, it.next)
    && ValidReader(src, applied, job, it.next)
    && Rank(src, applied, job, it.next) < Rank(src, applied, job, st)
    && (forall v :: Untouched(job, it.next, v) ==> Untouched(job, st, v))
    && (forall m :: m in it.out && m.Migration? ==>
          Untouched(job, st, m.version) && !Untouched(job, it.next, m.version))
  }

  /** Next and Prev answer as if nothing had been changed since the reader started. */
  ghost predicate Agrees(job: Job, st: Reader, view: set<nat>, applied: set<nat>) {
    forall v :: Untouched(job, st, v) ==> (v in view <==> v in applied)
  }

  lemma PeelAsc(s: set<nat>, from: int, next: nat)
    requires next > from && next in s && forall x :: x in s && x > from ==> x >= next
    ensures SortAsc(Above(s, from)) == [next] + SortAsc(Above(s, next))
  {
    assert IsMin(next, Above(s, from));
    assert Above(s, from) - {next} == Above(s, next);
  }

  lemma SkipAsc(s: set<nat>, from: int, next: nat)
    requires next > from && next !in s && forall x :: x in s && x > from ==> x >= next
    ensures Above(s, from) == Above(s, next)
  {
  }

  lemma PeelDesc(s: set<nat>, from: nat)
    requires from in s
    ensures SortDesc(UpTo(s, from)) == [from] + SortDesc(UpTo(s, from - 1))
  {
    assert IsMax(from, UpTo(s, from));
    assert UpTo(s, from) - {from} == UpTo(s, from - 1);
  }

  lemma SmallerAbove(s: set<nat>, from: int, next: nat)
    requires next > from && next in s
    ensures |Above(s, next)| < |Above(s, from)|
  {
    assert next in Above(s, from) && next !in Above(s, next);
    SetSmaller(Above(s, next), Above(s, from));
  }

  lemma SmallerUpTo(s: set<nat>, from: nat, prev: int)
    requires prev < from && from in s
    ensures |UpTo(s, prev)| < |UpTo(s, from)|
  {
    assert from in UpTo(s, from) && from !in UpTo(s, prev);
    SetSmaller(UpTo(s, prev), UpTo(s, from));
  }

  lemma {:induction false} SetSmaller(a: set<nat>, b: set<nat>)
    requires a < b
    ensures |a| < |b|
    decreases b
  {
    if a == {} {
    } else {
      var x :| x in a;
      var y :| y in b && y !in a;
      assert y in b - {x} && y !in a - {x};
      SetSmaller(a - {x}, b - {x});
    }
  }

  lemma SetAtMost(a: set<nat>, b: set<nat>)
    requires a <= b
    ensures |a| <= |b|
  {
    if a != b { SetSmaller(a, b); }
  }

  lemma StartRank(src: Source, applied: set<nat>, job: Job, from: int, count: nat)
    ensures Rank(src, applied, job, Walk(from, count)) < Rank(src, applied, job, Start)
  {
    SetAtMost(Above(src.Versions(), from), src.Versions());
    SetAtMost(UpTo(applied, from), applied);
  }

  lemma StartIteration(src: Source, applied: set<nat>, job: Job)
    requires ValidJob(applied, job)
    requires Fits(applied)
    ensures GoodIteration(src, applied, job, Start, Iterate(src, applied, job, Start, applied))
  {
    var it := Iterate(src, applied, job, Start, applied);
    StartShape(src, applied, job);
    if it.next.Walk? {
      StartRank(src, applied, job, it.next.from, it.next.count);
    }
  }

  /** The part before the loop leads into the loop or sends one message and ends. */
  lemma StartShape(src: Source, applied: set<nat>, job: Job)
    requires ValidJob(applied, job) && Fits(applied)
    ensures var it := Iterate(src, applied, job, Start, applied);
            && (it.next.Walk? ==> it.out == [])
            && (it.next.Walk? || it.next.Finished?)
            && ValidReader(src, applied, job, it.next)
  {
  }

  /** Stepping to the next source version, applied or not. */
  lemma NextMissing(versions: set<nat>, applied: set<nat>, from: int, next: nat)
    requires next > from && next in versions && forall x :: x in versions && x > from ==> x >= next
    ensures var here, there := Above(versions - applied, from), Above(versions - applied, next);
            SortAsc(here) == if next in applied then SortAsc(there) else [next] + SortAsc(there)
  {
    if next in applied {
      SkipAsc(versions - applied, from, next);
    } else {
      PeelAsc(versions - applied, from, next);
    }
  }

  lemma LimitedUpsPeel(src: Source, next: nat, rest: seq<nat>, limit: int, count: nat)
    requires limit == -1 || count < limit
    ensures LimitedUps(src, [next] + rest, limit, count) ==
            if !src.UpExists(next) then [Failed(UpMissing(next))]
            else [NewMigration(src, next, next)] + LimitedUps(src, rest, limit, count + 1)
  {
    var all := [next] + rest;
    assert all[1..] == rest;
    if limit != -1 && count + |all| >= limit {
      assert all[..limit - count][1..] == rest[..limit - count - 1];
    }
  }

  lemma UpVisit(src: Source, applied: set<nat>, limit: int, from: int, count: nat, next: nat)
    requires next > from && next in src.Versions() && forall x :: x in src.Versions() && x > from ==> x >= next
    requires limit == -1 || count < limit
    ensures PlanUp(src, applied, limit, from, count) ==
            if next in applied then PlanUp(src, applied, limit, next, count)
            else if !src.UpExists(next) then [Failed(UpMissing(next))]
            else [NewMigration(src, next, next)] + PlanUp(src, applied, limit, next, count + 1)
  {
    NextMissing(src.Versions(), applied, from, next);
    if next !in applied {
      LimitedUpsPeel(src, next, SortAsc(Above(src.Versions() - applied, next)), limit, count);
    }
  }

  /** Where the walk goes next: the first version when it has not started, the successor otherwise. */
  lemma FirstIsNext(versions: set<nat>)
    requires versions != {}
    ensures NextIn(versions, -1) == Some(MinOf(versions))
  {
    assert Above(versions, -1) == versions;
  }

  lemma UpWalkOn(src: Source, applied: set<nat>, limit: int, from: int, count: nat, view: set<nat>, next: nat)
    requires Fits(src.Versions()) && (from == -1 || from in src.Versions()) && (limit == -1 || count < limit)
    requires next in src.Versions() && next > from && forall x :: x in src.Versions() && x > from ==> x >= next
    requires NextIn(src.Versions(), from) == Some(next) && Agrees(ReadUp(limit), Walk(from, count), view, applied)
    ensures GoodIteration(src, applied, ReadUp(limit), Walk(from, count),
                          IterateUp(src, applied, limit, Walk(from, count), view))
  {
    if from == -1 { FirstIsNext(src.Versions()); }
    assert IterateUp(src, applied, limit, Walk(from, count), view) == Visit(src, view, next, count);
    UpVisit(src, applied, limit, from, count, next);
    SmallerAbove(src.Versions(), from, next);
  }

  lemma UpWalk(src: Source, applied: set<nat>, limit: int, st: Reader, view: set<nat>)
    requires Fits(src.Versions())
    requires st.Walk? && ValidReader(src, applied, ReadUp(limit), st)
    requires Agrees(ReadUp(limit), st, view, applied)
    ensures GoodIteration(src, applied, ReadUp(limit), st, IterateUp(src, applied, limit, st, view))
  {
    var next := NextIn(src.Versions(), st.from);
    if (limit == -1 || st.count < limit) && next.Some? {
      UpWalkOn(src, applied, limit, st.from, st.count, view, next.value);
    } else if next.None? {
      UpWalkEnd(src, applied, limit, st.from, st.count, view);
    }
  }

  lemma UpWalkEnd(src: Source, applied: set<nat>, limit: int, from: int, count: nat, view: set<nat>)
    requires Fits(src.Versions()) && (from == -1 || from in src.Versions()) && NextIn(src.Versions(), from).None?
    ensures GoodIteration(src, applied, ReadUp(limit), Walk(from, count),
                          IterateUp(src, applied, limit, Walk(from, count), view))
  {
    UpPlanEnd(src, applied, limit, from, count);
    Ends(src, applied, ReadUp(limit), Walk(from, count), IterateUp(src, applied, limit, Walk(from, count), view));
  }

  /** A last iteration that sends all that is left to send, if that is no migration. */
  lemma Ends(src: Source, applied: set<nat>, job: Job, st: Reader, it: Iteration)
    requires st.Walk? && it.next.Finished? && it.out == WalkPlan(src, applied, job, st)
    requires forall m :: m in it.out ==> m.Failed?
    ensures GoodIteration(src, applied, job, st, it)
  {
    assert it.out + [] == it.out;
  }

  lemma UpPlanEnd(src: Source, applied: set<nat>, limit: int, from: int, count: nat)
    requires (from == -1 || from in src.Versions()) && NextIn(src.Versions(), from).None?
    ensures from == -1 ==> src.Versions() == {}
    ensures PlanUp(src, applied, limit, from, count) ==
            if limit != -1 && count >= limit then []
            else if from == -1 then [Failed(NoFirst)]
            else if count == 0 then [Failed(NoChange)]
            else if limit == -1 then []
            else [Failed(ShortLimit(limit - count))]
  {
    assert Above(src.Versions() - applied, from) == {};
    assert from == -1 ==> Above(src.Versions(), from) == src.Versions();
  }

  lemma UpToVisit(src: Source, applied: set<nat>, to: int, from: int, next: nat)
    requires next > from && next in src.Versions() && forall x :: x in src.Versions() && x > from ==> x >= next
    requires from != to && to != -1
    ensures PlanUpTo(src, applied, to, from) ==
            if next in applied then PlanUpTo(src, applied, to, next)
            else if !src.UpExists(next) then [Failed(UpMissing(next))]
            else [NewMigration(src, next, next)] + PlanUpTo(src, applied, to, next)
  {
    var versions := src.Versions();
    if to in versions && to > from {
      assert next <= to;
      var missing := UpTo(versions - applied, to);
      if next in applied {
        SkipAsc(missing, from, next);
      } else {
        PeelAsc(missing, from, next);
        var rest := SortAsc(Above(missing, next));
        assert ([next] + rest)[1..] == rest;
      }
      if next == to {
        assert Above(missing, next) == {};
        assert Ups(src, SortAsc(Above(missing, next)), []) == [];
      }
    } else {
      NextMissing(versions, applied, from, next);
    }
  }

  lemma UpToWalkOn(src: Source, applied: set<nat>, to: int, from: int, count: nat, view: set<nat>, next: nat)
    requires Fits(src.Versions()) && (from == -1 || from in src.Versions()) && from != to && to != -1
    requires next in src.Versions() && next > from && forall x :: x in src.Versions() && x > from ==> x >= next
    requires NextIn(src.Versions(), from) == Some(next) && Agrees(ReadUpTo(to), Walk(from, count), view, applied)
    ensures GoodIteration(src, applied, ReadUpTo(to), Walk(from, count),
                          IterateUpTo(src, applied, to, Walk(from, count), view))
  {
    if from == -1 { FirstIsNext(src.Versions()); }
    assert IterateUpTo(src, applied, to, Walk(from, count), view) == Visit(src, view, next, count);
    UpToVisit(src, applied, to, from, next);
    SmallerAbove(src.Versions(), from, next);
  }

  lemma UpToWalk(src: Source, applied: set<nat>, to: int, st: Reader, view: set<nat>)
    requires Fits(src.Versions())
    requires st.Walk? && ValidReader(src, applied, ReadUpTo(to), st)
    requires Agrees(ReadUpTo(to), st, view, applied)
    ensures GoodIteration(src, applied, ReadUpTo(to), st, IterateUpTo(src, applied, to, st, view))
  {
    var versions := src.Versions();
    var next := NextIn(versions, st.from);
    if st.from != to && next.Some? {
      UpToWalkOn(src, applied, to, st.from, st.count, view, next.value);
    } else if st.from != to {
      UpToWalkEnd(src, applied, to, st.from, st.count, view);
    }
  }

  lemma UpToWalkEnd(src: Source, applied: set<nat>, to: int, from: int, count: nat, view: set<nat>)
    requires Fits(src.Versions()) && (from == -1 || from in src.Versions()) && NextIn(src.Versions(), from).None?
    requires from != to && to != -1
    ensures GoodIteration(src, applied, ReadUpTo(to), Walk(from, count),
                          IterateUpTo(src, applied, to, Walk(from, count), view))
  {
    UpToPlanEnd(src, applied, to, from);
    Ends(src, applied, ReadUpTo(to), Walk(from, count), IterateUpTo(src, applied, to, Walk(from, count), view));
  }

  lemma UpToPlanEnd(src: Source, applied: set<nat>, to: int, from: int)
    requires (from == -1 || from in src.Versions()) && NextIn(src.Versions(), from).None? && from != to
    ensures from == -1 ==> src.Versions() == {}
    ensures PlanUpTo(src, applied, to, from) == [Failed(if from == -1 then NoFirst else NoNext(from))]
  {
    var versions := src.Versions();
    forall y | y in versions ensures y <= from {
      assert y !in Above(versions, from);
    }
    assert Above(versions - applied, from) == {};
    assert from == -1 ==> Above(versions, from) == versions;
    assert from != -1 ==> MaxOf(versions) == from;
  }

  /***** Going down *****/

  lemma PrevElement(applied: set<nat>, from: nat)
    requires from in applied
    ensures var prev := PrevIn(applied, from);
            SortDesc(UpTo(applied, from)) == [from] + (if prev.None? then [] else SortDesc(UpTo(applied, prev.value)))
  {
    PeelDesc(applied, from);
    var prev := PrevIn(applied, from);
    if prev.Some? {
      assert UpTo(applied, from - 1) == UpTo(applied, prev.value);
    } else {
      assert UpTo(applied, from - 1) == {};
    }
  }

  lemma SamePrev(view: set<nat>, applied: set<nat>, from: nat)
    requires forall v :: v <= from ==> (v in view <==> v in applied)
    ensures PrevIn(view, from) == PrevIn(applied, from)
  {
    var a, b := PrevIn(view, from), PrevIn(applied, from);
    if a.Some? { assert a.value in applied; }
    if b.Some? { assert b.value in view; }
  }

  lemma DownsPeel(src: Source, applied: set<nat>, from: nat, rest: seq<nat>, limit: int, count: nat)
    requires limit == -1 || count < limit
    ensures LimitedDowns(src, applied, [from] + rest, limit, count) ==
            if !src.DownExists(from) then [Failed(DownMissing(from))]
            else [NewMigration(src, from, TargetBelow(applied, from))] +
                 LimitedDowns(src, applied, rest, limit, count + 1)
  {
    var all := [from] + rest;
    assert all[1..] == rest;
    if limit != -1 && count + |all| >= limit {
      assert all[..limit - count][1..] == rest[..limit - count - 1];
    }
  }

  lemma DownWalk(src: Source, applied: set<nat>, limit: int, st: Reader, view: set<nat>)
    requires Fits(applied)
    requires st.Walk? && ValidReader(src, applied, ReadDown(limit), st)
    requires Agrees(ReadDown(limit), st, view, applied)
    ensures GoodIteration(src, applied, ReadDown(limit), st, IterateDown(src, limit, st, view))
  {
    var from, count := st.from, st.count;
    if limit == -1 || count < limit {
      PrevElement(applied, from);
      assert forall v: nat :: v <= from ==> Untouched(ReadDown(limit), st, v);
      SamePrev(view, applied, from);
      var prev := PrevIn(applied, from);
      var rest := if prev.None? then [] else SortDesc(UpTo(applied, prev.value));
      DownsPeel(src, applied, from, rest, limit, count);
      if prev.Some? { SmallerUpTo(applied, from, prev.value); }
    }
  }

  /** Peeling the version the walk stands on off a part of the applied set. */
  lemma PeelWindow(window: set<nat>, from: nat, prev: nat)
    requires from in window && prev < from && forall x :: x in window && x < from ==> x <= prev
    ensures SortDesc(UpTo(window, from)) == [from] + SortDesc(UpTo(window, prev))
    ensures SortDesc(UpTo(window, from))[1..] == SortDesc(UpTo(window, prev))
  {
    PeelDesc(window, from);
    assert UpTo(window, from - 1) == UpTo(window, prev);
  }

  lemma DownToVisit(src: Source, applied: set<nat>, to: int, from: nat)
    requires from in applied && from != to && PrevIn(applied, from).Some?
    ensures PlanDownTo(src, applied, to, from) ==
            if !src.DownExists(from) then [Failed(DownMissing(from))]
            else [NewMigration(src, from, TargetBelow(applied, from))] +
                 PlanDownTo(src, applied, to, PrevIn(applied, from).value)
  {
    var prev := PrevIn(applied, from).value;
    if to in applied && to < from {
      PeelWindow(Above(applied, to), from, prev);
      assert Above(UpTo(applied, from), to) == UpTo(Above(applied, to), from);
      assert Above(UpTo(applied, prev), to) == UpTo(Above(applied, to), prev);
      if prev == to {
        assert UpTo(Above(applied, to), prev) == {};
        assert Downs(src, applied, SortDesc({}), []) == [];
      }
    } else {
      PeelWindow(applied - {MinOf(applied)}, from, prev);
    }
  }

  lemma DownToBottom(src: Source, applied: set<nat>, to: int, from: nat)
    requires from in applied && from != to && PrevIn(applied, from).None?
    ensures PlanDownTo(src, applied, to, from) == Bottom(src, applied, to, from)
  {
    assert from == MinOf(applied);
    assert UpTo(applied - {from}, from) == {};
  }

  lemma DownToWalk(src: Source, applied: set<nat>, start: int, to: int, st: Reader, view: set<nat>)
    requires Fits(applied)
    requires st.Walk? && ValidReader(src, applied, ReadDownTo(start, to), st)
    requires Agrees(ReadDownTo(start, to), st, view, applied)
    ensures GoodIteration(src, applied, ReadDownTo(start, to), st,
                          IterateDownTo(src, applied, start, to, st, view))
  {
    var from := st.from;
    if from != to {
      assert forall v: nat :: v <= from ==> Untouched(ReadDownTo(start, to), st, v);
      SamePrev(view, applied, from);
      var prev := PrevIn(applied, from);
      if prev.Some? {
        DownToVisit(src, applied, to, from);
        SmallerUpTo(applied, from, prev.value);
      } else {
        DownToBottom(src, applied, to, from);
        SmallerUpTo(applied, from, -1);
      }
    }
  }

  /** Whatever the runner has done to the versions already sent, one more iteration continues the plan. */
  lemma IterationLaw(src: Source, applied: set<nat>, job: Job, st: Reader, view: set<nat>)
    requires Fits(src.Versions()) && Fits(applied)
    requires st.Active() && ValidReader(src, applied, job, st)
    requires Agrees(job, st, view, applied)
    ensures GoodIteration(src, applied, job, st, Iterate(src, applied, job, st, view))
  {
    if st.Start? {
      assert view == applied;
      StartIteration(src, applied, job);
    } else {
      match job
      case ReadUp(limit) => UpWalk(src, applied, limit, st, view);
      case ReadUpTo(to) => UpToWalk(src, applied, to, st, view);
      case ReadDown(limit) => DownWalk(src, applied, limit, st, view);
      case ReadDownTo(start, to) => DownToWalk(src, applied, start, to, st, view);
    }
  }

  /** What a reader sends from state st on when the applied set does not change under it. */
  ghost function Sends(src: Source, applied: set<nat>, job: Job, st: Reader): seq<Message>
    requires Fits(src.Versions()) && Fits(applied) && ValidReader(src, applied, job, st)
    decreases Rank(src, applied, job, st)
  {
    if !st.Active() then [] else
      IterationLaw(src, applied, job, st, applied);
      var it := Iterate(src, applied, job, st, applied);
      it.out + Sends(src, applied, job, it.next)
  }

  /** The loops compute the closed form. */
  lemma {:induction false} SendsPlan(src: Source, applied: set<nat>, job: Job, st: Reader)
    requires Fits(src.Versions()) && Fits(applied) && ValidReader(src, applied, job, st)
    ensures Sends(src, applied, job, st) == Plan(src, applied, job, st)
    decreases Rank(src, applied, job, st)
  {
    if st.Active() {
      IterationLaw(src, applied, job, st, applied);
      SendsPlan(src, applied, job, Iterate(src, applied, job, st, applied).next);
    }
  }

  /** No version is sent twice. */
  ghost predicate SentOnce(ms: seq<Message>) {
    forall i, j :: 0 <= i < j < |ms| && ms[i].Migration? && ms[j].Migration? ==> ms[i].version != ms[j].version
  }

  lemma {:induction false} SendsOnce(src: Source, applied: set<nat>, job: Job, st: Reader)
    requires Fits(src.Versions()) && Fits(applied) && ValidReader(src, applied, job, st)
    ensures SentOnce(Sends(src, applied, job, st))
    ensures forall m :: m in Sends(src, applied, job, st) && m.Migration? ==> Untouched(job, st, m.version)
    decreases Rank(src, applied, job, st)
  {
    if st.Active() {
      IterationLaw(src, applied, job, st, applied);
      var it := Iterate(src, applied, job, st, applied);
      SendsOnce(src, applied, job, it.next);
      OneMigration(src, applied, job, st, applied);
      OnceMore(job, st, it, Sends(src, applied, job, it.next));
    }
  }

  /** One iteration in front of the rest: it sends at most one version, and none that comes later. */
  lemma OnceMore(job: Job, st: Reader, it: Iteration, rest: seq<Message>)
    requires |it.out| <= 2 && (|it.out| == 2 ==> it.out[1].Failed?) && SentOnce(rest)
    requires forall v :: Untouched(job, it.next, v) ==> Untouched(job, st, v)
    requires forall m :: m in it.out && m.Migration? ==>
                           Untouched(job, st, m.version) && !Untouched(job, it.next, m.version)
    requires forall m :: m in rest && m.Migration? ==> Untouched(job, it.next, m.version)
    ensures SentOnce(it.out + rest)
    ensures forall m :: m in it.out + rest && m.Migration? ==> Untouched(job, st, m.version)
  {
    SentOnceJoin(it.out, rest);
  }

  lemma OneMigration(src: Source, applied: set<nat>, job: Job, st: Reader, view: set<nat>)
    requires st.Active()
    ensures var out := Iterate(src, applied, job, st, view).out;
            |out| <= 2 && (|out| == 2 ==> out[1].Failed?)
  {
  }

  lemma SentOnceJoin(a: seq<Message>, b: seq<Message>)
    requires SentOnce(a) && SentOnce(b)
    requires forall m, n :: m in a && n in b && m.Migration? && n.Migration? ==> m.version != n.version
    ensures SentOnce(a + b)
  {
    forall i, j | 0 <= i < j < |a + b| && (a + b)[i].Migration? && (a + b)[j].Migration?
      ensures (a + b)[i].version != (a + b)[j].version
    {
      if i < |a| <= j {
        assert a[i] in a && b[j - |a|] in b;
      }
    }
  }

  /** With a version of 2^63 or more the conversions wrap around: the greatest 64-bit version turns into the sentinel
      -1 and the reader sends it again and again. */
  lemma OversizedVersionRepeats()
    ensures var big := TWO_TO_THE_64 - 1;
            var src := Source(map[big := "x"], map[], {}, {});
            var it := Iterate(src, {}, ReadUp(-1), Walk(-1, 0), {});
            it.next == Walk(-1, 1) && |it.out| == 1
  {
    var big := TWO_TO_THE_64 - 1;
    var src := Source(map[big := "x"], map[], {}, {});
    assert src.Versions() == {big};
  }

  /** One iteration of the reader of Up, when the applied set does not change under it. */
  function UpNext(src: Source, applied: set<nat>, st: Reader): Reader
    requires st.Active()
  {
    Iterate(src, applied, ReadUp(-1), st, applied).next
  }

  /** The reader of Up after k iterations. */
  function UpReader(src: Source, applied: set<nat>, k: nat): Reader {
    if k == 0 then Start
    else
      var st := UpReader(src, applied, k - 1);
      if st.Active() then UpNext(src, applied, st) else st
  }

  /** Only the applied versions of the project matter to it. */
  lemma UpSeesProject(src: Source, applied: set<nat>, st: Reader)
    requires st.Active()
    ensures var seen := applied * src.Versions();
            Iterate(src, applied, ReadUp(-1), st, applied) == Iterate(src, seen, ReadUp(-1), st, seen)
  {
    assert src.Versions() - applied == src.Versions() - applied * src.Versions();
  }

  /** At most r iterations are left. */
  ghost predicate OnItsWay(src: Source, applied: set<nat>, st: Reader, r: nat) {
    var seen := applied * src.Versions();
    ValidReader(src, seen, ReadUp(-1), st) && Rank(src, seen, ReadUp(-1), st) <= r
  }

  lemma UpStep(src: Source, applied: set<nat>, st: Reader, r: nat)
    requires Fits(src.Versions()) && st.Active() && OnItsWay(src, applied, st, r)
    ensures r > 0 && OnItsWay(src, applied, UpNext(src, applied, st), r - 1)
  {
    var seen := applied * src.Versions();
    assert Fits(seen);
    UpSeesProject(src, applied, st);
    IterationLaw(src, seen, ReadUp(-1), st, seen);
  }

  lemma {:induction false} UpLeft(src: Source, applied: set<nat>, r: nat, k: nat)
    requires Fits(src.Versions()) && OnItsWay(src, applied, Start, r) && k <= r
    ensures OnItsWay(src, applied, UpReader(src, applied, k), r - k)
    decreases k
  {
    if k == 0 {
    } else {
      UpLeft(src, applied, r, k - 1);
      var st := UpReader(src, applied, k - 1);
      if st.Active() {
        UpStep(src, applied, st, r - k + 1);
      }
    }
  }

  /** A reader that has not got past the version `big`, or has gone wrong there. */
  predicate Caught(src: Source, big: nat, st: Reader) {
    match st
    case Start => true
    case Walk(from, _) => from < 0 || (from in src.Versions() && from < big)
    case Finished => false
    case Panicked => true
  }

  /** A version v below 2^64 that does not fit, v the least of its kind: nothing gets past it. */
  lemma StaysCaught(src: Source, applied: set<nat>, big: nat, st: Reader)
    requires big in src.Versions() && TWO_TO_THE_63 <= big < TWO_TO_THE_64
    requires forall v :: v in src.Versions() && v < big ==> v < TWO_TO_THE_63
    requires src.Versions() - applied != {} && forall v :: v in src.Versions() - applied ==> src.UpExists(v)
    requires st.Active() && Caught(src, big, st)
    ensures Caught(src, big, UpNext(src, applied, st))
  {
    if st.Walk? && st.from >= 0 {
      var next := NextIn(src.Versions(), st.from);
      assert big in Above(src.Versions(), st.from);
      assert next.Some? && next.value <= big;
    }
  }

  lemma {:induction false} NeverEnds(src: Source, applied: set<nat>, big: nat, k: nat)
    requires big in src.Versions() && TWO_TO_THE_63 <= big < TWO_TO_THE_64
    requires forall v :: v in src.Versions() && v < big ==> v < TWO_TO_THE_63
    requires src.Versions() - applied != {} && forall v :: v in src.Versions() - applied ==> src.UpExists(v)
    ensures Caught(src, big, UpReader(src, applied, k))
    decreases k
  {
    if k == 0 {
    } else {
      NeverEnds(src, applied, big, k - 1);
      var st := UpReader(src, applied, k - 1);
      if st.Active() {
        StaysCaught(src, applied, big, st);
      }
    }
  }

  /** With something pending and an up file for all of it, Up reads to an end exactly if all versions are below 2^63. */
  lemma UpEndsIffFits(src: Source, applied: set<nat>)
    requires forall v :: v in src.Versions() ==> v < TWO_TO_THE_64
    requires src.Versions() - applied != {} && forall v :: v in src.Versions() - applied ==> src.UpExists(v)
    ensures (exists k: nat :: UpReader(src, applied, k) == Finished) <==> Fits(src.Versions())
  {
    if Fits(src.Versions()) {
      var r := Rank(src, applied * src.Versions(), ReadUp(-1), Start);
      UpLeft(src, applied, r, r);
      assert UpReader(src, applied, r) == Finished;
    } else {
      var oversized := Above(src.Versions(), TWO_TO_THE_63 - 1);
      var v :| v in src.Versions() && v >= TWO_TO_THE_63;
      assert v in oversized;
      var big := MinOf(oversized);
      forall w | w in src.Versions() && w < big ensures w < TWO_TO_THE_63 {
        assert w !in oversized;
      }
      forall k: nat ensures UpReader(src, applied, k) != Finished {
        NeverEnds(src, applied, big, k);
      }
    }
  }
}
