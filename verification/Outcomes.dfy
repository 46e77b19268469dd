/** What Up, Down, Steps and GotoVersion achieve, for every project and every recorded set. */
module Outcomes {
  import opened Ordering
  import opened Readers
  import opened Runner
  import opened Laws

  type Verdict = (seq<Message>, Message) -> bool

  function RunJob(accepts: Verdict, skip: bool, src: Source, job: Job, srv: Server): Outcome {
    RunAll(accepts, skip, Plan(src, srv.store.Keys, job, Start), srv)
  }

  /** How many of n versions a limited walk asks for; -1 asks for all. */
  function Wanted(limit: int, n: nat): nat {
    if limit == -1 || limit > n then n else if limit < 0 then 0 else limit
  }

  lemma FitsSorted(s: set<nat>)
    requires Fits(s)
    ensures forall i :: 0 <= i < |SortAsc(s)| ==> SortAsc(s)[i] < TWO_TO_THE_63
    ensures forall i :: 0 <= i < |SortDesc(s)| ==> SortDesc(s)[i] < TWO_TO_THE_63
  {
    SortAscEnumerates(s);
    SortDescEnumerates(s);
    forall i | 0 <= i < |SortAsc(s)| ensures SortAsc(s)[i] < TWO_TO_THE_63 {
      assert SortAsc(s)[i] in Elems(SortAsc(s));
    }
    forall i | 0 <= i < |SortDesc(s)| ensures SortDesc(s)[i] < TWO_TO_THE_63 {
      assert SortDesc(s)[i] in Elems(SortDesc(s));
    }
  }

  /** The error Up and Steps(n) report once every up file they wanted has been found. */
  function UpError(src: Source, limit: int, missing: nat): Option<Error> {
    if missing == 0 then Some(if limit > 0 && src.Versions() == {} then NoFirst else NoChange)
    else if limit > missing then Some(ShortLimit(limit - missing))
    else None
  }

  lemma LimitedUpsCut(src: Source, missing: seq<nat>, limit: int)
    requires limit == -1 || limit > 0
    requires src.Versions() != {} || missing == []
    ensures var error := UpError(src, limit, |missing|);
            var tail := if error.Some? then [Failed(error.value)] else [];
            Ups(src, missing[..Wanted(limit, |missing|)], tail) ==
            if limit > 0 && src.Versions() == {} then [Failed(NoFirst)]
            else LimitedUps(src, missing, limit, 0)
  {
    assert missing[..|missing|] == missing;
  }

  lemma PlanOfUp(src: Source, applied: set<nat>, limit: int)
    requires limit == -1 || limit > 0
    ensures var missing := SortAsc(src.Versions() - applied);
            var error := UpError(src, limit, |missing|);
            Plan(src, applied, ReadUp(limit), Start) ==
            Ups(src, missing[..Wanted(limit, |missing|)], if error.Some? then [Failed(error.value)] else [])
  {
    LimitedUpsCut(src, SortAsc(src.Versions() - applied), limit);
    assert Above(src.Versions() - applied, -1) == src.Versions() - applied;
    assert PlanUp(src, applied, limit, -1, 0) ==
           if src.Versions() == {} then [Failed(NoFirst)]
           else LimitedUps(src, SortAsc(src.Versions() - applied), limit, 0);
  }

  /** Up (limit -1) and Steps(n): exactly the first n missing versions are recorded and executed, in ascending order,
      stopping before the first one without an up file; and the error says precisely what was lacking. */
  lemma StepsUp(accepts: Verdict, skip: bool, src: Source, limit: int, srv: Server)
    requires Willing(accepts, skip) && Fits(src.Versions())
    requires limit == -1 || limit > 0
    ensures var missing := SortAsc(src.Versions() - srv.store.Keys);
            var wanted := Wanted(limit, |missing|);
            var n := UpReach(src, missing[..wanted]);
            var o := RunJob(accepts, skip, src, ReadUp(limit), srv);
            o.server.store == Noted(srv.store, Elems(missing[..n]) * src.up.Keys) &&
            o.server.log == srv.log + (if skip then [] else Bodies(UpMessages(src, missing[..n]))) &&
            o.error == if n < wanted then Some(UpMissing(missing[n]))
                       else if missing == [] then Some(if limit > 0 && src.Versions() == {} then NoFirst else NoChange)
                       else if limit > |missing| then Some(ShortLimit(limit - |missing|))
                       else None
  {
    var applied := srv.store.Keys;
    var missing := SortAsc(src.Versions() - applied);
    var vs := missing[..Wanted(limit, |missing|)];
    PlanOfUp(src, applied, limit);
    FitsSorted(src.Versions() - applied);
    var error := UpError(src, limit, |missing|);
    RunUps(accepts, skip, src, vs, if error.Some? then [Failed(error.value)] else [], srv);
    assert vs[..UpReach(src, vs)] == missing[..UpReach(src, vs)];
  }

  function DownError(limit: int, applied: nat): Option<Error> {
    if applied == 0 then Some(NoChange)
    else if limit > applied then Some(ShortLimit(limit - applied))
    else None
  }

  lemma LimitedDownsCut(src: Source, applied: set<nat>, left: seq<nat>, limit: int)
    requires (limit == -1 || limit > 0) && left != []
    ensures var error := DownError(limit, |left|);
            Downs(src, applied, left[..Wanted(limit, |left|)], if error.Some? then [Failed(error.value)] else []) ==
            LimitedDowns(src, applied, left, limit, 0)
  {
    assert left[..|left|] == left;
  }

  lemma PlanOfDown(src: Source, applied: set<nat>, limit: int)
    requires (limit == -1 || limit > 0) && Fits(applied)
    ensures var left := SortDesc(applied);
            var error := DownError(limit, |left|);
            Plan(src, applied, ReadDown(limit), Start) ==
            Downs(src, applied, left[..Wanted(limit, |left|)], if error.Some? then [Failed(error.value)] else [])
  {
    if applied != {} {
      SortDescEnumerates(applied);
      LimitedDownsCut(src, applied, SortDesc(applied), limit);
      assert UpTo(applied, MaxOf(applied)) == applied;
    }
  }

  /** Down (limit -1) and Steps(-n): exactly the n largest recorded versions are removed, in descending order, stopping
      before the first one without a down file. */
  lemma StepsDown(accepts: Verdict, skip: bool, src: Source, limit: int, srv: Server)
    requires Willing(accepts, skip) && Fits(srv.store.Keys)
    requires limit == -1 || limit > 0
    ensures var applied := srv.store.Keys;
            var left := SortDesc(applied);
            var wanted := Wanted(limit, |left|);
            var n := DownReach(src, left[..wanted]);
            var o := RunJob(accepts, skip, src, ReadDown(limit), srv);
            o.server.store == srv.store - (Elems(left[..n]) * src.down.Keys) &&
            o.server.log == srv.log + (if skip then [] else Bodies(DownMessages(src, applied, left[..n]))) &&
            o.error == if n < wanted then Some(DownMissing(left[n]))
                       else if left == [] then Some(NoChange)
                       else if limit > |left| then Some(ShortLimit(limit - |left|))
                       else None
  {
    var applied := srv.store.Keys;
    var left := SortDesc(applied);
    var vs := left[..Wanted(limit, |left|)];
    PlanOfDown(src, applied, limit);
    FitsSorted(applied);
    var error := DownError(limit, |left|);
    RunDowns(accepts, skip, src, applied, vs, if error.Some? then [Failed(error.value)] else [], srv);
    assert vs[..DownReach(src, vs)] == left[..DownReach(src, vs)];
  }

  /***** One version *****/

  /** Migrate up: the version gets recorded if it was not, has an up file, and that has SQL in it. */
  lemma OneUp(accepts: Verdict, skip: bool, src: Source, version: nat, srv: Server)
    requires Willing(accepts, skip) && version < TWO_TO_THE_63
    ensures var o := RunJob(accepts, skip, src, ReadOne(version, true), srv);
            var error := if version in srv.store then Some(AlreadyApplied)
                         else if !src.UpExists(version) then Some(UpMissing(version)) else None;
            o.error == error &&
            o.server.store == Noted(srv.store, if error == None then {version} * src.up.Keys else {}) &&
            o.server.log == srv.log + (if skip || error.Some? then [] else Bodies(UpMessages(src, [version])))
  {
    var m := NewMigration(src, version, version);
    CommitUp(skip, src, version, srv);
    RunsOne(accepts, skip, m, srv);
    assert UpMessages(src, [version]) == [m];
    assert Bodies([m]) == if HasBody(m) then [m] else [];
  }

  lemma RunsOne(accepts: Verdict, skip: bool, m: Message, srv: Server)
    requires Willing(accepts, skip) && m.Migration?
    ensures RunAll(accepts, skip, [m], srv) == Outcome(Commit(skip, m, srv), None)
  {
    assert [m][1..] == [];
  }

  /** Migrate down: the version is forgotten if it was recorded, has a down file, and that has SQL in it; also when
      later versions stay recorded. */
  lemma OneDown(accepts: Verdict, skip: bool, src: Source, version: nat, srv: Server)
    requires Willing(accepts, skip) && version < TWO_TO_THE_63
    ensures var o := RunJob(accepts, skip, src, ReadOne(version, false), srv);
            var error := if version !in srv.store then Some(NotApplied)
                         else if !src.DownExists(version) then Some(DownMissing(version)) else None;
            o.error == error &&
            o.server.store == srv.store - (if error == None then {version} * src.down.Keys else {}) &&
            o.server.log ==
            srv.log + (if skip || error.Some? then [] else Bodies(DownMessages(src, src.Versions(), [version])))
  {
    var m := NewMigration(src, version, TargetBelow(src.Versions(), version));
    if src.DownExists(version) {
      CommitDown(skip, src, version, TargetBelow(src.Versions(), version), srv);
      RunsOne(accepts, skip, m, srv);
      assert DownMessages(src, src.Versions(), [version]) == [m];
      assert Bodies([m]) == if HasBody(m) then [m] else [];
    }
  }

  /***** GotoVersion *****/

  /** The walk GotoVersion chooses. The current version is the greatest recorded one, or -1. */
  function GotoJob(applied: set<nat>, target: int): Job {
    var current := LastOrNil(applied);
    if current <= target then ReadUpTo(target) else ReadDownTo(current, target)
  }

  predicate AllUp(src: Source) {
    src.Versions() <= src.up.Keys
  }

  predicate AllDown(src: Source) {
    src.Versions() <= src.down.Keys
  }

  /** A walk over versions all of which have their SQL reaches its end. */
  lemma FullUpReach(src: Source, vs: seq<nat>)
    requires Elems(vs) <= src.up.Keys
    ensures UpReach(src, vs) == |vs| && Elems(vs[..|vs|]) * src.up.Keys == Elems(vs)
  {
    assert vs[..|vs|] == vs;
    forall i | 0 <= i < |vs| ensures src.UpExists(vs[i]) {
      assert vs[i] in Elems(vs);
    }
  }

  lemma FullDownReach(src: Source, vs: seq<nat>)
    requires Elems(vs) <= src.down.Keys
    ensures DownReach(src, vs) == |vs| && Elems(vs[..|vs|]) * src.down.Keys == Elems(vs)
  {
    assert vs[..|vs|] == vs;
    forall i | 0 <= i < |vs| ensures src.DownExists(vs[i]) {
      assert vs[i] in Elems(vs);
    }
  }

  lemma PlanOfUpTo(src: Source, applied: set<nat>, target: int)
    requires target >= -1
    ensures var missing := src.Versions() - applied;
            Plan(src, applied, ReadUpTo(target), Start) ==
            if UpTo(missing, target) == {} then [Failed(NoChange)]
            else if target in src.Versions() then Ups(src, SortAsc(UpTo(missing, target)), [])
            else Ups(src, SortAsc(missing), [Failed(NoNext(MaxOf(src.Versions())))])
  {
    var missing := src.Versions() - applied;
    assert Above(missing, -1) == missing;
    assert Above(UpTo(missing, target), -1) == UpTo(missing, target);
  }

  /** The missing versions that going up walks over: up to a target of the project, otherwise all of them. */
  function GotoUpSet(src: Source, applied: set<nat>, target: int): set<nat> {
    var missing := src.Versions() - applied;
    if target in src.Versions() then UpTo(missing, target) else missing
  }

  /** Going up, for any project. With nothing missing up to the target nothing happens; otherwise the walk records what
      has SQL before the first version without an up file, and past a target that is not in the project it runs to the
      end and fails there. */
  lemma GotoUp(accepts: Verdict, skip: bool, src: Source, target: int, srv: Server)
    requires Willing(accepts, skip) && Fits(src.Versions())
    requires LastOrNil(srv.store.Keys) <= target && target >= -1
    ensures var versions, applied := src.Versions(), srv.store.Keys;
            var vs := SortAsc(GotoUpSet(src, applied, target));
            var n := UpReach(src, vs);
            var o := RunJob(accepts, skip, src, ReadUpTo(target), srv);
            if UpTo(versions - applied, target) == {} then o == Outcome(srv, Some(NoChange))
            else
              o.server.store == Noted(srv.store, Elems(vs[..n]) * src.up.Keys) &&
              o.server.log == srv.log + (if skip then [] else Bodies(UpMessages(src, vs[..n]))) &&
              o.error == if n < |vs| then Some(UpMissing(vs[n]))
                         else if target in versions then None
                         else Some(NoNext(MaxOf(versions)))
  {
    var versions, applied := src.Versions(), srv.store.Keys;
    var chosen := GotoUpSet(src, applied, target);
    PlanOfUpTo(src, applied, target);
    FitsSorted(chosen);
    if versions != {} {
      var tail := if target in versions then [] else [Failed(NoNext(MaxOf(versions)))];
      RunUps(accepts, skip, src, SortAsc(chosen), tail, srv);
    }
  }

  /** A walk up takes all of its versions exactly if all of them have SQL. */
  lemma AllTaken(src: Source, vs: seq<nat>, applied: set<nat>)
    requires Elems(vs) !! applied
    ensures var n := UpReach(src, vs);
            n == |vs| && applied + (Elems(vs[..n]) * src.up.Keys) == applied + Elems(vs) <==> Elems(vs) <= src.up.Keys
  {
    var n := UpReach(src, vs);
    if Elems(vs) <= src.up.Keys {
      FullUpReach(src, vs);
    } else {
      var v :| v in Elems(vs) && v !in src.up.Keys;
      assert v in applied + Elems(vs) && v !in applied + (Elems(vs[..n]) * src.up.Keys);
    }
  }

  /** GotoVersion gets up to its target exactly when the target is in the project, something is missing up to it, and
      all that is missing up to it has up SQL. */
  lemma GotoUpReaches(accepts: Verdict, skip: bool, src: Source, target: int, srv: Server)
    requires Willing(accepts, skip) && Fits(src.Versions())
    requires LastOrNil(srv.store.Keys) <= target && target >= -1
    ensures var versions, applied := src.Versions(), srv.store.Keys;
            var todo := UpTo(versions - applied, target);
            var o := RunJob(accepts, skip, src, ReadUpTo(target), srv);
            o.error == None && o.server.store.Keys == applied + UpTo(versions, target) <==>
            target in versions && todo != {} && todo <= src.up.Keys
  {
    GotoUp(accepts, skip, src, target, srv);
    if target in src.Versions() {
      TodoTaken(src, srv.store.Keys, target);
    }
  }

  lemma TodoTaken(src: Source, applied: set<nat>, target: int)
    requires target in src.Versions()
    ensures var vs := SortAsc(GotoUpSet(src, applied, target));
            var n := UpReach(src, vs);
            n == |vs| && applied + (Elems(vs[..n]) * src.up.Keys) == applied + UpTo(src.Versions(), target) <==>
            UpTo(src.Versions() - applied, target) <= src.up.Keys
  {
    var todo := UpTo(src.Versions() - applied, target);
    SortAscEnumerates(todo);
    AllTaken(src, SortAsc(todo), applied);
    assert applied + todo == applied + UpTo(src.Versions(), target);
  }

  /** A target that is not in the project is overshot: everything gets recorded, and the walk fails at the end. */
  lemma GotoUpOvershoots(accepts: Verdict, skip: bool, src: Source, target: int, srv: Server)
    requires Willing(accepts, skip) && Fits(src.Versions())
    requires LastOrNil(srv.store.Keys) <= target && target >= -1 && target !in src.Versions()
    requires UpTo(src.Versions() - srv.store.Keys, target) != {} && src.Versions() - srv.store.Keys <= src.up.Keys
    ensures var o := RunJob(accepts, skip, src, ReadUpTo(target), srv);
            o.server.store.Keys == srv.store.Keys + src.Versions() && o.error == Some(NoNext(MaxOf(src.Versions())))
  {
    AllMissing(src, srv.store.Keys);
    GotoUp(accepts, skip, src, target, srv);
  }

  lemma AllMissing(src: Source, applied: set<nat>)
    requires src.Versions() - applied <= src.up.Keys
    ensures var vs := SortAsc(src.Versions() - applied);
            UpReach(src, vs) == |vs| && applied + (Elems(vs[..|vs|]) * src.up.Keys) == applied + src.Versions()
  {
    var missing := src.Versions() - applied;
    SortAscEnumerates(missing);
    FullUpReach(src, SortAsc(missing));
    assert applied + missing == applied + src.Versions();
  }

  /***** Going down *****/

  lemma LowestLast(applied: set<nat>)
    requires applied != {}
    ensures SortDesc(applied) == SortDesc(applied - {MinOf(applied)}) + [MinOf(applied)]
  {
    var low := MinOf(applied);
    JoinDesc(applied - {low}, {low});
    assert SortDesc({low}) == [low] by {
      assert MaxOf({low}) == low;
      assert {low} - {low} == {};
    }
    assert applied - {low} + {low} == applied;
  }

  lemma {:induction false} DownsConcat(src: Source, applied: set<nat>, a: seq<nat>, b: seq<nat>, tail: seq<Message>)
    ensures Downs(src, applied, a + b, tail) == Downs(src, applied, a, Downs(src, applied, b, tail))
    decreases |a|
  {
    if a == [] {
      assert a + b == b;
    } else {
      assert (a + b)[1..] == a[1..] + b;
      DownsConcat(src, applied, a[1..], b, tail);
    }
  }

  /** The target is a place to stop at: recorded itself, or the nil version below the very first source version. */
  predicate CanStopAt(src: Source, applied: set<nat>, target: int)
    requires applied != {}
  {
    target in applied || (target == -1 && PrevIn(src.Versions(), MinOf(applied)).None?)
  }

  /** The walk down starts only if some version to be removed is still in the project. */
  lemma StartOfDownTo(src: Source, applied: set<nat>, target: int)
    requires Fits(applied) && applied != {} && target < MaxOf(applied)
    ensures var high := MaxOf(applied);
            Plan(src, applied, ReadDownTo(high, target), Start) ==
            if src.Versions() * Above(applied, target) == {} then [Failed(NoChange)]
            else PlanDownTo(src, applied, target, high)
  {
    var high := MaxOf(applied);
    var counted := set v | v in src.Versions() * applied && v <= Uint64(high) && (target < 0 || v > target);
    assert counted == src.Versions() * Above(applied, target);
  }

  /** The recorded versions that going down walks over: those above the target, or, when it cannot stop there, all but
      the lowest. */
  function GotoDownSet(src: Source, applied: set<nat>, target: int): set<nat>
    requires applied != {}
  {
    if CanStopAt(src, applied, target) then Above(applied, target) else applied - {MinOf(applied)}
  }

  lemma WholeDownTo(src: Source, applied: set<nat>, target: int)
    requires applied != {} && target < MaxOf(applied)
    ensures PlanDownTo(src, applied, target, MaxOf(applied)) ==
            Downs(src, applied, SortDesc(GotoDownSet(src, applied, target)),
                  if CanStopAt(src, applied, target) then [] else Bottom(src, applied, target, MinOf(applied)))
  {
    var low, high := MinOf(applied), MaxOf(applied);
    assert UpTo(applied, high) == applied;
    assert UpTo(applied - {low}, high) == applied - {low};
    if target !in applied && CanStopAt(src, applied, target) {
      assert Above(applied, target) == applied;
      LowestLast(applied);
      DownsConcat(src, applied, SortDesc(applied - {low}), [low], []);
      assert Downs(src, applied, [low], []) == Bottom(src, applied, target, low);
    }
  }

  /** What is reported at the lowest recorded version when the walk could not stop above it. */
  function BottomError(src: Source, low: nat): Error {
    var before := PrevIn(src.Versions(), low);
    if !src.DownExists(low) then DownMissing(low)
    else if before.Some? then NotOnDatabase(before.value)
    else NoPrev(low)
  }

  /** Going down, for any project and any recorded set. The walk removes what has SQL before the first version without
      a down file; when it cannot stop at the target it goes on, below the target too, and fails at the lowest
      version. */
  lemma GotoDown(accepts: Verdict, skip: bool, src: Source, target: int, srv: Server)
    requires Willing(accepts, skip) && Fits(srv.store.Keys)
    requires LastOrNil(srv.store.Keys) > target && srv.store.Keys != {}
    ensures var applied := srv.store.Keys;
            var vs := SortDesc(GotoDownSet(src, applied, target));
            var n := DownReach(src, vs);
            var o := RunJob(accepts, skip, src, ReadDownTo(LastOrNil(applied), target), srv);
            if src.Versions() * Above(applied, target) == {} then o == Outcome(srv, Some(NoChange))
            else
              o.server.store == srv.store - (Elems(vs[..n]) * src.down.Keys) &&
              o.server.log == srv.log + (if skip then [] else Bodies(DownMessages(src, applied, vs[..n]))) &&
              o.error == if n < |vs| then Some(DownMissing(vs[n]))
                         else if CanStopAt(src, applied, target) then None
                         else Some(BottomError(src, MinOf(applied)))
  {
    var applied := srv.store.Keys;
    var low := MinOf(applied);
    var chosen := GotoDownSet(src, applied, target);
    StartOfDownTo(src, applied, target);
    WholeDownTo(src, applied, target);
    FitsSorted(chosen);
    var tail := if CanStopAt(src, applied, target) then [] else Bottom(src, applied, target, low);
    RunDowns(accepts, skip, src, applied, SortDesc(chosen), tail, srv);
  }

  /** A walk down removes all of its versions exactly if all of them have SQL. */
  lemma AllRemoved(src: Source, vs: seq<nat>, applied: set<nat>)
    requires Elems(vs) <= applied
    ensures var n := DownReach(src, vs);
            n == |vs| && applied - (Elems(vs[..n]) * src.down.Keys) == applied - Elems(vs) <==>
            Elems(vs) <= src.down.Keys
  {
    var n := DownReach(src, vs);
    if Elems(vs) <= src.down.Keys {
      FullDownReach(src, vs);
    } else {
      var v :| v in Elems(vs) && v !in src.down.Keys;
      assert v !in applied - Elems(vs) && v in applied - (Elems(vs[..n]) * src.down.Keys);
    }
  }

  /** GotoVersion gets down to its target exactly when it can stop there and every version above it has down SQL. */
  lemma GotoDownReaches(accepts: Verdict, skip: bool, src: Source, target: int, srv: Server)
    requires Willing(accepts, skip) && Fits(srv.store.Keys)
    requires LastOrNil(srv.store.Keys) > target && srv.store.Keys != {}
    ensures var applied := srv.store.Keys;
            var o := RunJob(accepts, skip, src, ReadDownTo(LastOrNil(applied), target), srv);
            o.error == None && o.server.store.Keys == UpTo(applied, target) <==>
            && (target in applied || (target == -1 && forall v :: v in src.Versions() ==> v >= MinOf(applied)))
            && Above(applied, target) <= src.down.Keys
  {
    var applied := srv.store.Keys;
    var todo := Above(applied, target);
    GotoDown(accepts, skip, src, target, srv);
    assert MaxOf(applied) in todo;
    SortDescEnumerates(todo);
    AllRemoved(src, SortDesc(todo), applied);
    assert applied - todo == UpTo(applied, target);
    assert todo <= src.down.Keys ==> MaxOf(applied) in src.Versions() * todo;
  }

  /** A target it cannot stop at is overshot: only the lowest version stays, and the walk fails there. */
  lemma GotoDownOvershoots(accepts: Verdict, skip: bool, src: Source, target: int, srv: Server)
    requires Willing(accepts, skip) && Fits(srv.store.Keys)
    requires LastOrNil(srv.store.Keys) > target && srv.store.Keys != {} && !CanStopAt(src, srv.store.Keys, target)
    requires srv.store.Keys - {MinOf(srv.store.Keys)} <= src.down.Keys
    requires src.Versions() * Above(srv.store.Keys, target) != {}
    ensures var low := MinOf(srv.store.Keys);
            var o := RunJob(accepts, skip, src, ReadDownTo(LastOrNil(srv.store.Keys), target), srv);
            && o.server.store.Keys == {low}
            && (!src.DownExists(low) ==> o.error == Some(DownMissing(low)))
            && (src.DownExists(low) && (forall v :: v in src.Versions() ==> v >= low) ==> o.error == Some(NoPrev(low)))
            && (src.DownExists(low) && (exists v :: v in src.Versions() && v < low) ==>
                  && o.error.Some? && o.error.value.NotOnDatabase?
                  && o.error.value.version in src.Versions() && o.error.value.version < low
                  && forall v :: v in src.Versions() && v < low ==> v <= o.error.value.version)
  {
    AllButLowest(src, srv.store.Keys);
    GotoDown(accepts, skip, src, target, srv);
  }

  lemma AllButLowest(src: Source, applied: set<nat>)
    requires applied != {} && applied - {MinOf(applied)} <= src.down.Keys
    ensures var vs := SortDesc(applied - {MinOf(applied)});
            DownReach(src, vs) == |vs| && applied - (Elems(vs[..|vs|]) * src.down.Keys) == {MinOf(applied)}
  {
    var rest := applied - {MinOf(applied)};
    SortDescEnumerates(rest);
    FullDownReach(src, SortDesc(rest));
    assert applied - rest == {MinOf(applied)};
  }
}
