/** Every moment of every run, in terms of the recorded set and the execution log. */
module Moments {
  import opened Ordering
  import opened Readers
  import opened Runner
  import opened Protocol
  import opened Laws
  import opened Outcomes
  import opened History

  /** The versions an upward walk asks for. */
  function UpVersions(src: Source, applied: set<nat>, job: Job): seq<nat>
    requires job.ReadUp? || job.ReadUpTo?
  {
    var missing := src.Versions() - applied;
    match job
    case ReadUp(limit) => SortAsc(missing)[..Wanted(limit, |SortAsc(missing)|)]
    case ReadUpTo(to) =>
      if to == -1 || UpTo(missing, Uint64(to)) == {} then []
      else if to in src.Versions() then SortAsc(UpTo(missing, to))
      else SortAsc(missing)
  }

  ghost predicate Silent(tail: seq<Message>) {
    tail == [] || (|tail| == 1 && tail[0].Failed?)
  }

  /** A plan over versions vs is the migrations of a part of vs, then at most one error. */
  lemma UpsPart(src: Source, vs: seq<nat>, tail: seq<Message>) returns (part: seq<nat>, rest: seq<Message>)
    requires Silent(tail)
    ensures part <= vs && Silent(rest) && Ups(src, vs, tail) == UpMessages(src, part) + rest
    ensures UpReach(src, part) == |part|
  {
    UpsShape(src, vs, tail);
    var n := UpReach(src, vs);
    part, rest := vs[..n], if n < |vs| then [Failed(UpMissing(vs[n]))] else tail;
    assert forall i :: 0 <= i < |part| ==> part[i] == vs[i];
  }

  lemma DownsPart(src: Source, applied: set<nat>, vs: seq<nat>, tail: seq<Message>)
    returns (part: seq<nat>, rest: seq<Message>)
    requires Silent(tail)
    ensures part <= vs && Silent(rest) && Downs(src, applied, vs, tail) == DownMessages(src, applied, part) + rest
    ensures DownReach(src, part) == |part|
  {
    DownsShape(src, applied, vs, tail);
    var n := DownReach(src, vs);
    part, rest := vs[..n], if n < |vs| then [Failed(DownMissing(vs[n]))] else tail;
    assert forall i :: 0 <= i < |part| ==> part[i] == vs[i];
  }

  /** The part of a set up to a bound is enumerated first. */
  lemma {:induction false} UpToIsPrefix(s: set<nat>, bound: int)
    ensures SortAsc(UpTo(s, bound)) <= SortAsc(s)
    decreases s
  {
    if s == {} {
    } else {
      var m := MinOf(s);
      if m <= bound {
        assert IsMin(m, UpTo(s, bound));
        assert UpTo(s, bound) - {m} == UpTo(s - {m}, bound);
        UpToIsPrefix(s - {m}, bound);
      } else {
        assert UpTo(s, bound) == {};
      }
    }
  }

  lemma {:induction false} AboveIsPrefix(s: set<nat>, bound: int)
    ensures SortDesc(Above(s, bound)) <= SortDesc(s)
    decreases s
  {
    if s == {} {
    } else {
      var m := MaxOf(s);
      if m > bound {
        assert IsMax(m, Above(s, bound));
        assert Above(s, bound) - {m} == Above(s - {m}, bound);
        AboveIsPrefix(s - {m}, bound);
      } else {
        assert Above(s, bound) == {};
      }
    }
  }

  lemma UpVersionsFirst(src: Source, applied: set<nat>, job: Job)
    requires job.ReadUp? || job.ReadUpTo?
    ensures UpVersions(src, applied, job) <= SortAsc(src.Versions() - applied)
  {
    if job.ReadUpTo? { UpToIsPrefix(src.Versions() - applied, job.to); }
  }

  /** An upward plan is the migrations of some of those versions, the first ones, then at most one error. */
  lemma UpPlanShape(src: Source, applied: set<nat>, job: Job) returns (vs: seq<nat>, tail: seq<Message>)
    requires job.ReadUp? || job.ReadUpTo?
    ensures Plan(src, applied, job, Start) == UpMessages(src, vs) + tail && Silent(tail)
    ensures vs <= SortAsc(src.Versions() - applied) && UpReach(src, vs) == |vs|
  {
    var missing := src.Versions() - applied;
    var all := UpVersions(src, applied, job);
    UpVersionsFirst(src, applied, job);
    vs, tail := [], Plan(src, applied, job, Start);
    match job
    case ReadUp(limit) =>
      if limit == -1 || limit > 0 {
        PlanOfUp(src, applied, limit);
        var error := UpError(src, limit, |SortAsc(missing)|);
        vs, tail := UpsPart(src, all, if error.Some? then [Failed(error.value)] else []);
      }
    case ReadUpTo(to) =>
      if to != -1 && UpTo(missing, Uint64(to)) != {} {
        assert Above(missing, -1) == missing && Above(UpTo(missing, to), -1) == UpTo(missing, to);
        vs, tail := UpsPart(src, all, if to in src.Versions() then [] else [Failed(NoNext(MaxOf(src.Versions())))]);
      }
  }

  /** The versions a downward walk asks for. */
  function DownVersions(src: Source, applied: set<nat>, job: Job): seq<nat>
    requires job.ReadDown? || job.ReadDownTo?
  {
    match job
    case ReadDown(limit) => SortDesc(applied)[..Wanted(limit, |SortDesc(applied)|)]
    case ReadDownTo(_, to) =>
      if applied == {} then [] else SortDesc(GotoDownSet(src, applied, to))
  }

  /** A downward walk that starts where GotoVersion starts it. */
  ghost predicate FromTheTop(applied: set<nat>, job: Job) {
    job.ReadDown? || (job.ReadDownTo? && job.start == LastOrNil(applied) > job.to)
  }

  lemma DownVersionsFirst(src: Source, applied: set<nat>, job: Job)
    requires job.ReadDown? || job.ReadDownTo?
    ensures DownVersions(src, applied, job) <= SortDesc(applied)
  {
    if job.ReadDownTo? && applied != {} {
      AboveIsPrefix(applied, job.to);
      LowestLast(applied);
    }
  }

  lemma DownPlanShape(src: Source, applied: set<nat>, job: Job) returns (vs: seq<nat>, tail: seq<Message>)
    requires FromTheTop(applied, job) && Fits(applied)
    ensures Plan(src, applied, job, Start) == DownMessages(src, applied, vs) + tail && Silent(tail)
    ensures vs <= SortDesc(applied) && DownReach(src, vs) == |vs|
  {
    var all := DownVersions(src, applied, job);
    DownVersionsFirst(src, applied, job);
    vs, tail := [], Plan(src, applied, job, Start);
    match job
    case ReadDown(limit) =>
      if limit == -1 || limit > 0 {
        PlanOfDown(src, applied, limit);
        var error := DownError(limit, |SortDesc(applied)|);
        vs, tail := DownsPart(src, applied, all, if error.Some? then [Failed(error.value)] else []);
      }
    case ReadDownTo(start, to) =>
      if applied != {} {
        StartOfDownTo(src, applied, to);
        if src.Versions() * Above(applied, to) != {} {
          WholeDownTo(src, applied, to);
          var bottom := if CanStopAt(src, applied, to) then [] else Bottom(src, applied, to, MinOf(applied));
          vs, tail := DownsPart(src, applied, all, bottom);
        }
      }
  }

  /***** What a prefix of such a plan has done *****/

  /** Of vs, j versions are done and e executed, as far as they have up SQL; at most the one in flight is executed and
      not yet recorded. */
  ghost predicate UpState(cfg: Config, vs: seq<nat>, j: nat, e: nat, srv: Server) {
    && j <= e <= j + 1 && e <= |vs|
    && srv.store == Noted(cfg.initial.store, Elems(vs[..j]) * cfg.src.up.Keys)
    && srv.log == cfg.initial.log + (if cfg.skip then [] else Bodies(UpMessages(cfg.src, vs[..e])))
  }

  ghost predicate DownState(cfg: Config, vs: seq<nat>, j: nat, e: nat, srv: Server) {
    && j <= e <= j + 1 && e <= |vs|
    && srv.store.Keys == cfg.Applied() - (Elems(vs[..j]) * cfg.src.down.Keys)
    && (forall v :: v in srv.store ==>
          srv.store[v] == cfg.initial.store[v] || (!srv.store[v] && e == j + 1 && v == vs[j]))
    && srv.log == cfg.initial.log + (if cfg.skip then [] else Bodies(DownMessages(cfg.src, cfg.Applied(), vs[..e])))
  }

  /** Some such prefix is done, no further than the first version without a file. */
  ghost predicate UpSoFar(cfg: Config, vs: seq<nat>, srv: Server) {
    exists j: nat, e: nat :: UpState(cfg, vs, j, e, srv) && e <= UpReach(cfg.src, vs)
  }

  ghost predicate DownSoFar(cfg: Config, vs: seq<nat>, srv: Server) {
    exists j: nat, e: nat :: DownState(cfg, vs, j, e, srv) && e <= DownReach(cfg.src, vs)
  }

  ghost predicate AllFit(vs: seq<nat>) {
    forall i :: 0 <= i < |vs| ==> vs[i] < TWO_TO_THE_63
  }

  lemma UpPrefixEffect(cfg: Config, vs: seq<nat>, n: nat)
    requires AllFit(vs) && n <= |vs|
    ensures UpState(cfg, vs, n, n, Effect(cfg.skip, UpMessages(cfg.src, vs[..n]), cfg.initial))
  {
    UpEffect(cfg.skip, cfg.src, vs[..n], cfg.initial);
  }

  lemma DownPrefixEffect(cfg: Config, vs: seq<nat>, n: nat)
    requires AllFit(vs) && n <= |vs|
    ensures DownState(cfg, vs, n, n, Effect(cfg.skip, DownMessages(cfg.src, cfg.Applied(), vs[..n]), cfg.initial))
  {
    DownEffect(cfg.skip, cfg.src, cfg.Applied(), vs[..n], cfg.initial);
  }

  /** Messages that carry no migration change nothing. */
  lemma SilentEffect(skip: bool, ms: seq<Message>, tail: seq<Message>, k: nat, srv: Server)
    requires Silent(tail) && |ms| <= k <= |ms + tail|
    ensures Effect(skip, (ms + tail)[..k], srv) == Effect(skip, ms, srv)
    ensures k < |ms + tail| ==> !HasBody((ms + tail)[k])
  {
    if k == |ms| {
      assert (ms + tail)[..k] == ms;
    } else {
      assert (ms + tail)[..k][..k - 1] == ms;
    }
  }

  lemma UpAfter(cfg: Config, vs: seq<nat>, tail: seq<Message>, k: nat, srv: Server)
    requires AllFit(vs) && cfg.All() == UpMessages(cfg.src, vs) + tail && Silent(tail)
    requires k <= |cfg.All()| && After(cfg, k, srv)
    ensures exists j: nat, e: nat :: UpState(cfg, vs, j, e, srv)
  {
    var ms := UpMessages(cfg.src, vs);
    if k >= |vs| {
      UpAtEnd(cfg, vs, tail, k, srv);
    } else {
      assert cfg.All()[..k] == UpMessages(cfg.src, vs[..k]);
      assert cfg.All()[k] == ms[k];
      UpInFlight(cfg, vs, k, srv);
    }
  }

  lemma UpAtEnd(cfg: Config, vs: seq<nat>, tail: seq<Message>, k: nat, srv: Server)
    requires AllFit(vs) && cfg.All() == UpMessages(cfg.src, vs) + tail && Silent(tail)
    requires |vs| <= k <= |cfg.All()| && After(cfg, k, srv)
    ensures UpState(cfg, vs, |vs|, |vs|, srv)
  {
    SilentEffect(cfg.skip, UpMessages(cfg.src, vs), tail, k, cfg.initial);
    UpPrefixEffect(cfg, vs, |vs|);
    assert vs[..|vs|] == vs;
  }

  /** Between its SQL and its record a version being applied is not recorded yet. */
  lemma HalfWayUp(skip: bool, m: Message, before: Server, srv: Server)
    requires m.Migration? && m.version == m.target
    requires PartOf(skip, m, before, srv) && srv != before && srv != Commit(skip, m, before)
    ensures HasBody(m) && srv.store == before.store && srv.log == before.log + (if skip then [] else [m])
  {
  }

  lemma UpInFlight(cfg: Config, vs: seq<nat>, k: nat, srv: Server)
    requires AllFit(vs) && k < |vs|
    requires var ms := UpMessages(cfg.src, vs);
             var before := Effect(cfg.skip, UpMessages(cfg.src, vs[..k]), cfg.initial);
             srv == before || PartOf(cfg.skip, ms[k], before, srv)
    ensures exists j: nat, e: nat :: UpState(cfg, vs, j, e, srv)
  {
    var ms := UpMessages(cfg.src, vs);
    var done, more := UpMessages(cfg.src, vs[..k]), UpMessages(cfg.src, vs[..k + 1]);
    var before := Effect(cfg.skip, done, cfg.initial);
    UpPrefixEffect(cfg, vs, k);
    assert more == done + [ms[k]];
    if srv == before {
      assert UpState(cfg, vs, k, k, srv);
    } else if srv == Commit(cfg.skip, ms[k], before) {
      assert more[..k] == done;
      UpPrefixEffect(cfg, vs, k + 1);
      assert UpState(cfg, vs, k + 1, k + 1, srv);
    } else {
      HalfWayUp(cfg.skip, ms[k], before, srv);
      MoreBodies(done, ms[k]);
      assert UpState(cfg, vs, k, k + 1, srv);
    }
  }

  lemma MoreBodies(done: seq<Message>, m: Message)
    requires HasBody(m)
    ensures Bodies(done + [m]) == Bodies(done) + [m]
  {
    BodiesLast(done + [m]);
    assert (done + [m])[..|done|] == done;
  }

  /** Between its SQL and its removal a version being rolled back is still recorded. */
  lemma HalfWayDown(skip: bool, m: Message, before: Server, srv: Server)
    requires m.Migration? && m.version in before.store.Keys
    requires PartOf(skip, m, before, srv) && srv != before && srv != Commit(skip, m, before)
    ensures HasBody(m) && srv.store.Keys == before.store.Keys && srv.log == before.log + (if skip then [] else [m])
    ensures forall v :: v in srv.store ==> srv.store[v] == before.store[v] || (v == m.version && !srv.store[v])
  {
  }

  lemma DownInFlight(cfg: Config, vs: seq<nat>, k: nat, srv: Server)
    requires AllFit(vs) && k < |vs| && vs[k] in cfg.Applied() - Elems(vs[..k])
    requires var ms := DownMessages(cfg.src, cfg.Applied(), vs);
             var before := Effect(cfg.skip, DownMessages(cfg.src, cfg.Applied(), vs[..k]), cfg.initial);
             srv == before || PartOf(cfg.skip, ms[k], before, srv)
    ensures exists j: nat, e: nat :: DownState(cfg, vs, j, e, srv)
  {
    var ms := DownMessages(cfg.src, cfg.Applied(), vs);
    var done, more := DownMessages(cfg.src, cfg.Applied(), vs[..k]), DownMessages(cfg.src, cfg.Applied(), vs[..k + 1]);
    var before := Effect(cfg.skip, done, cfg.initial);
    DownPrefixEffect(cfg, vs, k);
    assert more == done + [ms[k]];
    if srv == before {
      assert DownState(cfg, vs, k, k, srv);
    } else if srv == Commit(cfg.skip, ms[k], before) {
      assert more[..k] == done;
      DownPrefixEffect(cfg, vs, k + 1);
      assert DownState(cfg, vs, k + 1, k + 1, srv);
    } else {
      DownHalf(cfg, vs, k, before, srv);
    }
  }

  /** The version in flight is still recorded, its SQL executed. */
  lemma DownHalf(cfg: Config, vs: seq<nat>, k: nat, before: Server, srv: Server)
    requires AllFit(vs) && k < |vs| && vs[k] in before.store.Keys && DownState(cfg, vs, k, k, before)
    requires var m := DownMessages(cfg.src, cfg.Applied(), vs)[k];
             PartOf(cfg.skip, m, before, srv) && srv != before && srv != Commit(cfg.skip, m, before)
    ensures DownState(cfg, vs, k, k + 1, srv)
  {
    var m := DownMessages(cfg.src, cfg.Applied(), vs)[k];
    var done := DownMessages(cfg.src, cfg.Applied(), vs[..k]);
    assert DownMessages(cfg.src, cfg.Applied(), vs[..k + 1]) == done + [m];
    HalfWayDown(cfg.skip, m, before, srv);
    MoreBodies(done, m);
  }

  lemma DownAfter(cfg: Config, vs: seq<nat>, tail: seq<Message>, k: nat, srv: Server)
    requires AllFit(vs) && Elems(vs) <= cfg.Applied() && Descending(vs)
    requires cfg.All() == DownMessages(cfg.src, cfg.Applied(), vs) + tail && Silent(tail)
    requires k <= |cfg.All()| && After(cfg, k, srv)
    ensures exists j: nat, e: nat :: DownState(cfg, vs, j, e, srv)
  {
    var ms := DownMessages(cfg.src, cfg.Applied(), vs);
    if k >= |vs| {
      DownAtEnd(cfg, vs, tail, k, srv);
    } else {
      assert cfg.All()[..k] == DownMessages(cfg.src, cfg.Applied(), vs[..k]);
      assert cfg.All()[k] == ms[k];
      StillRecorded(vs, k, cfg.Applied());
      DownInFlight(cfg, vs, k, srv);
    }
  }

  lemma DownAtEnd(cfg: Config, vs: seq<nat>, tail: seq<Message>, k: nat, srv: Server)
    requires AllFit(vs) && cfg.All() == DownMessages(cfg.src, cfg.Applied(), vs) + tail && Silent(tail)
    requires |vs| <= k <= |cfg.All()| && After(cfg, k, srv)
    ensures DownState(cfg, vs, |vs|, |vs|, srv)
  {
    SilentEffect(cfg.skip, DownMessages(cfg.src, cfg.Applied(), vs), tail, k, cfg.initial);
    DownPrefixEffect(cfg, vs, |vs|);
    assert vs[..|vs|] == vs;
  }

  lemma StillRecorded(vs: seq<nat>, k: nat, applied: set<nat>)
    requires Descending(vs) && k < |vs| && Elems(vs) <= applied
    ensures vs[k] in applied - Elems(vs[..k])
  {
    assert vs[k] in Elems(vs);
  }

  lemma UpMoment(cfg: Config, k: nat, srv: Server)
    requires cfg.Valid() && (cfg.job.ReadUp? || cfg.job.ReadUpTo?)
    requires k <= |cfg.All()| && After(cfg, k, srv)
    ensures UpSoFar(cfg, SortAsc(cfg.src.Versions() - cfg.Applied()), srv)
  {
    var vs, tail := UpPlanShape(cfg.src, cfg.Applied(), cfg.job);
    FitsSorted(cfg.src.Versions() - cfg.Applied());
    UpAfter(cfg, vs, tail, k, srv);
    UpStateExtends(cfg, vs, SortAsc(cfg.src.Versions() - cfg.Applied()), srv);
  }

  lemma UpStateExtends(cfg: Config, vs: seq<nat>, whole: seq<nat>, srv: Server)
    requires vs <= whole && UpReach(cfg.src, vs) == |vs| && exists j: nat, e: nat :: UpState(cfg, vs, j, e, srv)
    ensures UpSoFar(cfg, whole, srv)
  {
    var j: nat, e: nat :| UpState(cfg, vs, j, e, srv);
    assert whole[..j] == vs[..j] && whole[..e] == vs[..e];
    assert forall i :: 0 <= i < |vs| ==> whole[i] == vs[i];
    assert UpState(cfg, whole, j, e, srv) && e <= UpReach(cfg.src, whole);
  }

  lemma DescendingPart(applied: set<nat>, vs: seq<nat>)
    requires Fits(applied) && vs <= SortDesc(applied)
    ensures AllFit(vs) && Elems(vs) <= applied && Descending(vs)
  {
    FitsSorted(applied);
    SortDescEnumerates(applied);
    SplitElems(SortDesc(applied), |vs|);
    assert SortDesc(applied)[..|vs|] == vs;
  }

  lemma DownMoment(cfg: Config, k: nat, srv: Server)
    requires cfg.Valid() && FromTheTop(cfg.Applied(), cfg.job)
    requires k <= |cfg.All()| && After(cfg, k, srv)
    ensures DownSoFar(cfg, SortDesc(cfg.Applied()), srv)
  {
    var vs, tail := DownPlanShape(cfg.src, cfg.Applied(), cfg.job);
    DescendingPart(cfg.Applied(), vs);
    DownAfter(cfg, vs, tail, k, srv);
    DownStateExtends(cfg, vs, SortDesc(cfg.Applied()), srv);
  }

  lemma DownStateExtends(cfg: Config, vs: seq<nat>, whole: seq<nat>, srv: Server)
    requires vs <= whole && DownReach(cfg.src, vs) == |vs| && exists j: nat, e: nat :: DownState(cfg, vs, j, e, srv)
    ensures DownSoFar(cfg, whole, srv)
  {
    var j: nat, e: nat :| DownState(cfg, vs, j, e, srv);
    assert whole[..j] == vs[..j] && whole[..e] == vs[..e];
    assert forall i :: 0 <= i < |vs| ==> whole[i] == vs[i];
    assert DownState(cfg, whole, j, e, srv) && e <= DownReach(cfg.src, whole);
  }

  /***** Main results *****/

  /** Every moment of every schedule of Up, Steps(n) and GotoVersion upwards, whatever files there are, with SQL or
      store failures and stop signals at any time: the recorded set is the old one plus those of the first j missing
      versions that have up SQL, the log is the old one plus the SQL of the first e of the same ascending sequence, and
      e is j or, while one version is in flight, j + 1. All of them come before the first version without an up file. */
  lemma EveryUpMoment(cfg: Config, run: seq<State>, i: nat)
    requires cfg.Valid() && (cfg.job.ReadUp? || cfg.job.ReadUpTo?)
    requires IsRun(cfg, run) && i < |run|
    ensures UpSoFar(cfg, SortAsc(cfg.src.Versions() - cfg.Applied()), run[i].server)
  {
    EveryMoment(cfg, run, i);
    var k: nat :| 0 <= k <= |cfg.All()| && After(cfg, k, run[i].server);
    UpMoment(cfg, k, run[i].server);
  }

  /** The same for Down, Steps(-n) and GotoVersion downwards: the largest j versions are gone, e are rolled back. */
  lemma EveryDownMoment(cfg: Config, run: seq<State>, i: nat)
    requires cfg.Valid() && FromTheTop(cfg.Applied(), cfg.job)
    requires IsRun(cfg, run) && i < |run|
    ensures DownSoFar(cfg, SortDesc(cfg.Applied()), run[i].server)
  {
    EveryMoment(cfg, run, i);
    var k: nat :| 0 <= k <= |cfg.All()| && After(cfg, k, run[i].server);
    DownMoment(cfg, k, run[i].server);
  }

  /** A command as the user gives it, with a fresh scan of the server. */
  ghost predicate IsCommand(cfg: Config) {
    || cfg.job.ReadUp?
    || cfg.job.ReadDown?
    || exists target :: IsTarget(cfg.src, target) && cfg.job == GotoJob(cfg.Applied(), target)
  }

  lemma SegmentUp(versions: set<nat>, applied: set<nat>, j: nat)
    requires InitialSegment(applied, versions) && j <= |SortAsc(versions - applied)|
    ensures InitialSegment(applied + Elems(SortAsc(versions - applied)[..j]), versions)
  {
    SortAscEnumerates(versions - applied);
    AscPrefix(versions - applied, j);
  }

  lemma SegmentDown(versions: set<nat>, applied: set<nat>, j: nat)
    requires InitialSegment(applied, versions) && j <= |SortDesc(applied)|
    ensures InitialSegment(applied - Elems(SortDesc(applied)[..j]), versions)
  {
    SortDescEnumerates(applied);
    DescPrefix(applied, j);
  }

  /** What an upward walk gets past has SQL, if no up migration is metadata only. */
  lemma PassedHasSql(files: set<nat>, found: set<nat>, vs: seq<nat>, j: nat)
    requires found <= files && j <= |vs| && forall i :: 0 <= i < j ==> vs[i] in found
    ensures Elems(vs[..j]) * files == Elems(vs[..j])
  {
    forall v | v in Elems(vs[..j])
      ensures v in files
    {
      var i :| 0 <= i < j && vs[..j][i] == v;
    }
  }

  /** The database is caught up to some point of a project without migrations that are metadata only. */
  ghost predicate CaughtUp(src: Source, applied: set<nat>) {
    Fits(src.Versions()) && InitialSegment(applied, src.Versions()) && NoneMetadataOnly(src)
  }

  ghost predicate NoneMetadataOnly(src: Source) {
    src.metaUp <= src.up.Keys && src.metaDown <= src.down.Keys
  }

  /** A database that is caught up to some point of the project stays so at every moment of every run, whatever files
      are lacking. */
  lemma SegmentKept(cfg: Config, run: seq<State>, i: nat)
    requires cfg.Valid() && CaughtUp(cfg.src, cfg.Applied()) && IsCommand(cfg)
    requires IsRun(cfg, run) && i < |run|
    ensures InitialSegment(run[i].server.store.Keys, cfg.src.Versions())
  {
    if cfg.job.ReadUp? || cfg.job.ReadUpTo? {
      EveryUpMoment(cfg, run, i);
      var vs := SortAsc(cfg.src.Versions() - cfg.Applied());
      var j: nat, e: nat :| UpState(cfg, vs, j, e, run[i].server) && e <= UpReach(cfg.src, vs);
      SegmentUp(cfg.src.Versions(), cfg.Applied(), j);
      PassedHasSql(cfg.src.up.Keys, cfg.src.up.Keys + cfg.src.metaUp, vs, j);
    } else {
      EveryDownMoment(cfg, run, i);
      var vs := SortDesc(cfg.Applied());
      var j: nat, e: nat :| DownState(cfg, vs, j, e, run[i].server) && e <= DownReach(cfg.src, vs);
      SegmentDown(cfg.src.Versions(), cfg.Applied(), j);
      PassedHasSql(cfg.src.down.Keys, cfg.src.down.Keys + cfg.src.metaDown, vs, j);
    }
  }

  /** No version without SQL comes before one that has SQL. */
  ghost predicate NoGap(files: map<nat, string>, walked: seq<nat>) {
    forall i, j :: 0 <= i < j < |walked| && walked[j] in files ==> walked[i] in files
  }

  /** With migrations that are metadata only it depends on their places: Up leaves an initial segment exactly if none of
      those it passes comes before one with SQL. */
  lemma UpKeepsSegmentIff(accepts: Verdict, skip: bool, src: Source, srv: Server)
    requires Willing(accepts, skip) && Fits(src.Versions()) && InitialSegment(srv.store.Keys, src.Versions())
    ensures var missing := SortAsc(src.Versions() - srv.store.Keys);
            InitialSegment(RunJob(accepts, skip, src, ReadUp(-1), srv).server.store.Keys, src.Versions()) <==>
            NoGap(src.up, missing[..UpReach(src, missing)])
  {
    var missing := SortAsc(src.Versions() - srv.store.Keys);
    StepsUp(accepts, skip, src, -1, srv);
    assert missing[..|missing|] == missing;
    SortAscEnumerates(src.Versions() - srv.store.Keys);
    AddedSegmentIff(src, srv.store.Keys, missing, UpReach(src, missing));
  }

  lemma AddedSegmentIff(src: Source, applied: set<nat>, missing: seq<nat>, n: nat)
    requires InitialSegment(applied, src.Versions()) && n <= |missing|
    requires Ascending(missing) && Elems(missing) == src.Versions() - applied
    ensures InitialSegment(applied + (Elems(missing[..n]) * src.up.Keys), src.Versions()) <==>
            NoGap(src.up, missing[..n])
  {
    var walked := missing[..n];
    var after := applied + (Elems(walked) * src.up.Keys);
    SplitElems(missing, n);
    if NoGap(src.up, walked) {
      forall x, y | x in src.Versions() && y in after && x < y && x !in applied
        ensures x in after
      {
        var j :| 0 <= j < n && walked[j] == y;
        assert x in Elems(missing);
        var i :| 0 <= i < |missing| && missing[i] == x;
        assert i < j && walked[i] == x;
      }
    } else {
      var i, j :| 0 <= i < j < n && walked[j] in src.up && walked[i] !in src.up;
      assert walked[i] in Elems(walked) && walked[j] in Elems(walked);
      assert walked[j] in after && walked[i] !in after;
    }
  }

  /** ... and so does Down. */
  lemma DownKeepsSegmentIff(accepts: Verdict, skip: bool, src: Source, srv: Server)
    requires Willing(accepts, skip) && Fits(src.Versions()) && InitialSegment(srv.store.Keys, src.Versions())
    ensures var recorded := SortDesc(srv.store.Keys);
            InitialSegment(RunJob(accepts, skip, src, ReadDown(-1), srv).server.store.Keys, src.Versions()) <==>
            NoGap(src.down, recorded[..DownReach(src, recorded)])
  {
    var recorded := SortDesc(srv.store.Keys);
    StepsDown(accepts, skip, src, -1, srv);
    assert recorded[..|recorded|] == recorded;
    SortDescEnumerates(srv.store.Keys);
    RemovedSegmentIff(src, srv.store.Keys, recorded, DownReach(src, recorded));
  }

  lemma RemovedSegmentIff(src: Source, applied: set<nat>, recorded: seq<nat>, n: nat)
    requires InitialSegment(applied, src.Versions()) && n <= |recorded|
    requires Descending(recorded) && Elems(recorded) == applied
    ensures InitialSegment(applied - (Elems(recorded[..n]) * src.down.Keys), src.Versions()) <==>
            NoGap(src.down, recorded[..n])
  {
    var walked := recorded[..n];
    var after := applied - (Elems(walked) * src.down.Keys);
    SplitElems(recorded, n);
    if NoGap(src.down, walked) {
      forall x, y | x in src.Versions() && y in applied && x < y && x !in after
        ensures y !in after
      {
        var j :| 0 <= j < n && walked[j] == x;
        assert y in Elems(recorded);
        var i :| 0 <= i < |recorded| && recorded[i] == y;
        assert i < j && walked[i] == y && y in Elems(walked);
      }
    } else {
      var i, j :| 0 <= i < j < n && walked[j] in src.down && walked[i] !in src.down;
      assert walked[i] in Elems(walked) && walked[j] in Elems(walked);
      assert walked[i] in after && walked[j] !in after;
    }
  }

  /** One command with one schedule of it; it may have been cut short anywhere. */
  datatype Episode = Episode(cfg: Config, run: seq<State>)

  /** A session: commands on one project, each starting on the server the one before left behind. */
  ghost predicate IsSession(src: Source, session: seq<Episode>) {
    && (forall n :: 0 <= n < |session| ==>
          session[n].cfg.src == src && session[n].cfg.Valid() && IsCommand(session[n].cfg) &&
          IsRun(session[n].cfg, session[n].run))
    && (forall n :: 0 < n < |session| ==>
          var before := session[n - 1].run;
          session[n].cfg.initial == before[|before| - 1].server)
  }

  /** Over whole sessions: however many commands run, however they are interleaved, cut short or failing, the recorded
      versions are at every moment an initial segment of the project. */
  lemma {:induction false} SessionKeepsSegment(src: Source, session: seq<Episode>, n: nat, i: nat)
    requires IsSession(src, session) && n < |session| && i < |session[n].run|
    requires CaughtUp(src, session[0].cfg.Applied())
    ensures InitialSegment(session[n].run[i].server.store.Keys, src.Versions())
    decreases n
  {
    if n > 0 {
      SessionKeepsSegment(src, session, n - 1, |session[n - 1].run| - 1);
    }
    SegmentKept(session[n].cfg, session[n].run, i);
  }

  /** Over whole sessions: what is dirty at any moment was dirty when the session began, so a server without a dirty
      version stays without one. */
  lemma {:induction false} SessionStaysClean(src: Source, session: seq<Episode>, n: nat, i: nat, v: nat)
    requires IsSession(src, session) && n < |session| && i < |session[n].run|
    requires v in session[n].run[i].server.store && session[n].run[i].server.store[v]
    ensures v in session[0].cfg.initial.store && session[0].cfg.initial.store[v]
    decreases n
  {
    NeverDirtied(session[n].cfg, session[n].run, i, v);
    if n > 0 {
      SessionStaysClean(src, session, n - 1, |session[n - 1].run| - 1, v);
    }
  }
}
