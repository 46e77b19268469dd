/** The runner's effect on the server, message by message. */
module Runner {
  import opened Ordering
  import opened Readers

  /** The server: recorded versions with their dirty flag, and the migrations it has executed, in order. */
  datatype Server = Server(store: map<nat, bool>, log: seq<Message>)

  /** How a batch of messages ended, with the error returned to the caller if any. */
  datatype Outcome = Outcome(server: Server, error: Option<Error>)

  predicate HasBody(m: Message) {
    m.Migration? && m.body.Some?
  }

  function Executed(skip: bool, m: Message, srv: Server): Server {
    if skip then srv else srv.(log := srv.log + [m])
  }

  function Stored(m: Message, srv: Server): Server
    requires m.Migration?
  {
    srv.(store := srv.store[m.version := false])
  }

  function Removed(m: Message, srv: Server): Server
    requires m.Migration?
  {
    srv.(store := srv.store - {m.version})
  }

  /** Running one migration to its end: an up migration stays recorded, a down migration does not. */
  function Commit(skip: bool, m: Message, srv: Server): Server {
    if !HasBody(m) then srv
    else
      var recorded := Stored(m, Executed(skip, m, srv));
      if m.version == m.target then recorded else Removed(m, recorded)
  }

  function Effect(skip: bool, ms: seq<Message>, srv: Server): Server
    decreases |ms|
  {
    if ms == [] then srv else Commit(skip, ms[|ms| - 1], Effect(skip, ms[..|ms| - 1], srv))
  }

  /** Running messages in order until one of them is an error or its SQL is rejected. `accepts` is the verdict of the
      server on a migration, given everything executed before. */
  function RunAll(accepts: (seq<Message>, Message) -> bool, skip: bool, ms: seq<Message>, srv: Server): Outcome {
    if ms == [] then Outcome(srv, None)
    else if ms[0].Failed? then Outcome(srv, Some(ms[0].error))
    else if HasBody(ms[0]) && !skip && !accepts(srv.log, ms[0]) then Outcome(srv, Some(SqlFailed(ms[0].version)))
    else RunAll(accepts, skip, ms[1..], Commit(skip, ms[0], srv))
  }

  /** Message k of ms is where a run of them ends: an error, or SQL the server rejects after what came before. */
  ghost predicate StopsHere(accepts: (seq<Message>, Message) -> bool, skip: bool, ms: seq<Message>, srv: Server, k: nat)
    requires k < |ms|
  {
    var m := ms[k];
    m.Failed? || (m.body.Some? && !skip && !accepts(Effect(skip, ms[..k], srv).log, m))
  }

  lemma {:induction false} EffectCons(skip: bool, m: Message, rest: seq<Message>, srv: Server)
    ensures Effect(skip, [m] + rest, srv) == Effect(skip, rest, Commit(skip, m, srv))
    decreases |rest|
  {
    if rest == [] {
      assert [m] + rest == [m] && [m][..0] == [];
    } else {
      var n := |rest| - 1;
      assert ([m] + rest)[..n + 1] == [m] + rest[..n];
      EffectCons(skip, m, rest[..n], srv);
    }
  }

  /** Whatever the server accepts: exactly the messages before the first error or rejected SQL are carried out, and that
      error, or the failure of that SQL, is returned. */
  lemma {:induction false} RunsToFirstFailure(accepts: (seq<Message>, Message) -> bool, skip: bool, ms: seq<Message>,
                                              srv: Server)
    returns (k: nat)
    ensures k <= |ms| && forall i :: 0 <= i < k ==> !StopsHere(accepts, skip, ms, srv, i)
    ensures k < |ms| ==> StopsHere(accepts, skip, ms, srv, k)
    ensures RunAll(accepts, skip, ms, srv) ==
            Outcome(Effect(skip, ms[..k], srv),
                    if k == |ms| then None
                    else if ms[k].Failed? then Some(ms[k].error)
                    else Some(SqlFailed(ms[k].version)))
    decreases |ms|
  {
    if ms == [] {
      k := 0;
    } else if ms[0].Failed? || (HasBody(ms[0]) && !skip && !accepts(srv.log, ms[0])) {
      k := 0;
      assert StopsHere(accepts, skip, ms, srv, 0);
    } else {
      var next, rest := Commit(skip, ms[0], srv), ms[1..];
      var j := RunsToFirstFailure(accepts, skip, rest, next);
      k := j + 1;
      forall i | 0 <= i <= j
        ensures Effect(skip, ms[..i + 1], srv) == Effect(skip, rest[..i], next)
      {
        assert ms[..i + 1] == [ms[0]] + rest[..i];
        EffectCons(skip, ms[0], rest[..i], srv);
      }
      forall i | 0 <= i < k
        ensures !StopsHere(accepts, skip, ms, srv, i)
      {
        if i > 0 {
          assert !StopsHere(accepts, skip, rest, next, i - 1);
        }
      }
    }
  }

  /** Only a version that was dirty before, and that no migration with SQL has touched since, is dirty afterwards. */
  lemma {:induction false} EffectFlags(skip: bool, ms: seq<Message>, srv: Server, v: nat)
    requires v in Effect(skip, ms, srv).store
    ensures Effect(skip, ms, srv).store[v] <==>
            v in srv.store && srv.store[v] && forall m :: m in ms && HasBody(m) ==> m.version != v
    decreases |ms|
  {
    if ms == [] {
    } else {
      var n := |ms| - 1;
      assert ms == ms[..n] + [ms[n]];
      if HasBody(ms[n]) && ms[n].version == v {
        assert ms[n] in ms;
      } else {
        EffectFlags(skip, ms[..n], srv, v);
        assert forall m :: m in ms && HasBody(m) && m.version == v ==> m in ms[..n];
      }
    }
  }

  /** A version no message names keeps its recorded state. */
  lemma {:induction false} EffectTouches(skip: bool, ms: seq<Message>, srv: Server, v: nat)
    requires forall m :: m in ms && m.Migration? ==> m.version != v
    ensures v in Effect(skip, ms, srv).store <==> v in srv.store
    ensures v in srv.store ==> Effect(skip, ms, srv).store[v] == srv.store[v]
    decreases |ms|
  {
    if ms == [] {
    } else {
      EffectTouches(skip, ms[..|ms| - 1], srv, v);
    }
  }
}

/** Reader and runner as two processes joined by a channel: every schedule, any capacity, with SQL failures, store
    failures and a stop signal at any moment. */
module Protocol {
  import opened Ordering
  import opened Readers
  import opened Runner

  /** `live` decides whether the reader sees the recorded versions as the runner changes them or as they were at the
      last scan. */
  datatype Config = Config(
    src: Source,
    job: Job,
    skip: bool,
    live: bool,
    capacity: nat,
    accepts: (seq<Message>, Message) -> bool,
    initial: Server)
  {
    function Applied(): set<nat> {
      initial.store.Keys
    }

    function All(): seq<Message> {
      Plan(src, Applied(), job, Start)
    }

    ghost predicate Valid() {
      Fits(src.Versions()) && Fits(Applied()) && ValidJob(Applied(), job)
    }
  }

  datatype Ending = Completed | Interrupted | Aborted(error: Error)

  datatype Phase = Receiving | ToExecute(m: Message) | ToRecord(m: Message) | ToRemove(m: Message) | Ended(how: Ending)

  /** `pending` is what the reader is blocked on sending; `taken` is the history of what the runner received. */
  datatype State = State(
    reader: Reader,
    pending: seq<Message>,
    queue: seq<Message>,
    taken: seq<Message>,
    phase: Phase,
    server: Server,
    stopped: bool)
  {
    function Sent(): seq<Message> {
      taken + queue + pending
    }
  }

  datatype Action =
    | Signal
    | ReaderIterates
    | ReaderStops
    | ReaderSends
    | RunnerReceives
    | RunnerMeetsReader
    | RunnerSeesClose
    | SqlAnswers
    | RecordsVersion
    | RemovesVersion
    | StoreFails

  function Init(cfg: Config): State {
    State(Start, [], [], [], Receiving, cfg.initial, false)
  }

  function View(cfg: Config, s: State): set<nat> {
    if cfg.live then s.server.store.Keys else cfg.Applied()
  }

  predicate Enabled(cfg: Config, s: State, a: Action) {
    match a
    case Signal => !s.stopped
    case ReaderIterates => s.pending == [] && s.reader.Active() && (s.reader.Walk? || cfg.job.ReadOne? ==> !s.stopped)
    case ReaderStops => s.pending == [] && s.stopped && (s.reader.Walk? || (s.reader.Start? && cfg.job.ReadOne?))
    case ReaderSends => s.pending != [] && |s.queue| < cfg.capacity
    case RunnerReceives => s.phase.Receiving? && s.queue != []
    case RunnerMeetsReader => s.phase.Receiving? && s.queue == [] && s.pending != []
    case RunnerSeesClose => s.phase.Receiving? && s.queue == [] && s.pending == [] && s.reader.Finished?
    case SqlAnswers => s.phase.ToExecute? && HasBody(s.phase.m)
    case RecordsVersion => s.phase.ToRecord? && HasBody(s.phase.m)
    case RemovesVersion => s.phase.ToRemove? && HasBody(s.phase.m)
    case StoreFails => (s.phase.ToRecord? || s.phase.ToRemove?) && HasBody(s.phase.m)
  }

  /** The runner's first look at a message it received. */
  function Handle(cfg: Config, s: State, m: Message): Phase {
    if s.stopped then Ended(Interrupted)
    else if m.Failed? then Ended(Aborted(m.error))
    else if m.body.None? then Receiving
    else if cfg.skip then ToRecord(m)
    else ToExecute(m)
  }

  function Next(cfg: Config, s: State, a: Action): State
    requires Enabled(cfg, s, a)
  {
    match a
    case Signal => s.(stopped := true)
    case ReaderIterates =>
      var it := Iterate(cfg.src, cfg.Applied(), cfg.job, s.reader, View(cfg, s));
      s.(reader := it.next, pending := it.out)
    case ReaderStops => s.(reader := Finished)
    case ReaderSends => s.(pending := s.pending[1..], queue := s.queue + [s.pending[0]])
    case RunnerReceives =>
      s.(queue := s.queue[1..], taken := s.taken + [s.queue[0]], phase := Handle(cfg, s, s.queue[0]))
    case RunnerMeetsReader =>
      s.(pending := s.pending[1..], taken := s.taken + [s.pending[0]], phase := Handle(cfg, s, s.pending[0]))
    case RunnerSeesClose => s.(phase := Ended(Completed))
    case SqlAnswers =>
      if cfg.accepts(s.server.log, s.phase.m)
      then s.(server := Executed(false, s.phase.m, s.server), phase := ToRecord(s.phase.m))
      else s.(phase := Ended(Aborted(SqlFailed(s.phase.m.version))))
    case RecordsVersion =>
      s.(server := Stored(s.phase.m, s.server),
         phase := if s.phase.m.version == s.phase.m.target then Receiving else ToRemove(s.phase.m))
    case RemovesVersion => s.(server := Removed(s.phase.m, s.server), phase := Receiving)
    case StoreFails => s.(phase := Ended(Aborted(StoreFailed(s.phase.m.version))))
  }

  ghost predicate Step(cfg: Config, s: State, t: State) {
    exists a :: Enabled(cfg, s, a) && t == Next(cfg, s, a)
  }

  ghost predicate IsRun(cfg: Config, run: seq<State>) {
    && run != []
    && run[0] == Init(cfg)
    && forall i :: 0 < i < |run| ==> Step(cfg, run[i - 1], run[i])
  }

  /***** What every step keeps *****/

  /** A server on which message m has been carried out not at all, partly or wholly. */
  ghost predicate PartOf(skip: bool, m: Message, before: Server, srv: Server) {
    || srv == before
    || (HasBody(m) && srv == Executed(skip, m, before))
    || (HasBody(m) && m.version != m.target && srv == Stored(m, Executed(skip, m, before)))
    || srv == Commit(skip, m, before)
  }

  /** The server is what the taken messages made of it, except that the last one may be only partly carried out. */
  ghost predicate Reflects(cfg: Config, phase: Phase, taken: seq<Message>, server: Server) {
    if phase.Receiving? || phase == Ended(Completed) then server == Effect(cfg.skip, taken, cfg.initial)
    else
      && taken != []
      && var m, before := taken[|taken| - 1], Effect(cfg.skip, taken[..|taken| - 1], cfg.initial);
      match phase
      case ToExecute(m') => m' == m && HasBody(m) && !cfg.skip && server == before
      case ToRecord(m') => m' == m && HasBody(m) && server == Executed(cfg.skip, m, before)
      case ToRemove(m') => m' == m && HasBody(m) && m.version != m.target &&
                           server == Stored(m, Executed(cfg.skip, m, before))
      case _ => PartOf(cfg.skip, m, before, server)
  }

  ghost predicate ReaderInv(cfg: Config, s: State) {
    && ValidReader(cfg.src, cfg.Applied(), cfg.job, s.reader)
    && (forall m :: m in s.Sent() && m.Migration? ==> !Untouched(cfg.job, s.reader, m.version))
    && (s.phase == Ended(Completed) ==> s.reader.Finished? && s.queue == [] && s.pending == [])
  }

  /** Conservation: what was sent and what is still planned make up the plan of the whole walk. Only a reader that
      obeyed the stop signal leaves a rest unsent. */
  ghost predicate Conserved(cfg: Config, s: State) {
    var rest := Plan(cfg.src, cfg.Applied(), cfg.job, s.reader);
    && s.Sent() + rest <= cfg.All()
    && (s.reader.Active() || !s.stopped ==> s.Sent() + rest == cfg.All())
  }

  ghost predicate Inv(cfg: Config, s: State) {
    ReaderInv(cfg, s) && Conserved(cfg, s) && Reflects(cfg, s.phase, s.taken, s.server)
  }

  /** The view differs from the initial applied set only where the reader has already been. */
  lemma ViewAgrees(cfg: Config, s: State)
    requires Inv(cfg, s)
    ensures Agrees(cfg.job, s.reader, View(cfg, s), cfg.Applied())
  {
    forall v: nat | Untouched(cfg.job, s.reader, v)
      ensures v in View(cfg, s) <==> v in cfg.Applied()
    {
      forall m | m in s.taken && m.Migration? ensures m.version != v {
        assert m in s.Sent();
      }
      EffectTouches(cfg.skip, s.taken, cfg.initial, v);
      if s.taken != [] {
        EffectTouches(cfg.skip, s.taken[..|s.taken| - 1], cfg.initial, v);
      }
    }
  }

  lemma SendOn(sent: seq<Message>, out: seq<Message>, rest: seq<Message>, rest': seq<Message>)
    requires rest == out + rest'
    ensures sent + rest == (sent + out) + rest'
    ensures forall m :: m in sent + out <==> m in sent || m in out
  {
  }

  lemma IterateConserves(cfg: Config, s: State, t: State)
    requires s.reader.Active() && s.pending == [] && Conserved(cfg, s)
    requires t == s.(reader := t.reader, pending := t.pending)
    requires Plan(cfg.src, cfg.Applied(), cfg.job, s.reader) ==
             t.pending + Plan(cfg.src, cfg.Applied(), cfg.job, t.reader)
    ensures Conserved(cfg, t)
  {
    SendOn(s.Sent(), t.pending, Plan(cfg.src, cfg.Applied(), cfg.job, s.reader),
           Plan(cfg.src, cfg.Applied(), cfg.job, t.reader));
    assert t.Sent() == s.Sent() + t.pending;
  }

  lemma IterateKeeps(cfg: Config, s: State, t: State)
    requires cfg.Valid() && Inv(cfg, s) && Enabled(cfg, s, ReaderIterates) && t == Next(cfg, s, ReaderIterates)
    ensures ReaderInv(cfg, t) && Conserved(cfg, t)
  {
    ViewAgrees(cfg, s);
    IterationLaw(cfg.src, cfg.Applied(), cfg.job, s.reader, View(cfg, s));
    IterateConserves(cfg, s, t);
    assert forall m :: m in t.Sent() ==> m in s.Sent() || m in t.pending;
  }

  /** Moving a message along the channel changes neither what was sent nor what is planned. */
  lemma TransportConserves(cfg: Config, s: State, t: State)
    requires ReaderInv(cfg, s) && Conserved(cfg, s) && s.phase != Ended(Completed) && t.phase != Ended(Completed)
    requires t.reader == s.reader && t.stopped == s.stopped && t.Sent() == s.Sent()
    ensures ReaderInv(cfg, t) && Conserved(cfg, t)
  {
  }

  lemma SendKeeps(cfg: Config, s: State, t: State)
    requires Inv(cfg, s) && Enabled(cfg, s, ReaderSends) && t == Next(cfg, s, ReaderSends)
    ensures Inv(cfg, t)
  {
    assert t.Sent() == s.Sent();
    TransportConserves(cfg, s, t);
  }

  lemma ReceiveKeeps(cfg: Config, s: State, m: Message, t: State)
    requires Inv(cfg, s) && s.phase.Receiving?
    requires t.reader == s.reader && t.stopped == s.stopped && t.server == s.server
    requires t.taken == s.taken + [m] && t.phase == Handle(cfg, s, m) && t.Sent() == s.Sent()
    ensures Inv(cfg, t)
  {
    TransportConserves(cfg, s, t);
    HandleReflects(cfg, s, m);
  }

  lemma HandleReflects(cfg: Config, s: State, m: Message)
    requires Reflects(cfg, s.phase, s.taken, s.server) && s.phase.Receiving?
    ensures Reflects(cfg, Handle(cfg, s, m), s.taken + [m], s.server)
  {
    assert (s.taken + [m])[..|s.taken|] == s.taken;
  }

  lemma SentOn<T>(taken: seq<T>, queue: seq<T>, pending: seq<T>)
    requires queue != []
    ensures (taken + [queue[0]]) + queue[1..] + pending == taken + queue + pending
  {
    assert (taken + [queue[0]]) + queue[1..] == taken + queue;
  }

  lemma SentAcross<T>(taken: seq<T>, pending: seq<T>)
    requires pending != []
    ensures (taken + [pending[0]]) + [] + pending[1..] == taken + [] + pending
  {
  }

  lemma TakesFromQueue(cfg: Config, s: State)
    requires Inv(cfg, s) && Enabled(cfg, s, RunnerReceives)
    ensures Inv(cfg, Next(cfg, s, RunnerReceives))
  {
    var t := Next(cfg, s, RunnerReceives);
    SentOn(s.taken, s.queue, s.pending);
    ReceiveKeeps(cfg, s, s.queue[0], t);
  }

  lemma TakesFromReader(cfg: Config, s: State)
    requires Inv(cfg, s) && Enabled(cfg, s, RunnerMeetsReader)
    ensures Inv(cfg, Next(cfg, s, RunnerMeetsReader))
  {
    var t := Next(cfg, s, RunnerMeetsReader);
    SentAcross(s.taken, s.pending);
    assert s.queue == t.queue == [];
    ReceiveKeeps(cfg, s, s.pending[0], t);
  }

  lemma TransportKeeps(cfg: Config, s: State, a: Action)
    requires Inv(cfg, s) && Enabled(cfg, s, a) && a in {ReaderSends, RunnerReceives, RunnerMeetsReader}
    ensures Inv(cfg, Next(cfg, s, a))
  {
    if a == ReaderSends {
      SendKeeps(cfg, s, Next(cfg, s, a));
    } else if a == RunnerReceives {
      TakesFromQueue(cfg, s);
    } else {
      TakesFromReader(cfg, s);
    }
  }

  lemma RunnerKeeps(cfg: Config, s: State, a: Action)
    requires cfg.Valid() && Inv(cfg, s) && Enabled(cfg, s, a)
    requires a in {RunnerSeesClose, SqlAnswers, RecordsVersion, RemovesVersion, StoreFails}
    ensures Inv(cfg, Next(cfg, s, a))
  {
  }

  lemma StepKeeps(cfg: Config, s: State, t: State)
    requires cfg.Valid() && Inv(cfg, s) && Step(cfg, s, t)
    ensures Inv(cfg, t)
  {
    var a :| Enabled(cfg, s, a) && t == Next(cfg, s, a);
    match a
    case ReaderIterates => IterateKeeps(cfg, s, t);
    case ReaderSends => TransportKeeps(cfg, s, a);
    case RunnerReceives => TransportKeeps(cfg, s, a);
    case RunnerMeetsReader => TransportKeeps(cfg, s, a);
    case Signal =>
    case ReaderStops =>
    case _ => RunnerKeeps(cfg, s, a);
  }

  lemma {:induction false} RunKeeps(cfg: Config, run: seq<State>, i: nat)
    requires cfg.Valid() && IsRun(cfg, run) && i < |run|
    ensures Inv(cfg, run[i])
  {
    if i == 0 {
    } else {
      RunKeeps(cfg, run, i - 1);
      StepKeeps(cfg, run[i - 1], run[i]);
    }
  }

  /***** Progress *****/

  /** As long as the runner has not ended, some process other than the environment can move: no deadlock, whatever the
      capacity. */
  lemma Progress(cfg: Config, s: State)
    requires cfg.Valid() && Inv(cfg, s) && !s.phase.Ended?
    ensures exists a :: Enabled(cfg, s, a) && a != Signal && a != StoreFails
  {
    var a: Action;
    if s.phase.ToExecute? {
      a := SqlAnswers;
    } else if s.phase.ToRecord? {
      a := RecordsVersion;
    } else if s.phase.ToRemove? {
      a := RemovesVersion;
    } else if s.queue != [] {
      a := RunnerReceives;
    } else if s.pending != [] {
      a := RunnerMeetsReader;
    } else if s.reader.Finished? {
      a := RunnerSeesClose;
    } else if s.stopped && (s.reader.Walk? || cfg.job.ReadOne?) {
      a := ReaderStops;
    } else {
      a := ReaderIterates;
    }
    assert Enabled(cfg, s, a);
  }

  ghost function PhaseWeight(phase: Phase): nat {
    match phase
    case Ended(_) => 0
    case Receiving => 1
    case ToRemove(_) => 2
    case ToRecord(_) => 3
    case ToExecute(_) => 4
  }

  ghost function Measure(cfg: Config, s: State): nat {
    11 * Rank(cfg.src, cfg.Applied(), cfg.job, s.reader) + 5 * |s.pending| + 4 * |s.queue| + PhaseWeight(s.phase)
    + (if s.stopped then 0 else 1)
  }

  /** One iteration seen from outside: the plan moves into the channel, at most two messages at a time. */
  lemma ReaderStep(cfg: Config, s: State, t: State)
    requires cfg.Valid() && Inv(cfg, s) && Enabled(cfg, s, ReaderIterates) && t == Next(cfg, s, ReaderIterates)
    ensures t == s.(reader := t.reader, pending := t.pending) && |t.pending| <= 2
    ensures Plan(cfg.src, cfg.Applied(), cfg.job, s.reader) ==
            t.pending + Plan(cfg.src, cfg.Applied(), cfg.job, t.reader)
    ensures Rank(cfg.src, cfg.Applied(), cfg.job, t.reader) < Rank(cfg.src, cfg.Applied(), cfg.job, s.reader)
  {
    ViewAgrees(cfg, s);
    OneMigration(cfg.src, cfg.Applied(), cfg.job, s.reader, View(cfg, s));
    IterationLaw(cfg.src, cfg.Applied(), cfg.job, s.reader, View(cfg, s));
  }

  lemma TransportDecreases(cfg: Config, s: State, a: Action)
    requires Enabled(cfg, s, a) && a in {Signal, ReaderSends, RunnerReceives, RunnerMeetsReader}
    ensures Measure(cfg, Next(cfg, s, a)) < Measure(cfg, s)
  {
  }

  lemma RunnerDecreases(cfg: Config, s: State, a: Action)
    requires Enabled(cfg, s, a) && a in {RunnerSeesClose, SqlAnswers, RecordsVersion, RemovesVersion, StoreFails}
    ensures Measure(cfg, Next(cfg, s, a)) < Measure(cfg, s)
  {
  }

  lemma StepDecreases(cfg: Config, s: State, t: State)
    requires cfg.Valid() && Inv(cfg, s) && Step(cfg, s, t)
    ensures Measure(cfg, t) < Measure(cfg, s)
  {
    var a :| Enabled(cfg, s, a) && t == Next(cfg, s, a);
    if a == ReaderIterates {
      ReaderStep(cfg, s, t);
    } else if a == ReaderStops {
    } else if a in {Signal, ReaderSends, RunnerReceives, RunnerMeetsReader} {
      TransportDecreases(cfg, s, a);
    } else {
      RunnerDecreases(cfg, s, a);
    }
  }

  /** Every schedule is finite, with a bound known before it starts. */
  lemma {:induction false} RunsAreFinite(cfg: Config, run: seq<State>)
    requires cfg.Valid() && IsRun(cfg, run)
    ensures Measure(cfg, run[|run| - 1]) + |run| <= Measure(cfg, Init(cfg)) + 1
    decreases |run|
  {
    if |run| > 1 {
      var shorter := run[..|run| - 1];
      RunsAreFinite(cfg, shorter);
      RunKeeps(cfg, run, |run| - 2);
      StepDecreases(cfg, run[|run| - 2], run[|run| - 1]);
    }
  }

  /***** Schedule independence *****/

  /** What reading everything first and running it afterwards would give. */
  function Sequential(cfg: Config): Outcome {
    RunAll(cfg.accepts, cfg.skip, cfg.All(), cfg.initial)
  }

  /** Finishing the present state sequentially gives the sequential outcome. */
  ghost predicate OnCourse(cfg: Config, phase: Phase, rest: seq<Message>, server: Server) {
    match phase
    case Receiving => RunAll(cfg.accepts, cfg.skip, rest, server) == Sequential(cfg)
    case ToExecute(m) => HasBody(m) && !cfg.skip && RunAll(cfg.accepts, cfg.skip, [m] + rest, server) == Sequential(cfg)
    case ToRecord(m) =>
      HasBody(m) &&
      var recorded := Stored(m, server);
      RunAll(cfg.accepts, cfg.skip, rest, if m.version == m.target then recorded else Removed(m, recorded))
      == Sequential(cfg)
    case ToRemove(m) =>
      HasBody(m) && RunAll(cfg.accepts, cfg.skip, rest, Removed(m, server)) == Sequential(cfg)
    case Ended(how) =>
      (how.Completed? ==> Sequential(cfg) == Outcome(server, None)) &&
      (how.Aborted? && !how.error.StoreFailed? ==> Sequential(cfg) == Outcome(server, Some(how.error)))
  }

  ghost function Rest(cfg: Config, s: State): seq<Message> {
    s.queue + s.pending + Plan(cfg.src, cfg.Applied(), cfg.job, s.reader)
  }

  lemma ReceiveStaysOnCourse(cfg: Config, s: State, m: Message, rest: seq<Message>)
    requires !s.stopped && OnCourse(cfg, Receiving, [m] + rest, s.server)
    ensures OnCourse(cfg, Handle(cfg, s, m), rest, s.server)
  {
    assert ([m] + rest)[1..] == rest;
  }

  lemma RunnerStaysOnCourse(cfg: Config, s: State, a: Action, rest: seq<Message>)
    requires Enabled(cfg, s, a) && a in {SqlAnswers, RecordsVersion, RemovesVersion, StoreFails}
    requires OnCourse(cfg, s.phase, rest, s.server)
    ensures OnCourse(cfg, Next(cfg, s, a).phase, rest, Next(cfg, s, a).server)
  {
    if a == SqlAnswers {
      assert ([s.phase.m] + rest)[1..] == rest;
    }
  }

  lemma TransportStaysOnCourse(cfg: Config, s: State, a: Action)
    requires Enabled(cfg, s, a) && a in {ReaderSends, RunnerReceives, RunnerMeetsReader} && !s.stopped
    requires OnCourse(cfg, s.phase, Rest(cfg, s), s.server)
    ensures var t := Next(cfg, s, a); OnCourse(cfg, t.phase, Rest(cfg, t), t.server)
  {
    RestMoves(cfg, s, a);
    if a != ReaderSends {
      var m := if a == RunnerReceives then s.queue[0] else s.pending[0];
      ReceiveStaysOnCourse(cfg, s, m, Rest(cfg, Next(cfg, s, a)));
    }
  }

  lemma RestMoves(cfg: Config, s: State, a: Action)
    requires Enabled(cfg, s, a) && a in {ReaderSends, RunnerReceives, RunnerMeetsReader}
    ensures var rest := Rest(cfg, Next(cfg, s, a));
            Rest(cfg, s) == if a == ReaderSends then rest
                            else if a == RunnerReceives then [s.queue[0]] + rest
                            else [s.pending[0]] + rest
  {
    var plan := Plan(cfg.src, cfg.Applied(), cfg.job, s.reader);
    if a == ReaderSends {
      MoveOver(s.queue, s.pending);
    } else if a == RunnerReceives {
      TakeFirst(s.queue, s.pending, plan);
    } else {
      TakeFirst(s.pending, [], plan);
      assert [] + s.pending == s.pending == s.pending + [];
      assert s.pending[1..] + [] == s.pending[1..] == [] + s.pending[1..];
    }
  }

  lemma MoveOver<T>(a: seq<T>, b: seq<T>)
    requires b != []
    ensures (a + [b[0]]) + b[1..] == a + b
  {
  }

  lemma TakeFirst<T>(a: seq<T>, b: seq<T>, c: seq<T>)
    requires a != []
    ensures a + b + c == [a[0]] + (a[1..] + b + c)
  {
    assert a + b == [a[0]] + (a[1..] + b);
  }

  lemma ReaderStaysOnCourse(cfg: Config, s: State, t: State)
    requires cfg.Valid() && Inv(cfg, s) && Enabled(cfg, s, ReaderIterates) && t == Next(cfg, s, ReaderIterates)
    ensures Rest(cfg, t) == Rest(cfg, s) && t.phase == s.phase && t.server == s.server
  {
    ReaderStep(cfg, s, t);
    Associate(s.queue, t.pending, Plan(cfg.src, cfg.Applied(), cfg.job, t.reader));
    assert s.queue + [] == s.queue;
  }

  lemma StepStaysOnCourse(cfg: Config, s: State, t: State)
    requires cfg.Valid() && Inv(cfg, s) && Step(cfg, s, t) && !t.stopped
    requires OnCourse(cfg, s.phase, Rest(cfg, s), s.server)
    ensures OnCourse(cfg, t.phase, Rest(cfg, t), t.server)
  {
    var a :| Enabled(cfg, s, a) && t == Next(cfg, s, a);
    if a == ReaderIterates {
      ReaderStaysOnCourse(cfg, s, t);
    } else if a == RunnerSeesClose {
      assert Rest(cfg, s) == [];
    } else if a in {ReaderSends, RunnerReceives, RunnerMeetsReader} {
      TransportStaysOnCourse(cfg, s, a);
    } else {
      assert Rest(cfg, t) == Rest(cfg, s);
      RunnerStaysOnCourse(cfg, s, a, Rest(cfg, s));
    }
  }

  lemma {:induction false} RunStaysOnCourse(cfg: Config, run: seq<State>, i: nat)
    requires cfg.Valid() && IsRun(cfg, run) && i < |run| && !run[i].stopped
    ensures OnCourse(cfg, run[i].phase, Rest(cfg, run[i]), run[i].server)
  {
    if i == 0 {
      assert Rest(cfg, run[0]) == cfg.All();
    } else {
      assert !run[i - 1].stopped by { StopIsFinal(cfg, run[i - 1], run[i]); }
      RunKeeps(cfg, run, i - 1);
      RunStaysOnCourse(cfg, run, i - 1);
      StepStaysOnCourse(cfg, run[i - 1], run[i]);
    }
  }

  lemma StopIsFinal(cfg: Config, s: State, t: State)
    requires Step(cfg, s, t)
    ensures s.stopped ==> t.stopped
  {
  }

  /***** Main results *****/

  /** Schedule independence. However the two processes interleave, whatever the capacity, and whether the reader sees
      the recorded versions live or as scanned: a run that ends without a stop signal or a failure of the version store
      leaves the server, and returns the error, that reading first and running afterwards gives. */
  lemma ScheduleIndependence(cfg: Config, run: seq<State>)
    requires cfg.Valid() && IsRun(cfg, run)
    requires var last := run[|run| - 1];
             last.phase.Ended? && !last.stopped && !(last.phase.how.Aborted? && last.phase.how.error.StoreFailed?)
    ensures var last := run[|run| - 1];
            Sequential(cfg) ==
            Outcome(last.server, if last.phase.how.Aborted? then Some(last.phase.how.error) else None)
  {
    var last := run[|run| - 1];
    RunKeeps(cfg, run, |run| - 1);
    RunStaysOnCourse(cfg, run, |run| - 1);
    NoInterruptWithoutStop(cfg, run, |run| - 1);
  }

  lemma {:induction false} NoInterruptWithoutStop(cfg: Config, run: seq<State>, i: nat)
    requires IsRun(cfg, run) && i < |run| && !run[i].stopped
    ensures run[i].phase != Ended(Interrupted)
  {
    if i == 0 {
    } else {
      StopIsFinal(cfg, run[i - 1], run[i]);
      NoInterruptWithoutStop(cfg, run, i - 1);
    }
  }

  /** The server after k messages of the plan, the next of which may be partly carried out. */
  ghost predicate After(cfg: Config, k: nat, server: Server)
    requires k <= |cfg.All()|
  {
    var done := Effect(cfg.skip, cfg.All()[..k], cfg.initial);
    server == done || (k < |cfg.All()| && PartOf(cfg.skip, cfg.All()[k], done, server))
  }

  /** Safety at every moment of every schedule, also after SQL failures, store failures and stop signals: the server
      is the initial one changed by a prefix of the plan. */
  lemma EveryMoment(cfg: Config, run: seq<State>, i: nat)
    requires cfg.Valid() && IsRun(cfg, run) && i < |run|
    ensures exists k :: 0 <= k <= |cfg.All()| && After(cfg, k, run[i].server)
  {
    var s := run[i];
    RunKeeps(cfg, run, i);
    var n := |s.taken|;
    assert s.taken == cfg.All()[..n];
    if s.server == Effect(cfg.skip, s.taken, cfg.initial) {
      assert After(cfg, n, s.server);
    } else {
      assert s.taken[..n - 1] == cfg.All()[..n - 1];
      assert After(cfg, n - 1, s.server);
    }
  }

  /** What a reader looks up: on a live view the versions as they are recorded now, otherwise those of the last scan. */
  lemma ReaderLooksUp(cfg: Config, s: State)
    requires Enabled(cfg, s, ReaderIterates)
    ensures var recorded := if cfg.live then s.server.store.Keys else cfg.initial.store.Keys;
            var it := Iterate(cfg.src, cfg.initial.store.Keys, cfg.job, s.reader, recorded);
            Next(cfg, s, ReaderIterates) == s.(reader := it.next, pending := it.out)
  {
  }

  /***** Dirty flags *****/

  /** At no moment of any run is a version dirty that was not dirty before. */
  lemma {:induction false} NeverDirtied(cfg: Config, run: seq<State>, i: nat, v: nat)
    requires IsRun(cfg, run) && i < |run| && v in run[i].server.store && run[i].server.store[v]
    ensures v in cfg.initial.store && cfg.initial.store[v]
  {
    if i == 0 {
    } else {
      var a :| Enabled(cfg, run[i - 1], a) && run[i] == Next(cfg, run[i - 1], a);
      NeverDirtied(cfg, run, i - 1, v);
    }
  }

  /** A version that no message of the plan names keeps its place in the store and its flag. */
  lemma {:induction false} UntouchedAtEveryMoment(cfg: Config, run: seq<State>, i: nat, v: nat)
    requires cfg.Valid() && IsRun(cfg, run) && i < |run|
    requires forall m :: m in cfg.All() && m.Migration? ==> m.version != v
    ensures v in run[i].server.store <==> v in cfg.initial.store
    ensures v in cfg.initial.store ==> run[i].server.store[v] == cfg.initial.store[v]
  {
    EveryMoment(cfg, run, i);
    var k :| 0 <= k <= |cfg.All()| && After(cfg, k, run[i].server);
    var done := Effect(cfg.skip, cfg.All()[..k], cfg.initial);
    EffectTouches(cfg.skip, cfg.All()[..k], cfg.initial, v);
    if run[i].server != done {
      assert cfg.All()[k] in cfg.All();
      PartTouches(cfg.skip, cfg.All()[k], done, run[i].server, v);
    }
  }

  lemma PartTouches(skip: bool, m: Message, before: Server, srv: Server, v: nat)
    requires PartOf(skip, m, before, srv) && (m.Migration? ==> m.version != v)
    ensures v in srv.store <==> v in before.store
    ensures v in before.store ==> srv.store[v] == before.store[v]
  {
  }

  /***** Failures *****/

  /** When the store fails, in any state of any run, the run ends there: the server stays as it is, and the failure is
      reported for the version of the message taken last. */
  lemma StoreFailureEnds(cfg: Config, run: seq<State>, i: nat)
    requires cfg.Valid() && IsRun(cfg, run) && i < |run| && Enabled(cfg, run[i], StoreFails)
    ensures var s, t := run[i], Next(cfg, run[i], StoreFails);
            && s.taken != [] && s.taken[|s.taken| - 1].Migration?
            && t == s.(phase := Ended(Aborted(StoreFailed(s.taken[|s.taken| - 1].version))))
  {
    RunKeeps(cfg, run, i);
  }

  /***** After a stop *****/

  /** Between two states of a run, the first of them stopped: the message that was in hand may have been carried out
      further, and one more may have been taken, which ended the run. */
  ghost predicate Obeyed(a: State, b: State) {
    && b.stopped
    && (b.taken == a.taken ||
        (|b.taken| == |a.taken| + 1 && b.taken[..|a.taken|] == a.taken && b.phase == Ended(Interrupted)))
    && (a.phase.Receiving? || a.phase.Ended? ==> b.server == a.server && (b.phase.Receiving? || b.phase.Ended?))
    && (a.phase.Ended? ==> b.phase == a.phase)
    && (!a.phase.Receiving? && !a.phase.Ended? && HasBody(a.phase.m) ==>
          && (b.server.log == a.server.log || (a.phase.ToExecute? && b.server.log == a.server.log + [a.phase.m]))
          && (forall v :: v != a.phase.m.version ==> (v in b.server.store <==> v in a.server.store))
          && (forall v :: v != a.phase.m.version && v in a.server.store ==> b.server.store[v] == a.server.store[v])
          && (!b.phase.Receiving? && !b.phase.Ended? ==> b.phase.m == a.phase.m)
          && (b.phase.ToExecute? ==> b.phase == a.phase && b.server == a.server))
  }

  lemma StaysObeyed(cfg: Config, a: State, b: State, c: State)
    requires Obeyed(a, b) && Step(cfg, b, c)
    ensures Obeyed(a, c)
  {
    var act :| Enabled(cfg, b, act) && c == Next(cfg, b, act);
    if act in {SqlAnswers, RecordsVersion, RemovesVersion, StoreFails} {
      CarriesOn(cfg, a, b, act);
    }
  }

  /** Carrying out the message in hand. */
  lemma CarriesOn(cfg: Config, a: State, b: State, act: Action)
    requires Obeyed(a, b) && Enabled(cfg, b, act)
    requires act in {SqlAnswers, RecordsVersion, RemovesVersion, StoreFails}
    ensures Obeyed(a, Next(cfg, b, act))
  {
  }

  /** After a stop signal the runner finishes the message in hand at most: it takes up no other one, executes nothing
      else and touches no other version. */
  lemma {:induction false} StopIsObeyed(cfg: Config, run: seq<State>, i: nat, j: nat)
    requires IsRun(cfg, run) && i <= j < |run| && run[i].stopped
    ensures var a, b := run[i], run[j];
            && (b.taken == a.taken || (|b.taken| == |a.taken| + 1 && b.phase == Ended(Interrupted)))
            && (a.phase.Receiving? || a.phase.Ended? ==> b.server == a.server)
            && (!a.phase.Receiving? && !a.phase.Ended? && HasBody(a.phase.m) ==>
                  && (b.server.log == a.server.log || b.server.log == a.server.log + [a.phase.m])
                  && (forall v :: v != a.phase.m.version ==> (v in b.server.store <==> v in a.server.store)))
    ensures Obeyed(run[i], run[j])
    decreases j
  {
    if j == i {
    } else {
      StopIsObeyed(cfg, run, i, j - 1);
      StaysObeyed(cfg, run[i], run[j - 1], run[j]);
    }
  }

  /** A reader that is in its loop sends nothing more after a stop signal. */
  lemma {:induction false} ReaderObeys(cfg: Config, run: seq<State>, i: nat, j: nat)
    requires IsRun(cfg, run) && i <= j < |run| && run[i].stopped && !run[i].reader.Start?
    ensures run[j].stopped && !run[j].reader.Start? && run[j].Sent() == run[i].Sent()
    decreases j
  {
    if j == i {
    } else {
      ReaderObeys(cfg, run, i, j - 1);
      StepObeys(cfg, run[j - 1], run[j]);
    }
  }

  lemma StepObeys(cfg: Config, s: State, t: State)
    requires Step(cfg, s, t) && s.stopped && !s.reader.Start?
    ensures t.stopped && !t.reader.Start? && t.Sent() == s.Sent()
  {
    var a :| Enabled(cfg, s, a) && t == Next(cfg, s, a);
    if a in {ReaderSends, RunnerReceives, RunnerMeetsReader} {
      SameSent(cfg, s, a);
    }
  }

  lemma SameSent(cfg: Config, s: State, a: Action)
    requires Enabled(cfg, s, a) && a in {ReaderSends, RunnerReceives, RunnerMeetsReader}
    ensures Next(cfg, s, a).Sent() == s.Sent()
  {
    if a == RunnerReceives {
      SentOn(s.taken, s.queue, s.pending);
    } else if a == RunnerMeetsReader {
      SentAcross(s.taken, s.pending);
    }
  }
}
