/** The up direction of the squash pipeline when its reader ends with an error. The compiler passes the error on ahead
    of its list, the collector of the text stops at it, and nobody reads what the compiler sends afterwards. */
module PipelineFailure {
  import opened Ordering
  import opened Readers
  import opened Pipeline

  /** Where the error is: still with the reader or on its way to the compiler, in the hands of the compiler, at the head
      of the channel to the collector, or received by it. */
  datatype Stage = Ahead | Raising(error: Error) | Queued(error: Error) | Caught(error: Error)

  datatype FailState = FailState(lane: Lane, stage: Stage) {
    /** Both collectors have ended, so that the command returns. */
    predicate Returned() {
      stage.Caught? && lane.versionsDone
    }
  }

  datatype FailAction = Move(a: Action) | Raise | MeetError | CatchError

  /** The compiler is blocked while it is raising the error, the collector of the text wants the error first, and the
      error takes a place in the channel. */
  predicate CanMove(capacity: nat, s: FailState, a: Action) {
    && Enabled(capacity, s.lane, a)
    && (a in {Receive, MeetReader, Report, MeetVersions, BeginFlush, Flush, CloseVersions, CloseData} ==>
          !s.stage.Raising?)
    && (a in {MeetCollector, CollectText, EndText} ==> s.stage.Ahead?)
    && (a == Flush && s.stage.Queued? ==> |s.lane.outbox| + 1 < capacity)
  }

  predicate CanDo(capacity: nat, s: FailState, a: FailAction) {
    match a
    case Move(a) => CanMove(capacity, s, a)
    case Raise => s.stage.Raising? && |s.lane.outbox| < capacity
    case MeetError => s.stage.Raising? && s.lane.outbox == []
    case CatchError => s.stage.Queued?
  }

  /** The stage once the compiler has taken a message. */
  function Taken(stage: Stage, m: Message): Stage {
    if m.Failed? then Raising(m.error) else stage
  }

  function Do(capacity: nat, s: FailState, a: FailAction): FailState
    requires CanDo(capacity, s, a)
  {
    match a
    case Move(a) =>
      FailState(Next(capacity, s.lane, a),
                if a == Receive then Taken(s.stage, s.lane.inbox[0])
                else if a == MeetReader then Taken(s.stage, s.lane.unsent[0])
                else s.stage)
    case Raise => s.(stage := Queued(s.stage.error))
    case MeetError => s.(stage := Caught(s.stage.error))
    case CatchError => s.(stage := Caught(s.stage.error))
  }

  /** The messages of a reader that fails. */
  ghost predicate Fails(ms: seq<Message>, error: Error) {
    && ms != [] && ms[|ms| - 1] == Failed(error)
    && forall i :: 0 <= i < |ms| - 1 ==> ms[i].Migration?
  }

  ghost predicate IsFailRun(capacity: nat, ms: seq<Message>, run: seq<FailState>) {
    && run != [] && run[0] == FailState(Pipeline.Start(true, ms), Ahead)
    && forall i :: 0 < i < |run| ==> FailStep(capacity, run[i - 1], run[i])
  }

  ghost predicate FailStep(capacity: nat, s: FailState, t: FailState) {
    exists a :: CanDo(capacity, s, a) && t == Do(capacity, s, a)
  }

  /***** What every step keeps *****/

  /** The messages that have not reached the compiler. */
  function Coming(s: Lane): seq<Message> {
    s.inbox + s.unsent
  }

  /** Nothing is collected, so that all parts stay in the lane; the error is the last message, and with it gone there is
      nothing left to read; the channel holds no more than its capacity. */
  ghost predicate FailInv(capacity: nat, ms: seq<Message>, error: Error, s: FailState) {
    && PartsAhead(s.lane) == Parts(ms)
    && (if s.stage.Ahead? then Fails(Coming(s.lane), error)
        else Coming(s.lane) == [] && s.stage in {Raising(error), Queued(error), Caught(error)})
    && Orderly(capacity, s)
  }

  /** Who has ended, and what the channel holds. */
  ghost predicate Orderly(capacity: nat, s: FailState) {
    var l := s.lane;
    && l.reports && !l.textDone
    && (l.readerDone ==> l.unsent == [])
    && (l.compiler.Reading? ==> l.outbox == [])
    && (!l.compiler.Reading? ==> l.readerDone && (s.stage.Queued? || s.stage.Caught?))
    && (s.stage.Raising? ==> l.compiler == Reading(None))
    && |l.outbox| <= capacity && (s.stage.Queued? ==> |l.outbox| < capacity)
    && (l.versionsDone ==> l.compiler.VersionsClosed? || l.compiler.AllClosed?)
  }

  /** Taking the next message: the error, or one of those before it. */
  lemma TakesOne(ms: seq<Message>, error: Error)
    requires Fails(ms, error)
    ensures if ms[0].Failed? then ms[0] == Failed(error) && ms[1..] == [] else Fails(ms[1..], error)
  {
    if ms[0].Failed? {
      assert |ms| == 1;
    } else {
      var rest := ms[1..];
      assert |ms| > 1 && rest[|rest| - 1] == ms[|ms| - 1];
    }
  }

  lemma TakenPart(s: Lane, t: Lane)
    requires s.compiler == Reading(None) && Coming(s) != []
    requires Coming(t) == Coming(s)[1..] && t == Take(s.(inbox := t.inbox, unsent := t.unsent), Coming(s)[0])
    ensures PartsAhead(t) == PartsAhead(s)
  {
    assert Coming(s) == [Coming(s)[0]] + Coming(s)[1..];
    TakeParts(s, Coming(s)[0], Coming(s)[1..], t);
  }

  /** What the compiler takes is the next message. */
  lemma TakesFirst(capacity: nat, s: Lane, a: Action)
    requires Enabled(capacity, s, a) && a in {Receive, MeetReader}
    ensures var t := Next(capacity, s, a);
            && Coming(s) != [] && Coming(t) == Coming(s)[1..]
            && Coming(s)[0] == (if a == Receive then s.inbox[0] else s.unsent[0])
            && t == Take(s.(inbox := t.inbox, unsent := t.unsent), Coming(s)[0])
  {
    if a == Receive {
      MoveOn(s.unsent, s.inbox);
    } else {
      MeetShape(capacity, s);
    }
  }

  lemma TakeFails(capacity: nat, ms: seq<Message>, error: Error, s: FailState, a: Action)
    requires FailInv(capacity, ms, error, s) && CanMove(capacity, s, a) && a in {Receive, MeetReader}
    ensures FailInv(capacity, ms, error, Do(capacity, s, Move(a)))
  {
    TakesFirst(capacity, s.lane, a);
    TakesOne(Coming(s.lane), error);
    TakenPart(s.lane, Next(capacity, s.lane, a));
  }

  /** Nothing but taking a message changes what is coming. */
  lemma SameComing(capacity: nat, s: Lane, a: Action)
    requires Enabled(capacity, s, a) && a !in {Receive, MeetReader}
    ensures Coming(Next(capacity, s, a)) == Coming(s)
  {
    if a == Send {
      MoveOn(s.inbox, s.unsent);
    }
  }

  /** Nothing but collecting takes parts out of the lane. */
  lemma SameParts(capacity: nat, s: Lane, a: Action)
    requires Enabled(capacity, s, a) && a !in {Receive, MeetReader, MeetCollector, CollectText}
    requires s.readerDone ==> s.unsent == []
    ensures PartsAhead(Next(capacity, s, a)) == PartsAhead(s)
  {
    SameComing(capacity, s, a);
    if a == BeginFlush {
      assert Coming(s) == [];
      assert s.list + [] == s.list;
    } else if a == Flush {
      var left := s.compiler.left;
      Associate(s.outbox, [left[0]], left[1..]);
      assert left == [left[0]] + left[1..];
    }
  }

  lemma MoveIsOrderly(capacity: nat, s: FailState, a: Action)
    requires Orderly(capacity, s) && CanMove(capacity, s, a) && a !in {Receive, MeetReader}
    requires s.stage.Ahead? ==> Coming(s.lane) != []
    ensures Orderly(capacity, Do(capacity, s, Move(a))) && a !in {MeetCollector, CollectText, EndText}
  {
    if a == BeginFlush {
      assert Coming(s.lane) == [];
    }
  }

  lemma StepFails(capacity: nat, ms: seq<Message>, error: Error, s: FailState, a: FailAction)
    requires FailInv(capacity, ms, error, s) && CanDo(capacity, s, a)
    ensures FailInv(capacity, ms, error, Do(capacity, s, a))
  {
    match a
    case Move(a) =>
      if a in {Receive, MeetReader} {
        TakeFails(capacity, ms, error, s, a);
      } else {
        MoveIsOrderly(capacity, s, a);
        SameComing(capacity, s.lane, a);
        SameParts(capacity, s.lane, a);
      }
    case _ =>
  }

  lemma {:induction false} FailRunKeeps(capacity: nat, ms: seq<Message>, error: Error, run: seq<FailState>, i: nat)
    requires Fails(ms, error) && IsFailRun(capacity, ms, run) && i < |run|
    ensures FailInv(capacity, ms, error, run[i])
  {
    if i == 0 {
      var s := Pipeline.Start(true, ms);
      assert Coming(s) == ms && [] + ms == ms;
      assert PartsAhead(s) == Parts(ms);
    } else {
      FailRunKeeps(capacity, ms, error, run, i - 1);
      var a :| CanDo(capacity, run[i - 1], a) && run[i] == Do(capacity, run[i - 1], a);
      StepFails(capacity, ms, error, run[i - 1], a);
    }
  }

  /***** Whether the command returns *****/

  /** With more parts than the channel holds no schedule lets the command return. */
  lemma ReturnsOnlyIfFits(capacity: nat, ms: seq<Message>, error: Error, run: seq<FailState>, i: nat)
    requires Fails(ms, error) && IsFailRun(capacity, ms, run) && i < |run|
    ensures run[i].Returned() ==> |Parts(ms)| <= capacity && run[i].stage == Caught(error)
  {
    FailRunKeeps(capacity, ms, error, run, i);
  }

  /** Until the error has been received something can move. */
  lemma MovesToError(capacity: nat, ms: seq<Message>, error: Error, s: FailState)
    requires FailInv(capacity, ms, error, s) && !s.stage.Caught?
    ensures exists a :: CanDo(capacity, s, a)
  {
    var l := s.lane;
    var a :=
      if s.stage.Raising? then MeetError
      else if s.stage.Queued? then CatchError
      else if l.compiler.blocked.Some? then (if l.versionBox == [] then Move(MeetVersions) else Move(CollectVersion))
      else if l.inbox != [] then Move(Receive)
      else Move(MeetReader);
    assert CanDo(capacity, s, a);
  }

  /** After that, if the channel can hold all parts, something can move until the command has returned. */
  lemma MovesOn(capacity: nat, ms: seq<Message>, error: Error, s: FailState)
    requires FailInv(capacity, ms, error, s) && s.stage.Caught? && !s.Returned() && |Parts(ms)| <= capacity
    ensures exists a :: CanDo(capacity, s, a)
  {
    var l := s.lane;
    var a :=
      if l.versionBox != [] then Move(CollectVersion)
      else if l.compiler.Reading? then
        if l.compiler.blocked.Some? then Move(MeetVersions)
        else if l.readerDone then Move(BeginFlush)
        else Move(CloseInbox)
      else if l.compiler.Flushing? then (if l.compiler.left == [] then Move(CloseVersions) else Move(Flush))
      else Move(EndVersions);
    assert CanMove(capacity, s, a.a);
    assert CanDo(capacity, s, a);
  }

  ghost function StageWeight(stage: Stage): nat {
    match stage
    case Ahead => 3
    case Raising(_) => 2
    case Queued(_) => 1
    case Caught(_) => 0
  }

  ghost function FailMeasure(s: FailState): nat {
    Measure(s.lane) + StageWeight(s.stage)
  }

  lemma FailStepDecreases(capacity: nat, ms: seq<Message>, error: Error, s: FailState, a: FailAction)
    requires FailInv(capacity, ms, error, s) && CanDo(capacity, s, a)
    ensures FailMeasure(Do(capacity, s, a)) < FailMeasure(s)
  {
    if a.Move? {
      LaneDecreases(capacity, s.lane, a.a);
      if a.a in {Receive, MeetReader} {
        TakesFirst(capacity, s.lane, a.a);
      }
    }
  }

  lemma {:induction false} FailRunsAreFinite(capacity: nat, ms: seq<Message>, error: Error, run: seq<FailState>)
    requires Fails(ms, error) && IsFailRun(capacity, ms, run)
    ensures FailMeasure(run[|run| - 1]) + |run| <= FailMeasure(FailState(Pipeline.Start(true, ms), Ahead)) + 1
    decreases |run|
  {
    if |run| > 1 {
      var s, t := run[|run| - 2], run[|run| - 1];
      FailRunsAreFinite(capacity, ms, error, run[..|run| - 1]);
      FailRunKeeps(capacity, ms, error, run, |run| - 2);
      var a :| CanDo(capacity, s, a) && t == Do(capacity, s, a);
      FailStepDecreases(capacity, ms, error, s, a);
    }
  }

  ghost predicate Stuck(capacity: nat, s: FailState) {
    forall a :: !CanDo(capacity, s, a)
  }

  /** However the processes interleave, once nothing can move any more the collector has received the error, and the
      command has returned exactly if the channel can hold all parts; otherwise it is blocked for good. */
  lemma ReturnsIffFits(capacity: nat, ms: seq<Message>, error: Error, run: seq<FailState>)
    requires Fails(ms, error) && IsFailRun(capacity, ms, run) && Stuck(capacity, run[|run| - 1])
    ensures run[|run| - 1].stage == Caught(error)
    ensures run[|run| - 1].Returned() <==> |Parts(ms)| <= capacity
  {
    var last := run[|run| - 1];
    FailRunKeeps(capacity, ms, error, run, |run| - 1);
    ReturnsOnlyIfFits(capacity, ms, error, run, |run| - 1);
    if !last.stage.Caught? {
      MovesToError(capacity, ms, error, last);
    } else if |Parts(ms)| <= capacity && !last.Returned() {
      MovesOn(capacity, ms, error, last);
    }
  }
}
