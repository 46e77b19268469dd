/** The squash pipeline on its error-free path: a reader, a compiler and one or two collectors per direction, joined by
    bounded channels. The two directions share nothing, so a state is a pair of lanes. */
module Pipeline {
  import opened Ordering
  import opened Readers
  import opened Runner

  /** The text a collector builds from the parts it receives. */
  function Text(parts: seq<string>): string {
    if parts == [] then "" else "\n" + parts[0] + Text(parts[1..])
  }

  /** What the compiler pushes to its list: the non-empty bodies. */
  function Parts(ms: seq<Message>): seq<string> {
    if ms == [] then []
    else (if HasBody(ms[0]) && ms[0].body.value != "" then [ms[0].body.value] else []) + Parts(ms[1..])
  }

  /** The versions the up compiler reports: those of up migrations, except a repetition of the one reported last. It
      starts as if version 0 had been reported. */
  function Reported(ms: seq<Message>, latest: nat): seq<nat> {
    if ms == [] then []
    else if ms[0].Migration? && ms[0].version == ms[0].target && ms[0].version != latest then
      [ms[0].version] + Reported(ms[1..], ms[0].version)
    else Reported(ms[1..], latest)
  }

  /** A compiler reads until its inbox is closed, then flushes its list, closes the version channel and the data
      channel. While it reads it may be blocked on reporting a version. */
  datatype Compiler =
    | Reading(blocked: Option<nat>)
    | Flushing(left: seq<string>)
    | VersionsClosed
    | AllClosed

  datatype Lane = Lane(
    reports: bool,
    unsent: seq<Message>,
    readerDone: bool,
    inbox: seq<Message>,
    compiler: Compiler,
    latest: nat,
    list: seq<string>,
    outbox: seq<string>,
    versionBox: seq<nat>,
    text: string,
    textDone: bool,
    versions: seq<nat>,
    versionsDone: bool)
  {
    predicate Done() {
      textDone && (reports ==> versionsDone)
    }
  }

  datatype Action =
    | Send
    | CloseInbox
    | Receive
    | MeetReader
    | Report
    | MeetVersions
    | BeginFlush
    | Flush
    | MeetCollector
    | CloseVersions
    | CloseData
    | CollectText
    | EndText
    | CollectVersion
    | EndVersions

  function Start(reports: bool, ms: seq<Message>): Lane {
    Lane(reports, ms, false, [], Reading(None), 0, [], [], [], "", false, [], false)
  }

  predicate Enabled(capacity: nat, s: Lane, a: Action) {
    match a
    case Send => s.unsent != [] && |s.inbox| < capacity
    case CloseInbox => s.unsent == [] && !s.readerDone
    case Receive => s.compiler == Reading(None) && s.inbox != []
    case MeetReader => s.compiler == Reading(None) && s.inbox == [] && s.unsent != []
    case Report => s.compiler.Reading? && s.compiler.blocked.Some? && |s.versionBox| < capacity
    case MeetVersions =>
      s.compiler.Reading? && s.compiler.blocked.Some? && s.versionBox == [] && !s.versionsDone
    case BeginFlush => s.compiler == Reading(None) && s.inbox == [] && s.readerDone
    case Flush => s.compiler.Flushing? && s.compiler.left != [] && |s.outbox| < capacity
    case MeetCollector => s.compiler.Flushing? && s.compiler.left != [] && s.outbox == [] && !s.textDone
    case CloseVersions => s.compiler == Flushing([])
    case CloseData => s.compiler.VersionsClosed?
    case CollectText => s.outbox != [] && !s.textDone
    case EndText => s.outbox == [] && s.compiler.AllClosed? && !s.textDone
    case CollectVersion => s.versionBox != [] && !s.versionsDone
    case EndVersions =>
      s.reports && s.versionBox == [] && (s.compiler.VersionsClosed? || s.compiler.AllClosed?) && !s.versionsDone
  }

  /** The compiler takes a message: its body joins the list, and a new version is to be reported. */
  function Take(s: Lane, m: Message): Lane {
    var listed := s.(list := s.list + Parts([m]));
    if s.reports && m.Migration? && m.version == m.target && m.version != s.latest
    then listed.(compiler := Reading(Some(m.version)), latest := m.version)
    else listed
  }

  function Next(capacity: nat, s: Lane, a: Action): Lane
    requires Enabled(capacity, s, a)
  {
    match a
    case Send => s.(unsent := s.unsent[1..], inbox := s.inbox + [s.unsent[0]])
    case CloseInbox => s.(readerDone := true)
    case Receive => Take(s.(inbox := s.inbox[1..]), s.inbox[0])
    case MeetReader => Take(s.(unsent := s.unsent[1..]), s.unsent[0])
    case Report => s.(compiler := Reading(None), versionBox := s.versionBox + [s.compiler.blocked.value])
    case MeetVersions => s.(compiler := Reading(None), versions := s.versions + [s.compiler.blocked.value])
    case BeginFlush => s.(compiler := Flushing(s.list))
    case Flush => s.(compiler := Flushing(s.compiler.left[1..]), outbox := s.outbox + [s.compiler.left[0]])
    case MeetCollector => s.(compiler := Flushing(s.compiler.left[1..]), text := s.text + "\n" + s.compiler.left[0])
    case CloseVersions => s.(compiler := VersionsClosed)
    case CloseData => s.(compiler := AllClosed)
    case CollectText => s.(outbox := s.outbox[1..], text := s.text + "\n" + s.outbox[0])
    case EndText => s.(textDone := true)
    case CollectVersion => s.(versionBox := s.versionBox[1..], versions := s.versions + [s.versionBox[0]])
    case EndVersions => s.(versionsDone := true)
  }

  /***** Conservation *****/

  lemma {:induction false} PartsConcat(a: seq<Message>, b: seq<Message>)
    ensures Parts(a + b) == Parts(a) + Parts(b)
    decreases |a|
  {
    if a == [] {
      assert a + b == b;
    } else {
      assert (a + b)[1..] == a[1..] + b;
      PartsConcat(a[1..], b);
    }
  }

  /** The parts that have not reached the text yet, in the order in which they will. */
  function PartsAhead(s: Lane): seq<string> {
    s.outbox + match s.compiler
               case Reading(_) => s.list + Parts(s.inbox + s.unsent)
               case Flushing(left) => left
               case _ => []
  }

  function VersionsAhead(s: Lane): seq<nat> {
    s.versionBox +
    (if s.compiler.Reading? && s.compiler.blocked.Some? then [s.compiler.blocked.value] else []) +
    (if s.reports then Reported(s.inbox + s.unsent, s.latest) else [])
  }

  /** Nothing is lost, duplicated or reordered on the way, and a process that is past a stage leaves nothing there. */
  ghost predicate Inv(all: seq<Message>, reports: bool, s: Lane) {
    && s.reports == reports
    && s.text + Text(PartsAhead(s)) == Text(Parts(all))
    && s.versions + VersionsAhead(s) == (if reports then Reported(all, 0) else [])
    && (s.readerDone ==> s.unsent == [])
    && (s.compiler.Reading? || (s.readerDone && s.inbox == []))
    && (s.textDone ==> s.compiler.AllClosed? && s.outbox == [])
    && (s.versionsDone ==> (s.compiler.VersionsClosed? || s.compiler.AllClosed?) && s.versionBox == [])
    && (s.compiler.Reading? ==> s.outbox == [] && s.text == "")
  }

  lemma TextGrows(text: string, part: string, rest: seq<string>)
    ensures (text + "\n" + part) + Text(rest) == text + Text([part] + rest)
  {
    assert ([part] + rest)[1..] == rest;
  }

  lemma TakeParts(s: Lane, m: Message, ahead: seq<Message>, t: Lane)
    requires s.compiler == Reading(None) && s.inbox + s.unsent == [m] + ahead && t.inbox + t.unsent == ahead
    requires t == Take(s.(inbox := t.inbox, unsent := t.unsent), m)
    ensures PartsAhead(t) == PartsAhead(s)
  {
    PartsConcat([m], ahead);
    assert s.list + (Parts([m]) + Parts(ahead)) == (s.list + Parts([m])) + Parts(ahead);
  }

  lemma ReportedAhead(m: Message, ahead: seq<Message>, latest: nat)
    ensures Reported([m] + ahead, latest) ==
            if m.Migration? && m.version == m.target && m.version != latest
            then [m.version] + Reported(ahead, m.version) else Reported(ahead, latest)
  {
    assert ([m] + ahead)[1..] == ahead;
  }

  lemma TakeVersions(s: Lane, m: Message, ahead: seq<Message>, t: Lane)
    requires s.compiler == Reading(None) && s.inbox + s.unsent == [m] + ahead && t.inbox + t.unsent == ahead
    requires t == Take(s.(inbox := t.inbox, unsent := t.unsent), m)
    ensures VersionsAhead(t) == VersionsAhead(s)
  {
    ReportedAhead(m, ahead, s.latest);
  }

  lemma TakeKeeps(all: seq<Message>, reports: bool, s: Lane, m: Message, ahead: seq<Message>, t: Lane)
    requires Inv(all, reports, s) && s.compiler == Reading(None) && s.inbox + s.unsent == [m] + ahead
    requires t.inbox + t.unsent == ahead && (s.readerDone ==> t.unsent == [])
    requires t == Take(s.(inbox := t.inbox, unsent := t.unsent), m)
    ensures Inv(all, reports, t)
  {
    TakeParts(s, m, ahead, t);
    TakeVersions(s, m, ahead, t);
  }

  lemma MoveOn<T>(a: seq<T>, b: seq<T>)
    requires b != []
    ensures a + b == (a + [b[0]]) + b[1..]
    ensures b + a == [b[0]] + (b[1..] + a)
  {
  }

  lemma SendKeeps(capacity: nat, all: seq<Message>, reports: bool, s: Lane)
    requires Inv(all, reports, s) && Enabled(capacity, s, Send)
    ensures Inv(all, reports, Next(capacity, s, Send))
  {
    MoveOn(s.inbox, s.unsent);
    var t := Next(capacity, s, Send);
    assert t.inbox + t.unsent == s.inbox + s.unsent;
    assert PartsAhead(t) == PartsAhead(s) && VersionsAhead(t) == VersionsAhead(s);
  }

  lemma ReaderKeeps(capacity: nat, all: seq<Message>, reports: bool, s: Lane, a: Action)
    requires Inv(all, reports, s) && Enabled(capacity, s, a) && a in {Send, CloseInbox, Receive, MeetReader}
    ensures Inv(all, reports, Next(capacity, s, a))
  {
    match a
    case Send => SendKeeps(capacity, all, reports, s);
    case CloseInbox => CloseInboxKeeps(capacity, all, reports, s);
    case Receive => ReceiveKeeps(capacity, all, reports, s);
    case MeetReader => MeetKeeps(capacity, all, reports, s);
  }

  lemma CloseInboxKeeps(capacity: nat, all: seq<Message>, reports: bool, s: Lane)
    requires Inv(all, reports, s) && Enabled(capacity, s, CloseInbox)
    ensures Inv(all, reports, Next(capacity, s, CloseInbox))
  {
    var t := Next(capacity, s, CloseInbox);
    assert PartsAhead(t) == PartsAhead(s) && VersionsAhead(t) == VersionsAhead(s);
  }

  lemma ReceiveKeeps(capacity: nat, all: seq<Message>, reports: bool, s: Lane)
    requires Inv(all, reports, s) && Enabled(capacity, s, Receive)
    ensures Inv(all, reports, Next(capacity, s, Receive))
  {
    var t := Next(capacity, s, Receive);
    MoveOn(s.unsent, s.inbox);
    TakeKeeps(all, reports, s, s.inbox[0], t.inbox + t.unsent, t);
  }

  lemma MeetKeeps(capacity: nat, all: seq<Message>, reports: bool, s: Lane)
    requires Inv(all, reports, s) && Enabled(capacity, s, MeetReader)
    ensures Inv(all, reports, Next(capacity, s, MeetReader))
  {
    MeetShape(capacity, s);
    TakeKeeps(all, reports, s, s.unsent[0], s.unsent[1..], Next(capacity, s, MeetReader));
  }

  lemma MeetShape(capacity: nat, s: Lane)
    requires Enabled(capacity, s, MeetReader)
    ensures var t := Next(capacity, s, MeetReader);
            && s.inbox + s.unsent == [s.unsent[0]] + s.unsent[1..] && t.inbox + t.unsent == s.unsent[1..]
            && t == Take(s.(inbox := t.inbox, unsent := t.unsent), s.unsent[0])
  {
    var t := Next(capacity, s, MeetReader);
    assert s.inbox == [] == t.inbox;
    assert [] + s.unsent == s.unsent == [s.unsent[0]] + s.unsent[1..];
    assert [] + s.unsent[1..] == s.unsent[1..];
  }

  lemma VersionsKeep(capacity: nat, all: seq<Message>, reports: bool, s: Lane, a: Action)
    requires Inv(all, reports, s) && Enabled(capacity, s, a)
    requires a in {Report, MeetVersions, CollectVersion, EndVersions}
    ensures Inv(all, reports, Next(capacity, s, a))
  {
    var t := Next(capacity, s, a);
    VersionsMove(capacity, s, a);
    assert PartsAhead(t) == PartsAhead(s);
  }

  lemma VersionsMove(capacity: nat, s: Lane, a: Action)
    requires Enabled(capacity, s, a) && a in {Report, MeetVersions, CollectVersion, EndVersions}
    ensures var t := Next(capacity, s, a); t.versions + VersionsAhead(t) == s.versions + VersionsAhead(s)
  {
    var t := Next(capacity, s, a);
    var ahead := if s.reports then Reported(s.inbox + s.unsent, s.latest) else [];
    if a == CollectVersion {
      var held := if s.compiler.Reading? && s.compiler.blocked.Some? then [s.compiler.blocked.value] else [];
      Collects(s.versions, s.versionBox, held + ahead);
    } else if a != EndVersions {
      Reports(s.versions, s.versionBox, s.compiler.blocked.value, ahead);
    }
  }

  /** A version that is reported moves into the channel or past it to the collector. */
  lemma Reports<T>(done: seq<T>, box: seq<T>, v: T, ahead: seq<T>)
    ensures done + ((box + [v]) + [] + ahead) == done + (box + [v] + ahead)
    ensures box == [] ==> (done + [v]) + (box + [] + ahead) == done + (box + [v] + ahead)
  {
    assert (box + [v]) + [] == box + [v];
    assert box == [] ==> box + [] == [] && box + [v] == [v] && [] + ahead == ahead;
  }

  lemma Collects<T>(done: seq<T>, box: seq<T>, rest: seq<T>)
    requires box != []
    ensures (done + [box[0]]) + (box[1..] + rest) == done + (box + rest)
  {
    assert box == [box[0]] + box[1..];
  }

  lemma CloseKeeps(capacity: nat, all: seq<Message>, reports: bool, s: Lane, a: Action)
    requires Inv(all, reports, s) && Enabled(capacity, s, a)
    requires a in {BeginFlush, CloseVersions, CloseData, EndText}
    ensures Inv(all, reports, Next(capacity, s, a))
  {
    var t := Next(capacity, s, a);
    if a == BeginFlush {
      assert Parts(s.inbox + s.unsent) == [];
      assert s.list + [] == s.list;
    }
    assert PartsAhead(t) == PartsAhead(s);
    assert VersionsAhead(t) == VersionsAhead(s);
  }

  lemma FlushKeeps(capacity: nat, all: seq<Message>, reports: bool, s: Lane)
    requires Inv(all, reports, s) && Enabled(capacity, s, Flush)
    ensures Inv(all, reports, Next(capacity, s, Flush))
  {
    var t := Next(capacity, s, Flush);
    var left := s.compiler.left;
    Associate(s.outbox, [left[0]], left[1..]);
    assert left == [left[0]] + left[1..];
    assert PartsAhead(t) == PartsAhead(s);
    assert VersionsAhead(t) == VersionsAhead(s);
  }

  lemma CollectKeeps(all: seq<Message>, reports: bool, s: Lane, t: Lane, part: string)
    requires Inv(all, reports, s) && !s.compiler.Reading?
    requires t == s.(compiler := t.compiler, outbox := t.outbox, text := s.text + "\n" + part)
    requires PartsAhead(s) == [part] + PartsAhead(t)
    requires !t.compiler.Reading? && (t.compiler == s.compiler || (s.compiler.Flushing? && t.compiler.Flushing?))
    requires !s.textDone
    ensures Inv(all, reports, t)
  {
    TextGrows(s.text, part, PartsAhead(t));
    assert VersionsAhead(t) == VersionsAhead(s);
  }

  lemma TextKeeps(capacity: nat, all: seq<Message>, reports: bool, s: Lane, a: Action)
    requires Inv(all, reports, s) && Enabled(capacity, s, a) && a in {MeetCollector, CollectText}
    ensures Inv(all, reports, Next(capacity, s, a))
  {
    var t := Next(capacity, s, a);
    if a == MeetCollector {
      assert s.compiler.left == [s.compiler.left[0]] + t.compiler.left;
      CollectKeeps(all, reports, s, t, s.compiler.left[0]);
    } else {
      CollectMoves(capacity, s);
      CollectKeeps(all, reports, s, t, s.outbox[0]);
    }
  }

  lemma CollectMoves(capacity: nat, s: Lane)
    requires Enabled(capacity, s, CollectText) && !s.compiler.Reading?
    ensures PartsAhead(s) == [s.outbox[0]] + PartsAhead(Next(capacity, s, CollectText))
  {
    var t := Next(capacity, s, CollectText);
    assert s.outbox == [s.outbox[0]] + t.outbox;
    Associate([s.outbox[0]], t.outbox, if s.compiler.Flushing? then s.compiler.left else []);
  }

  lemma LaneKeeps(capacity: nat, all: seq<Message>, reports: bool, s: Lane, a: Action)
    requires Inv(all, reports, s) && Enabled(capacity, s, a)
    ensures Inv(all, reports, Next(capacity, s, a))
  {
    if a in {Send, CloseInbox, Receive, MeetReader} {
      ReaderKeeps(capacity, all, reports, s, a);
    } else if a in {Report, MeetVersions, CollectVersion, EndVersions} {
      VersionsKeep(capacity, all, reports, s, a);
    } else if a in {BeginFlush, CloseVersions, CloseData, EndText} {
      CloseKeeps(capacity, all, reports, s, a);
    } else if a == Flush {
      FlushKeeps(capacity, all, reports, s);
    } else {
      TextKeeps(capacity, all, reports, s, a);
    }
  }

  /***** Progress *****/

  /** As long as a collector waits, some process of the lane can move, whatever the capacity. */
  lemma LaneProgress(capacity: nat, all: seq<Message>, reports: bool, s: Lane)
    requires Inv(all, reports, s) && !s.Done()
    ensures exists a :: Enabled(capacity, s, a)
  {
    var a :=
      if s.compiler.Reading? then
        if s.compiler.blocked.Some? then (if s.versionBox == [] then MeetVersions else CollectVersion)
        else if s.inbox != [] then Receive
        else if s.unsent != [] then MeetReader
        else if s.readerDone then BeginFlush
        else CloseInbox
      else if s.outbox != [] then CollectText
      else if s.versionBox != [] then CollectVersion
      else if s.compiler.Flushing? then (if s.compiler.left == [] then CloseVersions else MeetCollector)
      else if s.compiler.VersionsClosed? then CloseData
      else if !s.textDone then EndText
      else EndVersions;
    assert Enabled(capacity, s, a);
  }

  ghost function CompilerWeight(c: Compiler): nat {
    match c
    case Reading(blocked) => 4 + (if blocked.Some? then 2 else 0)
    case Flushing(left) => 3 + 2 * |left|
    case VersionsClosed => 1
    case AllClosed => 0
  }

  /** Every message weighs more the further it has to go. */
  ghost function Measure(s: Lane): nat {
    8 * |s.unsent| + 7 * |s.inbox| + CompilerWeight(s.compiler) +
    (if s.compiler.Reading? then 3 * |s.list| else 0) + |s.outbox| + |s.versionBox| +
    (if s.readerDone then 0 else 1) + (if s.textDone then 0 else 1) + (if s.versionsDone then 0 else 1)
  }

  lemma TakeDecreases(capacity: nat, s: Lane, a: Action)
    requires Enabled(capacity, s, a) && a in {Receive, MeetReader}
    ensures Measure(Next(capacity, s, a)) < Measure(s)
  {
    var m := if a == Receive then s.inbox[0] else s.unsent[0];
    assert [m][1..] == [];
    assert |Parts([m])| <= 1;
  }

  lemma ReaderDecreases(capacity: nat, s: Lane, a: Action)
    requires Enabled(capacity, s, a) && a in {Send, CloseInbox, Report, MeetVersions, CollectVersion, EndVersions}
    ensures Measure(Next(capacity, s, a)) < Measure(s)
  {
  }

  lemma CompilerDecreases(capacity: nat, s: Lane, a: Action)
    requires Enabled(capacity, s, a)
    requires a in {BeginFlush, Flush, MeetCollector, CloseVersions, CloseData, CollectText, EndText}
    ensures Measure(Next(capacity, s, a)) < Measure(s)
  {
  }

  lemma LaneDecreases(capacity: nat, s: Lane, a: Action)
    requires Enabled(capacity, s, a)
    ensures Measure(Next(capacity, s, a)) < Measure(s)
  {
    if a in {Receive, MeetReader} {
      TakeDecreases(capacity, s, a);
    } else if a in {Send, CloseInbox, Report, MeetVersions, CollectVersion, EndVersions} {
      ReaderDecreases(capacity, s, a);
    } else {
      CompilerDecreases(capacity, s, a);
    }
  }

  /***** The two lanes together *****/

  datatype State = State(up: Lane, down: Lane) {
    predicate Done() {
      up.Done() && down.Done()
    }
  }

  ghost predicate Step(capacity: nat, s: State, t: State) {
    || (exists a :: Enabled(capacity, s.up, a) && t == s.(up := Next(capacity, s.up, a)))
    || (exists a :: Enabled(capacity, s.down, a) && t == s.(down := Next(capacity, s.down, a)))
  }

  ghost predicate ErrorFree(ms: seq<Message>) {
    forall m :: m in ms ==> m.Migration?
  }

  ghost predicate IsRun(capacity: nat, ups: seq<Message>, downs: seq<Message>, run: seq<State>) {
    && ErrorFree(ups) && ErrorFree(downs)
    && run != []
    && run[0] == State(Start(true, ups), Start(false, downs))
    && forall i :: 0 < i < |run| ==> Step(capacity, run[i - 1], run[i])
  }

  lemma StartKeeps(reports: bool, ms: seq<Message>)
    ensures Inv(ms, reports, Start(reports, ms))
  {
    assert [] + ms == ms;
    assert PartsAhead(Start(reports, ms)) == Parts(ms);
    assert VersionsAhead(Start(reports, ms)) == if reports then Reported(ms, 0) else [];
  }

  lemma {:induction false} RunKeeps(capacity: nat, ups: seq<Message>, downs: seq<Message>, run: seq<State>, i: nat)
    requires IsRun(capacity, ups, downs, run) && i < |run|
    ensures Inv(ups, true, run[i].up) && Inv(downs, false, run[i].down)
  {
    if i == 0 {
      StartKeeps(true, ups);
      StartKeeps(false, downs);
    } else {
      RunKeeps(capacity, ups, downs, run, i - 1);
      StepKeeps(capacity, ups, downs, run[i - 1], run[i]);
    }
  }

  lemma StepKeeps(capacity: nat, ups: seq<Message>, downs: seq<Message>, s: State, t: State)
    requires Step(capacity, s, t) && Inv(ups, true, s.up) && Inv(downs, false, s.down)
    ensures Inv(ups, true, t.up) && Inv(downs, false, t.down)
  {
    if exists a :: Enabled(capacity, s.up, a) && t == s.(up := Next(capacity, s.up, a)) {
      var a :| Enabled(capacity, s.up, a) && t == s.(up := Next(capacity, s.up, a));
      LaneKeeps(capacity, ups, true, s.up, a);
    } else {
      var a :| Enabled(capacity, s.down, a) && t == s.(down := Next(capacity, s.down, a));
      LaneKeeps(capacity, downs, false, s.down, a);
    }
  }

  /** No deadlock: from every state some schedule reaches, unless all collectors have ended, there is a step. */
  lemma NoDeadlock(capacity: nat, ups: seq<Message>, downs: seq<Message>, run: seq<State>, i: nat)
    requires IsRun(capacity, ups, downs, run) && i < |run| && !run[i].Done()
    ensures exists t :: Step(capacity, run[i], t)
  {
    RunKeeps(capacity, ups, downs, run, i);
    var s := run[i];
    if !s.up.Done() {
      LaneProgress(capacity, ups, true, s.up);
      var a :| Enabled(capacity, s.up, a);
      assert Step(capacity, s, s.(up := Next(capacity, s.up, a)));
    } else {
      LaneProgress(capacity, downs, false, s.down);
      var a :| Enabled(capacity, s.down, a);
      assert Step(capacity, s, s.(down := Next(capacity, s.down, a)));
    }
  }

  /** Every schedule is finite. */
  lemma {:induction false} RunsAreFinite(capacity: nat, ups: seq<Message>, downs: seq<Message>, run: seq<State>)
    requires IsRun(capacity, ups, downs, run)
    ensures var last := run[|run| - 1];
            Measure(last.up) + Measure(last.down) + |run| <=
            Measure(Start(true, ups)) + Measure(Start(false, downs)) + 1
    decreases |run|
  {
    if |run| > 1 {
      RunsAreFinite(capacity, ups, downs, run[..|run| - 1]);
      var s, t := run[|run| - 2], run[|run| - 1];
      if exists a :: Enabled(capacity, s.up, a) && t == s.(up := Next(capacity, s.up, a)) {
        var a :| Enabled(capacity, s.up, a) && t == s.(up := Next(capacity, s.up, a));
        LaneDecreases(capacity, s.up, a);
      } else {
        var a :| Enabled(capacity, s.down, a) && t == s.(down := Next(capacity, s.down, a));
        LaneDecreases(capacity, s.down, a);
      }
    }
  }

  /** Every schedule ends with the same three results, and they depend on the readers' messages alone. */
  lemma OneResult(capacity: nat, ups: seq<Message>, downs: seq<Message>, run: seq<State>)
    requires IsRun(capacity, ups, downs, run) && run[|run| - 1].Done()
    ensures var last := run[|run| - 1];
            last.up.versions == Reported(ups, 0) && last.up.text == Text(Parts(ups)) &&
            last.down.text == Text(Parts(downs))
  {
    RunKeeps(capacity, ups, downs, run, |run| - 1);
    var last := run[|run| - 1];
    assert PartsAhead(last.up) == [] && PartsAhead(last.down) == [];
    assert VersionsAhead(last.up) == [];
  }
}
