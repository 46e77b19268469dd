/** What Up and Down do on a squashed project, compared with the original, whatever files are lacking. */
module SquashedRuns {
  import opened Ordering
  import opened Readers
  import opened Runner
  import opened Laws
  import opened Outcomes
  import opened History
  import opened Pipeline
  import opened SquashMeaning
  import opened SquashedProjects

  /***** How far a walk gets *****/

  function UpFiles(src: Source): set<nat> {
    src.up.Keys + src.metaUp
  }

  function DownFiles(src: Source): set<nat> {
    src.down.Keys + src.metaDown
  }

  /** The part of a walk in front of the first version that has no file. */
  function Walked(files: set<nat>, vs: seq<nat>): seq<nat> {
    if vs == [] || vs[0] !in files then [] else [vs[0]] + Walked(files, vs[1..])
  }

  /** The first version that has no file, if the walk meets one. */
  function StopsAt(files: set<nat>, vs: seq<nat>): Option<nat> {
    if vs == [] then None else if vs[0] !in files then Some(vs[0]) else StopsAt(files, vs[1..])
  }

  lemma {:induction false} UpReachWalks(src: Source, vs: seq<nat>)
    ensures var n := UpReach(src, vs);
            vs[..n] == Walked(UpFiles(src), vs) &&
            StopsAt(UpFiles(src), vs) == if n < |vs| then Some(vs[n]) else None
    decreases |vs|
  {
    if vs == [] || !src.UpExists(vs[0]) {
    } else {
      UpReachWalks(src, vs[1..]);
      assert vs[..UpReach(src, vs)] == [vs[0]] + vs[1..][..UpReach(src, vs[1..])];
    }
  }

  lemma {:induction false} DownReachWalks(src: Source, vs: seq<nat>)
    ensures var n := DownReach(src, vs);
            vs[..n] == Walked(DownFiles(src), vs) &&
            StopsAt(DownFiles(src), vs) == if n < |vs| then Some(vs[n]) else None
    decreases |vs|
  {
    if vs == [] || !src.DownExists(vs[0]) {
    } else {
      DownReachWalks(src, vs[1..]);
      assert vs[..DownReach(src, vs)] == [vs[0]] + vs[1..][..DownReach(src, vs[1..])];
    }
  }

  lemma {:induction false} WalkedOn(files: set<nat>, a: seq<nat>, b: seq<nat>)
    ensures Walked(files, a + b) == Walked(files, a) + (if StopsAt(files, a) == None then Walked(files, b) else [])
    ensures StopsAt(files, a + b) == if StopsAt(files, a) == None then StopsAt(files, b) else StopsAt(files, a)
    decreases |a|
  {
    if a == [] {
      assert a + b == b;
    } else {
      assert (a + b)[1..] == a[1..] + b;
      WalkedOn(files, a[1..], b);
    }
  }

  lemma {:induction false} SameWalk(files: set<nat>, files': set<nat>, vs: seq<nat>)
    requires forall v :: v in vs ==> (v in files <==> v in files')
    ensures Walked(files, vs) == Walked(files', vs) && StopsAt(files, vs) == StopsAt(files', vs)
    decreases |vs|
  {
    if vs == [] {
    } else {
      assert vs[0] in vs && forall v :: v in vs[1..] ==> v in vs;
      SameWalk(files, files', vs[1..]);
    }
  }

  lemma {:induction false} WalkedParts(files: set<nat>, vs: seq<nat>)
    ensures StopsAt(files, vs) == None <==> Elems(vs) <= files
    ensures StopsAt(files, vs) == None ==> Walked(files, vs) == vs
    ensures StopsAt(files, vs).Some? ==> StopsAt(files, vs).value in Elems(vs) - files
    ensures Walked(files, vs) <= vs
    decreases |vs|
  {
    if vs == [] {
    } else {
      WalkedParts(files, vs[1..]);
      assert vs == [vs[0]] + vs[1..];
      ConsElems(vs[0], vs[1..]);
    }
  }

  /***** What Up and Down do in terms of such walks *****/

  lemma {:induction false} ReplayBodies<S>(act: (string, S) -> S, ms: seq<Message>, s: S)
    ensures Replay(act, Bodies(ms), s) == Replay(act, ms, s)
    decreases |ms|
  {
    if ms == [] {
    } else {
      var rest := Bodies(ms[1..]);
      assert ([ms[0]] + rest)[1..] == rest;
      assert [] + rest == rest;
      ReplayBodies(act, ms[1..], if HasBody(ms[0]) then act(ms[0].body.value, s) else s);
    }
  }

  /** The versions Up walks over. */
  function Pending(src: Source, srv: Server): seq<nat> {
    SortAsc(src.Versions() - srv.store.Keys)
  }

  /** The versions Down walks over. */
  function Recorded(srv: Server): seq<nat> {
    SortDesc(srv.store.Keys)
  }

  lemma UpWalks<S(!new)>(accepts: Verdict, src: Source, srv: Server, act: (string, S) -> S, s: S)
    requires Willing(accepts, false) && Fits(src.Versions()) && Pending(src, srv) != []
    ensures var walked, stop := Walked(UpFiles(src), Pending(src, srv)), StopsAt(UpFiles(src), Pending(src, srv));
            var o := RunJob(accepts, false, src, ReadUp(-1), srv);
            && o.error == (if stop.Some? then Some(UpMissing(stop.value)) else None)
            && o.server.store.Keys == srv.store.Keys + (Elems(walked) * src.up.Keys)
            && Replay(act, o.server.log, s) == Acts(act, SqlOf(src.up, walked), Replay(act, srv.log, s))
  {
    var pending := Pending(src, srv);
    StepsUp(accepts, false, src, -1, srv);
    UpReachWalks(src, pending);
    assert pending[..|pending|] == pending;
    var walked := pending[..UpReach(src, pending)];
    FitsSorted(src.Versions() - srv.store.Keys);
    ReplayConcat(act, srv.log, Bodies(UpMessages(src, walked)), s);
    ReplayBodies(act, UpMessages(src, walked), Replay(act, srv.log, s));
    ReplayUps(act, src, walked, Replay(act, srv.log, s));
  }

  lemma DownWalks<S(!new)>(accepts: Verdict, src: Source, srv: Server, act: (string, S) -> S, s: S)
    requires Willing(accepts, false) && Fits(srv.store.Keys) && Recorded(srv) != []
    ensures var walked, stop := Walked(DownFiles(src), Recorded(srv)), StopsAt(DownFiles(src), Recorded(srv));
            var o := RunJob(accepts, false, src, ReadDown(-1), srv);
            && o.error == (if stop.Some? then Some(DownMissing(stop.value)) else None)
            && o.server.store.Keys == srv.store.Keys - (Elems(walked) * src.down.Keys)
            && Replay(act, o.server.log, s) == Acts(act, SqlOf(src.down, walked), Replay(act, srv.log, s))
  {
    var recorded := Recorded(srv);
    StepsDown(accepts, false, src, -1, srv);
    DownReachWalks(src, recorded);
    assert recorded[..|recorded|] == recorded;
    var walked := recorded[..DownReach(src, recorded)];
    FitsSorted(srv.store.Keys);
    ReplayConcat(act, srv.log, Bodies(DownMessages(src, srv.store.Keys, walked)), s);
    ReplayBodies(act, DownMessages(src, srv.store.Keys, walked), Replay(act, srv.log, s));
    ReplayDowns(act, src, srv.store.Keys, walked, Replay(act, srv.log, s));
  }

  /***** Two walks that differ in the middle *****/

  /** How a walk over three parts goes. */
  lemma ThreeParts(files: set<nat>, a: seq<nat>, mid: seq<nat>, b: seq<nat>)
    ensures StopsAt(files, a + (mid + b)) ==
            if StopsAt(files, a).Some? then StopsAt(files, a)
            else if StopsAt(files, mid).Some? then StopsAt(files, mid)
            else StopsAt(files, b)
    ensures Walked(files, a + (mid + b)) ==
            if StopsAt(files, a).Some? then Walked(files, a)
            else if StopsAt(files, mid).Some? then a + Walked(files, mid)
            else a + (mid + Walked(files, b))
  {
    WalkedOn(files, mid, b);
    WalkedOn(files, a, mid + b);
    WalkedParts(files, a);
    WalkedParts(files, mid);
    assert Walked(files, a) + [] == Walked(files, a) && Walked(files, mid) + [] == Walked(files, mid);
  }

  lemma ElemsOfThree(a: seq<nat>, mid: seq<nat>, b: seq<nat>)
    ensures Elems(a + (mid + b)) == Elems(a) + Elems(mid) + Elems(b)
  {
    ConcatElems(mid, b);
    ConcatElems(a, mid + b);
  }

  /** What the walk covers is part of what lies before it. */
  lemma WalkedIn(files: set<nat>, vs: seq<nat>)
    ensures Elems(Walked(files, vs)) <= Elems(vs)
  {
    WalkedParts(files, vs);
  }

  /***** A squash of versions that are not applied *****/

  /** The pending versions in three parts: below, in and above the range; the same after the squash, with the range
      replaced by its last version. */
  lemma PendingParts(src: Source, srv: Server, from: nat, to: int) returns (below: set<nat>, above: set<nat>)
    requires Squashable(src, from, to) && Range(src, from, to) !! srv.store.Keys
    ensures var range, at := Range(src, from, to), At(src, from, to);
            && below !! range && above !! range && below !! srv.store.Keys && above !! srv.store.Keys
            && Pending(src, srv) == SortAsc(below) + (SortAsc(range) + SortAsc(above))
            && Pending(After(src, from, to), srv) == SortAsc(below) + ([at] + SortAsc(above))
  {
    var range, at := Range(src, from, to), At(src, from, to);
    var missing := src.Versions() - srv.store.Keys;
    AfterVersions(src, from, to);
    RangeEnds(src, from, to);
    CutAsc(missing, range, from, at);
    assert After(src, from, to).Versions() - srv.store.Keys == missing - range + {at};
    below, above := UpTo(missing, from - 1), Above(missing, at);
  }

  /** Outside the range the squashed project has the same files. */
  lemma OutsideRange(src: Source, from: nat, to: int, vs: set<nat>)
    requires IsRange(src, from, to) && vs !! Range(src, from, to)
    ensures var after := After(src, from, to);
            forall v :: v in vs ==>
              && Lookup(after.up, v) == Lookup(src.up, v) && Lookup(after.down, v) == Lookup(src.down, v)
              && (v in UpFiles(after) <==> v in UpFiles(src)) && (v in DownFiles(after) <==> v in DownFiles(src))
  {
    assert At(src, from, to) in Range(src, from, to);
  }

  lemma SameWalkOutside(src: Source, from: nat, to: int, vs: set<nat>)
    requires IsRange(src, from, to) && vs !! Range(src, from, to)
    ensures var after := After(src, from, to);
            && Walked(UpFiles(after), SortAsc(vs)) == Walked(UpFiles(src), SortAsc(vs))
            && StopsAt(UpFiles(after), SortAsc(vs)) == StopsAt(UpFiles(src), SortAsc(vs))
            && Walked(DownFiles(after), SortDesc(vs)) == Walked(DownFiles(src), SortDesc(vs))
            && StopsAt(DownFiles(after), SortDesc(vs)) == StopsAt(DownFiles(src), SortDesc(vs))
  {
    OutsideRange(src, from, to, vs);
    SortedMembers(vs);
    SameWalk(UpFiles(After(src, from, to)), UpFiles(src), SortAsc(vs));
    SameWalk(DownFiles(After(src, from, to)), DownFiles(src), SortDesc(vs));
  }

  /** The walk over the range itself: on the original it is covered, on the squashed project its one version is. */
  lemma RangeIsWalked(src: Source, from: nat, to: int)
    requires Squashable(src, from, to)
    ensures var range, at := Range(src, from, to), At(src, from, to);
            StopsAt(UpFiles(src), SortAsc(range)) == None && StopsAt(UpFiles(After(src, from, to)), [at]) == None
  {
    var range, at := Range(src, from, to), At(src, from, to);
    SortAscEnumerates(range);
    WalkedParts(UpFiles(src), SortAsc(range));
    AfterVersions(src, from, to);
    assert [at][1..] == [];
  }

  /** Up on both projects stops at the same version, if at all, and covers the same versions outside the range. */
  lemma PendingWalks(src: Source, srv: Server, from: nat, to: int)
    returns (a: seq<nat>, b: seq<nat>, past: bool)
    requires Squashable(src, from, to) && Range(src, from, to) !! srv.store.Keys
    ensures var range, at, after := Range(src, from, to), At(src, from, to), After(src, from, to);
            && Elems(a) !! range && Elems(b) !! range
            && StopsAt(UpFiles(after), Pending(after, srv)) == StopsAt(UpFiles(src), Pending(src, srv))
            && Walked(UpFiles(src), Pending(src, srv)) == (if past then a + (SortAsc(range) + b) else a)
            && Walked(UpFiles(after), Pending(after, srv)) == (if past then a + ([at] + b) else a)
  {
    var range, at, after := Range(src, from, to), At(src, from, to), After(src, from, to);
    var below, above := PendingParts(src, srv, from, to);
    SameWalkOutside(src, from, to, below);
    SameWalkOutside(src, from, to, above);
    RangeIsWalked(src, from, to);
    ThreeParts(UpFiles(src), SortAsc(below), SortAsc(range), SortAsc(above));
    ThreeParts(UpFiles(after), SortAsc(below), [at], SortAsc(above));
    a, b := Walked(UpFiles(src), SortAsc(below)), Walked(UpFiles(src), SortAsc(above));
    past := StopsAt(UpFiles(src), SortAsc(below)) == None;
    WalkedParts(UpFiles(src), SortAsc(below));
    SortAscEnumerates(below);
    SortAscEnumerates(above);
    WalkedIn(UpFiles(src), SortAsc(below));
    WalkedIn(UpFiles(src), SortAsc(above));
  }

  /** One file in place of the range does the same. */
  lemma WalkedUpActs<S(!new)>(act: (string, S) -> S, src: Source, from: nat, to: int, a: seq<nat>, b: seq<nat>, s: S)
    requires Squashable(src, from, to) && Elems(a) !! Range(src, from, to) && Elems(b) !! Range(src, from, to)
    requires NothingDoesNothing(act) && forall v :: v in Range(src, from, to) ==> Separable(act, src.up[v])
    ensures var range, at, after := Range(src, from, to), At(src, from, to), After(src, from, to);
            Acts(act, SqlOf(after.up, a + ([at] + b)), s) == Acts(act, SqlOf(src.up, a + (SortAsc(range) + b)), s)
  {
    var range, at, after := Range(src, from, to), At(src, from, to), After(src, from, to);
    OutsideRange(src, from, to, Elems(a) + Elems(b));
    AfterVersions(src, from, to);
    SeparableRange(act, src.up, SortAsc(range), range);
    assert forall v :: v in a || v in b ==> v in Elems(a) + Elems(b);
    SqueezedActs(act, src.up, after.up, a, SortAsc(range), b, at, s);
  }

  /** ... and records what the range recorded, outside the range. */
  lemma WalkedUpRecords(src: Source, from: nat, to: int, a: seq<nat>, b: seq<nat>)
    requires Squashable(src, from, to) && Elems(a) !! Range(src, from, to) && Elems(b) !! Range(src, from, to)
    ensures var range, at, after := Range(src, from, to), At(src, from, to), After(src, from, to);
            Elems(a + ([at] + b)) * after.up.Keys ==
            (Elems(a + (SortAsc(range) + b)) * src.up.Keys) - (range - {at})
  {
    var range, at, after := Range(src, from, to), At(src, from, to), After(src, from, to);
    SortAscEnumerates(range);
    WalkedAround(a, SortAsc(range), b, at);
    OutsideRange(src, from, to, Elems(a) + Elems(b));
    SameKeys(src.up, after.up, Elems(a) + Elems(b));
    AtIsThere(src, from, to);
    CutKeys(Elems(a) + Elems(b), range, at, src.up.Keys, after.up.Keys);
  }

  lemma WalkedAround(a: seq<nat>, mid: seq<nat>, b: seq<nat>, at: nat)
    ensures Elems(a + (mid + b)) == (Elems(a) + Elems(b)) + Elems(mid)
    ensures Elems(a + ([at] + b)) == (Elems(a) + Elems(b)) + {at}
  {
    ElemsOfThree(a, mid, b);
    ElemsOfThree(a, [at], b);
    ConsElems(at, []);
    assert [at] + [] == [at];
  }

  lemma AtIsThere(src: Source, from: nat, to: int)
    requires Squashable(src, from, to)
    ensures At(src, from, to) in Range(src, from, to) && At(src, from, to) in After(src, from, to).up
  {
    AfterVersions(src, from, to);
    RangeEnds(src, from, to);
  }

  lemma CutKeys(outside: set<nat>, range: set<nat>, at: nat, files: set<nat>, files': set<nat>)
    requires outside !! range && at in range && range <= files && at in files' && outside * files == outside * files'
    ensures (outside + {at}) * files' == ((outside + range) * files) - (range - {at})
  {
    forall v ensures v in (outside + {at}) * files' <==> v in ((outside + range) * files) - (range - {at}) {
      assert v in outside * files <==> v in outside * files';
      assert v in outside ==> v !in range;
    }
  }

  lemma SameKeys(files: map<nat, string>, files': map<nat, string>, vs: set<nat>)
    requires forall v :: v in vs ==> Lookup(files, v) == Lookup(files', v)
    ensures vs * files.Keys == vs * files'.Keys
  {
    assert forall v :: v in vs ==> (v in files <==> v in files');
  }

  /** Squashing versions that are not applied, whatever other files are lacking: Up on the squashed project reports what
      Up on the original reports, makes the same schema, and records the same versions with the last one of the range
      in place of the range. */
  lemma SquashThenUp<S(!new)>(accepts: Verdict, src: Source, srv: Server, from: nat, to: int, act: (string, S) -> S,
                              s: S)
    requires Willing(accepts, false) && Squashable(src, from, to) && Range(src, from, to) !! srv.store.Keys
    requires NothingDoesNothing(act) && forall v :: v in Range(src, from, to) ==> Separable(act, src.up[v])
    ensures var range, at := Range(src, from, to), At(src, from, to);
            var original := RunJob(accepts, false, src, ReadUp(-1), srv);
            var squashed := RunJob(accepts, false, After(src, from, to), ReadUp(-1), srv);
            && squashed.error == original.error
            && Replay(act, squashed.server.log, s) == Replay(act, original.server.log, s)
            && squashed.server.store.Keys == original.server.store.Keys - (range - {at})
  {
    var range, after := Range(src, from, to), After(src, from, to);
    var a, b, past := PendingWalks(src, srv, from, to);
    AfterFits(src, srv, from, to);
    UpWalks(accepts, src, srv, act, s);
    UpWalks(accepts, after, srv, act, s);
    var before := Replay(act, srv.log, s);
    if past {
      WalkedUpActs(act, src, from, to, a, b, before);
      WalkedUpRecords(src, from, to, a, b);
    } else {
      OutsideRange(src, from, to, Elems(a));
      SqlSame(src.up, after.up, a);
      SameKeys(src.up, after.up, Elems(a));
    }
  }

  lemma AfterFits(src: Source, srv: Server, from: nat, to: int)
    requires Squashable(src, from, to) && Range(src, from, to) !! srv.store.Keys
    ensures Fits(After(src, from, to).Versions()) && Pending(src, srv) != [] && Pending(After(src, from, to), srv) != []
  {
    AfterVersions(src, from, to);
    RangeEnds(src, from, to);
    assert At(src, from, to) in src.Versions() - srv.store.Keys;
    assert At(src, from, to) in After(src, from, to).Versions() - srv.store.Keys;
  }

  /***** A range that starts at version 0 *****/

  /** The pending versions then: those above the range come after the range, or after version 0 and its last one. */
  lemma ZeroParts(src: Source, srv: Server, to: int) returns (above: set<nat>)
    requires IsRange(src, 0, to) && Range(src, 0, to) <= src.up.Keys && Range(src, 0, to) != {0}
    requires Range(src, 0, to) !! srv.store.Keys
    ensures var range, at, after := Range(src, 0, to), At(src, 0, to), AfterZero(src, to);
            && above !! range
            && Pending(src, srv) == SortAsc(range) + SortAsc(above)
            && Pending(after, srv) == [0] + ([at] + SortAsc(above))
  {
    above := Above(src.Versions() - srv.store.Keys, At(src, 0, to));
    ZeroOrder(src, srv.store.Keys, to);
    RangeEnds(src, 0, to);
  }

  /** The files they have. */
  lemma ZeroFiles(src: Source, to: int, above: set<nat>)
    requires IsRange(src, 0, to) && Range(src, 0, to) <= src.up.Keys && Range(src, 0, to) != {0}
    requires above !! Range(src, 0, to)
    ensures var range, at, after := Range(src, 0, to), At(src, 0, to), AfterZero(src, to);
            && range <= UpFiles(src) && 0 in UpFiles(after) && at in UpFiles(after)
            && forall v :: v in above ==> (v in UpFiles(after) <==> v in UpFiles(src))
  {
    ZeroVersions(src, to);
    assert 0 in src.up && 0 in AfterZero(src, to).up;
  }

  /** What Up walks over then, before and after. */
  lemma ZeroWalks(src: Source, srv: Server, to: int) returns (b: seq<nat>)
    requires IsRange(src, 0, to) && Range(src, 0, to) <= src.up.Keys && Range(src, 0, to) != {0}
    requires Range(src, 0, to) !! srv.store.Keys
    ensures var range, at, after := Range(src, 0, to), At(src, 0, to), AfterZero(src, to);
            && Elems(b) !! range && Pending(src, srv) != [] && Pending(after, srv) != []
            && StopsAt(UpFiles(after), Pending(after, srv)) == StopsAt(UpFiles(src), Pending(src, srv))
            && Walked(UpFiles(src), Pending(src, srv)) == SortAsc(range) + b
            && Walked(UpFiles(after), Pending(after, srv)) == [0] + ([at] + b)
  {
    var above := ZeroParts(src, srv, to);
    ZeroFiles(src, to, above);
    var range, at, files, files' := Range(src, 0, to), At(src, 0, to), UpFiles(src), UpFiles(AfterZero(src, to));
    b := Walked(files, SortAsc(above));
    RangeThenRest(files, range, above);
    SortedMembers(above);
    SameWalk(files', files, SortAsc(above));
    TwoThere(files', 0, at);
    ThreeParts(files', [0], [at], SortAsc(above));
    SortAscEnumerates(above);
    WalkedIn(files, SortAsc(above));
  }

  lemma RangeThenRest(files: set<nat>, range: set<nat>, above: set<nat>)
    requires range <= files
    ensures Walked(files, SortAsc(range) + SortAsc(above)) == SortAsc(range) + Walked(files, SortAsc(above))
    ensures StopsAt(files, SortAsc(range) + SortAsc(above)) == StopsAt(files, SortAsc(above))
    ensures range != {} ==> SortAsc(range) != []
  {
    SortAscEnumerates(range);
    WalkedParts(files, SortAsc(range));
    WalkedOn(files, SortAsc(range), SortAsc(above));
  }

  lemma TwoThere(files: set<nat>, v: nat, w: nat)
    requires v in files && w in files
    ensures StopsAt(files, [v]) == None && StopsAt(files, [w]) == None
  {
    assert [v][1..] == [] && [w][1..] == [];
  }

  /** Squashing a pending range that starts at version 0 changes what Up does: the SQL of version 0 runs twice, once on
      its own and once more at the head of the squashed text. What follows the range, and how it ends, is the same. */
  lemma ZeroRunsTwice<S(!new)>(accepts: Verdict, src: Source, srv: Server, to: int, act: (string, S) -> S, s: S)
    requires Willing(accepts, false) && Fits(src.Versions())
    requires IsRange(src, 0, to) && Range(src, 0, to) <= src.up.Keys && Range(src, 0, to) != {0}
    requires Range(src, 0, to) !! srv.store.Keys
    requires NothingDoesNothing(act) && forall v :: v in Range(src, 0, to) ==> Separable(act, src.up[v])
    ensures var original := RunJob(accepts, false, src, ReadUp(-1), srv);
            var squashed := RunJob(accepts, false, AfterZero(src, to), ReadUp(-1), srv);
            var before, walked := Replay(act, srv.log, s), Walked(UpFiles(src), Pending(src, srv));
            && 0 in src.up && squashed.error == original.error
            && Replay(act, original.server.log, s) == Acts(act, SqlOf(src.up, walked), before)
            && Replay(act, squashed.server.log, s) == Acts(act, SqlOf(src.up, walked), act(src.up[0], before))
  {
    var after, before := AfterZero(src, to), Replay(act, srv.log, s);
    var b := ZeroWalks(src, srv, to);
    ZeroFits(src, to);
    UpWalks(accepts, src, srv, act, s);
    UpWalks(accepts, after, srv, act, s);
    ZeroActs(act, src, to, b, before);
  }

  lemma ZeroFits(src: Source, to: int)
    requires IsRange(src, 0, to) && Range(src, 0, to) <= src.up.Keys && Range(src, 0, to) != {0} && Fits(src.Versions())
    ensures Fits(AfterZero(src, to).Versions())
  {
    ZeroVersions(src, to);
    RangeEnds(src, 0, to);
  }

  /***** A squash of versions that are applied *****/

  /** The recorded versions in three parts: above, in and below the range; the same after the squash, with the range
      replaced by its last version. */
  lemma RecordedParts(src: Source, srv: Server, from: nat, to: int) returns (above: set<nat>, below: set<nat>)
    requires Squashable(src, from, to) && InForce(src, srv.store.Keys, from, to)
    ensures var range, at := Range(src, from, to), At(src, from, to);
            && above == Above(srv.store.Keys, at) && above !! range && below !! range
            && srv.store.Keys == above + range + below
            && Recorded(srv) == SortDesc(above) + (SortDesc(range) + SortDesc(below))
            && Recorded(Forgotten(srv, src, from, to)) == SortDesc(above) + ([at] + SortDesc(below))
  {
    var range, at := Range(src, from, to), At(src, from, to);
    RangeEnds(src, from, to);
    InForceCut(src, srv.store.Keys, from, to);
    CutDesc(srv.store.Keys, range, from, at);
    SquashKeepsPending(src, srv, from, to);
    above, below := Above(srv.store.Keys, at), UpTo(srv.store.Keys, from - 1);
  }

  /** All versions recorded above the range can be taken back, so that Down gets to the range. */
  predicate GetsToRange(src: Source, applied: set<nat>, at: nat) {
    Above(applied, at) <= DownFiles(src)
  }

  /** Either the whole range can be taken back, and some of it has SQL, or nothing of it has SQL and its last version
      cannot be taken back. */
  predicate RangeGoesAlike(src: Source, range: set<nat>, at: nat) {
    if range !! src.down.Keys then at !in DownFiles(src) else range <= DownFiles(src)
  }

  /** The walk over the range on the squashed project. */
  lemma SquashedRangeWalk(src: Source, from: nat, to: int)
    requires Squashable(src, from, to)
    ensures var range, at, files := Range(src, from, to), At(src, from, to), DownFiles(After(src, from, to));
            StopsAt(files, [at]) == if range !! src.down.Keys then Some(at) else None
  {
    AfterDownFile(src, from, to);
    AtIsThere(src, from, to);
    assert [At(src, from, to)][1..] == [];
  }

  /** The walk over the range on the original. */
  lemma OriginalRangeWalk(src: Source, from: nat, to: int)
    requires Squashable(src, from, to)
    ensures var range, at, files := Range(src, from, to), At(src, from, to), DownFiles(src);
            && (StopsAt(files, SortDesc(range)) == None <==> range <= files)
            && (StopsAt(files, SortDesc(range)).Some? ==> StopsAt(files, SortDesc(range)).value in range - files)
            && (at !in files ==> StopsAt(files, SortDesc(range)) == Some(at) && Walked(files, SortDesc(range)) == [])
  {
    var range := Range(src, from, to);
    AtIsThere(src, from, to);
    SortDescEnumerates(range);
    WalkedParts(DownFiles(src), SortDesc(range));
    assert SortDesc(range)[0] == MaxOf(range);
  }

  /** Where Down stops, before and after: at the same version exactly if it does not get to the range or the range goes
      alike. */
  lemma RollbackStops(src: Source, srv: Server, from: nat, to: int)
    requires Squashable(src, from, to) && InForce(src, srv.store.Keys, from, to)
    ensures var range, at, after := Range(src, from, to), At(src, from, to), After(src, from, to);
            StopsAt(DownFiles(after), Recorded(Forgotten(srv, src, from, to))) == StopsAt(DownFiles(src), Recorded(srv))
            <==> !GetsToRange(src, srv.store.Keys, at) || RangeGoesAlike(src, range, at)
  {
    var range, at, after := Range(src, from, to), At(src, from, to), After(src, from, to);
    var above, below := RecordedParts(src, srv, from, to);
    SameWalkOutside(src, from, to, above);
    SameWalkOutside(src, from, to, below);
    SquashedRangeWalk(src, from, to);
    OriginalRangeWalk(src, from, to);
    ThreeParts(DownFiles(src), SortDesc(above), SortDesc(range), SortDesc(below));
    ThreeParts(DownFiles(after), SortDesc(above), [at], SortDesc(below));
    SortDescEnumerates(above);
    SortDescEnumerates(below);
    WalkedParts(DownFiles(src), SortDesc(above));
    WalkedParts(DownFiles(src), SortDesc(below));
  }

  /** The walks over the three parts, before and after. */
  lemma RollbackParts(src: Source, srv: Server, from: nat, to: int) returns (a: seq<nat>, b: seq<nat>)
    requires Squashable(src, from, to) && InForce(src, srv.store.Keys, from, to)
    ensures var range, at, after := Range(src, from, to), At(src, from, to), After(src, from, to);
            var gets, files := GetsToRange(src, srv.store.Keys, at), DownFiles(src);
            && Elems(a) !! range && Elems(b) !! range
            && Walked(DownFiles(after), Recorded(Forgotten(srv, src, from, to))) ==
               (if !gets || range !! src.down.Keys then a else a + ([at] + b))
            && Walked(files, Recorded(srv)) ==
               (if !gets then a
                else if StopsAt(files, SortDesc(range)).Some? then a + Walked(files, SortDesc(range))
                else a + (SortDesc(range) + b))
  {
    var range, at, after := Range(src, from, to), At(src, from, to), After(src, from, to);
    var above, below := RecordedParts(src, srv, from, to);
    SameWalkOutside(src, from, to, above);
    SameWalkOutside(src, from, to, below);
    SquashedRangeWalk(src, from, to);
    a, b := Walked(DownFiles(src), SortDesc(above)), Walked(DownFiles(src), SortDesc(below));
    ThreeParts(DownFiles(src), SortDesc(above), SortDesc(range), SortDesc(below));
    ThreeParts(DownFiles(after), SortDesc(above), [at], SortDesc(below));
    NothingThere(DownFiles(after), a, at);
    WalksInside(DownFiles(src), above);
    WalksInside(DownFiles(src), below);
  }

  lemma WalksInside(files: set<nat>, vs: set<nat>)
    ensures Elems(Walked(files, SortDesc(vs))) <= vs
    ensures StopsAt(files, SortDesc(vs)) == None <==> vs <= files
    ensures vs <= files ==> Walked(files, SortDesc(vs)) == SortDesc(vs)
  {
    SortDescEnumerates(vs);
    WalkedIn(files, SortDesc(vs));
    WalkedParts(files, SortDesc(vs));
  }

  lemma NothingThere(files: set<nat>, a: seq<nat>, at: nat)
    ensures StopsAt(files, [at]).Some? ==> a + Walked(files, [at]) == a
  {
    assert a + [] == a;
    assert [at][1..] == [] && StopsAt(files, [at][1..]) == None;
  }

  /** What the same Down covers outside the range is the same. */
  lemma SameOutside(a: seq<nat>, range: set<nat>, b: seq<nat>, at: nat)
    requires at in range
    ensures Elems(a + (SortDesc(range) + b)) - range == Elems(a + ([at] + b)) - range
  {
    SortDescEnumerates(range);
    WalkedAround(a, SortDesc(range), b, at);
  }

  /** Down does not get to the range, or the range goes alike. */
  predicate GoesAlike(src: Source, applied: set<nat>, from: nat, to: int)
    requires IsRange(src, from, to)
  {
    !GetsToRange(src, applied, At(src, from, to)) || RangeGoesAlike(src, Range(src, from, to), At(src, from, to))
  }

  /** Then Down covers the same versions outside the range, and runs the same SQL. */
  lemma RollbackAlike<S(!new)>(act: (string, S) -> S, src: Source, srv: Server, from: nat, to: int, s: S)
    requires Squashable(src, from, to) && InForce(src, srv.store.Keys, from, to)
    requires GoesAlike(src, srv.store.Keys, from, to)
    requires NothingDoesNothing(act)
    requires forall v :: v in Range(src, from, to) && v in src.down ==> Separable(act, src.down[v])
    ensures var range, after := Range(src, from, to), After(src, from, to);
            var walked := Walked(DownFiles(src), Recorded(srv));
            var walked' := Walked(DownFiles(after), Recorded(Forgotten(srv, src, from, to)));
            && Elems(walked') - range == Elems(walked) - range
            && Acts(act, SqlOf(after.down, walked'), s) == Acts(act, SqlOf(src.down, walked), s)
  {
    var range, at, after := Range(src, from, to), At(src, from, to), After(src, from, to);
    var a, b := RollbackParts(src, srv, from, to);
    OriginalRangeWalk(src, from, to);
    AtIsThere(src, from, to);
    assert a + [] == a;
    if !GetsToRange(src, srv.store.Keys, at) || range !! src.down.Keys {
      OutsideRange(src, from, to, Elems(a));
      SqlSame(src.down, after.down, a);
    } else {
      SameOutside(a, range, b, at);
      WalkedDownActs(act, src, from, to, a, b, s);
    }
  }

  lemma WalkedDownActs<S(!new)>(act: (string, S) -> S, src: Source, from: nat, to: int, a: seq<nat>, b: seq<nat>, s: S)
    requires Squashable(src, from, to) && Elems(a) !! Range(src, from, to) && Elems(b) !! Range(src, from, to)
    requires NothingDoesNothing(act)
    requires forall v :: v in Range(src, from, to) && v in src.down ==> Separable(act, src.down[v])
    ensures var range, at, after := Range(src, from, to), At(src, from, to), After(src, from, to);
            Acts(act, SqlOf(after.down, a + ([at] + b)), s) == Acts(act, SqlOf(src.down, a + (SortDesc(range) + b)), s)
  {
    var range, at, after := Range(src, from, to), At(src, from, to), After(src, from, to);
    OutsideRange(src, from, to, Elems(a) + Elems(b));
    AfterDownFile(src, from, to);
    SeparableRange(act, src.down, SortDesc(range), range);
    assert forall v :: v in a || v in b ==> v in Elems(a) + Elems(b);
    SqueezedActs(act, src.down, after.down, a, SortDesc(range), b, at, s);
  }

  /** The last version of the range stays recorded exactly if Down does not get to it or it has no down SQL then. */
  lemma LastIsLeft(src: Source, srv: Server, from: nat, to: int)
    requires Squashable(src, from, to) && InForce(src, srv.store.Keys, from, to)
    ensures var range, at, after := Range(src, from, to), At(src, from, to), After(src, from, to);
            var recorded := Forgotten(srv, src, from, to);
            at in recorded.store.Keys - (Elems(Walked(DownFiles(after), Recorded(recorded))) * after.down.Keys) <==>
            !GetsToRange(src, srv.store.Keys, at) || range !! src.down.Keys
  {
    var at := At(src, from, to);
    var a, b := RollbackParts(src, srv, from, to);
    AtIsThere(src, from, to);
    InForceCut(src, srv.store.Keys, from, to);
    AfterDownFile(src, from, to);
    ElemsOfThree(a, [at], b);
    ConsElems(at, []);
  }

  /** What is left outside the range. */
  lemma LeftOutside(src: Source, applied: set<nat>, from: nat, to: int, walked: set<nat>, walked': set<nat>)
    requires IsRange(src, from, to) && walked' - Range(src, from, to) == walked - Range(src, from, to)
    ensures var range, at, after := Range(src, from, to), At(src, from, to), After(src, from, to);
            ((applied - (range - {at})) - (walked' * after.down.Keys)) - {at} ==
            (applied - (walked * src.down.Keys)) - range
  {
    var range, at, after := Range(src, from, to), At(src, from, to), After(src, from, to);
    assert at in range;
    forall v
      ensures v in ((applied - (range - {at})) - (walked' * after.down.Keys)) - {at} <==>
              v in (applied - (walked * src.down.Keys)) - range
    {
      assert v in walked' - range <==> v in walked - range;
      if v !in range {
        OutsideRange(src, from, to, {v});
        assert v in after.down <==> v in src.down;
      }
    }
  }

  /** Squashing versions that are applied, whatever files are lacking: Down on the squashed project reports what Down on
      the original reports exactly if it does not get to the range or the range goes alike. Then the schema ends up the
      same, and the same versions stay recorded outside the range. In any case Down leaves the last version of the range
      recorded only if it does not get there or nothing of the range has down SQL. */
  lemma SquashThenDown<S(!new)>(accepts: Verdict, src: Source, srv: Server, from: nat, to: int, act: (string, S) -> S,
                                s: S)
    requires Willing(accepts, false) && Squashable(src, from, to) && Fits(srv.store.Keys)
    requires InForce(src, srv.store.Keys, from, to)
    requires NothingDoesNothing(act)
    requires forall v :: v in Range(src, from, to) && v in src.down ==> Separable(act, src.down[v])
    ensures var range, at := Range(src, from, to), At(src, from, to);
            var original := RunJob(accepts, false, src, ReadDown(-1), srv);
            var squashed := RunJob(accepts, false, After(src, from, to), ReadDown(-1), Forgotten(srv, src, from, to));
            && (squashed.error == original.error <==> GoesAlike(src, srv.store.Keys, from, to))
            && (squashed.error == original.error ==>
                  && Replay(act, squashed.server.log, s) == Replay(act, original.server.log, s)
                  && squashed.server.store.Keys - {at} == original.server.store.Keys - range)
            && (at in squashed.server.store.Keys <==>
                !GetsToRange(src, srv.store.Keys, at) || range !! src.down.Keys)
  {
    var range, after, recorded := Range(src, from, to), After(src, from, to), Forgotten(srv, src, from, to);
    RecordedThere(src, srv, from, to);
    DownWalks(accepts, src, srv, act, s);
    DownWalks(accepts, after, recorded, act, s);
    RollbackStops(src, srv, from, to);
    LastIsLeft(src, srv, from, to);
    if GoesAlike(src, srv.store.Keys, from, to) {
      var before := Replay(act, srv.log, s);
      RollbackAlike(act, src, srv, from, to, before);
      LeftOutside(src, srv.store.Keys, from, to, Elems(Walked(DownFiles(src), Recorded(srv))),
                  Elems(Walked(DownFiles(after), Recorded(recorded))));
    }
  }

  lemma RecordedThere(src: Source, srv: Server, from: nat, to: int)
    requires Squashable(src, from, to) && InForce(src, srv.store.Keys, from, to)
    ensures Recorded(srv) != [] && Recorded(Forgotten(srv, src, from, to)) != []
    ensures Forgotten(srv, src, from, to).store.Keys == srv.store.Keys - (Range(src, from, to) - {At(src, from, to)})
  {
    AtIsThere(src, from, to);
    InForceCut(src, srv.store.Keys, from, to);
    var at := At(src, from, to);
    assert at in srv.store.Keys && at in Forgotten(srv, src, from, to).store.Keys;
  }

  /** With no down migration in the range that is metadata only, the range goes alike exactly if all of it or nothing
      of it has down SQL. */
  lemma AllOrNothing(src: Source, applied: set<nat>, from: nat, to: int)
    requires IsRange(src, from, to) && Range(src, from, to) !! src.metaDown
    requires GetsToRange(src, applied, At(src, from, to))
    ensures var range := Range(src, from, to);
            GoesAlike(src, applied, from, to) <==> range <= src.down.Keys || range !! src.down.Keys
  {
    assert At(src, from, to) in Range(src, from, to);
  }

  /** Two versions, the later one without a down file. */
  const PARTIAL := Source(map[1 := "a", 2 := "b"], map[1 := "c"], {}, {})

  lemma PartialRange()
    ensures Squashable(PARTIAL, 1, 2) && PARTIAL.Versions() == Range(PARTIAL, 1, 2) == {1, 2}
    ensures At(PARTIAL, 1, 2) == 2 && SortDesc({1, 2}) == [2, 1] && SortDesc({2}) == [2]
  {
    assert PARTIAL.Versions() == {1, 2} == Range(PARTIAL, 1, 2);
    assert MaxOf({1, 2}) == 2 && {1, 2} - {2} == {1} && MaxOf({1}) == 1 && {1} - {1} == {};
    assert SortDesc({1}) == [1];
    assert MaxOf({2}) == 2 && {2} - {2} == {} && SortDesc({2}) == [2];
  }

  lemma PartialDown()
    ensures IsRange(PARTIAL, 1, 2) && After(PARTIAL, 1, 2).down == map[2 := "\nc"]
    ensures After(PARTIAL, 1, 2).metaDown == {}
  {
    PartialRange();
    assert [2, 1][1..] == [1] && [1][1..] == [];
    assert DownText(PARTIAL, {1, 2}) == "\nc";
    assert PARTIAL.down - {1, 2} == map[];
  }

  lemma PartialAfter(accepts: Verdict, srv: Server)
    requires Willing(accepts, false) && srv.store.Keys == {2}
    ensures IsRange(PARTIAL, 1, 2)
    ensures var o := RunJob(accepts, false, After(PARTIAL, 1, 2), ReadDown(-1), srv);
            o.error == None && o.server.store.Keys == {} && o.server.log == srv.log + [Migration(2, -1, Some("\nc"))]
  {
    PartialRange();
    PartialDown();
    var after := After(PARTIAL, 1, 2);
    StepsDown(accepts, false, after, -1, srv);
    assert DownMessages(after, {2}, [2]) == [Migration(2, -1, Some("\nc"))];
    assert [2][1..] == [] && [2][..1] == [2];
  }

  /** The two applied: Down runs nothing and complains. After squashing them it takes back the earlier one although the
      later one is still in force, and reports success. */
  lemma PartialRollback(accepts: Verdict, srv: Server)
    requires Willing(accepts, false) && srv.store.Keys == {1, 2}
    ensures Squashable(PARTIAL, 1, 2) && InForce(PARTIAL, srv.store.Keys, 1, 2)
    ensures RunJob(accepts, false, PARTIAL, ReadDown(-1), srv) == Outcome(srv, Some(DownMissing(2)))
    ensures var o := RunJob(accepts, false, After(PARTIAL, 1, 2), ReadDown(-1), Forgotten(srv, PARTIAL, 1, 2));
            o.error == None && o.server.store.Keys == {} && o.server.log == srv.log + [Migration(2, -1, Some("\nc"))]
  {
    PartialRange();
    var forgotten := Forgotten(srv, PARTIAL, 1, 2);
    assert forgotten.store.Keys == {2};
    PartialAfter(accepts, forgotten);
    assert Plan(PARTIAL, {1, 2}, ReadDown(-1), Start) == [Failed(DownMissing(2))] by {
      PlanOfDown(PARTIAL, {1, 2}, -1);
    }
  }
}
