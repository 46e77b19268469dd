/** Sequences of operations: what they keep, and what one undoes of another. */
module History {
  import opened Ordering
  import opened Readers
  import opened Runner
  import opened Laws
  import opened Outcomes

  /** The database is caught up to some point of the project, with up and down SQL for every version. */
  ghost predicate Canonical(src: Source, applied: set<nat>) {
    Fits(src.Versions()) && AllUp(src) && AllDown(src) && InitialSegment(applied, src.Versions())
  }

  predicate IsTarget(src: Source, target: int) {
    target == -1 || target in src.Versions()
  }

  /** One GotoVersion: it always completes, and where it ends up depends on the target alone. */
  lemma GotoCanonical(accepts: Verdict, skip: bool, src: Source, target: int, srv: Server)
    requires Willing(accepts, skip) && Canonical(src, srv.store.Keys) && IsTarget(src, target)
    ensures var o := RunJob(accepts, skip, src, GotoJob(srv.store.Keys, target), srv);
            o.server.store.Keys == UpTo(src.Versions(), target) && (o.error == None || o.error == Some(NoChange))
  {
    var versions, applied := src.Versions(), srv.store.Keys;
    var current := LastOrNil(applied);
    if current <= target {
      GotoUp(accepts, skip, src, target, srv);
      GotoUpReaches(accepts, skip, src, target, srv);
      assert applied <= UpTo(versions, target);
      if UpTo(versions - applied, target) == {} {
        forall x | x in UpTo(versions, target) ensures x in applied {
          assert x !in UpTo(versions - applied, target);
        }
      }
    } else {
      assert target >= 0 ==> target in applied;
      assert target == -1 ==> PrevIn(versions, MinOf(applied)).None?;
      GotoDownReaches(accepts, skip, src, target, srv);
      assert UpTo(applied, target) == UpTo(versions, target);
    }
  }

  /** A series of GotoVersion commands, each with a fresh scan. */
  function GotoAll(accepts: Verdict, skip: bool, src: Source, targets: seq<int>, srv: Server): Server {
    if targets == [] then srv
    else GotoAll(accepts, skip, src, targets[1..],
                 RunJob(accepts, skip, src, GotoJob(srv.store.Keys, targets[0]), srv).server)
  }

  /** Only the last target matters. */
  lemma {:induction false} GotoHasNoMemory(accepts: Verdict, skip: bool, src: Source, targets: seq<int>, srv: Server)
    requires Willing(accepts, skip) && Canonical(src, srv.store.Keys) && targets != []
    requires forall t :: t in targets ==> IsTarget(src, t)
    ensures GotoAll(accepts, skip, src, targets, srv).store.Keys == UpTo(src.Versions(), targets[|targets| - 1])
    decreases |targets|
  {
    GotoCanonical(accepts, skip, src, targets[0], srv);
    var after := RunJob(accepts, skip, src, GotoJob(srv.store.Keys, targets[0]), srv).server;
    if |targets| > 1 {
      GotoHasNoMemory(accepts, skip, src, targets[1..], after);
    } else {
      assert targets[1..] == [];
    }
  }

  /***** Steps(k) and Steps(-k) *****/

  /** Two top parts of a set with the same number of members are the same. */
  lemma TopPartsAgree(whole: set<nat>, a: set<nat>, b: set<nat>)
    requires a <= whole && b <= whole && |a| == |b|
    requires forall x, y :: x in a && y in whole && y !in a ==> x > y
    requires forall x, y :: x in b && y in whole && y !in b ==> x > y
    ensures a == b
  {
    if a != b {
      // Each has a member the other lacks, and the two members would each have to be the greater.
      if a <= b { SetSmaller(a, b); }
      if b <= a { SetSmaller(b, a); }
    }
  }

  /** The k least members of a set, or all of them if there are fewer. */
  function Least(s: set<nat>, k: nat): set<nat> {
    Elems(SortAsc(s)[..Wanted(k, |SortAsc(s)|)])
  }

  function Greatest(s: set<nat>, k: nat): set<nat> {
    Elems(SortDesc(s)[..Wanted(k, |SortDesc(s)|)])
  }

  lemma {:induction false} AllBodies(ms: seq<Message>)
    requires forall i :: 0 <= i < |ms| ==> HasBody(ms[i])
    ensures Bodies(ms) == ms
    decreases |ms|
  {
    if ms == [] {
    } else {
      AllBodies(ms[1..]);
    }
  }

  lemma UpBodies(src: Source, vs: seq<nat>)
    requires Elems(vs) <= src.up.Keys && Fits(Elems(vs))
    ensures Bodies(UpMessages(src, vs)) == UpMessages(src, vs)
  {
    forall i | 0 <= i < |vs| ensures HasBody(UpMessages(src, vs)[i]) {
      assert vs[i] in Elems(vs);
    }
    AllBodies(UpMessages(src, vs));
  }

  lemma DownBodies(src: Source, applied: set<nat>, vs: seq<nat>)
    requires Elems(vs) <= src.down.Keys && Fits(Elems(vs))
    ensures Bodies(DownMessages(src, applied, vs)) == DownMessages(src, applied, vs)
  {
    forall i | 0 <= i < |vs| ensures HasBody(DownMessages(src, applied, vs)[i]) {
      assert vs[i] in Elems(vs);
    }
    AllBodies(DownMessages(src, applied, vs));
  }

  /** Steps(k) succeeds and records the k least missing versions exactly if there are that many and they have up SQL;
      then they are executed in ascending order. */
  lemma StepsUpTakesLeast(accepts: Verdict, skip: bool, src: Source, k: int, srv: Server)
    requires Willing(accepts, skip) && Fits(src.Versions()) && k > 0
    ensures var missing := src.Versions() - srv.store.Keys;
            var up := RunJob(accepts, skip, src, ReadUp(k), srv);
            && (up.error == None && up.server.store.Keys == srv.store.Keys + Least(missing, k) <==>
                k <= |missing| && Least(missing, k) <= src.up.Keys)
            && (k <= |missing| && Least(missing, k) <= src.up.Keys && !skip ==>
                  up.server.log == srv.log + UpMessages(src, SortAsc(Least(missing, k))))
  {
    var missing := src.Versions() - srv.store.Keys;
    StepsUp(accepts, skip, src, k, srv);
    SortAscEnumerates(missing);
    if k <= |missing| {
      LeastSorted(missing, k);
      AllTaken(src, SortAsc(Least(missing, k)), srv.store.Keys);
      SortAscEnumerates(Least(missing, k));
      LeastLog(src, missing, k);
    }
  }

  lemma LeastLog(src: Source, s: set<nat>, k: nat)
    requires k <= |s| && Fits(s)
    ensures var vs := SortAsc(Least(s, k));
            Least(s, k) <= src.up.Keys ==>
              UpReach(src, vs) == |vs| && vs[..|vs|] == vs && Bodies(UpMessages(src, vs)) == UpMessages(src, vs)
  {
    var vs := SortAsc(Least(s, k));
    LeastSorted(s, k);
    SortAscEnumerates(Least(s, k));
    assert vs[..|vs|] == vs;
    if Least(s, k) <= src.up.Keys {
      FullUpReach(src, vs);
      UpBodies(src, vs);
    }
  }

  /** Steps(-k) succeeds and removes the k greatest recorded versions exactly if there are that many and they have down
      SQL; then they are taken back in descending order. */
  lemma StepsDownTakesGreatest(accepts: Verdict, skip: bool, src: Source, k: int, srv: Server)
    requires Willing(accepts, skip) && Fits(srv.store.Keys) && k > 0
    ensures var applied := srv.store.Keys;
            var down := RunJob(accepts, skip, src, ReadDown(k), srv);
            && (down.error == None && down.server.store.Keys == applied - Greatest(applied, k) <==>
                k <= |applied| && Greatest(applied, k) <= src.down.Keys)
            && (k <= |applied| && Greatest(applied, k) <= src.down.Keys && !skip ==>
                  down.server.log == srv.log + DownMessages(src, applied, SortDesc(Greatest(applied, k))))
  {
    var applied := srv.store.Keys;
    StepsDown(accepts, skip, src, k, srv);
    SortDescEnumerates(applied);
    if k <= |applied| {
      GreatestSorted(applied, k);
      AllRemoved(src, SortDesc(Greatest(applied, k)), applied);
      SortDescEnumerates(Greatest(applied, k));
      GreatestLog(src, applied, k);
    }
  }

  lemma GreatestLog(src: Source, s: set<nat>, k: nat)
    requires k <= |s| && Fits(s)
    ensures var vs := SortDesc(Greatest(s, k));
            Greatest(s, k) <= src.down.Keys ==>
              && DownReach(src, vs) == |vs| && vs[..|vs|] == vs
              && Bodies(DownMessages(src, s, vs)) == DownMessages(src, s, vs)
  {
    var vs := SortDesc(Greatest(s, k));
    GreatestSorted(s, k);
    SortDescEnumerates(Greatest(s, k));
    assert vs[..|vs|] == vs;
    if Greatest(s, k) <= src.down.Keys {
      FullDownReach(src, vs);
      DownBodies(src, s, vs);
    }
  }

  lemma LeastSorted(s: set<nat>, k: nat)
    requires k <= |s|
    ensures |SortAsc(s)| == |s| && SortAsc(s)[..k] == SortAsc(Least(s, k))
    ensures Least(s, k) <= s && |Least(s, k)| == k
  {
    SortAscEnumerates(s);
    var vs := SortAsc(s)[..k];
    assert Least(s, k) == Elems(vs);
    assert Ascending(vs);
    AscendingIsSortAsc(vs);
    AscPrefix(s, k);
  }

  lemma GreatestSorted(s: set<nat>, k: nat)
    requires k <= |s|
    ensures |SortDesc(s)| == |s| && SortDesc(s)[..k] == SortDesc(Greatest(s, k))
    ensures Greatest(s, k) <= s && |Greatest(s, k)| == k
  {
    SortDescEnumerates(s);
    var vs := SortDesc(s)[..k];
    assert Greatest(s, k) == Elems(vs);
    assert Descending(vs);
    DescendingIsSortDesc(vs);
    DescPrefix(s, k);
  }

  lemma TopRestores(applied: set<nat>, added: set<nat>, top: set<nat>)
    requires applied !! added && top <= applied + added && |top| == |added|
    requires forall x, y :: x in top && y in applied + added && y !in top ==> x > y
    ensures (applied + added) - top == applied <==> forall x, a :: x in added && a in applied ==> x > a
  {
    var whole := applied + added;
    if forall x, a :: x in added && a in applied ==> x > a {
      TopPartsAgree(whole, added, top);
      assert whole - added == applied;
    }
    if whole - top == applied {
      forall x, a | x in added && a in applied ensures x > a {
        assert x in whole && x !in applied;
        assert a in whole - top;
      }
    }
  }

  lemma AddedIsTop(applied: set<nat>, added: set<nat>, k: nat)
    requires applied !! added && |added| == k
    ensures |SortDesc(applied + added)| == |applied + added| && k <= |applied + added|
    ensures (applied + added) - Greatest(applied + added, k) == applied <==>
            forall x, a :: x in added && a in applied ==> x > a
  {
    var whole := applied + added;
    SetAtMost(added, whole);
    DescPrefix(whole, k);
    TopRestores(applied, added, Greatest(whole, k));
  }

  /** A walk that leaves exactly `kept` of kept + added has removed exactly what was added. */
  lemma RemovedWasAdded(kept: set<nat>, added: set<nat>, removed: set<nat>)
    requires kept !! added && removed <= kept + added && (kept + added) - removed == kept
    ensures removed == added
  {
    forall x ensures x in removed <==> x in added {
      assert x in kept <==> x in (kept + added) - removed;
    }
  }

  /** What Steps(-k) removes is part of the k greatest recorded versions, and only versions with down SQL. */
  lemma StepsDownRemoves(accepts: Verdict, skip: bool, src: Source, k: int, srv: Server) returns (removed: set<nat>)
    requires Willing(accepts, skip) && Fits(srv.store.Keys) && k > 0
    ensures RunJob(accepts, skip, src, ReadDown(k), srv).server.store.Keys == srv.store.Keys - removed
    ensures removed <= Greatest(srv.store.Keys, k) * src.down.Keys && removed <= srv.store.Keys
  {
    var applied := srv.store.Keys;
    StepsDown(accepts, skip, src, k, srv);
    SortDescEnumerates(applied);
    var left := SortDesc(applied);
    var vs := left[..Wanted(k, |left|)];
    var n := DownReach(src, vs);
    removed := Elems(left[..n]) * src.down.Keys;
    assert left[..n] == vs[..n];
    SplitElems(vs, n);
    SplitElems(left, |vs|);
  }

  /** Steps(-k) after a successful Steps(k): the way back restores the recorded set exactly if everything added lies
      above everything that was there, and has down SQL. Then it also succeeds. */
  lemma StepsAndBack(accepts: Verdict, skip: bool, src: Source, k: int, srv: Server)
    requires Willing(accepts, skip) && Fits(src.Versions()) && Fits(srv.store.Keys) && k > 0
    ensures var applied := srv.store.Keys;
            var added := Least(src.Versions() - applied, k);
            var up := RunJob(accepts, skip, src, ReadUp(k), srv);
            var back := RunJob(accepts, skip, src, ReadDown(k), up.server);
            k <= |src.Versions() - applied| && added <= src.up.Keys ==>
              && up.error == None && up.server.store.Keys == applied + added
              && (back.server.store.Keys == applied <==>
                  added <= src.down.Keys && forall x, a :: x in added && a in applied ==> x > a)
              && (back.server.store.Keys == applied ==> back.error == None)
  {
    var applied := srv.store.Keys;
    var missing := src.Versions() - applied;
    var added := Least(missing, k);
    if k <= |missing| && added <= src.up.Keys {
      StepsUpTakesLeast(accepts, skip, src, k, srv);
      LeastSorted(missing, k);
      var up := RunJob(accepts, skip, src, ReadUp(k), srv).server;
      FitsBoth(src, srv, added);
      BackAgain(accepts, skip, src, k, up, applied, added);
    }
  }

  lemma FitsBoth(src: Source, srv: Server, added: set<nat>)
    requires Fits(src.Versions()) && Fits(srv.store.Keys) && added <= src.Versions()
    ensures Fits(srv.store.Keys + added)
  {
  }

  /** Steps(-k) on a server with k versions more than `applied`. */
  lemma BackAgain(accepts: Verdict, skip: bool, src: Source, k: int, up: Server, applied: set<nat>, added: set<nat>)
    requires Willing(accepts, skip) && Fits(up.store.Keys) && k > 0
    requires applied !! added && |added| == k && up.store.Keys == applied + added
    ensures var back := RunJob(accepts, skip, src, ReadDown(k), up);
            && (back.server.store.Keys == applied <==>
                added <= src.down.Keys && forall x, a :: x in added && a in applied ==> x > a)
            && (back.server.store.Keys == applied ==> back.error == None)
  {
    SetAtMost(added, up.store.Keys);
    AddedIsTop(applied, added, k);
    StepsDownTakesGreatest(accepts, skip, src, k, up);
    GreatestSorted(up.store.Keys, k);
    var top := Greatest(up.store.Keys, k);
    var back := RunJob(accepts, skip, src, ReadDown(k), up);
    var removed := StepsDownRemoves(accepts, skip, src, k, up);
    if back.server.store.Keys == applied {
      RemovedWasAdded(applied, added, removed);
      if added != top {
        SetSmaller(added, top);
      }
    }
    if (applied + added) - top == applied {
      RemovedWasAdded(applied, added, top);
    }
  }

  /***** What the executed SQL does to the schema *****/

  /** The schema after a list of executed migrations, `act` being the effect of one piece of SQL. */
  function Replay<S>(act: (string, S) -> S, log: seq<Message>, s: S): S {
    if log == [] then s
    else Replay(act, log[1..], if HasBody(log[0]) then act(log[0].body.value, s) else s)
  }

  lemma {:induction false} ReplayConcat<S>(act: (string, S) -> S, a: seq<Message>, b: seq<Message>, s: S)
    ensures Replay(act, a + b, s) == Replay(act, b, Replay(act, a, s))
    decreases |a|
  {
    if a == [] {
      assert a + b == b;
    } else {
      assert (a + b)[1..] == a[1..] + b;
      ReplayConcat(act, a[1..], b, if HasBody(a[0]) then act(a[0].body.value, s) else s);
    }
  }

  /** The down SQL of v takes back what its up SQL does. */
  ghost predicate Undoes<S(!new)>(act: (string, S) -> S, src: Source, v: nat) {
    v in src.up && v in src.down && forall s :: act(src.down[v], act(src.up[v], s)) == s
  }

  lemma {:induction false} UpAndDownAgain<S(!new)>(act: (string, S) -> S, src: Source, applied: set<nat>, vs: set<nat>,
                                                   s: S)
    requires Fits(vs) && forall v :: v in vs ==> Undoes(act, src, v)
    ensures Replay(act, UpMessages(src, SortAsc(vs)) + DownMessages(src, applied, SortDesc(vs)), s) == s
    decreases vs
  {
    if vs == {} {
    } else {
      var low := MinOf(vs);
      var rest := vs - {low};
      var u, d := NewMigration(src, low, low), NewMigration(src, low, TargetBelow(applied, low));
      var inner := UpMessages(src, SortAsc(rest)) + DownMessages(src, applied, SortDesc(rest));
      LowestLast(vs);
      assert UpMessages(src, SortAsc(vs)) == [u] + UpMessages(src, SortAsc(rest));
      assert DownMessages(src, applied, SortDesc(vs)) == DownMessages(src, applied, SortDesc(rest)) + [d];
      assert UpMessages(src, SortAsc(vs)) + DownMessages(src, applied, SortDesc(vs)) == [u] + (inner + [d]);
      var s' := act(src.up[low], s);
      assert ([u] + (inner + [d]))[1..] == inner + [d];
      UpAndDownAgain(act, src, applied, rest, s');
      ReplayConcat(act, inner, [d], s');
      assert [d][1..] == [];
    }
  }

  lemma PairReplays<S(!new)>(src: Source, before: seq<Message>, both: set<nat>, vs: set<nat>, act: (string, S) -> S,
                             s: S)
    requires Fits(vs) && forall v :: v in vs ==> Undoes(act, src, v)
    ensures var log := (before + UpMessages(src, SortAsc(vs))) + DownMessages(src, both, SortDesc(vs));
            Replay(act, log, s) == Replay(act, before, s)
  {
    var ups, downs := UpMessages(src, SortAsc(vs)), DownMessages(src, both, SortDesc(vs));
    assert (before + ups) + downs == before + (ups + downs);
    ReplayConcat(act, before, ups + downs, s);
    UpAndDownAgain(act, src, both, vs, Replay(act, before, s));
  }

  lemma GreatestIsAdded(applied: set<nat>, added: set<nat>, k: nat)
    requires applied !! added && |added| == k && forall x, a :: x in added && a in applied ==> x > a
    ensures k <= |applied + added| && Greatest(applied + added, k) == added
  {
    SetAtMost(added, applied + added);
    AddedIsTop(applied, added, k);
    GreatestSorted(applied + added, k);
    RemovedWasAdded(applied, added, Greatest(applied + added, k));
  }

  lemma BackLog(accepts: Verdict, src: Source, k: int, up: Server, applied: set<nat>, added: set<nat>)
    requires Willing(accepts, false) && Fits(up.store.Keys) && k > 0
    requires applied !! added && |added| == k && up.store.Keys == applied + added && added <= src.down.Keys
    requires forall x, a :: x in added && a in applied ==> x > a
    ensures var back := RunJob(accepts, false, src, ReadDown(k), up);
            back.error == None && back.server.store.Keys == (applied + added) - added &&
            back.server.log == up.log + DownMessages(src, applied + added, SortDesc(added))
  {
    GreatestIsAdded(applied, added, k);
    StepsDownTakesGreatest(accepts, false, src, k, up);
  }

  /** When Steps(k) and Steps(-k) restore the recorded set and every down undoes its up, they restore the schema. */
  lemma StepsAndBackSchema<S(!new)>(accepts: Verdict, src: Source, k: int, srv: Server, act: (string, S) -> S, s: S)
    requires Willing(accepts, false) && Fits(src.Versions()) && Fits(srv.store.Keys) && k > 0
    requires k <= |src.Versions() - srv.store.Keys|
    requires forall v :: v in Least(src.Versions() - srv.store.Keys, k) ==> Undoes(act, src, v)
    requires forall v, a :: v in Least(src.Versions() - srv.store.Keys, k) && a in srv.store.Keys ==> v > a
    ensures var up := RunJob(accepts, false, src, ReadUp(k), srv);
            var back := RunJob(accepts, false, src, ReadDown(k), up.server);
            && up.error == None && back.error == None && back.server.store.Keys == srv.store.Keys
            && Replay(act, back.server.log, s) == Replay(act, srv.log, s)
  {
    var applied := srv.store.Keys;
    var added := Least(src.Versions() - applied, k);
    var up := RunJob(accepts, false, src, ReadUp(k), srv).server;
    StepsAndBack(accepts, false, src, k, srv);
    StepsUpTakesLeast(accepts, false, src, k, srv);
    LeastSorted(src.Versions() - applied, k);
    BackLog(accepts, src, k, up, applied, added);
    PairReplays(src, srv.log, up.store.Keys, added, act, s);
  }
}
