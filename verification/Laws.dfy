/** What a walk does to the recorded set and to the execution log, in terms of sorted sets of versions. */
module Laws {
  import opened Ordering
  import opened Readers
  import opened Runner

  /***** The shape of the plans *****/

  function UpMessages(src: Source, vs: seq<nat>): seq<Message> {
    seq(|vs|, i requires 0 <= i < |vs| => NewMigration(src, vs[i], vs[i]))
  }

  function DownMessages(src: Source, applied: set<nat>, vs: seq<nat>): seq<Message> {
    seq(|vs|, i requires 0 <= i < |vs| => NewMigration(src, vs[i], TargetBelow(applied, vs[i])))
  }

  /** The messages spelled out: version, the version recorded afterwards, and the SQL of the direction if there is
      any. */
  lemma MessagesAre(src: Source, applied: set<nat>, vs: seq<nat>)
    requires forall i :: 0 <= i < |vs| ==> vs[i] < TWO_TO_THE_63
    ensures |UpMessages(src, vs)| == |vs| == |DownMessages(src, applied, vs)|
    ensures forall i :: 0 <= i < |vs| ==>
                          UpMessages(src, vs)[i] ==
                          Migration(vs[i], vs[i], if vs[i] in src.up then Some(src.up[vs[i]]) else None)
    ensures forall i :: 0 <= i < |vs| ==>
                          var m := DownMessages(src, applied, vs)[i];
                          && m.Migration? && m.version == vs[i]
                          && m.body == (if vs[i] in src.down then Some(src.down[vs[i]]) else None)
                          && m.target < vs[i] && (m.target == -1 || m.target in applied)
                          && forall v :: v in applied && v < vs[i] ==> v <= m.target
  {
  }

  /** How far up migrations can be read: the index of the first version without an up file. */
  function UpReach(src: Source, vs: seq<nat>): (n: nat)
    ensures n <= |vs| && (forall i :: 0 <= i < n ==> src.UpExists(vs[i])) && (n < |vs| ==> !src.UpExists(vs[n]))
  {
    if vs == [] || !src.UpExists(vs[0]) then 0 else 1 + UpReach(src, vs[1..])
  }

  function DownReach(src: Source, vs: seq<nat>): (n: nat)
    ensures n <= |vs| && (forall i :: 0 <= i < n ==> src.DownExists(vs[i])) && (n < |vs| ==> !src.DownExists(vs[n]))
  {
    if vs == [] || !src.DownExists(vs[0]) then 0 else 1 + DownReach(src, vs[1..])
  }

  lemma {:induction false} UpsShape(src: Source, vs: seq<nat>, tail: seq<Message>)
    ensures var n := UpReach(src, vs);
            Ups(src, vs, tail) ==
            UpMessages(src, vs[..n]) + (if n < |vs| then [Failed(UpMissing(vs[n]))] else tail)
    decreases |vs|
  {
    if vs != [] && src.UpExists(vs[0]) {
      UpsShape(src, vs[1..], tail);
      var n := UpReach(src, vs[1..]);
      assert vs[..n + 1] == [vs[0]] + vs[1..][..n];
      assert UpMessages(src, vs[..n + 1]) == [NewMigration(src, vs[0], vs[0])] + UpMessages(src, vs[1..][..n]);
    }
  }

  lemma {:induction false} DownsShape(src: Source, applied: set<nat>, vs: seq<nat>, tail: seq<Message>)
    ensures var n := DownReach(src, vs);
            Downs(src, applied, vs, tail) ==
            DownMessages(src, applied, vs[..n]) + (if n < |vs| then [Failed(DownMissing(vs[n]))] else tail)
    decreases |vs|
  {
    if vs != [] && src.DownExists(vs[0]) {
      DownsShape(src, applied, vs[1..], tail);
      var n := DownReach(src, vs[1..]);
      assert vs[..n + 1] == [vs[0]] + vs[1..][..n];
      assert DownMessages(src, applied, vs[..n + 1])
          == [NewMigration(src, vs[0], TargetBelow(applied, vs[0]))] + DownMessages(src, applied, vs[1..][..n]);
    }
  }

  /***** The effect of a list of migrations *****/

  /** The migrations the server executes among ms: those with SQL of their direction. */
  function Bodies(ms: seq<Message>): (r: seq<Message>)
    ensures forall i :: 0 <= i < |r| ==> HasBody(r[i])
  {
    if ms == [] then [] else (if HasBody(ms[0]) then [ms[0]] else []) + Bodies(ms[1..])
  }

  lemma BodiesLast(ms: seq<Message>)
    requires ms != []
    ensures var n := |ms| - 1; Bodies(ms) == Bodies(ms[..n]) + (if HasBody(ms[n]) then [ms[n]] else [])
  {
    var n := |ms| - 1;
    assert ms == ms[..n] + [ms[n]];
    BodiesConcat(ms[..n], [ms[n]]);
  }

  lemma {:induction false} BodiesConcat(a: seq<Message>, b: seq<Message>)
    ensures Bodies(a + b) == Bodies(a) + Bodies(b)
    decreases |a|
  {
    if a == [] {
      assert a + b == b;
    } else {
      assert (a + b)[1..] == a[1..] + b;
      BodiesConcat(a[1..], b);
      Associate(if HasBody(a[0]) then [a[0]] else [], Bodies(a[1..]), Bodies(b));
    }
  }

  /** The store with some versions recorded, none of them dirty; the others keep their flags. */
  function Noted(store: map<nat, bool>, vs: set<nat>): (r: map<nat, bool>)
    ensures r.Keys == store.Keys + vs
    ensures forall v :: v in r ==> r[v] == (v !in vs && store[v])
  {
    store + map v | v in vs :: false
  }

  lemma NotedTwice(store: map<nat, bool>, a: set<nat>, b: set<nat>)
    ensures Noted(Noted(store, a), b) == Noted(store, a + b)
  {
  }

  lemma CommitUp(skip: bool, src: Source, v: nat, srv: Server)
    requires v < TWO_TO_THE_63
    ensures var m := NewMigration(src, v, v);
            var done := Commit(skip, m, srv);
            done.store == Noted(srv.store, {v} * src.up.Keys) &&
            done.log == srv.log + (if skip || !HasBody(m) then [] else [m])
  {
  }

  lemma CommitDown(skip: bool, src: Source, v: nat, target: int, srv: Server)
    requires target < v < TWO_TO_THE_63
    ensures var m := NewMigration(src, v, target);
            var done := Commit(skip, m, srv);
            done.store == srv.store - ({v} * src.down.Keys) &&
            done.log == srv.log + (if skip || !HasBody(m) then [] else [m])
  {
  }

  lemma LastElem(vs: seq<nat>, files: set<nat>)
    requires vs != []
    ensures var n := |vs| - 1; Elems(vs) * files == (Elems(vs[..n]) * files) + ({vs[n]} * files)
  {
    var n := |vs| - 1;
    assert vs == vs[..n] + [vs[n]];
    ConcatElems(vs[..n], [vs[n]]);
  }

  lemma {:induction false} UpEffect(skip: bool, src: Source, vs: seq<nat>, srv: Server)
    requires forall i :: 0 <= i < |vs| ==> vs[i] < TWO_TO_THE_63
    ensures var done := Effect(skip, UpMessages(src, vs), srv);
            done.store == Noted(srv.store, Elems(vs) * src.up.Keys) &&
            done.log == srv.log + (if skip then [] else Bodies(UpMessages(src, vs)))
    decreases |vs|
  {
    if vs == [] {
    } else {
      var n := |vs| - 1;
      var ms := UpMessages(src, vs);
      UpEffect(skip, src, vs[..n], srv);
      assert ms[..n] == UpMessages(src, vs[..n]);
      UpEffectStep(skip, src, vs, Effect(skip, ms[..n], srv), srv);
    }
  }

  /** The last of some up migrations. */
  lemma UpEffectStep(skip: bool, src: Source, vs: seq<nat>, before: Server, srv: Server)
    requires vs != [] && vs[|vs| - 1] < TWO_TO_THE_63
    requires before.store == Noted(srv.store, Elems(vs[..|vs| - 1]) * src.up.Keys)
    requires before.log == srv.log + (if skip then [] else Bodies(UpMessages(src, vs[..|vs| - 1])))
    ensures var done := Commit(skip, UpMessages(src, vs)[|vs| - 1], before);
            done.store == Noted(srv.store, Elems(vs) * src.up.Keys) &&
            done.log == srv.log + (if skip then [] else Bodies(UpMessages(src, vs)))
  {
    var n := |vs| - 1;
    CommitUp(skip, src, vs[n], before);
    BodiesLast(UpMessages(src, vs));
    assert UpMessages(src, vs)[..n] == UpMessages(src, vs[..n]);
    LastElem(vs, src.up.Keys);
    NotedTwice(srv.store, Elems(vs[..n]) * src.up.Keys, {vs[n]} * src.up.Keys);
  }

  lemma {:induction false} DownEffect(skip: bool, src: Source, applied: set<nat>, vs: seq<nat>, srv: Server)
    requires forall i :: 0 <= i < |vs| ==> vs[i] < TWO_TO_THE_63
    ensures var done := Effect(skip, DownMessages(src, applied, vs), srv);
            done.store == srv.store - (Elems(vs) * src.down.Keys) &&
            done.log == srv.log + (if skip then [] else Bodies(DownMessages(src, applied, vs)))
    decreases |vs|
  {
    if vs == [] {
    } else {
      var n := |vs| - 1;
      var ms := DownMessages(src, applied, vs);
      DownEffect(skip, src, applied, vs[..n], srv);
      assert ms[..n] == DownMessages(src, applied, vs[..n]);
      DownEffectStep(skip, src, applied, vs, Effect(skip, ms[..n], srv), srv);
    }
  }

  /** The last of some down migrations. */
  lemma DownEffectStep(skip: bool, src: Source, applied: set<nat>, vs: seq<nat>, before: Server, srv: Server)
    requires vs != [] && vs[|vs| - 1] < TWO_TO_THE_63
    requires before.store == srv.store - (Elems(vs[..|vs| - 1]) * src.down.Keys)
    requires before.log == srv.log + (if skip then [] else Bodies(DownMessages(src, applied, vs[..|vs| - 1])))
    ensures var done := Commit(skip, DownMessages(src, applied, vs)[|vs| - 1], before);
            done.store == srv.store - (Elems(vs) * src.down.Keys) &&
            done.log == srv.log + (if skip then [] else Bodies(DownMessages(src, applied, vs)))
  {
    var n := |vs| - 1;
    CommitDown(skip, src, vs[n], TargetBelow(applied, vs[n]), before);
    BodiesLast(DownMessages(src, applied, vs));
    assert DownMessages(src, applied, vs)[..n] == DownMessages(src, applied, vs[..n]);
    LastElem(vs, src.down.Keys);
  }

  /** The server accepts all SQL, or is not asked because execution is skipped. */
  ghost predicate Willing(accepts: (seq<Message>, Message) -> bool, skip: bool) {
    skip || forall log, m :: accepts(log, m)
  }

  lemma {:induction false} RunAllMigrations(accepts: (seq<Message>, Message) -> bool, skip: bool,
                                            ms: seq<Message>, tail: seq<Message>, srv: Server)
    requires Willing(accepts, skip) && forall m :: m in ms ==> m.Migration?
    ensures RunAll(accepts, skip, ms + tail, srv) == RunAll(accepts, skip, tail, Effect(skip, ms, srv))
    decreases |ms|
  {
    if ms == [] {
      assert ms + tail == tail;
    } else {
      var n := |ms| - 1;
      assert ms + tail == ms[..n] + ([ms[n]] + tail);
      RunAllMigrations(accepts, skip, ms[..n], [ms[n]] + tail, srv);
      assert ([ms[n]] + tail)[1..] == tail;
    }
  }

  function TailError(tail: seq<Message>): Option<Error> {
    if tail != [] && tail[0].Failed? then Some(tail[0].error) else None
  }

  ghost predicate ErrorTail(tail: seq<Message>) {
    tail == [] || tail[0].Failed?
  }

  /** Running an upward walk: the versions up to the first missing file are recorded, the rest is untouched. */
  lemma RunUps(accepts: (seq<Message>, Message) -> bool, skip: bool, src: Source, vs: seq<nat>, tail: seq<Message>,
               srv: Server)
    requires Willing(accepts, skip) && ErrorTail(tail) && forall i :: 0 <= i < |vs| ==> vs[i] < TWO_TO_THE_63
    ensures var n := UpReach(src, vs);
            var o := RunAll(accepts, skip, Ups(src, vs, tail), srv);
            o.server.store == Noted(srv.store, Elems(vs[..n]) * src.up.Keys) &&
            o.server.log == srv.log + (if skip then [] else Bodies(UpMessages(src, vs[..n]))) &&
            o.error == if n < |vs| then Some(UpMissing(vs[n])) else TailError(tail)
  {
    var n := UpReach(src, vs);
    UpsShape(src, vs, tail);
    RunAllMigrations(accepts, skip, UpMessages(src, vs[..n]),
                     if n < |vs| then [Failed(UpMissing(vs[n]))] else tail, srv);
    UpEffect(skip, src, vs[..n], srv);
  }

  lemma RunDowns(accepts: (seq<Message>, Message) -> bool, skip: bool, src: Source, applied: set<nat>, vs: seq<nat>,
                 tail: seq<Message>, srv: Server)
    requires Willing(accepts, skip) && ErrorTail(tail) && forall i :: 0 <= i < |vs| ==> vs[i] < TWO_TO_THE_63
    ensures var n := DownReach(src, vs);
            var o := RunAll(accepts, skip, Downs(src, applied, vs, tail), srv);
            o.server.store == srv.store - (Elems(vs[..n]) * src.down.Keys) &&
            o.server.log == srv.log + (if skip then [] else Bodies(DownMessages(src, applied, vs[..n]))) &&
            o.error == if n < |vs| then Some(DownMissing(vs[n])) else TailError(tail)
  {
    var n := DownReach(src, vs);
    DownsShape(src, applied, vs, tail);
    RunAllMigrations(accepts, skip, DownMessages(src, applied, vs[..n]),
                     if n < |vs| then [Failed(DownMissing(vs[n]))] else tail, srv);
    DownEffect(skip, src, applied, vs[..n], srv);
  }
}