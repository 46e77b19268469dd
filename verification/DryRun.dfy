/** The dry run: what would be committed, listed instead of run. */
module DryRun {
  import opened Ordering
  import opened Readers
  import opened Runner
  import opened Laws
  import opened Outcomes

  /** The first error among the messages, which is what a run that fails nowhere else returns. */
  function FirstError(ms: seq<Message>): Option<Error> {
    if ms == [] then None
    else if ms[0].Failed? then Some(ms[0].error)
    else FirstError(ms[1..])
  }

  /** The migrations with a body, leaving out one whose version equals that of the one listed before; the comparison
      starts from version 0. */
  function Listed(ms: seq<Message>, last: nat): seq<Message> {
    if ms == [] then []
    else if !HasBody(ms[0]) || ms[0].version == last then Listed(ms[1..], last)
    else [ms[0]] + Listed(ms[1..], ms[0].version)
  }

  method CollectDryRun(ret: seq<Message>) returns (migrations: seq<Message>, error: Option<Error>)
    ensures error == FirstError(ret)
    ensures error == None ==> migrations == Listed(ret, 0)
  {
    migrations := [];
    var lastInsertVersion: nat := 0;
    var i := 0;
    while i < |ret|
      invariant i <= |ret| && FirstError(ret[i..]) == FirstError(ret)
      invariant migrations + Listed(ret[i..], lastInsertVersion) == Listed(ret, 0)
    {
      var r := ret[i];
      if r.Failed? {
        return migrations, Some(r.error);
      }
      if r.body.Some? {
        if r.version != lastInsertVersion {
          migrations := migrations + [r];
          lastInsertVersion := r.version;
        }
      }
      i := i + 1;
    }
    return migrations, None;
  }

  lemma CommitLog(m: Message, srv: Server)
    ensures Commit(false, m, srv).log == srv.log + (if HasBody(m) then [m] else [])
  {
  }

  /** On a willing server a run ends with the first error among the messages, and a run without errors logs every
      migration with a body. */
  lemma {:induction false} WillingRun(accepts: Verdict, ms: seq<Message>, srv: Server)
    requires Willing(accepts, false)
    ensures RunAll(accepts, false, ms, srv).error == FirstError(ms)
    ensures FirstError(ms) == None ==> RunAll(accepts, false, ms, srv).server.log == srv.log + Bodies(ms)
    decreases |ms|
  {
    if ms == [] || ms[0].Failed? {
    } else {
      CommitLog(ms[0], srv);
      WillingRun(accepts, ms[1..], Commit(false, ms[0], srv));
      assert srv.log + Bodies(ms) == Commit(false, ms[0], srv).log + Bodies(ms[1..]);
    }
  }

  lemma {:induction false} ListedIsBodies(ms: seq<Message>, last: nat)
    requires SentOnce(ms)
    ensures (forall m :: m in ms && HasBody(m) ==> m.version != last) ==> Listed(ms, last) == Bodies(ms)
    ensures Bodies(ms) != [] && Bodies(ms)[0].version == last ==> |Listed(ms, last)| < |Bodies(ms)|
    ensures Bodies(ms) == [] || Bodies(ms)[0].version != last ==> Listed(ms, last) == Bodies(ms)
    decreases |ms|
  {
    if ms == [] {
    } else {
      var m, rest := ms[0], ms[1..];
      assert SentOnce(rest);
      assert forall x :: x in rest ==> x in ms;
      if !HasBody(m) || m.version == last {
        ListedIsBodies(rest, last);
        forall x | x in rest && HasBody(x) && HasBody(m) ensures x.version != m.version {
          var j :| 0 <= j < |rest| && rest[j] == x;
          assert ms[j + 1] == x;
        }
      } else {
        forall x | x in rest && HasBody(x) ensures x.version != m.version {
          var j :| 0 <= j < |rest| && rest[j] == x;
          assert ms[j + 1] == x;
        }
        ListedIsBodies(rest, m.version);
      }
    }
  }

  /** The dry run is faithful: it reports the error the real run reports. If there is none, it lists exactly the
      versions and directions the real run executes and commits, in order, if and only if the first of them is not
      version 0, which the dry run takes for listed already. */
  lemma DryRunFaithful(accepts: Verdict, src: Source, job: Job, srv: Server)
    requires Willing(accepts, false) && Fits(src.Versions()) && Fits(srv.store.Keys) && ValidJob(srv.store.Keys, job)
    ensures var plan := Plan(src, srv.store.Keys, job, Start);
            var o := RunJob(accepts, false, src, job, srv);
            && FirstError(plan) == o.error
            && (o.error == None ==>
                  (o.server.log == srv.log + Listed(plan, 0) <==> Bodies(plan) == [] || Bodies(plan)[0].version != 0))
  {
    var plan := Plan(src, srv.store.Keys, job, Start);
    SendsPlan(src, srv.store.Keys, job, Start);
    SendsOnce(src, srv.store.Keys, job, Start);
    WillingRun(accepts, plan, srv);
    ListedIsBodies(plan, 0);
  }
}
