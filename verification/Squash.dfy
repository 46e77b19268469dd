/** The two readers of Squash: the up migrations of a range in ascending order, the down migrations in descending
    order. Both walk the project's files only. */
module SquashReaders {
  import opened Ordering
  import opened Readers
  import opened Drivers

  /** What squashUp walks after its first version: up to the target if the walk meets it, otherwise to the end. */
  function WalkAfter(versions: set<nat>, from: nat, to: int): set<nat> {
    if to in versions && to > from then Above(UpTo(versions, to), from) else Above(versions, from)
  }

  /** All messages of squashUp. With equal bounds there are none. */
  function SquashUps(src: Source, from: nat, to: int): seq<Message> {
    if from == to then [] else Ups(src, [from] + SortAsc(WalkAfter(src.Versions(), from, to)), [])
  }

  method SquashUp(files: Source, drv: Index, from: nat, to: int, stopping: bool) returns (ret: seq<Message>)
    requires drv.Valid() && drv.Versions() == files.Versions() && Fits(drv.Versions()) && from < TWO_TO_THE_63
    ensures ret == if stopping then [] else SquashUps(files, from, to)
  {
    ret := [];
    if stopping {
      return;
    }
    if from == to {
      return;
    }
    if !files.UpExists(from) {
      return [Failed(UpMissing(from))];
    }
    ret := [NewMigration(files, from, Int64(from))];
    var current := from;
    ghost var walk := WalkAfter(files.Versions(), from, to);
    assert ([from] + SortAsc(walk))[1..] == SortAsc(walk);
    assert Above(walk, from) == walk;
    while true
      invariant current in files.Versions() && current >= from && current != to
      invariant to in walk ==> current < to
      invariant ret + Ups(files, SortAsc(Above(walk, current)), []) == SquashUps(files, from, to)
      decreases |Above(files.Versions(), current)|
    {
      var next;
      ret, next := SendAbove(files, drv, from, to, current, ret);
      if next.None? {
        return;
      }
      SmallerAbove(files.Versions(), current, next.value);
      current := next.value;
    }
  }

  /** One more version of the walk: sent, missing its up file, or, for none, not there. */
  method SendAbove(files: Source, drv: Index, ghost from: nat, to: int, current: nat, ret: seq<Message>)
    returns (longer: seq<Message>, next: Option<nat>)
    requires drv.Valid() && drv.Versions() == files.Versions() && Fits(drv.Versions())
    requires current in files.Versions() && current >= from && current != to
    requires to in WalkAfter(files.Versions(), from, to) ==> current < to
    ensures next.Some? ==> next == NextIn(files.Versions(), current) && next.value != to
    ensures next.Some? && to in WalkAfter(files.Versions(), from, to) ==> next.value < to
    ensures longer + (if next.None? then []
                      else Ups(files, SortAsc(Above(WalkAfter(files.Versions(), from, to), next.value)), [])) ==
            ret + Ups(files, SortAsc(Above(WalkAfter(files.Versions(), from, to), current)), [])
  {
    ghost var walk := WalkAfter(files.Versions(), from, to);
    next := drv.Next(current);
    if next.None? {
      assert Above(walk, current) == {};
      return ret, None;
    }
    PeelAsc(walk, current, next.value);
    ghost var rest := SortAsc(Above(walk, next.value));
    assert ([next.value] + rest)[1..] == rest;
    if !files.UpExists(next.value) {
      return ret + [Failed(UpMissing(next.value))], None;
    }
    longer := ret + [NewMigration(files, next.value, Int64(next.value))];
    if Int64(next.value) == to {
      assert Above(walk, next.value) == {};
      return longer, None;
    }
  }

  /** What squashDown sends for one version: the lowest one always, any other only if it has a down file. */
  function DownOf(src: Source, v: nat): seq<Message> {
    var prev := if v in src.Versions() then PrevIn(src.Versions(), v) else None;
    if prev.None? then [NewMigration(src, v, -1)]
    else if src.DownExists(v) then [NewMigration(src, v, prev.value)]
    else []
  }

  function DownsOf(src: Source, vs: seq<nat>): seq<Message> {
    if vs == [] then [] else DownOf(src, vs[0]) + DownsOf(src, vs[1..])
  }

  function AtLeast(s: set<nat>, low: int): set<nat> {
    Above(s, low - 1)
  }

  /** All messages of squashDown, from the version it starts at down to v1. */
  function SquashDowns(src: Source, v1: nat, start: nat): seq<Message> {
    if start < v1 then []
    else if start !in src.Versions() then DownOf(src, start)
    else DownsOf(src, SortDesc(AtLeast(UpTo(src.Versions(), start), v1)))
  }

  function DownStart(src: Source, v2: int): nat
    requires v2 >= -1
  {
    if v2 != -1 then v2 else if src.Versions() == {} then 0 else MaxOf(src.Versions())
  }

  method SquashDown(files: Source, drv: Index, v1: nat, v2: int, stopping: bool) returns (ret: seq<Message>)
    requires drv.Valid() && drv.Versions() == files.Versions() && Fits(drv.Versions()) && -1 <= v2 < TWO_TO_THE_63
    ensures ret == if stopping then [] else SquashDowns(files, v1, DownStart(files, v2))
  {
    ret := [];
    var from: nat;
    if v2 == -1 {
      var last := drv.Last();
      from := if last.None? then 0 else last.value;
    } else {
      from := v2;
    }
    ghost var all := SquashDowns(files, v1, from);
    while true
      invariant if stopping then ret == [] else ret + SquashDowns(files, v1, from) == all
      decreases from
    {
      if stopping {
        return;
      }
      if from < v1 {
        return;
      }
      var prev;
      ret, prev := SendNext(files, drv, v1, from, ret, all);
      if prev.None? {
        return;
      }
      from := prev.value;
    }
  }

  /** One more version has been sent, out of `all`. */
  method SendNext(files: Source, drv: Index, ghost v1: nat, from: nat, ret: seq<Message>, ghost all: seq<Message>)
    returns (longer: seq<Message>, prev: Option<nat>)
    requires drv.Valid() && drv.Versions() == files.Versions() && Fits(drv.Versions()) && from >= v1
    requires ret + SquashDowns(files, v1, from) == all
    ensures longer + (if prev.None? then [] else SquashDowns(files, v1, prev.value)) == all
    ensures prev.Some? ==> prev.value < from
  {
    DownsStep(files, v1, from);
    var out;
    out, prev := SendDown(files, drv, from);
    ghost var rest := if prev.None? then [] else SquashDowns(files, v1, prev.value);
    Associate(ret, out, rest);
    longer := ret + out;
  }

  /** The migration for one version: to the nil version when there is none below, otherwise if it has a down file. */
  method SendDown(files: Source, drv: Index, from: nat) returns (out: seq<Message>, prev: Option<nat>)
    requires drv.Valid() && drv.Versions() == files.Versions() && Fits(drv.Versions())
    ensures prev == KnownPrev(files.Versions(), from) && out == DownOf(files, from)
    ensures prev.Some? ==> prev.value < from
  {
    prev := drv.Prev(from);
    if prev.None? {
      out := [NewMigration(files, from, -1)];
    } else if files.DownExists(from) {
      out := [NewMigration(files, from, Int64(prev.value))];
    } else {
      out := [];
    }
  }

  /** One step of squashDown. */
  lemma DownsStep(src: Source, v1: nat, from: nat)
    requires from >= v1
    ensures var prev := KnownPrev(src.Versions(), from);
            SquashDowns(src, v1, from) ==
            DownOf(src, from) + (if prev.None? then [] else SquashDowns(src, v1, prev.value))
  {
    var versions := src.Versions();
    if from in versions {
      var prev := PrevIn(versions, from);
      var here := AtLeast(UpTo(versions, from), v1);
      assert UpTo(here, from) == here;
      PeelDesc(here, from);
      var below := UpTo(here, from - 1);
      assert ([from] + SortDesc(below))[1..] == SortDesc(below);
      if prev.None? || prev.value < v1 {
        assert below == {};
        assert DownsOf(src, SortDesc(below)) == [];
      } else {
        assert below == AtLeast(UpTo(versions, prev.value), v1);
      }
    }
  }
}
