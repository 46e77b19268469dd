/** The two drivers: an index slice kept in ascending order and searched by bisection. */
module Drivers {
  import opened Ordering
  import opened Readers
  import opened Runner

  /** sort.Search: the least position whose version is at least x. */
  method Search(index: seq<nat>, x: nat) returns (k: nat)
    requires Ascending(index)
    ensures k <= |index|
    ensures forall i :: 0 <= i < k ==> index[i] < x
    ensures forall i :: k <= i < |index| ==> index[i] >= x
  {
    var lo, hi := 0, |index|;
    while lo < hi
      invariant 0 <= lo <= hi <= |index|
      invariant forall i :: 0 <= i < lo ==> index[i] < x
      invariant forall i :: hi <= i < |index| ==> index[i] >= x
    {
      var mid := (lo + hi) / 2;
      if index[mid] >= x {
        hi := mid;
      } else {
        lo := mid + 1;
      }
    }
    k := lo;
  }

  /** The position of a version in the index, -1 when it is not there. */
  method FindPos(index: seq<nat>, v: nat) returns (pos: int)
    requires Ascending(index)
    ensures -1 <= pos < |index|
    ensures pos >= 0 ==> index[pos] == v
    ensures pos == -1 <==> v !in index
  {
    var k := Search(index, v);
    if k < |index| && index[k] == v {
      return k;
    }
    return -1;
  }

  /** A neighbour in the index is a neighbour in the set. */
  lemma PrevByIndex(index: seq<nat>, pos: nat)
    requires Ascending(index) && pos < |index|
    ensures PrevIn(Elems(index), index[pos]) == if pos >= 1 then Some(index[pos - 1]) else None
  {
    forall x | x in Elems(index) && x < index[pos] ensures pos >= 1 && x <= index[pos - 1] {
      var i :| 0 <= i < |index| && index[i] == x;
      assert i < pos;
    }
    if pos >= 1 { assert index[pos - 1] in Elems(index); }
  }

  lemma NextByIndex(index: seq<nat>, pos: nat)
    requires Ascending(index) && pos < |index|
    ensures NextIn(Elems(index), index[pos]) == if pos + 1 < |index| then Some(index[pos + 1]) else None
  {
    var s := Elems(index);
    forall x | x in s && x > index[pos] ensures pos + 1 < |index| && x >= index[pos + 1] {
      var i :| 0 <= i < |index| && index[i] == x;
      assert i > pos;
    }
    var next := NextIn(s, index[pos]);
    if pos + 1 < |index| {
      assert index[pos + 1] in s;
      assert index[pos + 1] in Above(s, index[pos]);
    }
  }

  /** What Next answers: nothing for a version it does not know. */
  function KnownNext(s: set<nat>, v: nat): Option<nat> {
    if v in s then NextIn(s, v) else None
  }

  function KnownPrev(s: set<nat>, v: nat): Option<nat> {
    if v in s then PrevIn(s, v) else None
  }

  /** A version put in its place in an ascending index. */
  function InsertSorted(index: seq<nat>, v: nat): seq<nat> {
    if index == [] || v <= index[0] then [v] + index else [index[0]] + InsertSorted(index[1..], v)
  }

  lemma {:induction false} InsertSortedElems(index: seq<nat>, v: nat)
    ensures Elems(InsertSorted(index, v)) == Elems(index) + {v}
    decreases |index|
  {
    if index == [] || v <= index[0] {
      ConsElems(v, index);
    } else {
      assert index == [index[0]] + index[1..];
      ConsElems(index[0], index[1..]);
      InsertSortedElems(index[1..], v);
      ConsElems(index[0], InsertSorted(index[1..], v));
    }
  }

  /** Inserting keeps an index strict exactly when the version is new to it. */
  lemma {:induction false} InsertSortedStrict(index: seq<nat>, v: nat)
    requires Ascending(index)
    ensures Ascending(InsertSorted(index, v)) <==> v !in index
    decreases |index|
  {
    if index == [] {
    } else if v <= index[0] {
      var r := [v] + index;
      assert r[0] == v && r[1] == index[0];
      assert v in index <==> v == index[0];
      assert v < index[0] ==> Ascending(r);
    } else {
      InsertSortedStrict(index[1..], v);
      InsertSortedElems(index[1..], v);
      var rest := InsertSorted(index[1..], v);
      assert ([index[0]] + rest)[1..] == rest;
      forall i | 0 <= i < |rest| ensures index[0] < rest[i] {
        assert rest[i] in Elems(index[1..]) + {v};
      }
      assert index == [index[0]] + index[1..];
      if Ascending(rest) {
        assert Ascending([index[0]] + rest);
      } else {
        var i, j :| 0 <= i < j < |rest| && rest[i] >= rest[j];
        assert ([index[0]] + rest)[i + 1] >= ([index[0]] + rest)[j + 1];
      }
    }
  }

  /** An index over a set of versions. */
  class Index {
    var index: seq<nat>

    ghost predicate Valid()
      reads this
    {
      Ascending(index)
    }

    ghost function Versions(): set<nat>
      reads this
    {
      Elems(index)
    }

    /** buildIndex: collect the keys in whatever order the map yields them, then sort. */
    constructor (keys: set<nat>)
      ensures Valid() && Versions() == keys
    {
      var collected := [];
      var left := keys;
      while left != {}
        invariant left <= keys && Elems(collected) == keys - left
        decreases left
      {
        var v :| v in left;
        ConcatElems(collected, [v]);
        collected := collected + [v];
        left := left - {v};
      }
      SortAscEnumerates(Elems(collected));
      index := SortAsc(Elems(collected));
    }

    /** The database driver's Append. Its test for a known version, findPos > 0, misses the one at position 0. */
    method Append(v: nat)
      requires Valid()
      modifies this
      ensures index == if v in old(index) && v != old(index)[0] then old(index) else InsertSorted(old(index), v)
      ensures Valid() <==> (old(index) == [] || v != old(index)[0])
      ensures Versions() == old(Versions()) + {v}
    {
      var pos := FindPos(index, v);
      InsertSortedElems(index, v);
      InsertSortedStrict(index, v);
      if pos > 0 {
        return;
      }
      index := InsertSorted(index, v);
    }

    method First() returns (r: Option<nat>)
      requires Valid()
      ensures r == if Versions() == {} then None else Some(MinOf(Versions()))
    {
      if |index| == 0 {
        r := None;
      } else {
        assert index[0] in Versions();
        r := Some(index[0]);
      }
    }

    method Last() returns (r: Option<nat>)
      requires Valid()
      ensures r == if Versions() == {} then None else Some(MaxOf(Versions()))
    {
      if |index| == 0 {
        r := None;
      } else {
        assert index[|index| - 1] in Versions();
        r := Some(index[|index| - 1]);
      }
    }

    method Prev(v: nat) returns (r: Option<nat>)
      requires Valid()
      ensures r == KnownPrev(Versions(), v)
      ensures v !in Versions() ==> r == None
      ensures v in Versions() && r.None? ==> forall x :: x in Versions() ==> x >= v
      ensures r.Some? ==> r.value in Versions() && r.value < v && forall x :: x in Versions() && x < v ==> x <= r.value
    {
      var pos := FindPos(index, v);
      if pos >= 0 { PrevByIndex(index, pos); }
      r := if pos >= 1 && |index| > pos - 1 then Some(index[pos - 1]) else None;
    }

    method Next(v: nat) returns (r: Option<nat>)
      requires Valid()
      ensures r == KnownNext(Versions(), v)
      ensures v !in Versions() ==> r == None
      ensures v in Versions() && r.None? ==> forall x :: x in Versions() ==> x <= v
      ensures r.Some? ==> r.value in Versions() && r.value > v && forall x :: x in Versions() && x > v ==> x >= r.value
    {
      var pos := FindPos(index, v);
      if pos >= 0 { NextByIndex(index, pos); }
      assert forall x :: x in Versions() && x > v ==> x in Above(Versions(), v);
      r := if pos >= 0 && |index| > pos + 1 then Some(index[pos + 1]) else None;
    }

    method Contains(v: nat) returns (ok: bool)
      requires Valid()
      ensures ok <==> v in Versions()
    {
      var pos := FindPos(index, v);
      ok := pos >= 0;
    }
  }

  /** The server's side: what is recorded and executed there, and the index of what was recorded at the last scan. */
  class HasuraDB {
    const accepts: (seq<Message>, Message) -> bool
    var migrations: Index
    var scanned: map<nat, bool>
    var store: map<nat, bool>
    var log: seq<Message>
    var isLocked: bool

    ghost predicate Valid()
      reads this`migrations, this`scanned, migrations
    {
      migrations.Valid() && migrations.Versions() == scanned.Keys
    }

    ghost function Remote(): Server
      reads this`store, this`log
    {
      Server(store, log)
    }

    constructor (accepts: (seq<Message>, Message) -> bool, store: map<nat, bool>, log: seq<Message>)
      ensures Valid() && Remote() == Server(store, log) && this.accepts == accepts && !isLocked
      ensures scanned == map[] && fresh(migrations)
    {
      this.accepts := accepts;
      this.store, this.log, this.isLocked, this.scanned := store, log, false, map[];
      migrations := new Index({});
    }

    /** Scan fills a new index from the recorded versions, in whatever order the map yields them. */
    method Scan()
      modifies this`migrations, this`scanned
      ensures Valid() && fresh(migrations) && scanned == store
    {
      migrations := new Index({});
      var left := store.Keys;
      while left != {}
        modifies migrations
        invariant fresh(migrations) && migrations.Valid()
        invariant left <= store.Keys && migrations.Versions() == store.Keys - left
        decreases left
      {
        var v :| v in left;
        assert migrations.index != [] ==> migrations.index[0] in migrations.Versions();
        migrations.Append(v);
        left := left - {v};
      }
      scanned := store;
    }

    /** The greatest version of the last scan, -1 for none, and its dirty flag. */
    method Version() returns (version: int, dirty: bool)
      requires Valid()
      ensures scanned.Keys == {} ==> version == -1 && !dirty
      ensures scanned.Keys != {} ==>
                version == Int64(MaxOf(scanned.Keys)) && dirty == scanned[MaxOf(scanned.Keys)]
    {
      var last := migrations.Last();
      match last
      case None => return -1, false;
      case Some(v) => return Int64(v), scanned[v];
    }

    method Run(m: Message) returns (ok: bool)
      modifies this`log
      ensures ok == accepts(old(log), m)
      ensures log == if ok then old(log) + [m] else old(log)
    {
      ok := accepts(log, m);
      if ok { log := log + [m]; }
    }

    method SetVersion(version: nat, dirty: bool)
      modifies this`store
      ensures store == old(store)[version := dirty]
    {
      store := store[version := dirty];
    }

    method RemoveVersion(version: nat)
      modifies this`store
      ensures store == old(store) - {version}
    {
      store := store - {version};
    }
  }
}
