/** Finite sets of migration versions in numeric order: neighbours, sorted enumerations and initial segments.

    Both drivers keep their versions in a strictly ascending index slice. Every specification below speaks about the
    set of versions; the classes in Drivers.dfy show that the index slices implement these functions. */
module Ordering {
  datatype Option<+T> = None | Some(value: T)

  function Elems<T>(s: seq<T>): set<T> {
    set x | x in s
  }

  ghost predicate Ascending(s: seq<nat>) {
    forall i, j :: 0 <= i < j < |s| ==> s[i] < s[j]
  }

  ghost predicate Descending(s: seq<nat>) {
    forall i, j :: 0 <= i < j < |s| ==> s[i] > s[j]
  }

  /** Versions strictly above v. The walks start from the sentinel -1, hence the int. */
  function Above(s: set<nat>, v: int): (r: set<nat>) {
    set x | x in s && x > v
  }

  function UpTo(s: set<nat>, v: int): (r: set<nat>) {
    set x | x in s && x <= v
  }

  predicate IsMin(m: nat, s: set<nat>) {
    m in s && forall y :: y in s ==> m <= y
  }

  predicate IsMax(m: nat, s: set<nat>) {
    m in s && forall y :: y in s ==> y <= m
  }

  lemma {:induction false} HasExtrema(s: set<nat>)
    requires s != {}
    ensures exists m :: IsMin(m, s)
    ensures exists m :: IsMax(m, s)
  {
    var x :| x in s;
    var rest := s - {x};
    if rest == {} {
      assert s == {x};
      assert IsMin(x, s) && IsMax(x, s);
    } else {
      HasExtrema(rest);
      var lo :| IsMin(lo, rest);
      var hi :| IsMax(hi, rest);
      assert s == rest + {x};
      assert IsMin(if x < lo then x else lo, s);
      assert IsMax(if x > hi then x else hi, s);
    }
  }

  function MinOf(s: set<nat>): (m: nat)
    requires s != {}
    ensures IsMin(m, s)
  {
    HasExtrema(s);
    var m :| IsMin(m, s);
    m
  }

  function MaxOf(s: set<nat>): (m: nat)
    requires s != {}
    ensures IsMax(m, s)
  {
    HasExtrema(s);
    var m :| IsMax(m, s);
    m
  }

  /** The least member above v. */
  function NextIn(s: set<nat>, v: int): (r: Option<nat>)
    ensures r.None? <==> Above(s, v) == {}
    ensures r.Some? ==> r.value in s && r.value > v && forall x :: x in s && x > v ==> r.value <= x
  {
    if Above(s, v) == {} then None else
      var n := MinOf(Above(s, v));
      assert forall x :: x in s && x > v ==> x in Above(s, v);
      Some(n)
  }

  /** The greatest member below v. */
  function PrevIn(s: set<nat>, v: int): (r: Option<nat>)
    ensures r.None? <==> forall x :: x in s ==> x >= v
    ensures r.Some? ==> r.value in s && r.value < v && forall x :: x in s && x < v ==> x <= r.value
  {
    if UpTo(s, v - 1) == {} then
      assert forall x :: x in s && x < v ==> x in UpTo(s, v - 1);
      None
    else
      var p := MaxOf(UpTo(s, v - 1));
      assert forall x :: x in s && x < v ==> x in UpTo(s, v - 1);
      Some(p)
  }

  lemma Associate<T>(a: seq<T>, b: seq<T>, c: seq<T>)
    ensures a + (b + c) == a + b + c
  {
  }

  lemma ConsElems<T>(m: T, rest: seq<T>)
    ensures Elems([m] + rest) == {m} + Elems(rest)
  {
    forall x ensures x in Elems([m] + rest) <==> x in {m} + Elems(rest) {
      assert x in [m] + rest <==> x == m || x in rest;
    }
  }

  lemma ConcatElems<T>(a: seq<T>, b: seq<T>)
    ensures Elems(a + b) == Elems(a) + Elems(b)
  {
    forall x ensures x in Elems(a + b) <==> x in Elems(a) + Elems(b) {
      assert x in a + b <==> x in a || x in b;
    }
  }

  lemma ConsAscending(m: nat, rest: seq<nat>, s: set<nat>)
    requires Ascending(rest) && m in s && Elems(rest) == s - {m}
    requires forall y :: y in s ==> m <= y
    ensures Ascending([m] + rest) && Elems([m] + rest) == s
  {
    ConsElems(m, rest);
    forall i | 0 <= i < |rest| ensures m < rest[i] {
      assert rest[i] in Elems(rest);
    }
  }

  /** The strictly ascending enumeration of a set, what sort.Sort makes of its distinct members. */
  function SortAsc(s: set<nat>): seq<nat>
    decreases s
  {
    if s == {} then [] else
      var m := MinOf(s);
      [m] + SortAsc(s - {m})
  }

  lemma {:induction false} SortAscEnumerates(s: set<nat>)
    ensures var r := SortAsc(s); Ascending(r) && Elems(r) == s && |r| == |s|
    decreases s
  {
    if s == {} {
    } else {
      var m := MinOf(s);
      SortAscEnumerates(s - {m});
      ConsAscending(m, SortAsc(s - {m}), s);
    }
  }

  lemma ConsDescending(m: nat, rest: seq<nat>, s: set<nat>)
    requires Descending(rest) && m in s && Elems(rest) == s - {m}
    requires forall y :: y in s ==> m >= y
    ensures Descending([m] + rest) && Elems([m] + rest) == s
  {
    ConsElems(m, rest);
    forall i | 0 <= i < |rest| ensures m > rest[i] {
      assert rest[i] in Elems(rest);
    }
  }

  function SortDesc(s: set<nat>): seq<nat>
    decreases s
  {
    if s == {} then [] else
      var m := MaxOf(s);
      [m] + SortDesc(s - {m})
  }

  lemma {:induction false} SortDescEnumerates(s: set<nat>)
    ensures var r := SortDesc(s); Descending(r) && Elems(r) == s && |r| == |s|
    decreases s
  {
    if s == {} {
    } else {
      var m := MaxOf(s);
      SortDescEnumerates(s - {m});
      ConsDescending(m, SortDesc(s - {m}), s);
    }
  }

  /** A strictly ascending sequence is determined by its members, so SortAsc is the only enumeration there is. */
  lemma {:induction false} AscendingIsSortAsc(a: seq<nat>)
    requires Ascending(a)
    ensures a == SortAsc(Elems(a))
    decreases |a|
  {
    if a == [] {
    } else {
      var s := Elems(a);
      assert a[0] in s;
      assert forall y :: y in s ==> a[0] <= y;
      assert MinOf(s) == a[0];
      assert s - {a[0]} == Elems(a[1..]) by {
        assert a == [a[0]] + a[1..];
        ConsElems(a[0], a[1..]);
      }
      AscendingIsSortAsc(a[1..]);
    }
  }

  lemma {:induction false} DescendingIsSortDesc(a: seq<nat>)
    requires Descending(a)
    ensures a == SortDesc(Elems(a))
    decreases |a|
  {
    if a == [] {
    } else {
      var s := Elems(a);
      assert a[0] in s;
      assert forall y :: y in s ==> y <= a[0];
      assert MaxOf(s) == a[0];
      assert s - {a[0]} == Elems(a[1..]) by {
        assert a == [a[0]] + a[1..];
        ConsElems(a[0], a[1..]);
      }
      DescendingIsSortDesc(a[1..]);
    }
  }

  /** What a prefix of an enumeration leaves out is the rest of the enumeration. */
  lemma SplitElems(a: seq<nat>, k: nat)
    requires k <= |a|
    ensures Elems(a) == Elems(a[..k]) + Elems(a[k..])
  {
    assert a == a[..k] + a[k..];
    ConcatElems(a[..k], a[k..]);
  }

  /** Everything left out of a prefix of the sorted enumeration lies beyond everything in it. */
  lemma AscSplit(a: seq<nat>, k: nat, x: nat, y: nat)
    requires Ascending(a) && k <= |a| && x in a[..k] && y in a[k..]
    ensures x < y
  {
    var i :| 0 <= i < k && a[..k][i] == x;
    var j :| 0 <= j < |a| - k && a[k..][j] == y;
    assert a[i] < a[k + j];
  }

  lemma AscPrefix(s: set<nat>, k: nat)
    requires k <= |s|
    ensures |SortAsc(s)| == |s|
    ensures var head := Elems(SortAsc(s)[..k]);
            head <= s && |head| == k && forall x, y :: x in head && y in s && y !in head ==> x < y
  {
    var a := SortAsc(s);
    SortAscEnumerates(s);
    SplitElems(a, k);
    AscendingIsSortAsc(a[..k]);
    SortAscEnumerates(Elems(a[..k]));
    forall x, y | x in Elems(a[..k]) && y in s && y !in Elems(a[..k])
      ensures x < y
    {
      AscSplit(a, k, x, y);
    }
  }

  lemma DescSplit(a: seq<nat>, k: nat, x: nat, y: nat)
    requires Descending(a) && k <= |a| && x in a[..k] && y in a[k..]
    ensures x > y
  {
    var i :| 0 <= i < k && a[..k][i] == x;
    var j :| 0 <= j < |a| - k && a[k..][j] == y;
    assert a[i] > a[k + j];
  }

  lemma DescPrefix(s: set<nat>, k: nat)
    requires k <= |s|
    ensures |SortDesc(s)| == |s|
    ensures var head := Elems(SortDesc(s)[..k]);
            head <= s && |head| == k && forall x, y :: x in head && y in s && y !in head ==> x > y
  {
    var a := SortDesc(s);
    SortDescEnumerates(s);
    SplitElems(a, k);
    DescendingIsSortDesc(a[..k]);
    SortDescEnumerates(Elems(a[..k]));
    forall x, y | x in Elems(a[..k]) && y in s && y !in Elems(a[..k])
      ensures x > y
    {
      DescSplit(a, k, x, y);
    }
  }

  lemma AscendingConcat(a: seq<nat>, b: seq<nat>, s: set<nat>, t: set<nat>)
    requires Ascending(a) && Ascending(b) && Elems(a) == s && Elems(b) == t
    requires forall x, y :: x in s && y in t ==> x < y
    ensures Ascending(a + b)
  {
    forall i, j | 0 <= i < |a| && 0 <= j < |b| ensures a[i] < b[j] {
      assert a[i] in Elems(a) && b[j] in Elems(b);
    }
  }

  /** The enumeration of two sets, one below the other, is that of the lower followed by that of the upper. */
  lemma JoinAsc(a: set<nat>, b: set<nat>)
    requires forall x, y :: x in a && y in b ==> x < y
    ensures SortAsc(a + b) == SortAsc(a) + SortAsc(b)
  {
    SortAscEnumerates(a);
    SortAscEnumerates(b);
    ConcatElems(SortAsc(a), SortAsc(b));
    AscendingConcat(SortAsc(a), SortAsc(b), a, b);
    AscendingIsSortAsc(SortAsc(a) + SortAsc(b));
  }

  lemma DescendingConcat(a: seq<nat>, b: seq<nat>, s: set<nat>, t: set<nat>)
    requires Descending(a) && Descending(b) && Elems(a) == s && Elems(b) == t
    requires forall x, y :: x in s && y in t ==> x > y
    ensures Descending(a + b)
  {
    forall i, j | 0 <= i < |a| && 0 <= j < |b| ensures a[i] > b[j] {
      assert a[i] in Elems(a) && b[j] in Elems(b);
    }
  }

  lemma JoinDesc(a: set<nat>, b: set<nat>)
    requires forall x, y :: x in a && y in b ==> x > y
    ensures SortDesc(a + b) == SortDesc(a) + SortDesc(b)
  {
    SortDescEnumerates(a);
    SortDescEnumerates(b);
    ConcatElems(SortDesc(a), SortDesc(b));
    DescendingConcat(SortDesc(a), SortDesc(b), a, b);
    DescendingIsSortDesc(SortDesc(a) + SortDesc(b));
  }

  /** `part` is closed downwards inside `whole`: no gaps, nothing foreign. */
  ghost predicate InitialSegment(part: set<nat>, whole: set<nat>) {
    part <= whole && forall x, y :: x in whole && y in part && x < y ==> x in part
  }
}
