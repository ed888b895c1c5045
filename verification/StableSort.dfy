/** The stable sort by departure time that both board transforms end with. */
module StableSort {
  import opened Wire

  type Rows = seq<CompactDeparture>

  ghost predicate Sorted(s: Rows) {
    forall i, j :: 0 <= i < j < |s| ==> s[i].time <= s[j].time
  }

  /** The departures at one time, in order. */
  function AtTime(s: Rows, time: int): Rows {
    if s == [] then []
    else AtTime(s[..|s| - 1], time) + (if s[|s| - 1].time == time then [s[|s| - 1]] else [])
  }

  /** `t` is `s` in time order, departures of equal time keeping their order. */
  ghost predicate StableOrderOf(s: Rows, t: Rows) {
    Sorted(t) && forall time :: AtTime(t, time) == AtTime(s, time)
  }

  // -- insertion sort as a function --

  /** `x` goes behind everything that is not later. */
  function Insert(s: Rows, x: CompactDeparture): Rows {
    if s == [] || s[|s| - 1].time <= x.time then s + [x]
    else Insert(s[..|s| - 1], x) + [s[|s| - 1]]
  }

  function SortRows(s: Rows): Rows {
    if s == [] then [] else Insert(SortRows(s[..|s| - 1]), s[|s| - 1])
  }

  lemma {:induction false} InsertLength(s: Rows, x: CompactDeparture)
    ensures |Insert(s, x)| == |s| + 1
  {
    if s == [] || s[|s| - 1].time <= x.time {
    } else {
      InsertLength(s[..|s| - 1], x);
    }
  }

  lemma AtTimeAppend(s: Rows, x: CompactDeparture, time: int)
    ensures AtTime(s + [x], time) == AtTime(s, time) + (if x.time == time then [x] else [])
  {
    assert (s + [x])[..|s|] == s;
  }

  lemma {:induction false} InsertAtTime(s: Rows, x: CompactDeparture, time: int)
    ensures AtTime(Insert(s, x), time) == AtTime(s + [x], time)
  {
    if s == [] || s[|s| - 1].time <= x.time {
    } else {
      var last, rest := s[|s| - 1], s[..|s| - 1];
      InsertAtTime(rest, x, time);
      AtTimeAppend(Insert(rest, x), last, time);
      assert s == rest + [last];
      TwoTimesCommute(rest, x, last, time);
    }
  }

  /** Appending two departures of different times: their order does not show at any one time. */
  lemma TwoTimesCommute(s: Rows, x: CompactDeparture, y: CompactDeparture, time: int)
    requires x.time != y.time
    ensures AtTime(s + [x], time) + (if y.time == time then [y] else []) == AtTime(s + [y] + [x], time)
  {
    AtTimeAppend(s, x, time);
    AtTimeAppend(s, y, time);
    AtTimeAppend(s + [y], x, time);
  }

  lemma {:induction false} InsertSorted(s: Rows, x: CompactDeparture)
    requires Sorted(s)
    ensures Sorted(Insert(s, x))
    ensures forall i :: 0 <= i < |Insert(s, x)| ==> Insert(s, x)[i] in s || Insert(s, x)[i] == x
  {
    if s == [] || s[|s| - 1].time <= x.time {
    } else {
      InsertSorted(s[..|s| - 1], x);
      assert forall y :: y in s[..|s| - 1] ==> y in s;
      assert forall y :: y in s ==> y.time <= s[|s| - 1].time;
    }
  }

  /** Insertion sort gives the stable order. */
  lemma {:induction false} SortRowsIsStable(s: Rows)
    ensures StableOrderOf(s, SortRows(s)) && |SortRows(s)| == |s|
  {
    if s == [] {
    } else {
      var last, rest := s[|s| - 1], s[..|s| - 1];
      SortRowsIsStable(rest);
      InsertLength(SortRows(rest), last);
      InsertSorted(SortRows(rest), last);
      forall time
        ensures AtTime(SortRows(s), time) == AtTime(s, time)
      {
        InsertAtTime(SortRows(rest), last, time);
        AtTimeAppend(SortRows(rest), last, time);
      }
    }
  }

  // -- the stable order is unique --

  lemma {:induction false} AtTimeMembers(s: Rows, time: int)
    ensures forall i :: 0 <= i < |AtTime(s, time)| ==> AtTime(s, time)[i].time == time && AtTime(s, time)[i] in s
    ensures forall x :: x in s && x.time == time ==> x in AtTime(s, time)
  {
    if s == [] {
    } else {
      AtTimeMembers(s[..|s| - 1], time);
      assert s == s[..|s| - 1] + [s[|s| - 1]];
    }
  }

  lemma LastIsLatest(s: Rows)
    requires Sorted(s) && s != []
    ensures forall x :: x in s ==> x.time <= s[|s| - 1].time
  {
  }

  lemma LastAgrees(t: Rows, u: Rows)
    requires Sorted(t) && Sorted(u) && t != []
    requires forall time :: AtTime(t, time) == AtTime(u, time)
    ensures u != [] && t[|t| - 1].time <= u[|u| - 1].time
  {
    hide AtTime, Sorted;
    var last := t[|t| - 1];
    AtTimeMembers(t, last.time);
    AtTimeMembers(u, last.time);
    assert last in t && last in AtTime(u, last.time) && last in u;
    LastIsLatest(u);
  }

  lemma SameInit(a: Rows, b: Rows, x: CompactDeparture, y: CompactDeparture)
    requires a + [x] == b + [y]
    ensures a == b && x == y
  {
    assert |a + [x]| == |b + [y]|;
    assert (a + [x])[..|a|] == a && (b + [y])[..|b|] == b;
    assert (a + [x])[|a|] == x && (b + [y])[|b|] == y;
  }

  /** There is only one stable order. */
  lemma {:induction false} StableOrderUnique(t: Rows, u: Rows)
    requires Sorted(t) && Sorted(u) && forall time :: AtTime(t, time) == AtTime(u, time)
    ensures t == u
  {
    if t == [] {
      if u != [] {
        LastAgrees(u, t);
      }
    } else {
      LastAgrees(t, u);
      LastAgrees(u, t);
      var x, y := t[|t| - 1], u[|u| - 1];
      var t', u' := t[..|t| - 1], u[..|u| - 1];
      assert t == t' + [x] && u == u' + [y];
      AtTimeAppend(t', x, x.time);
      AtTimeAppend(u', y, x.time);
      SameInit(AtTime(t', x.time), AtTime(u', x.time), x, y);
      forall time
        ensures AtTime(t', time) == AtTime(u', time)
      {
        assert AtTime(t, time) == AtTime(u, time);
        AtTimeAppend(t', x, time);
        AtTimeAppend(u', y, time);
        if time == x.time {
          SameInit(AtTime(t', time), AtTime(u', time), x, y);
        } else {
          assert AtTime(t', time) + [] == AtTime(t', time) && AtTime(u', time) + [] == AtTime(u', time);
        }
      }
      StableOrderUnique(t', u');
      assert t == t' + [x] && u == u' + [y];
    }
  }

  /** A stable order is a permutation. */
  lemma {:induction false} SameTimesSameElements(s: Rows, x: CompactDeparture)
    ensures multiset(s)[x] == multiset(AtTime(s, x.time))[x]
  {
    if s == [] {
    } else {
      SameTimesSameElements(s[..|s| - 1], x);
      assert s == s[..|s| - 1] + [s[|s| - 1]];
    }
  }

  lemma StableOrderPermutes(s: Rows, t: Rows)
    requires StableOrderOf(s, t)
    ensures multiset(t) == multiset(s)
  {
    forall x
      ensures multiset(t)[x] == multiset(s)[x]
    {
      SameTimesSameElements(s, x);
      SameTimesSameElements(t, x);
    }
  }

  // -- in place --

  /** Inserts `a[n]` into the elements before it, shifting later departures up. */
  method InsertInPlace(a: array<CompactDeparture>, n: nat)
    requires n < a.Length
    modifies a
    ensures a[..n + 1] == Insert(old(a[..n]), old(a[n]))
    ensures forall i :: n < i < a.Length ==> a[i] == old(a[i])
  {
    hide Insert;
    var x := a[n];
    ghost var front := a[..n];
    var k := n;
    assert front[..n] == front && front[n..] == [];
    while k > 0 && a[k - 1].time > x.time
      invariant 0 <= k <= n
      invariant forall i :: 0 <= i < k ==> a[i] == front[i]
      invariant forall i :: k < i <= n ==> a[i] == front[i - 1]
      invariant forall i :: n < i < a.Length ==> a[i] == old(a[i])
      invariant Insert(front, x) == Insert(front[..k], x) + front[k..]
    {
      assert front[k - 1] == a[k - 1];
      InsertShifts(front, x, k);
      a[k] := a[k - 1];
      k := k - 1;
    }
    assert k > 0 ==> front[..k][k - 1] == a[k - 1];
    InsertStops(front[..k], x);
    a[k] := x;
    Joined(a[..n + 1], front, x, k);
  }

  lemma InsertShifts(s: Rows, x: CompactDeparture, k: nat)
    requires 0 < k <= |s| && s[k - 1].time > x.time
    ensures Insert(s[..k], x) + s[k..] == Insert(s[..k - 1], x) + s[k - 1..]
  {
    assert s[..k][..k - 1] == s[..k - 1];
    assert s[k - 1..] == [s[k - 1]] + s[k..];
  }

  lemma Joined(s: Rows, front: Rows, x: CompactDeparture, k: nat)
    requires |s| == |front| + 1 && k <= |front| && s[k] == x
    requires forall i :: 0 <= i < k ==> s[i] == front[i]
    requires forall i :: k < i < |s| ==> s[i] == front[i - 1]
    ensures s == front[..k] + [x] + front[k..]
  {
  }

  lemma InsertStops(s: Rows, x: CompactDeparture)
    requires s != [] ==> s[|s| - 1].time <= x.time
    ensures Insert(s, x) == s + [x]
  {
  }

  /** Sorts an array in place. */
  method SortInPlace(a: array<CompactDeparture>)
    modifies a
    ensures a[..] == SortRows(old(a[..]))
  {
    ghost var was := a[..];
    var n := 0;
    while n < a.Length
      invariant 0 <= n <= a.Length
      invariant a[..n] == SortRows(was[..n])
      invariant forall i :: n <= i < a.Length ==> a[i] == was[i]
    {
      assert was[..n + 1][..n] == was[..n] && a[n] == was[n];
      InsertInPlace(a, n);
      n := n + 1;
    }
    assert a[..] == a[..n] && was[..n] == was;
  }
}
