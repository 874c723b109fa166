/** Punch events of one attendance day and the time-ascending copy that
    background.js makes of them with `.slice().sort(...)`, comparing parsed
    instants. `Array.prototype.sort` is stable, so punches at the same instant
    keep their arrival order. */
module Punches {

  /** `punchStatus` codes the handler distinguishes; any other code is carried along. */
  const IN := 0
  const OUT := 1

  /** One raw punch: the `actualTimestamp` text as the API sent it, the instant
      (milliseconds) it parses to, and the `punchStatus` code. */
  datatype Punch = Punch(actualTimestamp: string, instant: int, punchStatus: int)

  predicate SortedByInstant(s: seq<Punch>) {
    forall i, j :: 0 <= i < j < |s| ==> s[i].instant <= s[j].instant
  }

  /** The punches of `s` at instant `t`, in their order in `s`. */
  function AtInstant(s: seq<Punch>, t: int): seq<Punch> {
    if s == [] then []
    else (if s[0].instant == t then [s[0]] else []) + AtInstant(s[1..], t)
  }

  /** Places `p` before every punch of `s` that is not earlier than it. */
  function InsertByInstant(p: Punch, s: seq<Punch>): (r: seq<Punch>)
    requires SortedByInstant(s)
    ensures SortedByInstant(r)
    ensures multiset(r) == multiset(s) + multiset{p}
    ensures |r| == |s| + 1
  {
    if s == [] || p.instant <= s[0].instant then
      ConsSorted(p, s);
      [p] + s
    else
      var tail := s[1..];
      assert SortedByInstant(tail);
      var rest := InsertByInstant(p, tail);
      HeadBelowInserted(s, p, rest);
      ConsSorted(s[0], rest);
      assert s == [s[0]] + tail;
      [s[0]] + rest
  }

  /** A punch no later than the head of a time-ordered list can go in front of it. */
  lemma ConsSorted(x: Punch, s: seq<Punch>)
    requires SortedByInstant(s) && (s == [] || x.instant <= s[0].instant)
    ensures SortedByInstant([x] + s)
  {
    var r := [x] + s;
    forall i, j | 0 <= i < j < |r| ensures r[i].instant <= r[j].instant {
      assert r[j] == s[j - 1];
      if i > 0 {
        assert r[i] == s[i - 1];
      }
    }
  }

  /** After `p`, later than the head of `s`, is inserted into the rest of `s`,
      the result still starts no earlier than that head. */
  lemma HeadBelowInserted(s: seq<Punch>, p: Punch, rest: seq<Punch>)
    requires SortedByInstant(s) && s != [] && s[0].instant < p.instant
    requires multiset(rest) == multiset(s[1..]) + multiset{p} && rest != []
    ensures s[0].instant <= rest[0].instant
  {
    var x := rest[0];
    assert x in multiset(rest);
    if x != p {
      assert x in multiset(s[1..]);
      var j :| 0 <= j < |s| - 1 && s[1..][j] == x;
      assert x == s[j + 1];
    }
  }

  /** Inserting `p` puts it first among the punches at its own instant and
      leaves every other instant's punches as they were. */
  lemma {:induction false} InsertKeepsInstantOrder(p: Punch, s: seq<Punch>, t: int)
    requires SortedByInstant(s)
    ensures AtInstant(InsertByInstant(p, s), t) ==
      if p.instant == t then [p] + AtInstant(s, t) else AtInstant(s, t)
    decreases |s|
  {
    var r := InsertByInstant(p, s);
    if s == [] || p.instant <= s[0].instant {
      assert r[1..] == s;
    } else {
      assert r[1..] == InsertByInstant(p, s[1..]);
      assert SortedByInstant(s[1..]);
      InsertKeepsInstantOrder(p, s[1..], t);
    }
  }

  /** The sorted copy `timeEntries`: ascending by instant, a permutation of the
      day's punches, and stable (at each instant the punches keep arrival order). */
  function SortByInstant(s: seq<Punch>): (r: seq<Punch>)
    ensures SortedByInstant(r)
    ensures multiset(r) == multiset(s)
    ensures |r| == |s|
    ensures forall t :: AtInstant(r, t) == AtInstant(s, t)
  {
    if s == [] then []
    else
      var rest := SortByInstant(s[1..]);
      assert s == [s[0]] + s[1..];
      assert forall t :: AtInstant(InsertByInstant(s[0], rest), t) == AtInstant(s, t) by {
        forall t ensures AtInstant(InsertByInstant(s[0], rest), t) == AtInstant(s, t) {
          InsertKeepsInstantOrder(s[0], rest, t);
        }
      }
      InsertByInstant(s[0], rest)
  }

  lemma {:induction false} AtInstantMembers(s: seq<Punch>, t: int)
    ensures forall x :: x in AtInstant(s, t) ==> x in s && x.instant == t
    decreases |s|
  {
    if s != [] {
      AtInstantMembers(s[1..], t);
    }
  }

  /** A sequence holding `x` has a non-empty list of punches at `x`'s instant. */
  lemma {:induction false} AtInstantOfMember(s: seq<Punch>, x: Punch)
    requires x in s
    ensures AtInstant(s, x.instant) != []
    decreases |s|
  {
    if s[0] != x {
      AtInstantOfMember(s[1..], x);
    }
  }

  /** Only the empty sequence has no punch at any instant. */
  lemma NothingAtAnyInstant(s: seq<Punch>)
    requires forall t :: AtInstant(s, t) == []
    ensures s == []
  {
    if s != [] {
      AtInstantOfMember(s, s[0]);
    }
  }

  /** A stable sort by instant has only one possible outcome: two sorted
      sequences that agree on the order of the punches at every instant are equal. */
  lemma {:induction false} StableOrderIsUnique(a: seq<Punch>, b: seq<Punch>)
    requires SortedByInstant(a) && SortedByInstant(b)
    requires forall t :: AtInstant(a, t) == AtInstant(b, t)
    ensures a == b
    decreases |a| + |b|
  {
    if a == [] {
      NothingAtAnyInstant(b);
    } else if b == [] {
      NothingAtAnyInstant(a);
    } else {
      var t0, t1 := a[0].instant, b[0].instant;
      // b holds a punch at t0 and a holds one at t1, so neither head is later than the other.
      AtInstantOfMember(a, a[0]);
      AtInstantOfMember(b, b[0]);
      AtInstantMembers(a, t1);
      AtInstantMembers(b, t0);
      var x := AtInstant(b, t0)[0];
      assert x in b && x.instant == t0;
      var y := AtInstant(a, t1)[0];
      assert y in a && y.instant == t1;
      assert t0 == t1;
      assert a[0] == b[0] by {
        assert AtInstant(a, t0)[0] == a[0];
        assert AtInstant(b, t0)[0] == b[0];
      }
      forall t ensures AtInstant(a[1..], t) == AtInstant(b[1..], t) {
        var head := if a[0].instant == t then [a[0]] else [];
        assert AtInstant(a, t) == head + AtInstant(a[1..], t);
        assert AtInstant(b, t) == head + AtInstant(b[1..], t);
        assert AtInstant(a[1..], t) == AtInstant(a, t)[|head|..];
        assert AtInstant(b[1..], t) == AtInstant(b, t)[|head|..];
      }
      assert SortedByInstant(a[1..]) && SortedByInstant(b[1..]);
      StableOrderIsUnique(a[1..], b[1..]);
      assert a == [a[0]] + a[1..] && b == [b[0]] + b[1..];
    }
  }

  /** Whatever stable algorithm the JavaScript engine uses, its result is the
      sorted copy modelled here. */
  lemma AnyStableSortAgrees(s: seq<Punch>, r: seq<Punch>)
    requires SortedByInstant(r)
    requires forall t :: AtInstant(r, t) == AtInstant(s, t)
    ensures r == SortByInstant(s)
  {
    StableOrderIsUnique(r, SortByInstant(s));
  }
}
