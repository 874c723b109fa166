/** The worked-time loop of background.js. It walks the sorted punches (not the
    de-duplicated ones) with a two-state machine: an IN (status 0) opens a
    session or moves the start of the open one, an OUT (status 1) closes an
    open session and adds its length, and every other status code, or an OUT
    with no open session, changes nothing. */
module WorkScan {
  import opened Wrappers
  import opened Punches

  /** The loop's variables `inTime`, `lastInTime` and `totalWorkedMs`. */
  datatype ScanState = ScanState(inTime: Option<int>, lastInTime: Option<int>, totalWorkedMs: int)

  /** One iteration of the loop on punch `p`. */
  function Step(st: ScanState, p: Punch): ScanState {
    if p.punchStatus == IN then
      ScanState(Some(p.instant), Some(p.instant), st.totalWorkedMs)
    else if p.punchStatus == OUT && st.inTime.Some? then
      ScanState(None, st.lastInTime, st.totalWorkedMs + (p.instant - st.inTime.value))
    else
      st
  }

  /** The loop's variables after it has passed over `s`. */
  function Scan(s: seq<Punch>): ScanState {
    if s == [] then ScanState(None, None, 0) else Step(Scan(s[..|s| - 1]), s[|s| - 1])
  }

  /** The scan of a longer list takes one more step. */
  lemma ScanSnoc(s: seq<Punch>, p: Punch)
    ensures Scan(s + [p]) == Step(Scan(s), p)
  {
    assert (s + [p])[..|s|] == s;
  }

  /** The IN at position `j` is still open just before position `i`: no IN
      and no OUT lies strictly between them. */
  ghost predicate OpenAt(s: seq<Punch>, i: int, j: int) {
    && 0 <= j < i <= |s|
    && s[j].punchStatus == IN
    && forall k :: j < k < i ==> s[k].punchStatus != IN && s[k].punchStatus != OUT
  }

  /** At most one IN is open at any point. */
  lemma OpenAtUnique(s: seq<Punch>, i: int, j1: int, j2: int)
    requires OpenAt(s, i, j1) && OpenAt(s, i, j2)
    ensures j1 == j2
  {
  }

  /** What the punch at position `i` adds to the closed-pair total: for an OUT
      with an open IN, the time from that IN to it; otherwise nothing. */
  ghost function Gain(s: seq<Punch>, i: int): int
    requires 0 <= i < |s|
  {
    if s[i].punchStatus == OUT && exists j :: OpenAt(s, i, j) then
      var j :| OpenAt(s, i, j);
      s[i].instant - s[j].instant
    else
      0
  }

  /** The sum of `Gain` over the first `n` positions. */
  ghost function ClosedPairSum(s: seq<Punch>, n: int): int
    requires 0 <= n <= |s|
  {
    if n == 0 then 0 else ClosedPairSum(s, n - 1) + Gain(s, n - 1)
  }

  /** The IN open before position `n` + 1 is the one at `n`, or the one open
      before `n` when the punch at `n` is neither an IN nor an OUT. */
  lemma OpenAtNext(s: seq<Punch>, n: int, j: int)
    requires 0 <= n < |s|
    ensures OpenAt(s, n + 1, j) <==>
      (j == n && s[n].punchStatus == IN) ||
      (OpenAt(s, n, j) && s[n].punchStatus != IN && s[n].punchStatus != OUT)
  {
    if OpenAt(s, n + 1, j) && j < n {
      assert j < n < n + 1;
    }
  }

  /** The scan computes the closed-pair sum, and its `inTime` is the instant of
      the IN open at the end of the scanned prefix, if there is one. */
  lemma {:induction false} ScanMatchesPairs(s: seq<Punch>, n: int)
    requires 0 <= n <= |s|
    ensures Scan(s[..n]).totalWorkedMs == ClosedPairSum(s, n)
    ensures Scan(s[..n]).inTime.Some? <==> exists j :: OpenAt(s, n, j)
    ensures forall j :: OpenAt(s, n, j) ==> Scan(s[..n]).inTime == Some(s[j].instant)
    decreases n
  {
    if n > 0 {
      ScanMatchesPairs(s, n - 1);
      var st, p := Scan(s[..n - 1]), s[n - 1];
      assert s[..n][..n - 1] == s[..n - 1] && s[..n][n - 1] == p;
      assert Scan(s[..n]) == Step(st, p);
      var m := n - 1;
      forall j ensures OpenAt(s, n, j) <==>
        (j == m && p.punchStatus == IN) || (OpenAt(s, m, j) && p.punchStatus != IN && p.punchStatus != OUT)
      {
        OpenAtNext(s, m, j);
      }
      if p.punchStatus == IN {
        assert OpenAt(s, n, n - 1);
      } else if p.punchStatus == OUT && st.inTime.Some? {
        var j :| OpenAt(s, m, j);
        forall j' | OpenAt(s, m, j') ensures j' == j {
          OpenAtUnique(s, m, j, j');
        }
        assert Gain(s, n - 1) == p.instant - s[j].instant;
      }
    }
  }

  /** The last IN of `s` is at position `i`. */
  ghost predicate IsLastIn(s: seq<Punch>, i: int) {
    0 <= i < |s| && s[i].punchStatus == IN && forall k :: i < k < |s| ==> s[k].punchStatus != IN
  }

  /** `lastInTime` is set exactly when some IN was seen, and then holds the
      instant of the last IN. */
  lemma {:induction false} LastInMatches(s: seq<Punch>)
    ensures Scan(s).lastInTime.Some? <==> exists i :: 0 <= i < |s| && s[i].punchStatus == IN
    ensures forall i :: IsLastIn(s, i) ==> Scan(s).lastInTime == Some(s[i].instant)
    decreases |s|
  {
    if s != [] {
      var init := s[..|s| - 1];
      LastInMatches(init);
      assert forall i :: 0 <= i < |init| ==> init[i] == s[i];
      if s[|s| - 1].punchStatus != IN {
        forall i | IsLastIn(s, i) ensures IsLastIn(init, i) {
        }
      }
    }
  }

  /** An open IN is always the last IN seen: while `inTime` is set,
      `lastInTime` holds the same instant. */
  lemma {:induction false} OpenInIsLastInTime(s: seq<Punch>)
    ensures Scan(s).inTime.Some? ==> Scan(s).lastInTime == Scan(s).inTime
    decreases |s|
  {
    if s != [] {
      OpenInIsLastInTime(s[..|s| - 1]);
    }
  }

  /** On time-ordered punches every closed pair has a non-negative length, so
      the closed-pair total is never negative. */
  lemma {:induction false} ClosedPairSumNonNegative(s: seq<Punch>, n: int)
    requires SortedByInstant(s) && 0 <= n <= |s|
    ensures ClosedPairSum(s, n) >= 0
    decreases n
  {
    if n > 0 {
      var m := n - 1;
      ClosedPairSumNonNegative(s, m);
      if s[m].punchStatus == OUT && exists j :: OpenAt(s, m, j) {
        var j :| OpenAt(s, m, j);
        assert Gain(s, m) == s[m].instant - s[j].instant;
      }
    }
  }

  /** The scan total over time-ordered punches is never negative. */
  lemma ScanTotalNonNegative(s: seq<Punch>)
    requires SortedByInstant(s)
    ensures Scan(s).totalWorkedMs >= 0
  {
    ScanMatchesPairs(s, |s|);
    assert s[..|s|] == s;
    ClosedPairSumNonNegative(s, |s|);
  }

  /** On time-ordered punches an IN still open at the end is an IN of the
      list, and no OUT lies after it. */
  lemma OpenInIsLatestStart(s: seq<Punch>)
    requires SortedByInstant(s) && Scan(s).inTime.Some?
    ensures exists j :: 0 <= j < |s| && s[j].punchStatus == IN && Scan(s).inTime == Some(s[j].instant)
    ensures forall k :: 0 <= k < |s| && s[k].punchStatus == OUT ==> s[k].instant <= Scan(s).inTime.value
  {
    ScanMatchesPairs(s, |s|);
    assert s[..|s|] == s;
    var j :| OpenAt(s, |s|, j);
    forall k | 0 <= k < |s| && s[k].punchStatus == OUT ensures s[k].instant <= s[j].instant {
      assert k < j;
    }
  }

  /** The loop itself: `inTime`, `lastInTime` and `totalWorkedMs` after the
      walk over `timeEntries` are those of the scan. */
  method WorkedTime(timeEntries: seq<Punch>) returns (inTime: Option<int>, lastInTime: Option<int>, totalWorkedMs: int)
    ensures ScanState(inTime, lastInTime, totalWorkedMs) == Scan(timeEntries)
  {
    inTime, lastInTime, totalWorkedMs := None, None, 0;
    for i := 0 to |timeEntries|
      invariant ScanState(inTime, lastInTime, totalWorkedMs) == Scan(timeEntries[..i])
    {
      var e := timeEntries[i];
      var ts := e.instant;
      if e.punchStatus == IN {
        inTime := Some(ts);
        lastInTime := Some(ts);
      } else if e.punchStatus == OUT && inTime.Some? {
        totalWorkedMs := totalWorkedMs + (ts - inTime.value);
        inTime := None;
      }
      assert timeEntries[..i + 1][..i] == timeEntries[..i];
    }
    assert timeEntries[..|timeEntries|] == timeEntries;
  }
}
