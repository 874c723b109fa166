/** The attendance summary that the FETCH_ATTENDANCE handler of background.js
    computes once the attendance payload has arrived: it picks the latest day,
    sorts and de-duplicates its punches, totals the worked time (including an
    open session up to `now`), and derives the time remaining against an
    8-hour target, the projected out time and the last OUT punch. Instants are
    milliseconds; `now` is a parameter. */
module Attendance {
  import opened Wrappers
  import opened Punches
  import opened Dedup
  import opened WorkScan
  import opened Duration

  /** The daily target, eight hours in milliseconds. */
  const TargetMs := 8 * 60 * 60 * 1000

  const NoDataError := "No attendance data returned by Keka API."

  /** One day record of the payload; its `timeEntries` list may be missing. */
  datatype Day = Day(attendanceDate: string, timeEntries: Option<seq<Punch>>)

  /** The success response. `expectedOut` is the projected out instant. */
  datatype Summary = Summary(
    attendanceDate: string,
    entries: seq<Entry>,
    totalWorkedMs: int,
    totalWorked: string,
    expectedOut: Option<int>,
    lastOut: Option<string>)

  /** `latest.timeEntries || []` */
  function PunchesOf(d: Day): seq<Punch> {
    if d.timeEntries.Some? then d.timeEntries.value else []
  }

  /** The worked total after the scan of the sorted punches `s`, with an IN
      still open at the end counted up to `now`. */
  function WorkedMs(s: seq<Punch>, now: int): int {
    var st := Scan(s);
    if st.inTime.Some? then st.totalWorkedMs + (now - st.inTime.value) else st.totalWorkedMs
  }

  /** `max(0, TargetMs - total)` */
  function RemainingMs(total: int): (r: nat)
    ensures total >= 0 ==> r <= TargetMs
    ensures r == 0 <==> total >= TargetMs
    ensures r > 0 ==> total + r == TargetMs
  {
    if TargetMs - total <= 0 then 0 else TargetMs - total
  }

  /** The projected out instant as background.js computes it: the last IN's
      instant plus the remaining time, when there was an IN and time remains. */
  function ExpectedOut(s: seq<Punch>, now: int): Option<int> {
    var lastIn := Scan(s).lastInTime;
    var remaining := RemainingMs(WorkedMs(s, now));
    if lastIn.Some? && remaining > 0 then Some(lastIn.value + remaining) else None
  }

  /** `timeEntries.filter((e) => e.punchStatus === 1)` */
  function OutPunches(s: seq<Punch>): (r: seq<Punch>)
    ensures forall x :: x in r <==> x in s && x.punchStatus == OUT
  {
    if s == [] then []
    else OutPunches(s[..|s| - 1]) + (if s[|s| - 1].punchStatus == OUT then [s[|s| - 1]] else [])
  }

  /** The raw timestamp of the last OUT punch, if there is one. */
  function LastOut(s: seq<Punch>): Option<string> {
    var outs := OutPunches(s);
    if |outs| > 0 then Some(outs[|outs| - 1].actualTimestamp) else None
  }

  /** The whole computation as one value: failure on an empty day list,
      otherwise the summary of the last day. */
  function SummaryOf(days: seq<Day>, now: int): Result<Summary, string> {
    if |days| == 0 then Failure(NoDataError)
    else
      var latest := days[|days| - 1];
      var timeEntries := SortByInstant(PunchesOf(latest));
      var total := WorkedMs(timeEntries, now);
      Success(Summary(
        latest.attendanceDate,
        Formatted(FirstOccurrences(timeEntries, KeyOf)),
        total,
        MsToDuration(total),
        ExpectedOut(timeEntries, now),
        LastOut(timeEntries)))
  }

  /** The handler body from the day-list check to the response: the sort, the
      de-duplication loop, the scan loop, then the in-place updates of the
      total and the remaining time. */
  method FetchAttendanceSummary(days: seq<Day>, now: int) returns (r: Result<Summary, string>)
    ensures r == SummaryOf(days, now)
  {
    if |days| == 0 {
      return Failure(NoDataError);
    }
    var latest := days[|days| - 1];
    var timeEntries := SortByInstant(PunchesOf(latest));
    var entriesFormatted := DedupEntries(timeEntries);
    var totalWorkedMs, expectedOut := TotalAndExpectedOut(timeEntries, now);
    var totalWorked := MsToDuration(totalWorkedMs);
    var outPunches := OutPunches(timeEntries);
    var lastOut := if |outPunches| > 0 then Some(outPunches[|outPunches| - 1].actualTimestamp) else None;
    assert lastOut == LastOut(timeEntries);
    r := Success(Summary(latest.attendanceDate, entriesFormatted, totalWorkedMs, totalWorked, expectedOut, lastOut));
  }

  /** The scan loop followed by the in-place updates: the open session is
      extended to `now`, the remaining time is clamped at zero, and the
      projection is taken from the last IN. */
  method TotalAndExpectedOut(timeEntries: seq<Punch>, now: int) returns (totalWorkedMs: int, expectedOut: Option<int>)
    ensures totalWorkedMs == WorkedMs(timeEntries, now)
    ensures expectedOut == ExpectedOut(timeEntries, now)
  {
    var inTime, lastInTime;
    inTime, lastInTime, totalWorkedMs := WorkedTime(timeEntries);
    if inTime.Some? {
      totalWorkedMs := totalWorkedMs + (now - inTime.value);
    }
    expectedOut := None;
    var remainingMs := TargetMs - totalWorkedMs;
    if remainingMs <= 0 {
      remainingMs := 0;
    }
    if lastInTime.Some? && remainingMs > 0 {
      expectedOut := Some(lastInTime.value + remainingMs);
    }
  }

  /** Day selection: an empty list fails with the no-data message; otherwise
      the summary is of the last day record, and its entries are the
      formatted first occurrences of that day's time-ordered punches: no two
      share a key, there are no more of them than punches, and every punch's
      key is among them. */
  lemma SummaryOfLatestDay(days: seq<Day>, now: int)
    ensures |days| == 0 ==> SummaryOf(days, now) == Failure(NoDataError)
    ensures |days| > 0 ==> SummaryOf(days, now).Success?
    ensures |days| > 0 ==>
      var latest := days[|days| - 1];
      var kept := FirstOccurrences(SortByInstant(PunchesOf(latest)), KeyOf);
      var sum := SummaryOf(days, now).value;
      && sum.attendanceDate == latest.attendanceDate
      && sum.entries == Formatted(kept)
      && SortedByInstant(kept)
      && |sum.entries| <= |PunchesOf(latest)|
      && (forall a, b :: 0 <= a < b < |sum.entries| ==>
            DedupKey(sum.entries[a].ts, sum.entries[a].punchStatus) != DedupKey(sum.entries[b].ts, sum.entries[b].punchStatus))
      && (forall p :: p in PunchesOf(latest) ==>
            exists k :: 0 <= k < |sum.entries| && DedupKey(sum.entries[k].ts, sum.entries[k].punchStatus) == KeyOf(p))
  {
    if |days| > 0 {
      var latest := days[|days| - 1];
      var kept := FirstOccurrences(SortByInstant(PunchesOf(latest)), KeyOf);
      assert SummaryOf(days, now).value.entries == Formatted(kept);
      DayEntries(PunchesOf(latest));
    }
  }

  /** The entries built from one day's punches: the formatted first
      occurrences of the time-ordered punches are in time order, no two share
      a key, there are no more of them than punches, and every punch's key is
      among them. */
  lemma DayEntries(punches: seq<Punch>)
    ensures var kept := FirstOccurrences(SortByInstant(punches), KeyOf);
      var entries := Formatted(kept);
      && SortedByInstant(kept)
      && |entries| <= |punches|
      && (forall a, b :: 0 <= a < b < |entries| ==>
            DedupKey(entries[a].ts, entries[a].punchStatus) != DedupKey(entries[b].ts, entries[b].punchStatus))
      && (forall p :: p in punches ==>
            exists k :: 0 <= k < |entries| && DedupKey(entries[k].ts, entries[k].punchStatus) == KeyOf(p))
  {
    var sorted := SortByInstant(punches);
    var kept := FirstOccurrences(sorted, KeyOf);
    var entries := Formatted(kept);
    FirstOccurrencesSorted(sorted, KeyOf);
    FormattedKeysDistinct(kept);
    DedupCoverage(sorted);
    forall p | p in punches
      ensures exists k :: 0 <= k < |entries| && DedupKey(entries[k].ts, entries[k].punchStatus) == KeyOf(p)
    {
      assert p in multiset(sorted);
      var i :| 0 <= i < |sorted| && sorted[i] == p;
      var k :| 0 <= k < |kept| && KeyOf(kept[k]) == KeyOf(sorted[i]);
      assert entries[k] == Entry(kept[k].actualTimestamp, kept[k].punchStatus);
    }
  }

  /** De-duplication keeps no more punches than it is given, and the key of
      every punch given is the key of a kept one. */
  lemma DedupCoverage(s: seq<Punch>)
    ensures |FirstOccurrences(s, KeyOf)| <= |s|
    ensures forall i :: 0 <= i < |s| ==>
      exists k :: 0 <= k < |FirstOccurrences(s, KeyOf)| && KeyOf(FirstOccurrences(s, KeyOf)[k]) == KeyOf(s[i])
  {
    var kept := FirstOccurrences(s, KeyOf);
    KeptPositionsCover(s, KeyOf);
    var idx := KeptPositions(s, KeyOf);
    StrictlyIncreasingBound(idx, |s|);
    forall i | 0 <= i < |s| ensures exists k :: 0 <= k < |kept| && KeyOf(kept[k]) == KeyOf(s[i]) {
      KeptOncePerKey(s, i, KeyOf);
    }
  }

  /** A strictly increasing sequence of positions below `n` has at most `n` elements. */
  lemma {:induction false} StrictlyIncreasingBound(idx: seq<nat>, n: nat)
    requires forall k :: 0 <= k < |idx| ==> idx[k] < n
    requires forall a, b :: 0 <= a < b < |idx| ==> idx[a] < idx[b]
    ensures |idx| <= n
    decreases n
  {
    if idx != [] {
      var last := idx[|idx| - 1];
      StrictlyIncreasingBound(idx[..|idx| - 1], last);
    }
  }

  /** With no IN open at the end, the worked total is the closed-pair sum. */
  lemma WorkedMsClosed(s: seq<Punch>, now: int)
    requires forall j :: !OpenAt(s, |s|, j)
    ensures WorkedMs(s, now) == ClosedPairSum(s, |s|)
  {
    ScanMatchesPairs(s, |s|);
    assert s[..|s|] == s;
  }

  /** With the IN at `j` open at the end, the worked total is the closed-pair
      sum plus the time from that IN to `now` — whatever day that IN belongs to. */
  lemma WorkedMsOpen(s: seq<Punch>, now: int, j: int)
    requires OpenAt(s, |s|, j)
    ensures Scan(s).inTime == Some(s[j].instant)
    ensures WorkedMs(s, now) == ClosedPairSum(s, |s|) + (now - s[j].instant)
  {
    ScanMatchesPairs(s, |s|);
    assert s[..|s|] == s;
  }

  /** On time-ordered punches none of which lies after `now`, the worked total is not negative. */
  lemma WorkedMsNonNegative(s: seq<Punch>, now: int)
    requires SortedByInstant(s)
    requires forall k :: 0 <= k < |s| ==> s[k].instant <= now
    ensures WorkedMs(s, now) >= 0
  {
    ClosedPairSumNonNegative(s, |s|);
    if j :| OpenAt(s, |s|, j) {
      WorkedMsOpen(s, now, j);
    } else {
      WorkedMsClosed(s, now);
    }
  }

  /** The projected out instant exists exactly when some IN was punched and
      time remains, and it is then the last IN's instant plus the remaining time. */
  lemma ExpectedOutCharacterization(s: seq<Punch>, now: int)
    ensures ExpectedOut(s, now).Some? <==>
      (exists i :: 0 <= i < |s| && s[i].punchStatus == IN) && WorkedMs(s, now) < TargetMs
    ensures forall i :: IsLastIn(s, i) && WorkedMs(s, now) < TargetMs ==>
      ExpectedOut(s, now) == Some(s[i].instant + (TargetMs - WorkedMs(s, now)))
  {
    LastInMatches(s);
  }

  /** `lastOut` is absent exactly when there is no OUT punch. */
  lemma LastOutAbsent(s: seq<Punch>)
    ensures LastOut(s).None? <==> forall k :: 0 <= k < |s| ==> s[k].punchStatus != OUT
  {
    var outs := OutPunches(s);
    if |outs| > 0 {
      assert outs[0] in outs;
    } else {
      forall k | 0 <= k < |s| ensures s[k].punchStatus != OUT {
        assert s[k] !in outs;
      }
    }
  }

  /** When there is an OUT punch, `lastOut` is the raw timestamp of the last one. */
  lemma {:induction false} LastOutValue(s: seq<Punch>, i: int)
    requires IsLastOut(s, i)
    ensures LastOut(s) == Some(s[i].actualTimestamp)
    decreases |s|
  {
    var init := s[..|s| - 1];
    var last := s[|s| - 1];
    assert OutPunches(s) == OutPunches(init) + (if last.punchStatus == OUT then [last] else []);
    if last.punchStatus != OUT {
      LastOutInPrefix(s, i);
      LastOutValue(init, i);
      assert init[i] == s[i];
    } else {
      assert i == |s| - 1;
    }
  }

  /** The last OUT punch of `s` is at position `i`. */
  ghost predicate IsLastOut(s: seq<Punch>, i: int) {
    0 <= i < |s| && s[i].punchStatus == OUT && forall k :: i < k < |s| ==> s[k].punchStatus != OUT
  }

  lemma LastOutInPrefix(s: seq<Punch>, i: int)
    requires s != [] && s[|s| - 1].punchStatus != OUT && IsLastOut(s, i)
    ensures IsLastOut(s[..|s| - 1], i)
  {
  }

  /** An IN still open at the end of the scan is the last IN. */
  lemma OpenInIsLastIn(s: seq<Punch>, j: int)
    requires OpenAt(s, |s|, j)
    ensures IsLastIn(s, j)
  {
  }

  /** As written, the projection does not complete the target while a session
      is open: staying in until the projected instant gives a total short of
      eight hours by exactly the time already spent in the open session. */
  lemma ExpectedOutFallsShort(s: seq<Punch>, now: int, j: int)
    requires OpenAt(s, |s|, j) && WorkedMs(s, now) < TargetMs
    ensures ExpectedOut(s, now).Some?
    ensures WorkedMs(s, ExpectedOut(s, now).value) == TargetMs - (now - s[j].instant)
  {
    OpenInIsLastIn(s, j);
    LastInMatches(s);
    var t := s[j].instant + (TargetMs - WorkedMs(s, now));
    assert ExpectedOut(s, now) == Some(t);
    WorkedMsOpen(s, now, j);
    WorkedMsOpen(s, t, j);
  }

  /** A concrete case: clocked in at 09:00, asked at 09:30, the projection is
      16:30, and working until 16:30 gives 7.5 hours, not 8. */
  lemma ExpectedOutFallsShortExample()
    ensures var s := [Punch("2024-05-06T09:00:00Z", 9 * 3600000, IN)];
      var now := 9 * 3600000 + 1800000;
      && ExpectedOut(s, now) == Some(16 * 3600000 + 1800000)
      && WorkedMs(s, 16 * 3600000 + 1800000) == 7 * 3600000 + 1800000
  {
    var s := [Punch("2024-05-06T09:00:00Z", 9 * 3600000, IN)];
    ScanSnoc([], s[0]);
    assert [] + [s[0]] == s;
  }

  /** A completed day: IN 09:00, OUT 13:00, IN 13:30, OUT 17:45 gives 8h15m
      worked, no projection, and 17:45 as the last OUT. */
  lemma CompletedDayExample(now: int)
    ensures var s := [
        Punch("2024-05-06T09:00:00Z", 9 * 3600000, IN),
        Punch("2024-05-06T13:00:00Z", 13 * 3600000, OUT),
        Punch("2024-05-06T13:30:00Z", 13 * 3600000 + 1800000, IN),
        Punch("2024-05-06T17:45:00Z", 17 * 3600000 + 2700000, OUT)];
      && WorkedMs(s, now) == 8 * 3600000 + 900000
      && ExpectedOut(s, now) == None
      && LastOut(s) == Some("2024-05-06T17:45:00Z")
  {
    var a := Punch("2024-05-06T09:00:00Z", 9 * 3600000, IN);
    var b := Punch("2024-05-06T13:00:00Z", 13 * 3600000, OUT);
    var c := Punch("2024-05-06T13:30:00Z", 13 * 3600000 + 1800000, IN);
    var d := Punch("2024-05-06T17:45:00Z", 17 * 3600000 + 2700000, OUT);
    var s := [a, b, c, d];
    ScanSnoc([], a);
    assert [] + [a] == [a];
    ScanSnoc([a], b);
    assert [a] + [b] == [a, b];
    ScanSnoc([a, b], c);
    assert [a, b] + [c] == [a, b, c];
    ScanSnoc([a, b, c], d);
    assert [a, b, c] + [d] == s;
    assert Scan(s) == ScanState(None, Some(13 * 3600000 + 1800000), 8 * 3600000 + 900000);
    assert IsLastOut(s, 3);
    LastOutValue(s, 3);
  }

  /** No calendar-day check: an IN left open since 09:00 the previous day,
      asked at 09:00 the next day, counts a full 24 hours. */
  lemma StaleOpenSessionExample()
    ensures var s := [Punch("2024-05-05T09:00:00Z", 9 * 3600000, IN)];
      var now := 33 * 3600000;
      && WorkedMs(s, now) == 24 * 3600000
      && ExpectedOut(s, now) == None
  {
    var s := [Punch("2024-05-05T09:00:00Z", 9 * 3600000, IN)];
    ScanSnoc([], s[0]);
    assert [] + [s[0]] == s;
  }

  /** The projection the handler evidently means: while a session is open, the
      instant at which staying in reaches the target, `now` plus the remaining
      time; otherwise the as-written value. */
  function IntendedExpectedOut(s: seq<Punch>, now: int): (r: Option<int>)
    ensures r.Some? <==> ExpectedOut(s, now).Some?
  {
    OpenInIsLastInTime(s);
    var st := Scan(s);
    var remaining := RemainingMs(WorkedMs(s, now));
    if st.inTime.Some? && remaining > 0 then Some(now + remaining)
    else ExpectedOut(s, now)
  }

  /** With the intended projection, staying in until the projected instant
      gives exactly the eight-hour target. */
  lemma IntendedExpectedOutReachesTarget(s: seq<Punch>, now: int, j: int)
    requires OpenAt(s, |s|, j) && WorkedMs(s, now) < TargetMs
    ensures IntendedExpectedOut(s, now).Some?
    ensures WorkedMs(s, IntendedExpectedOut(s, now).value) == TargetMs
  {
    var t := now + (TargetMs - WorkedMs(s, now));
    WorkedMsOpen(s, now, j);
    assert IntendedExpectedOut(s, now) == Some(t);
    WorkedMsOpen(s, t, j);
  }

  /** The concrete case again: clocked in at 09:00 and asked at 09:30, the
      intended projection is 17:00, and working until then gives 8 hours. */
  lemma IntendedExpectedOutExample()
    ensures var s := [Punch("2024-05-06T09:00:00Z", 9 * 3600000, IN)];
      var now := 9 * 3600000 + 1800000;
      && IntendedExpectedOut(s, now) == Some(17 * 3600000)
      && WorkedMs(s, 17 * 3600000) == TargetMs
  {
    var s := [Punch("2024-05-06T09:00:00Z", 9 * 3600000, IN)];
    ScanSnoc([], s[0]);
    assert [] + [s[0]] == s;
  }
}
