/** The de-duplication loop of background.js: walking the sorted punches, it
    builds the key `${actualTimestamp}-${punchStatus}`, and pushes
    `{ts, punchStatus}` to `entriesFormatted` only the first time the key is met,
    recording it in the `seen` set. Punches whose status is neither IN nor OUT
    are kept like any other. The first-occurrence functions and lemmas take the
    key function as a parameter; the handler's key is `KeyOf`. */
module Dedup {
  import opened Text
  import opened Punches

  /** One element of `entriesFormatted`. */
  datatype Entry = Entry(ts: string, punchStatus: int)

  /** The template literal `${ts}-${status}`. */
  function DedupKey(ts: string, status: int): string {
    ts + "-" + IntToString(status)
  }

  /** The key the handler builds for punch `p`. */
  function KeyOf(p: Punch): string {
    DedupKey(p.actualTimestamp, p.punchStatus)
  }

  /** The keys met in `s`: what the `seen` set holds after the loop has passed over `s`. */
  function KeysOf(s: seq<Punch>, key: Punch -> string): set<string> {
    if s == [] then {} else KeysOf(s[..|s| - 1], key) + {key(s[|s| - 1])}
  }

  lemma {:induction false} KeysOfMembers(s: seq<Punch>, key: Punch -> string)
    ensures forall i :: 0 <= i < |s| ==> key(s[i]) in KeysOf(s, key)
    ensures forall k :: k in KeysOf(s, key) ==> exists i :: 0 <= i < |s| && key(s[i]) == k
    decreases |s|
  {
    if s != [] {
      var init, last := s[..|s| - 1], s[|s| - 1];
      KeysOfMembers(init, key);
      assert KeysOf(s, key) == KeysOf(init, key) + {key(last)};
      forall i | 0 <= i < |s| ensures key(s[i]) in KeysOf(s, key) {
        if i < |init| {
          assert s[i] == init[i];
        }
      }
      forall k | k in KeysOf(s, key) ensures exists i :: 0 <= i < |s| && key(s[i]) == k {
        if k in KeysOf(init, key) {
          var i :| 0 <= i < |init| && key(init[i]) == k;
          assert s[i] == init[i];
        } else {
          assert key(s[|s| - 1]) == k;
        }
      }
    }
  }

  lemma KeysOfSnoc(s: seq<Punch>, p: Punch, key: Punch -> string)
    ensures KeysOf(s + [p], key) == KeysOf(s, key) + {key(p)}
  {
    assert (s + [p])[..|s|] == s;
  }

  /** Position `i` holds the first punch of `s` with its key. */
  predicate IsFirstOccurrence(s: seq<Punch>, i: int, key: Punch -> string) {
    0 <= i < |s| && forall j :: 0 <= j < i ==> key(s[j]) != key(s[i])
  }

  /** Appending a punch does not change which earlier positions are first occurrences;
      the new last position is one exactly when its key is new. */
  lemma FirstOccurrenceSnoc(t: seq<Punch>, key: Punch -> string)
    requires t != []
    ensures forall i :: 0 <= i < |t| - 1 ==> (IsFirstOccurrence(t, i, key) <==> IsFirstOccurrence(t[..|t| - 1], i, key))
    ensures IsFirstOccurrence(t, |t| - 1, key) <==> key(t[|t| - 1]) !in KeysOf(t[..|t| - 1], key)
  {
    var s := t[..|t| - 1];
    assert forall j :: 0 <= j < |s| ==> t[j] == s[j];
    KeysOfMembers(s, key);
  }

  /** The punches the loop keeps, in order: the first punch for each key.
      Their keys are pairwise distinct, the same keys are met as in the input,
      and every kept punch is a punch of the input. */
  function FirstOccurrences(s: seq<Punch>, key: Punch -> string): (r: seq<Punch>)
    ensures DistinctKeys(r, key)
    ensures KeysOf(r, key) == KeysOf(s, key)
    ensures forall x :: x in r ==> x in s
  {
    if s == [] then []
    else
      var init, p := s[..|s| - 1], s[|s| - 1];
      var r0 := FirstOccurrences(init, key);
      assert forall x :: x in init ==> x in s;
      if key(p) in KeysOf(init, key) then
        r0
      else
        AppendNewKey(r0, p, key);
        r0 + [p]
  }

  /** One more punch: it is kept exactly when its key has not been met. */
  lemma FirstOccurrencesSnoc(s: seq<Punch>, p: Punch, key: Punch -> string)
    ensures FirstOccurrences(s + [p], key) ==
      if key(p) in KeysOf(s, key) then FirstOccurrences(s, key) else FirstOccurrences(s, key) + [p]
  {
    assert (s + [p])[..|s|] == s;
  }

  /** No two punches of `r` share a key. */
  predicate DistinctKeys(r: seq<Punch>, key: Punch -> string) {
    forall a, b :: 0 <= a < b < |r| ==> key(r[a]) != key(r[b])
  }

  /** Appending a punch with a key not met before keeps the keys distinct and adds that key. */
  lemma AppendNewKey(r: seq<Punch>, p: Punch, key: Punch -> string)
    requires DistinctKeys(r, key) && key(p) !in KeysOf(r, key)
    ensures DistinctKeys(r + [p], key)
    ensures KeysOf(r + [p], key) == KeysOf(r, key) + {key(p)}
  {
    KeysOfSnoc(r, p, key);
    KeysOfMembers(r, key);
    var t := r + [p];
    forall a, b | 0 <= a < b < |t| ensures key(t[a]) != key(t[b]) {
      assert t[a] == r[a];
      if b < |r| {
        assert t[b] == r[b];
      }
    }
  }

  /** De-duplicating a time-ordered list leaves it time-ordered. */
  lemma {:induction false} FirstOccurrencesSorted(s: seq<Punch>, key: Punch -> string)
    requires SortedByInstant(s)
    ensures SortedByInstant(FirstOccurrences(s, key))
    decreases |s|
  {
    if s != [] {
      var init, p := s[..|s| - 1], s[|s| - 1];
      assert SortedByInstant(init);
      FirstOccurrencesSorted(init, key);
      assert forall x :: x in init ==> x.instant <= p.instant;
    }
  }

  /** Where each kept punch came from: strictly increasing positions of first
      occurrences, so the kept list is a subsequence of the input made of first
      occurrences only. */
  ghost function KeptPositions(s: seq<Punch>, key: Punch -> string): (idx: seq<nat>)
    ensures KeptAt(s, idx, key)
  {
    if s == [] then []
    else
      var idx0 := KeptPositions(s[..|s| - 1], key);
      if key(s[|s| - 1]) in KeysOf(s[..|s| - 1], key) then
        KeptRepeatedKey(s, idx0, key);
        idx0
      else
        KeptNewKey(s, idx0, key);
        idx0 + [|s| - 1]
  }

  /** `idx` lists, strictly increasing, positions of first occurrences in `s`
      whose punches are, in order, the kept punches. */
  ghost predicate KeptAt(s: seq<Punch>, idx: seq<nat>, key: Punch -> string) {
    && |idx| == |FirstOccurrences(s, key)|
    && (forall k :: 0 <= k < |idx| ==> idx[k] < |s| && FirstOccurrences(s, key)[k] == s[idx[k]])
    && (forall k :: 0 <= k < |idx| ==> IsFirstOccurrence(s, idx[k], key))
    && (forall a, b :: 0 <= a < b < |idx| ==> idx[a] < idx[b])
  }

  lemma KeptRepeatedKey(t: seq<Punch>, idx: seq<nat>, key: Punch -> string)
    requires t != [] && KeptAt(t[..|t| - 1], idx, key) && key(t[|t| - 1]) in KeysOf(t[..|t| - 1], key)
    ensures KeptAt(t, idx, key)
  {
    var s := t[..|t| - 1];
    assert FirstOccurrences(t, key) == FirstOccurrences(s, key);
    FirstOccurrenceSnoc(t, key);
    forall k | 0 <= k < |idx| ensures IsFirstOccurrence(t, idx[k], key) && t[idx[k]] == s[idx[k]] {
    }
  }

  lemma KeptNewKey(t: seq<Punch>, idx: seq<nat>, key: Punch -> string)
    requires t != [] && KeptAt(t[..|t| - 1], idx, key) && key(t[|t| - 1]) !in KeysOf(t[..|t| - 1], key)
    ensures KeptAt(t, idx + [|t| - 1], key)
  {
    var s, p := t[..|t| - 1], t[|t| - 1];
    var idx', r := idx + [|s|], FirstOccurrences(t, key);
    assert r == FirstOccurrences(s, key) + [p];
    forall k | 0 <= k < |idx'|
      ensures idx'[k] < |t| && r[k] == t[idx'[k]] && IsFirstOccurrence(t, idx'[k], key)
    {
      FirstOccurrenceSnoc(t, key);
      if k < |idx| {
        assert idx'[k] == idx[k] && t[idx[k]] == s[idx[k]];
      } else {
        assert idx'[k] == |s| && r[k] == p;
      }
    }
    forall a, b | 0 <= a < b < |idx'| ensures idx'[a] < idx'[b] {
      if b == |idx| {
        assert idx[a] < |s|;
      }
    }
  }

  /** No first occurrence is dropped: every one of them is among the kept positions. */
  lemma {:induction false} KeptPositionsCover(s: seq<Punch>, key: Punch -> string)
    ensures forall i :: IsFirstOccurrence(s, i, key) ==> i in KeptPositions(s, key)
    decreases |s|
  {
    if s != [] {
      var init, p := s[..|s| - 1], s[|s| - 1];
      assert s == init + [p];
      KeptPositionsCover(init, key);
      FirstOccurrenceSnoc(s, key);
    }
  }

  /** Every key met in the input is kept exactly once, and the punch kept for
      it is the first punch of the input with that key. */
  lemma KeptOncePerKey(s: seq<Punch>, i: int, key: Punch -> string)
    requires 0 <= i < |s|
    ensures exists k :: 0 <= k < |FirstOccurrences(s, key)| && key(FirstOccurrences(s, key)[k]) == key(s[i])
    ensures forall k :: 0 <= k < |FirstOccurrences(s, key)| && key(FirstOccurrences(s, key)[k]) == key(s[i]) ==>
      exists f :: 0 <= f <= i && IsFirstOccurrence(s, f, key) && FirstOccurrences(s, key)[k] == s[f]
  {
    var r := FirstOccurrences(s, key);
    var idx := KeptPositions(s, key);
    KeysOfMembers(s, key);
    KeysOfMembers(r, key);
    assert key(s[i]) in KeysOf(r, key);
    forall k | 0 <= k < |r| && key(r[k]) == key(s[i])
      ensures exists f :: 0 <= f <= i && IsFirstOccurrence(s, f, key) && r[k] == s[f]
    {
      var f := idx[k];
      assert IsFirstOccurrence(s, f, key) && r[k] == s[f];
    }
  }

  /** `{ts, punchStatus}` for each kept punch. */
  function Formatted(s: seq<Punch>): (r: seq<Entry>)
    ensures |r| == |s|
    ensures forall k :: 0 <= k < |s| ==> r[k] == Entry(s[k].actualTimestamp, s[k].punchStatus)
  {
    seq(|s|, k requires 0 <= k < |s| => Entry(s[k].actualTimestamp, s[k].punchStatus))
  }

  lemma FormattedSnoc(s: seq<Punch>, p: Punch)
    ensures Formatted(s + [p]) == Formatted(s) + [Entry(p.actualTimestamp, p.punchStatus)]
  {
  }

  /** The loop building `entriesFormatted` with the `seen` set. */
  method DedupEntries(timeEntries: seq<Punch>) returns (entriesFormatted: seq<Entry>)
    ensures entriesFormatted == Formatted(FirstOccurrences(timeEntries, KeyOf))
    ensures forall a, b :: 0 <= a < b < |entriesFormatted| ==>
      DedupKey(entriesFormatted[a].ts, entriesFormatted[a].punchStatus) !=
      DedupKey(entriesFormatted[b].ts, entriesFormatted[b].punchStatus)
  {
    entriesFormatted := [];
    var seen: set<string> := {};
    for i := 0 to |timeEntries|
      invariant seen == KeysOf(timeEntries[..i], KeyOf)
      invariant entriesFormatted == Formatted(FirstOccurrences(timeEntries[..i], KeyOf))
    {
      var e := timeEntries[i];
      var key := DedupKey(e.actualTimestamp, e.punchStatus);
      assert key == KeyOf(e);
      assert timeEntries[..i + 1] == timeEntries[..i] + [e];
      KeysOfSnoc(timeEntries[..i], e, KeyOf);
      FirstOccurrencesSnoc(timeEntries[..i], e, KeyOf);
      FormattedSnoc(FirstOccurrences(timeEntries[..i], KeyOf), e);
      if key !in seen {
        seen := seen + {key};
        entriesFormatted := entriesFormatted + [Entry(e.actualTimestamp, e.punchStatus)];
      }
    }
    assert timeEntries[..|timeEntries|] == timeEntries;
    FormattedKeysDistinct(FirstOccurrences(timeEntries, KeyOf));
  }

  /** Formatting keeps the keys of distinct-key punches distinct. */
  lemma FormattedKeysDistinct(r: seq<Punch>)
    requires DistinctKeys(r, KeyOf)
    ensures forall a, b :: 0 <= a < b < |Formatted(r)| ==>
      DedupKey(Formatted(r)[a].ts, Formatted(r)[a].punchStatus) !=
      DedupKey(Formatted(r)[b].ts, Formatted(r)[b].punchStatus)
  {
    forall a, b | 0 <= a < b < |Formatted(r)|
      ensures DedupKey(Formatted(r)[a].ts, Formatted(r)[a].punchStatus) !=
        DedupKey(Formatted(r)[b].ts, Formatted(r)[b].punchStatus)
    {
      assert KeyOf(r[a]) != KeyOf(r[b]);
    }
  }

  /** The digits after the last '-' have one length, whichever way the text was built. */
  lemma DigitSuffixLength(a: string, d1: string, b: string, d2: string)
    requires AllDigits(d1) && AllDigits(d2)
    requires a + "-" + d1 == b + "-" + d2
    ensures |d1| == |d2|
  {
    var k := a + "-" + d1;
    assert k == b + "-" + d2;
    // the character before each digit suffix is '-', and every suffix character is a digit
    assert k[|k| - |d1| - 1] == '-' && k[|k| - |d2| - 1] == '-';
    assert forall i :: |k| - |d1| <= i < |k| ==> IsDigit(k[i]);
    assert forall i :: |k| - |d2| <= i < |k| ==> IsDigit(k[i]);
  }

  /** For non-negative status codes the key text determines the timestamp text
      and the status: two punches share a key exactly when they share both. */
  lemma KeyInjective(ts1: string, st1: int, ts2: string, st2: int)
    requires st1 >= 0 && st2 >= 0
    ensures DedupKey(ts1, st1) == DedupKey(ts2, st2) <==> ts1 == ts2 && st1 == st2
  {
    if DedupKey(ts1, st1) == DedupKey(ts2, st2) {
      var d1, d2 := NatToDecimal(st1), NatToDecimal(st2);
      var k := DedupKey(ts1, st1);
      assert k == ts1 + "-" + d1 == ts2 + "-" + d2;
      DigitSuffixLength(ts1, d1, ts2, d2);
      assert d1 == k[|k| - |d1|..] == d2;
      NatToDecimalInjective(st1, st2);
      assert ts1 == k[..|ts1|] == ts2;
    }
  }

  /** With a negative status code two different punches can share a key:
      "A" with status -1 and "A-" with status 1 both give "A--1". */
  lemma KeyCollisionWithNegativeStatus()
    ensures DedupKey("A", -1) == DedupKey("A-", 1)
  {
    assert NatToDecimal(1) == "1";
  }

  /** With non-negative status codes the kept entries are exactly one per
      (timestamp text, status) pair met in the input. */
  lemma KeptOncePerPair(s: seq<Punch>)
    requires forall i :: 0 <= i < |s| ==> s[i].punchStatus >= 0
    ensures forall a, b :: 0 <= a < b < |FirstOccurrences(s, KeyOf)| ==>
      (FirstOccurrences(s, KeyOf)[a].actualTimestamp, FirstOccurrences(s, KeyOf)[a].punchStatus) !=
      (FirstOccurrences(s, KeyOf)[b].actualTimestamp, FirstOccurrences(s, KeyOf)[b].punchStatus)
    ensures forall i :: 0 <= i < |s| ==>
      exists k :: (0 <= k < |FirstOccurrences(s, KeyOf)| &&
        FirstOccurrences(s, KeyOf)[k].actualTimestamp == s[i].actualTimestamp &&
        FirstOccurrences(s, KeyOf)[k].punchStatus == s[i].punchStatus)
  {
    var r := FirstOccurrences(s, KeyOf);
    forall i | 0 <= i < |s|
      ensures exists k :: (0 <= k < |r| &&
        r[k].actualTimestamp == s[i].actualTimestamp && r[k].punchStatus == s[i].punchStatus)
    {
      KeptOncePerKey(s, i, KeyOf);
      var k :| 0 <= k < |r| && KeyOf(r[k]) == KeyOf(s[i]);
      assert r[k] in s;
      KeyInjective(r[k].actualTimestamp, r[k].punchStatus, s[i].actualTimestamp, s[i].punchStatus);
    }
  }
}
