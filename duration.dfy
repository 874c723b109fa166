/** `msToDuration` and `pad` from background.js: a millisecond count rendered as
    an "hh:mm:ss" clock text, each field left-padded with '0' to two characters. */
module Duration {
  import opened Wrappers
  import opened Text

  /** `Math.floor(a / d)` for a positive divisor (Dafny's `/` already rounds down there). */
  function FloorDiv(a: int, d: int): (q: int)
    requires d > 0
    ensures q * d <= a < q * d + d
  {
    a / d
  }

  /** JavaScript's `a % d` for a positive divisor: the remainder carries the sign of `a`. */
  function JsRemainder(a: int, d: int): (r: int)
    requires d > 0
    ensures -d < r < d
    ensures a >= 0 ==> 0 <= r
    ensures a <= 0 ==> r <= 0
    ensures a >= 0 ==> r == a % d
  {
    if a >= 0 then a % d else -((-a) % d)
  }

  /** `pad(n)`: `n.toString().padStart(2, "0")`. */
  function Pad(n: int): (r: string)
    ensures |r| >= 2
  {
    PadStart(IntToString(n), 2, '0')
  }

  /** `msToDuration(ms)` */
  function MsToDuration(ms: int): string {
    var secs := FloorDiv(ms, 1000);
    var hh := FloorDiv(secs, 3600);
    var mm := FloorDiv(JsRemainder(secs, 3600), 60);
    var ss := JsRemainder(secs, 60);
    Clock(hh, mm, ss)
  }

  /** The template literal `${pad(hh)}:${pad(mm)}:${pad(ss)}`. */
  function Clock(hh: int, mm: int, ss: int): string {
    Pad(hh) + ":" + Pad(mm) + ":" + Pad(ss)
  }

  /** Reads an "hh:mm:ss" clock text of digit fields back into a number of seconds. */
  function ParseClock(text: string): Option<int> {
    var parts := SplitOn(text, ':');
    if |parts| == 3 && AllDigits(parts[0]) && AllDigits(parts[1]) && AllDigits(parts[2]) then
      Some(DecimalValue(parts[0]) * 3600 + DecimalValue(parts[1]) * 60 + DecimalValue(parts[2]))
    else
      None
  }

  /** A padded non-negative field is all digits, denotes the number padded, and a
      number below 100 takes exactly two characters. */
  lemma {:induction false} PadDigits(n: nat)
    ensures AllDigits(Pad(n)) && DecimalValue(Pad(n)) == n
    ensures n < 100 ==> |Pad(n)| == 2
  {
    var d := NatToDecimal(n);
    DecimalRoundTrip(n);
    if |d| < 2 {
      LeadingZerosValue(2 - |d|, d);
      assert Pad(n) == Repeat('0', 2 - |d|) + d;
    } else {
      assert Pad(n) == d;
    }
  }

  lemma {:induction false} NoColonInDigits(s: string)
    requires AllDigits(s)
    ensures ':' !in s
  {
  }

  /** The three padded fields of a clock text are exactly its colon-separated pieces. */
  lemma SplitClock(hh: nat, mm: nat, ss: nat)
    ensures SplitOn(Clock(hh, mm, ss), ':') == [Pad(hh), Pad(mm), Pad(ss)]
  {
    var a, b, c := Pad(hh), Pad(mm), Pad(ss);
    PadDigits(hh);
    PadDigits(mm);
    PadDigits(ss);
    NoColonInDigits(a);
    NoColonInDigits(b);
    NoColonInDigits(c);
    SplitThree(a, b, c, ':');
  }

  /** For a non-negative count the fields split the whole seconds as
      hh * 3600 + mm * 60 + ss, with minutes and seconds below 60. */
  lemma ClockArithmetic(ms: int)
    requires ms >= 0
    ensures var secs := FloorDiv(ms, 1000);
      var hh := FloorDiv(secs, 3600);
      var mm := FloorDiv(JsRemainder(secs, 3600), 60);
      var ss := JsRemainder(secs, 60);
      0 <= hh && 0 <= mm < 60 && 0 <= ss < 60 && hh * 3600 + mm * 60 + ss == secs
  {
    var secs := ms / 1000;
    var hh := secs / 3600;
    var r := secs % 3600;
    var mm := r / 60;
    var ss := r % 60;
    assert FloorDiv(ms, 1000) == secs && FloorDiv(secs, 3600) == hh;
    assert FloorDiv(JsRemainder(secs, 3600), 60) == mm && JsRemainder(secs, 60) == secs % 60;
    assert r == mm * 60 + ss && r < 3600;
    assert mm < 60;
    var minutes := hh * 60 + mm;
    assert secs == minutes * 60 + ss;
    assert secs / 60 == minutes && secs % 60 == ss;
  }

  /** A clock text of non-negative fields, minutes and seconds below 60, is
      three colon-separated digit fields: each at least two wide, the last two
      exactly two, each denoting its number. */
  lemma ClockTextFields(hh: nat, mm: nat, ss: nat)
    requires mm < 60 && ss < 60
    ensures var parts := SplitOn(Clock(hh, mm, ss), ':');
      && |parts| == 3
      && AllDigits(parts[0]) && AllDigits(parts[1]) && AllDigits(parts[2])
      && |parts[0]| >= 2 && |parts[1]| == 2 && |parts[2]| == 2
      && DecimalValue(parts[0]) == hh && DecimalValue(parts[1]) == mm && DecimalValue(parts[2]) == ss
  {
    var a, b, c := Pad(hh), Pad(mm), Pad(ss);
    SplitClock(hh, mm, ss);
    PadDigits(hh);
    PadDigits(mm);
    PadDigits(ss);
    assert SplitOn(Clock(hh, mm, ss), ':') == [a, b, c];
  }

  /** For ms >= 0 the rendering has three digit fields of at least two characters;
      minutes and seconds take exactly two and stay below 60; and the fields
      recombine to the whole seconds in ms. */
  lemma ClockFields(ms: int)
    requires ms >= 0
    ensures var parts := SplitOn(MsToDuration(ms), ':');
      && |parts| == 3
      && AllDigits(parts[0]) && AllDigits(parts[1]) && AllDigits(parts[2])
      && |parts[0]| >= 2 && |parts[1]| == 2 && |parts[2]| == 2
      && DecimalValue(parts[1]) < 60 && DecimalValue(parts[2]) < 60
      && DecimalValue(parts[0]) * 3600 + DecimalValue(parts[1]) * 60 + DecimalValue(parts[2]) == ms / 1000
  {
    ClockArithmetic(ms);
    var secs := FloorDiv(ms, 1000);
    var hh := FloorDiv(secs, 3600);
    var mm := FloorDiv(JsRemainder(secs, 3600), 60);
    var ss := JsRemainder(secs, 60);
    assert MsToDuration(ms) == Clock(hh, mm, ss);
    ClockTextFields(hh, mm, ss);
  }

  /** Round trip: reading the clock text back gives the whole seconds, ⌊ms / 1000⌋. */
  lemma DurationRoundTrip(ms: int)
    requires ms >= 0
    ensures ParseClock(MsToDuration(ms)) == Some(ms / 1000)
  {
    ClockFields(ms);
    ParseClockValue(MsToDuration(ms), ms / 1000);
  }

  lemma ParseClockValue(text: string, secs: int)
    requires var parts := SplitOn(text, ':');
      && |parts| == 3 && AllDigits(parts[0]) && AllDigits(parts[1]) && AllDigits(parts[2])
      && DecimalValue(parts[0]) * 3600 + DecimalValue(parts[1]) * 60 + DecimalValue(parts[2]) == secs
    ensures ParseClock(text) == Some(secs)
  {
  }
}
