/**
 The "MM:SS" formatter of the rows TestTimer.js renders: minutes are `Math.floor(s / 60)`,
 seconds are JavaScript's `s % 60` (truncating, so negative for a negative
 dividend), each rendered with `toString()` and `padStart(2, '0')`.
 */
module TimeFormat {
  import opened Wrappers
  import opened Decimal

  /** JavaScript's `%` on integers: the remainder takes the sign of the dividend. */
  function JsRemainder(a: int, b: int): (r: int)
    requires b > 0
  {
    if a >= 0 then a % b else -((-a) % b)
  }

  /** `s.padStart(2, '0')`. */
  function PadStart2(s: string): (r: string)
    ensures |r| == if |s| >= 2 then |s| else 2
    ensures r[|r| - |s|..] == s
    ensures forall i :: 0 <= i < |r| - |s| ==> r[i] == '0'
  {
    if |s| >= 2 then s else if |s| == 1 then "0" + s else "00"
  }

  /**
   `formatTime`: the minutes and the seconds, each padded to two places, around a
   colon. Its shape, length and round trip are stated by the lemmas below.
   */
  function FormatTime(seconds: int): string {
    PadStart2(IntToString(seconds / 60)) + ":" + PadStart2(IntToString(JsRemainder(seconds, 60)))
  }

  /** "M...M:SS": at least one minute digit, a colon, then exactly two second digits. */
  predicate IsClock(text: string) {
    && |text| >= 4
    && text[|text| - 3] == ':'
    && AllDigits(text[..|text| - 3])
    && AllDigits(text[|text| - 2..])
  }

  function ClockMinutes(text: string): nat
    requires IsClock(text)
  {
    AllDigitsAreDecimal(text[..|text| - 3]);
    ValueIn(10, text[..|text| - 3])
  }

  function ClockSeconds(text: string): nat
    requires IsClock(text)
  {
    AllDigitsAreDecimal(text[|text| - 2..]);
    ValueIn(10, text[|text| - 2..])
  }

  /** Reads "M...M:SS" back as a number of seconds, or None if the text has another shape. */
  function ReadClock(text: string): Option<nat> {
    if IsClock(text) then Some(ClockMinutes(text) * 60 + ClockSeconds(text)) else None
  }

  /** Zero-padding a decimal rendering to two places keeps its value. */
  lemma PaddedValue(n: nat)
    ensures AllDigits(PadStart2(NatToString(n)))
    ensures DigitsIn(10, PadStart2(NatToString(n)))
    ensures ValueIn(10, PadStart2(NatToString(n))) == n
  {
    var s := NatToString(n);
    NatToStringValue(n);
    if |s| == 1 {
      LeadingZero(s);
    }
  }

  /**
   For a non-negative time the result is "minutes:seconds": the minutes part has
   at least two digits worth `seconds / 60`, the seconds part exactly two digits
   worth `seconds % 60`.
   */
  lemma FormatTimeShape(seconds: nat)
    ensures IsClock(FormatTime(seconds))
    ensures |FormatTime(seconds)| >= 5
    ensures ClockMinutes(FormatTime(seconds)) == seconds / 60
    ensures ClockSeconds(FormatTime(seconds)) == seconds % 60
  {
    var q: nat, k: nat := seconds / 60, seconds % 60;
    assert k < 60;
    assert JsRemainder(seconds, 60) == k;
    var m, s := PadStart2(NatToString(q)), PadStart2(NatToString(k));
    assert FormatTime(seconds) == m + ":" + s;
    NatToStringLength(k);
    PaddedValue(q);
    PaddedValue(k);
    ClockParts(m, s);
  }

  lemma ClockParts(m: string, s: string)
    requires |m| >= 2 && |s| == 2
    ensures var r := m + ":" + s; |r| >= 5 && r[|r| - 3] == ':' && r[..|r| - 3] == m && r[|r| - 2..] == s
  {
    var r := m + ":" + s;
    assert r[..|r| - 3] == m;
    assert r[|r| - 2..] == s;
  }

  /** The result is five characters exactly when the minutes fit in two digits. */
  lemma FormatTimeLength(seconds: nat)
    ensures |FormatTime(seconds)| == 5 <==> seconds < 6000
  {
    NatToStringLength(seconds / 60);
    NatToStringLength(seconds % 60);
  }

  /** Round trip: reading the formatted time back gives min * 60 + sec == seconds. */
  lemma ReadClockFormatTime(seconds: nat)
    ensures ReadClock(FormatTime(seconds)) == Some(seconds)
  {
    var q, k := seconds / 60, seconds % 60;
    FormatTimeShape(seconds);
    ReadClockParts(FormatTime(seconds), q, k);
    assert q * 60 + k == seconds;
  }

  lemma ReadClockParts(text: string, minutes: nat, secs: nat)
    requires IsClock(text) && ClockMinutes(text) == minutes && ClockSeconds(text) == secs
    ensures ReadClock(text) == Some(minutes * 60 + secs)
  {
  }
}
