/** The `m:ss` clock text shown by the timeline and the player
    (frontend/src/components/Timeline.tsx:45-49, frontend/src/components/VideoPlayer.tsx:6-11),
    written with JavaScript's number semantics: `%` keeps the sign of the dividend,
    `Math.floor` rounds down, `${n}` prints a leading '-' for negatives. */
module TimeFormat {
  import opened Wrappers

  /** `Math.trunc`: rounds toward zero. */
  function Trunc(x: real): int {
    if x >= 0.0 then x.Floor else -((-x).Floor)
  }

  /** JavaScript `a % b`: the remainder of the division truncated toward zero. */
  function JsRem(a: real, b: real): real
    requires b != 0.0
  {
    a - b * (Trunc(a / b) as real)
  }

  predicate IsDigit(c: char) {
    '0' <= c <= '9'
  }

  function DigitChar(d: nat): (c: char)
    requires d < 10
    ensures IsDigit(c)
  {
    "0123456789"[d]
  }

  function DigitValue(c: char): (d: nat)
    requires IsDigit(c)
    ensures d < 10
  {
    (c as int - '0' as int) as nat
  }

  /** Decimal digits of `n`, most significant first, without leading zeros. */
  function NatToString(n: nat): (r: string)
    ensures |r| >= 1
    ensures forall i :: 0 <= i < |r| ==> IsDigit(r[i])
    ensures |r| == 1 <==> n < 10
  {
    if n < 10 then [DigitChar(n)] else NatToString(n / 10) + [DigitChar(n % 10)]
  }

  /** The value of a non-empty string of decimal digits; `None` for anything else. */
  function ParseNat(s: string): (r: Option<nat>)
    ensures r.Some? ==> s != [] && forall i :: 0 <= i < |s| ==> IsDigit(s[i])
  {
    if s == [] || !IsDigit(s[|s| - 1]) then None
    else if |s| == 1 then Some(DigitValue(s[0]))
    else match ParseNat(s[..|s| - 1])
      case None => None
      case Some(v) => Some(10 * v + DigitValue(s[|s| - 1]))
  }

  lemma {:induction false} ParseNatToString(n: nat)
    ensures ParseNat(NatToString(n)) == Some(n)
  {
    if n >= 10 {
      ParseNatToString(n / 10);
      var s := NatToString(n);
      assert s[..|s| - 1] == NatToString(n / 10);
      assert DigitValue(DigitChar(n % 10)) == n % 10;
    } else {
      assert DigitValue(DigitChar(n)) == n;
    }
  }

  /** `${i}` for an integer. */
  function IntToString(i: int): string {
    if i < 0 then "-" + NatToString(-i) else NatToString(i)
  }

  /** `s.padStart(2, '0')`. */
  function PadStart2(s: string): (r: string)
    ensures |r| == if |s| < 2 then 2 else |s|
    ensures |s| >= 2 ==> r == s
    ensures r[|r| - |s|..] == s
  {
    if |s| == 0 then "00" else if |s| == 1 then "0" + s else s
  }

  /** The two numbers printed: `Math.floor(seconds / 60)` and `Math.floor(seconds % 60)`. */
  function ClockFields(seconds: real): (int, int) {
    ((seconds / 60.0).Floor, JsRem(seconds, 60.0).Floor)
  }

  /** Timeline's `formatTime(seconds)`. */
  function FormatClock(seconds: real): string {
    var (m, s) := ClockFields(seconds);
    IntToString(m) + ":" + PadStart2(IntToString(s))
  }

  /** For a non-negative time the fields are whole minutes and the seconds within the
      minute, and together they give the whole seconds. */
  lemma ClockFieldsSplit(seconds: real)
    requires seconds >= 0.0
    ensures var (m, s) := ClockFields(seconds);
      0 <= m && 0 <= s < 60 && 60 * m + s == seconds.Floor
  {
    var m := (seconds / 60.0).Floor;
    assert m as real <= seconds / 60.0 < m as real + 1.0;
    assert Trunc(seconds / 60.0) == m;
    assert JsRem(seconds, 60.0) == seconds - 60.0 * (m as real);
  }

  /** Reads `m:ss` back into its two numbers. */
  function ParseClock(text: string): (r: Option<(nat, nat)>)
  {
    if ':' !in text then None
    else
      var k := IndexOf(text, ':');
      match (ParseNat(text[..k]), ParseNat(text[k + 1..]))
      case (Some(m), Some(s)) => Some((m, s))
      case _ => None
  }

  /** Text before the first ':' and text after it are parsed separately; a run of digits
      contains no ':'. */
  lemma ParseClockSplit(ms: string, rest: string)
    requires forall i :: 0 <= i < |ms| ==> IsDigit(ms[i])
    ensures var text := ms + ":" + rest;
      ParseClock(text) == match (ParseNat(ms), ParseNat(rest))
        case (Some(m), Some(s)) => Some((m, s))
        case _ => None
  {
    var text := ms + ":" + rest;
    assert text[|ms|] == ':';
    assert forall i :: 0 <= i < |ms| ==> text[i] == ms[i];
    var k := IndexOf(text, ':');
    assert k == |ms|;
    assert text[..k] == ms;
    assert text[k + 1..] == rest;
  }

  /** The zero-padded seconds parse back to their value. */
  lemma ParsePadded(n: nat)
    ensures ParseNat(PadStart2(NatToString(n))) == Some(n)
  {
    ParseNatToString(n);
    if n < 10 {
      var p := PadStart2(NatToString(n));
      assert p == ['0', DigitChar(n)];
      assert p[..1] == ['0'];
      assert DigitValue(DigitChar(n)) == n;
    }
  }

  /** Parsing the clock text of a non-negative time gives back its minutes and seconds. */
  lemma ParseFormatClock(seconds: real)
    requires seconds >= 0.0
    ensures var (m, s) := ClockFields(seconds);
      ParseClock(FormatClock(seconds)) == Some((m as nat, s as nat))
  {
    ClockFieldsSplit(seconds);
    var (m, s) := ClockFields(seconds);
    var ms := NatToString(m as nat);
    assert FormatClock(seconds) == ms + ":" + PadStart2(NatToString(s as nat));
    ParseClockSplit(ms, PadStart2(NatToString(s as nat)));
    ParseNatToString(m as nat);
    ParsePadded(s as nat);
  }

  /** The player's `formatTime`: "0:00" for a zero time (not-a-number is not modelled),
      the same `m:ss` text otherwise. */
  function PlayerFormatTime(seconds: real): string {
    if seconds == 0.0 then "0:00" else FormatClock(seconds)
  }

  /** The player's early return for 0 gives what the timeline's formula gives, so both
      components print every time the same way. */
  lemma PlayerAgreesWithTimeline(seconds: real)
    ensures PlayerFormatTime(seconds) == FormatClock(seconds)
  {
    if seconds == 0.0 {
      assert ClockFields(0.0) == (0, 0);
      assert NatToString(0) == "0";
    }
  }
}
