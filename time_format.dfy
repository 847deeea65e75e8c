/**
 * `formatTime` of components/timer-card.tsx: milliseconds rendered as
 * `MM:SS`, with the JavaScript number-to-text steps it relies on
 * (`Math.floor`, `%`, `Number.prototype.toString`, `String.prototype.padStart`),
 * and a reader that takes such a text back to its minutes and seconds.
 */
module TimeFormat {
  import opened Wrappers

  predicate IsDigit(c: char) {
    '0' <= c <= '9'
  }

  predicate AllDigits(s: string) {
    forall i :: 0 <= i < |s| ==> IsDigit(s[i])
  }

  function DigitChar(d: nat): (c: char)
    requires d < 10
    ensures IsDigit(c) && c as int - '0' as int == d
  {
    ('0' as int + d) as char
  }

  /** Decimal digits of `n`, most significant first, without leading zeros. */
  function NatToString(n: nat): (s: string)
    ensures 1 <= |s| && AllDigits(s)
    ensures |s| == 1 <==> n < 10
    ensures |s| == 2 <==> 10 <= n < 100
  {
    if n < 10 then [DigitChar(n)]
    else NatToString(n / 10) + [DigitChar(n % 10)]
  }

  /** `Number.prototype.toString()` on an integer. */
  function IntToString(n: int): (s: string)
    ensures n >= 0 ==> s == NatToString(n)
    ensures n < 0 ==> |s| >= 2 && s[0] == '-' && AllDigits(s[1..])
  {
    if n < 0 then "-" + NatToString(-n) else NatToString(n)
  }

  /** `s.padStart(width, fill)` with a one-character fill: prepend fills up to `width`, never truncate. */
  function PadStart(s: string, width: nat, fill: char): (r: string)
    ensures |r| == if |s| >= width then |s| else width
    ensures r[|r| - |s|..] == s
    ensures forall i :: 0 <= i < |r| - |s| ==> r[i] == fill
  {
    if |s| >= width then s else seq(width - |s|, _ => fill) + s
  }

  /** JavaScript's `%` on integers: the remainder takes the sign of the dividend. */
  function JsRem(a: int, b: int): (r: int)
    requires b > 0
    ensures a >= 0 ==> 0 <= r < b
    ensures a < 0 ==> -b < r <= 0
  {
    if a >= 0 then a % b else -((-a) % b)
  }

  /** A number's text padded to at least two characters: two digits for `0 <= n < 100`. */
  function Pad2(n: int): (s: string)
    ensures |s| >= 2
    ensures 0 <= n ==> AllDigits(s)
    ensures 0 <= n < 100 ==> |s| == 2
  {
    PadStart(IntToString(n), 2, '0')
  }

  /**
   * `formatTime(milliseconds)`. Dafny's `/` by a positive divisor rounds
   * down, as `Math.floor(x / d)` does; the seconds use JavaScript's `%`.
   */
  function FormatTime(ms: int): (s: string)
    ensures |s| >= 5
    ensures 0 <= ms ==> s[|s| - 3] == ':' && IsDigit(s[|s| - 2]) && IsDigit(s[|s| - 1])
  {
    var totalSeconds := ms / 1000;
    var minutes := totalSeconds / 60;
    var seconds := JsRem(totalSeconds, 60);
    var minutesText, secondsText := Pad2(minutes), Pad2(seconds);
    var s := minutesText + ":" + secondsText;
    assert 0 <= ms ==> s[|s| - 3] == ':' && IsDigit(s[|s| - 2]) && IsDigit(s[|s| - 1]) by {
      if 0 <= ms {
        assert 0 <= seconds < 60;
        ColonShape(minutesText, secondsText);
      }
    }
    s
  }

  // ------------------------------------------------------------- reading back

  /** The value of a digit string (0 for the empty string); leading zeros do not count. */
  function DigitsValue(s: string): nat
    requires AllDigits(s)
  {
    if s == [] then 0
    else DigitsValue(s[..|s| - 1]) * 10 + (s[|s| - 1] as int - '0' as int)
  }

  /** Splits at the first colon. */
  function SplitAtColon(s: string): Option<(string, string)> {
    if s == [] then None
    else if s[0] == ':' then Some(([], s[1..]))
    else
      match SplitAtColon(s[1..])
      case None => None
      case Some(parts) => Some(([s[0]] + parts.0, parts.1))
  }

  datatype Clock = Clock(minutes: nat, seconds: nat)

  /** Reads `MM:SS` back: two non-empty digit fields around the first colon. */
  function ParseClock(s: string): Option<Clock> {
    match SplitAtColon(s)
    case None => None
    case Some(parts) =>
      if parts.0 != [] && parts.1 != [] && AllDigits(parts.0) && AllDigits(parts.1)
      then Some(Clock(DigitsValue(parts.0), DigitsValue(parts.1)))
      else None
  }

  lemma {:induction false} DigitsValueOfNat(n: nat)
    ensures DigitsValue(NatToString(n)) == n
  {
    if n >= 10 {
      var s := NatToString(n);
      assert s[..|s| - 1] == NatToString(n / 10);
      DigitsValueOfNat(n / 10);
    }
  }

  /** Leading zeros do not change a digit string's value. */
  lemma {:induction false} DigitsValueLeadingZeros(z: string, s: string)
    requires AllDigits(s) && forall i :: 0 <= i < |z| ==> z[i] == '0'
    ensures AllDigits(z + s) && DigitsValue(z + s) == DigitsValue(s)
  {
    if s == [] {
      assert z + s == z;
      ZerosValue(z);
    } else {
      var t := z + s;
      assert t[..|t| - 1] == z + s[..|s| - 1];
      DigitsValueLeadingZeros(z, s[..|s| - 1]);
    }
  }

  lemma {:induction false} ZerosValue(z: string)
    requires forall i :: 0 <= i < |z| ==> z[i] == '0'
    ensures AllDigits(z) && DigitsValue(z) == 0
  {
    if z != [] {
      ZerosValue(z[..|z| - 1]);
    }
  }

  lemma {:induction false} SplitAtFirstColon(a: string, b: string)
    requires forall i :: 0 <= i < |a| ==> a[i] != ':'
    ensures SplitAtColon(a + ":" + b) == Some((a, b))
  {
    if a == [] {
      assert a + ":" + b == [':'] + b;
    } else {
      assert (a + ":" + b)[1..] == a[1..] + ":" + b;
      SplitAtFirstColon(a[1..], b);
      assert [a[0]] + a[1..] == a;
    }
  }

  /** A padded non-negative field is all digits, never empty, and reads back as its value. */
  lemma Pad2ReadsBack(n: nat)
    ensures var f := Pad2(n); f != [] && AllDigits(f) && DigitsValue(f) == n
    ensures |Pad2(n)| == if n < 100 then 2 else |NatToString(n)|
  {
    var s := NatToString(n);
    var f := Pad2(n);
    var z := f[..|f| - |s|];
    assert f == PadStart(s, 2, '0');
    assert forall i :: 0 <= i < |z| ==> z[i] == '0';
    DigitsValueOfNat(n);
    assert f == z + s;
    DigitsValueLeadingZeros(z, s);
  }

  /** For a non-negative time, the minutes and seconds `FormatTime` pads. */
  lemma FormatTimeFields(ms: nat) returns (t: nat, m: nat, s: nat)
    ensures t == ms / 1000 && m == t / 60 && s == t % 60
    ensures s < 60 && m * 60 + s == t
    ensures FormatTime(ms) == Pad2(m) + ":" + Pad2(s)
  {
    t := ms / 1000;
    m, s := t / 60, t % 60;
    assert JsRem(t, 60) == s;
  }

  /**
   * Round trip: for a non-negative time, the two fields of `FormatTime(ms)`
   * read back as minutes and seconds that recombine to the whole seconds in
   * `ms`, with the seconds below 60 and the minutes kept in full.
   */
  lemma FormatTimeRoundTrip(ms: nat)
    ensures var c := ParseClock(FormatTime(ms));
      c.Some? && c.value.seconds < 60 && c.value.minutes * 60 + c.value.seconds == ms / 1000
  {
    var t, m, s := FormatTimeFields(ms);
    Pad2ReadsBack(m);
    Pad2ReadsBack(s);
    SplitAtFirstColon(Pad2(m), Pad2(s));
    assert ParseClock(FormatTime(ms)) == Some(Clock(m, s));
  }

  /** The text is the minutes field, a colon at length minus 3, and a seconds field of exactly two digits. */
  lemma FormatTimeShape(ms: nat)
    ensures var f := FormatTime(ms);
      && |f| == (if ms / 1000 / 60 < 100 then 2 else |NatToString(ms / 1000 / 60)|) + 3
      && f[|f| - 3] == ':' && IsDigit(f[|f| - 2]) && IsDigit(f[|f| - 1])
  {
    var t, m, s := FormatTimeFields(ms);
    Pad2ReadsBack(m);
    Pad2ReadsBack(s);
    ColonShape(Pad2(m), Pad2(s));
  }

  lemma ColonShape(a: string, b: string)
    requires |b| == 2 && AllDigits(b)
    ensures var f := a + ":" + b;
      |f| == |a| + 3 && f[|f| - 3] == ':' && IsDigit(f[|f| - 2]) && IsDigit(f[|f| - 1])
  {
    var f := a + ":" + b;
    assert f[|f| - 2] == b[0] && f[|f| - 1] == b[1];
  }

  /** Zero milliseconds render as `00:00`. */
  lemma FormatTimeZero()
    ensures FormatTime(0) == "00:00"
  {
    assert NatToString(0) == "0";
    assert PadStart("0", 2, '0') == "00";
    assert JsRem(0, 60) == 0;
  }

  /** Below 100 minutes (6,000,000 ms) the text is exactly five characters. */
  lemma FormatTimeFiveChars(ms: nat)
    requires ms < 6000000
    ensures |FormatTime(ms)| == 5
  {
  }
}
