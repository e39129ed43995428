/** The duration of a track in milliseconds (`src/track_duration.rs`; the copy
    in `src/xspf_parser.rs` has the same `to_timecode`, `Display` and `Debug`).
 */
module Durations {
  import opened Text

  /** Rust's `i64`. */
  type I64 = x: int | I64_MIN <= x <= I64_MAX

  datatype TrackDuration = TrackDuration(ms: I64)

  /** `Add<TrackDuration>`. Overflow of the `i64` sum is excluded by the precondition. */
  function Add(d: TrackDuration, other: TrackDuration): (r: TrackDuration)
    requires I64_MIN <= d.ms + other.ms <= I64_MAX
    ensures r.ms - d.ms == other.ms && r.ms - other.ms == d.ms
    ensures other.ms > 0 ==> r.ms > d.ms
    ensures other.ms < 0 ==> r.ms < d.ms
  {
    TrackDuration(d.ms + other.ms)
  }

  /** `Add<i64>`: adding a raw millisecond count. */
  function AddMs(d: TrackDuration, n: I64): (r: TrackDuration)
    requires I64_MIN <= d.ms + n <= I64_MAX
    ensures r.ms - d.ms == n
    ensures n > 0 ==> r.ms > d.ms
    ensures n < 0 ==> r.ms < d.ms
  {
    TrackDuration(d.ms + n)
  }

  /** Adding raw milliseconds is adding a duration of that many milliseconds. */
  lemma AddMsIsAdd(d: TrackDuration, n: I64)
    requires I64_MIN <= d.ms + n <= I64_MAX
    ensures AddMs(d, n) == Add(d, TrackDuration(n))
  {
  }

  /** Zero is the identity of both additions; `Add` commutes and associates. */
  lemma AddLaws(a: TrackDuration, b: TrackDuration, c: TrackDuration)
    ensures AddMs(a, 0) == a && Add(a, TrackDuration(0)) == a
    ensures I64_MIN <= a.ms + b.ms <= I64_MAX ==> Add(a, b) == Add(b, a)
    ensures I64_MIN <= a.ms + b.ms <= I64_MAX && I64_MIN <= b.ms + c.ms <= I64_MAX && I64_MIN <= a.ms + b.ms + c.ms <= I64_MAX
            ==> Add(Add(a, b), c) == Add(a, Add(b, c))
  {
  }

  /** Below 2^53 milliseconds an `i64` converts to `f64` exactly, and
      `(ms as f64 / 1000.0) as i64` is the integer quotient truncated toward zero. */
  const F64_EXACT: int := 0x20_0000_0000_0000

  /** Rust's `/` on integers: the quotient truncated toward zero. */
  function TruncDiv(a: int, b: int): (q: int)
    requires b > 0
    ensures a >= 0 ==> 0 <= q * b <= a < q * b + b
    ensures a < 0 ==> q * b - b < a <= q * b <= 0
  {
    if a >= 0 then
      FloorDivBounds(a, b);
      a / b
    else
      FloorDivBounds(-a, b);
      -((-a) / b)
  }

  lemma FloorDivBounds(a: nat, b: int)
    requires b > 0
    ensures 0 <= (a / b) * b <= a < (a / b) * b + b
  {
    var q, m := a / b, a % b;
    assert a == q * b + m && 0 <= m < b;
    assert q >= 0;
  }

  /** Rust's `%` on integers: the remainder takes the sign of the dividend. */
  function TruncRem(a: int, b: int): (r: int)
    requires b > 0
    ensures TruncDiv(a, b) * b + r == a
    ensures a >= 0 ==> 0 <= r < b
    ensures a < 0 ==> -b < r <= 0
  {
    a - b * TruncDiv(a, b)
  }

  /** `format!("{:02}", n)`: at least two characters, zero-padded; a negative
      number is its sign and magnitude, already two characters or more. */
  function Pad2(n: int): (r: string)
    ensures |r| >= 2
    ensures n >= 0 ==> AllDigits(r) && DigitsValue(r) == n
    ensures 0 <= n < 100 ==> |r| == 2
    ensures n >= 10 ==> r[0] != '0'
    ensures n < 0 ==> r[0] == '-'
  {
    if 0 <= n < 10 then
      LeadingZero(Decimal(n));
      "0" + Decimal(n)
    else
      assert n >= 10 ==> |Decimal(n)| == |Decimal(n / 10)| + 1;
      IntegerText(n)
  }

  /** `to_timecode`: whole seconds (the milliseconds below a second dropped),
      then minutes and seconds, each rendered with `{:02}`, joined by ':'. */
  function ToTimecode(d: TrackDuration): (r: string)
    requires -F64_EXACT < d.ms < F64_EXACT
    ensures |r| >= 5 && ':' in r
  {
    var totalSecs := TruncDiv(d.ms, 1000);
    var mins := TruncDiv(totalSecs, 60);
    var secs := TruncRem(totalSecs, 60);
    var r := Pad2(mins) + ":" + Pad2(secs);
    assert r[|Pad2(mins)|] == ':';
    r
  }

  /** `t` is the text "m…m:ss" of `mins` minutes and `secs` seconds: the minutes
      in decimal with no superfluous leading zero, the seconds as two digits. */
  predicate IsTimecodeOf(t: string, mins: nat, secs: nat)
  {
    && |t| >= 5 && t[|t| - 3] == ':'
    && AllDigits(t[..|t| - 3]) && AllDigits(t[|t| - 2..])
    && DigitsValue(t[..|t| - 3]) == mins && DigitsValue(t[|t| - 2..]) == secs
    && (mins >= 10 <==> t[0] != '0')
  }

  /** For a non-negative duration the timecode reads back as the whole number
      of seconds: the digits before the ':' are the minutes, never wrapped, and
      the two digits after it are the seconds, below 60. */
  lemma TimecodeReadsBack(d: TrackDuration)
    requires 0 <= d.ms < F64_EXACT
    ensures var mins, secs := d.ms / 60000, d.ms / 1000 % 60;
            && IsTimecodeOf(ToTimecode(d), mins, secs)
            && secs < 60 && mins * 60 + secs == d.ms / 1000
            && (d.ms >= 600000 <==> ToTimecode(d)[0] != '0')
            && (d.ms < 6000000 ==> |ToTimecode(d)| == 5)
  {
    var mins, secs := d.ms / 60000, d.ms / 1000 % 60;
    TimecodeParts(d, mins, secs);
    MinutesAndSeconds(mins, secs);
  }

  /** A non-negative duration's timecode is its minutes and its seconds below 60, padded. */
  lemma TimecodeParts(d: TrackDuration, mins: nat, secs: nat)
    requires 0 <= d.ms < F64_EXACT
    requires mins == d.ms / 60000 && secs == d.ms / 1000 % 60
    ensures ToTimecode(d) == Pad2(mins) + ":" + Pad2(secs)
    ensures mins * 60 + secs == d.ms / 1000 && secs < 60
  {
    var totalSecs := d.ms / 1000;
    assert TruncDiv(d.ms, 1000) == totalSecs;
    MinutesOfMillis(d.ms);
    assert TruncDiv(totalSecs, 60) == mins;
    assert TruncRem(totalSecs, 60) == secs;
  }

  /** Whole minutes of a millisecond count, through whole seconds. */
  lemma MinutesOfMillis(ms: nat)
    ensures ms / 1000 / 60 == ms / 60000
  {
    var q, m := ms / 60000, ms % 60000;
    assert ms == 60000 * q + m && m < 60000;
    assert ms / 1000 == 60 * q + m / 1000;
  }

  /** The text "mm:ss" built from padded minutes and seconds. */
  lemma MinutesAndSeconds(mins: nat, secs: nat)
    requires secs < 60
    ensures IsTimecodeOf(Pad2(mins) + ":" + Pad2(secs), mins, secs)
  {
    var t := Pad2(mins) + ":" + Pad2(secs);
    assert t[..|t| - 3] == Pad2(mins);
    assert t[|t| - 2..] == Pad2(secs);
    assert t[0] == Pad2(mins)[0];
    if mins < 10 {
      assert Pad2(mins) == "0" + Decimal(mins);
    }
  }

  /** Below 100, `{:02}` is exactly the tens digit and the units digit. */
  lemma Pad2TwoDigits(n: nat)
    requires n < 100
    ensures Pad2(n) == [DigitChar(n / 10), DigitChar(n % 10)]
  {
    if n >= 10 {
      assert Decimal(n) == Decimal(n / 10) + [DigitChar(n % 10)];
    }
  }

  /** Just under a minute shows as "00:59": the milliseconds are dropped, not rounded. */
  lemma TimecodeUnderAMinute()
    ensures ToTimecode(TrackDuration(59999)) == "00:59"
  {
    TimecodeParts(TrackDuration(59999), 0, 59);
    Pad2TwoDigits(0);
    Pad2TwoDigits(59);
  }

  /** Minutes are not wrapped into hours: 100 minutes shows as "100:00". */
  lemma TimecodeHundredMinutes()
    ensures ToTimecode(TrackDuration(6000000)) == "100:00"
  {
    TimecodeParts(TrackDuration(6000000), 100, 0);
    Pad2TwoDigits(0);
    assert Decimal(100) == Decimal(10) + [DigitChar(0)];
    assert Pad2(100) == "100";
  }

  /** A negative duration keeps its sign in the seconds: -1.5 s shows as "00:-1". */
  lemma TimecodeNegative()
    ensures ToTimecode(TrackDuration(-1500)) == "00:-1"
  {
    assert TruncDiv(-1500, 1000) == -1;
    assert TruncDiv(-1, 60) == 0;
    assert TruncRem(-1, 60) == -1;
    Pad2TwoDigits(0);
    assert Pad2(-1) == "-1";
  }

  /** `Display`: a duration prints as its timecode, never as its millisecond count. */
  function Display(d: TrackDuration): (r: string)
    requires -F64_EXACT < d.ms < F64_EXACT
    ensures r == ToTimecode(d)
    ensures ':' in r && r != IntegerText(d.ms)
  {
    NoColonInIntegerText(d.ms);
    ToTimecode(d)
  }

  /** `Debug` prints exactly what `Display` prints. */
  function Debug(d: TrackDuration): (r: string)
    requires -F64_EXACT < d.ms < F64_EXACT
    ensures r == Display(d)
  {
    ToTimecode(d)
  }

  lemma NoColonInIntegerText(n: int)
    ensures ':' !in IntegerText(n)
  {
    var digits := Decimal(if n < 0 then -n else n);
    assert forall i :: 0 <= i < |digits| ==> digits[i] != ':';
  }

  /** A duration in a mutable place: the `&mut self` of the two `AddAssign` impls. */
  class DurationCell {
    var value: TrackDuration

    constructor (d: TrackDuration)
      ensures value == d
    {
      value := d;
    }

    /** `AddAssign<TrackDuration>`: `*self = self + other`. */
    method AddAssign(other: TrackDuration)
      requires I64_MIN <= value.ms + other.ms <= I64_MAX
      modifies this
      ensures value == Add(old(value), other)
    {
      value := TrackDuration(value.ms + other.ms);
    }

    /** `AddAssign<i64>`: `*self = self + other` for a raw millisecond count. */
    method AddAssignMs(other: I64)
      requires I64_MIN <= value.ms + other <= I64_MAX
      modifies this
      ensures value == AddMs(old(value), other)
    {
      value := TrackDuration(value.ms + other);
    }
  }
}
