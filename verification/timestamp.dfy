/** Server timestamps: a calendar instant rendered with the `strftime` pattern
    `%Y-%m-%d %H:%M:%S`, and the reading that recovers the instant. */
module Timestamp {
  import opened Wrappers
  import opened Decimal

  datatype DateTime = DateTime(year: int, month: int, day: int, hour: int, minute: int, second: int)

  /** Field ranges of a Python `datetime` (days of a month are bounded by 31 only). */
  predicate InRange(d: DateTime) {
    && 1 <= d.year <= 9999
    && 1 <= d.month <= 12
    && 1 <= d.day <= 31
    && 0 <= d.hour <= 23
    && 0 <= d.minute <= 59
    && 0 <= d.second <= 59
  }

  /** A second-precision wall-clock reading: `datetime.now()` as far as `%S` keeps it
      (microseconds are dropped by the rendering). */
  type Instant = d: DateTime | InRange(d) witness DateTime(1970, 1, 1, 0, 0, 0)

  /** `d.strftime('%Y-%m-%d %H:%M:%S')`: the year unpadded, every other field two digits. */
  function Format(d: Instant): string
  {
    NatToString(d.year) + "-" + PadTwo(d.month) + "-" + PadTwo(d.day) + " "
      + PadTwo(d.hour) + ":" + PadTwo(d.minute) + ":" + PadTwo(d.second)
  }

  /** Reads a 19-character `%Y-%m-%d %H:%M:%S` string back into its fields. */
  function Parse(s: string): (r: Option<DateTime>)
    ensures r.Some? ==> |s| == 19
  {
    if |s| == 19 && s[4] == '-' && s[7] == '-' && s[10] == ' ' && s[13] == ':' && s[16] == ':'
       && AllDigits(s[0..4]) && AllDigits(s[5..7]) && AllDigits(s[8..10])
       && AllDigits(s[11..13]) && AllDigits(s[14..16]) && AllDigits(s[17..19])
    then
      Some(DateTime(StringToNat(s[0..4]), StringToNat(s[5..7]), StringToNat(s[8..10]),
                    StringToNat(s[11..13]), StringToNat(s[14..16]), StringToNat(s[17..19])))
    else
      None
  }

  /** Every four-digit-year timestamp is fixed-width and reads back as the instant
      it was rendered from, so distinct instants never share a rendering. */
  lemma FormatParseRoundTrip(d: Instant)
    requires 1000 <= d.year
    ensures |Format(d)| == 19
    ensures Parse(Format(d)) == Some(d)
  {
    FourDigits(d.year);
    NatStringRoundTrip(d.year);
    var s := Format(d);
    var y := NatToString(d.year);
    assert s[0..4] == y;
    assert s[5..7] == PadTwo(d.month);
    assert s[8..10] == PadTwo(d.day);
    assert s[11..13] == PadTwo(d.hour);
    assert s[14..16] == PadTwo(d.minute);
    assert s[17..19] == PadTwo(d.second);
  }

  /** Rendering is injective on four-digit years. */
  lemma FormatInjective(d1: Instant, d2: Instant)
    requires 1000 <= d1.year && 1000 <= d2.year
    requires Format(d1) == Format(d2)
    ensures d1 == d2
  {
    FormatParseRoundTrip(d1);
    FormatParseRoundTrip(d2);
  }
}
