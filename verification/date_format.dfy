/** The ISO-8601 date-time test the update validator applies to
    `publicationDate`. The regular expression itself lives in
    src/core/utils/dateUtils.ts, which is not part of this model; this
    predicate follows the documented shape:
    `YYYY-MM-DDTHH:MM:SS`, optional fractional seconds, then `Z` or `±HH:MM`.
    Only the shape is checked, not calendar ranges. */
module DateFormat {
  import opened Decimal

  /** Positions `from` to `to - 1` of `s` hold digits. */
  predicate DigitsAt(s: string, from: nat, to: nat)
    requires from <= to <= |s|
  {
    forall k :: from <= k < to ==> IsDigit(s[k])
  }

  /** `Z`, or a sign followed by `HH:MM`. */
  predicate IsZone(z: string) {
    || z == "Z"
    || (|z| == 6 && (z[0] == '+' || z[0] == '-') && DigitsAt(z, 1, 3) && z[3] == ':' && DigitsAt(z, 4, 6))
  }

  /** One or more digits, then a zone. */
  predicate DigitsThenZone(r: string)
    decreases |r|
  {
    |r| > 0 && IsDigit(r[0]) && (IsZone(r[1..]) || DigitsThenZone(r[1..]))
  }

  /** What may follow the seconds: a zone, or `.` and fraction digits and a zone. */
  predicate FractionThenZone(r: string) {
    IsZone(r) || (|r| > 0 && r[0] == '.' && DigitsThenZone(r[1..]))
  }

  /** `YYYY-MM-DDTHH:MM:SS` followed by an optional fraction and a zone. */
  predicate IsIsoDateString(s: string) {
    && |s| >= 20
    && DigitsAt(s, 0, 4) && s[4] == '-' && DigitsAt(s, 5, 7) && s[7] == '-' && DigitsAt(s, 8, 10)
    && s[10] == 'T'
    && DigitsAt(s, 11, 13) && s[13] == ':' && DigitsAt(s, 14, 16) && s[16] == ':' && DigitsAt(s, 17, 19)
    && FractionThenZone(s[19..])
  }

  /** A string in the form `Date.prototype.toISOString` produces,
      `YYYY-MM-DDTHH:MM:SS.mmmZ`, has the shape. */
  lemma ToIsoStringShape(s: string)
    requires |s| == 24
    requires DigitsAt(s, 0, 4) && s[4] == '-' && DigitsAt(s, 5, 7) && s[7] == '-' && DigitsAt(s, 8, 10)
    requires s[10] == 'T'
    requires DigitsAt(s, 11, 13) && s[13] == ':' && DigitsAt(s, 14, 16) && s[16] == ':' && DigitsAt(s, 17, 19)
    requires s[19] == '.' && DigitsAt(s, 20, 23) && s[23] == 'Z'
    ensures IsIsoDateString(s)
  {
    assert IsZone(s[23..]);
    assert s[22..][1..] == s[23..];
    assert DigitsThenZone(s[22..]);
    assert s[21..][1..] == s[22..];
    assert DigitsThenZone(s[21..]);
    assert s[20..][1..] == s[21..];
    assert DigitsThenZone(s[20..]);
    assert s[19..][1..] == s[20..];
  }

  /** The first seed video's creation time, `2025-12-30T00:00:00.000Z`. */
  const SampleDate: string := "2025-12-30T00:00:00.000Z"

  /** The sample date has the shape. */
  lemma SampleDateIsIso()
    ensures IsIsoDateString(SampleDate)
  {
    SampleDateDay();
    SampleDateTime();
    ToIsoStringShape(SampleDate);
  }

  lemma SampleDateDay()
    ensures |SampleDate| == 24
    ensures DigitsAt(SampleDate, 0, 4) && SampleDate[4] == '-' && DigitsAt(SampleDate, 5, 7)
    ensures SampleDate[7] == '-' && DigitsAt(SampleDate, 8, 10) && SampleDate[10] == 'T'
  {
  }

  lemma SampleDateTime()
    ensures |SampleDate| == 24
    ensures DigitsAt(SampleDate, 11, 13) && SampleDate[13] == ':' && DigitsAt(SampleDate, 14, 16)
    ensures SampleDate[16] == ':' && DigitsAt(SampleDate, 17, 19)
    ensures SampleDate[19] == '.' && DigitsAt(SampleDate, 20, 23) && SampleDate[23] == 'Z'
  {
  }
}
