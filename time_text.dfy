/**
 * The two fixed-width date-time texts a WRF file carries, read the way
 * `datetime.strptime` reads them and written the way `strftime` writes them:
 * the valid time `YYYY-MM-DD_HH:00:00` (format '%Y-%m-%d_%H:00:00') and the
 * start date `YYYY-MM-DD_HH:MM:SS` (format '%Y-%m-%d_%H:%M:%S').
 */
module TimeText {
  import opened Wrappers
  import opened Calendar

  predicate IsDigit(c: char) {
    '0' <= c <= '9'
  }

  predicate AllDigits(s: string) {
    forall i :: 0 <= i < |s| ==> IsDigit(s[i])
  }

  function DigitChar(d: int): char
    requires 0 <= d < 10
  {
    (48 + d) as char
  }

  function DigitValue(c: char): int
    requires IsDigit(c)
  {
    c as int - 48
  }

  function Pow10(n: nat): nat {
    if n == 0 then 1 else 10 * Pow10(n - 1)
  }

  /** `n` in decimal with exactly `width` digits, zero-padded on the left. */
  function Encode(n: nat, width: nat): (s: string)
    ensures |s| == width && AllDigits(s)
  {
    if width == 0 then "" else Encode(n / 10, width - 1) + [DigitChar(n % 10)]
  }

  /** The number a string of decimal digits denotes. */
  function Decode(s: string): nat
    requires AllDigits(s)
  {
    if |s| == 0 then 0 else 10 * Decode(s[..|s| - 1]) + DigitValue(s[|s| - 1])
  }

  lemma {:induction false} DecodeEncode(n: nat, width: nat)
    requires n < Pow10(width)
    ensures Decode(Encode(n, width)) == n
  {
    if width > 0 {
      var s := Encode(n, width);
      assert s[..|s| - 1] == Encode(n / 10, width - 1);
      DecodeEncode(n / 10, width - 1);
    }
  }

  lemma {:induction false} EncodeDecode(s: string)
    requires AllDigits(s)
    ensures Decode(s) < Pow10(|s|)
    ensures Encode(Decode(s), |s|) == s
  {
    if |s| > 0 {
      var init := s[..|s| - 1];
      EncodeDecode(init);
      var a, d := Decode(init), DigitValue(s[|s| - 1]);
      assert Decode(s) == 10 * a + d;
      LastDigit(a, d);
      assert 10 * a + d < 10 * Pow10(|init|) by {
        assert a + 1 <= Pow10(|init|);
        assert 10 * (a + 1) <= 10 * Pow10(|init|);
      }
      assert s == init + [s[|s| - 1]];
    }
  }

  /** Appending digit `d` to the decimal text of `a` gives `10 * a + d`. */
  lemma LastDigit(a: nat, d: int)
    requires 0 <= d < 10
    ensures (10 * a + d) / 10 == a && (10 * a + d) % 10 == d
  {
  }

  /** The digits of `s[lo..hi]` read as a number. */
  function Field(s: string, lo: nat, hi: nat): nat
    requires lo <= hi <= |s| && AllDigits(s[lo..hi])
  {
    Decode(s[lo..hi])
  }

  /** The common prefix `YYYY-MM-DD_HH` of both texts, 13 characters long. */
  predicate HasDateHourPrefix(s: string) {
    |s| >= 13 && AllDigits(s[0..4]) && s[4] == '-' && AllDigits(s[5..7]) && s[7] == '-'
    && AllDigits(s[8..10]) && s[10] == '_' && AllDigits(s[11..13])
  }

  function FormatDateHour(t: DateTime): (s: string)
    requires Valid(t)
  {
    Encode(t.year, 4) + "-" + Encode(t.month, 2) + "-" + Encode(t.day, 2) + "_" + Encode(t.hour, 2)
  }

  /** `strptime(s, '%Y-%m-%d_%H:00:00')` for the canonical fixed-width text;
      `None` stands for the `ValueError` it raises otherwise. */
  function ParseValidTime(s: string): (r: Option<DateTime>)
    ensures r.Some? ==> Valid(r.value) && OnTheHour(r.value)
  {
    if !(|s| == 19 && HasDateHourPrefix(s) && s[13..] == ":00:00") then None
    else
      var t := DateTime(Field(s, 0, 4), Field(s, 5, 7), Field(s, 8, 10), Field(s, 11, 13), 0, 0);
      if Valid(t) then Some(t) else None
  }

  /** `strftime('%Y-%m-%d_%H:00:00')`. */
  function FormatValidTime(t: DateTime): string
    requires Valid(t)
  {
    FormatDateHour(t) + ":00:00"
  }

  /** `strptime(s, '%Y-%m-%d_%H:%M:%S')` for the canonical fixed-width text;
      `None` stands for the `ValueError` it raises otherwise. */
  function ParseStartDate(s: string): (r: Option<DateTime>)
    ensures r.Some? ==> Valid(r.value)
  {
    if !(|s| == 19 && HasDateHourPrefix(s) && s[13] == ':' && AllDigits(s[14..16])
         && s[16] == ':' && AllDigits(s[17..19])) then None
    else
      var t := DateTime(Field(s, 0, 4), Field(s, 5, 7), Field(s, 8, 10),
                        Field(s, 11, 13), Field(s, 14, 16), Field(s, 17, 19));
      if Valid(t) then Some(t) else None
  }

  /** `strftime('%Y-%m-%d_%H:%M:%S')`. */
  function FormatStartDate(t: DateTime): string
    requires Valid(t)
  {
    FormatDateHour(t) + ":" + Encode(t.minute, 2) + ":" + Encode(t.second, 2)
  }

  lemma PrefixFields(t: DateTime, s: string)
    requires Valid(t) && |s| >= 13 && s[..13] == FormatDateHour(t)
    ensures HasDateHourPrefix(s)
    ensures Field(s, 0, 4) == t.year && Field(s, 5, 7) == t.month
    ensures Field(s, 8, 10) == t.day && Field(s, 11, 13) == t.hour
  {
    var p := FormatDateHour(t);
    assert s[0..4] == p[0..4] == Encode(t.year, 4);
    assert s[5..7] == p[5..7] == Encode(t.month, 2);
    assert s[8..10] == p[8..10] == Encode(t.day, 2);
    assert s[11..13] == p[11..13] == Encode(t.hour, 2);
    DecodeEncode(t.year, 4);
    DecodeEncode(t.month, 2);
    DecodeEncode(t.day, 2);
    DecodeEncode(t.hour, 2);
  }

  lemma PrefixText(s: string)
    requires HasDateHourPrefix(s)
    requires Valid(DateTime(Field(s, 0, 4), Field(s, 5, 7), Field(s, 8, 10), Field(s, 11, 13), 0, 0))
    ensures s[..13] == FormatDateHour(DateTime(Field(s, 0, 4), Field(s, 5, 7), Field(s, 8, 10), Field(s, 11, 13), 0, 0))
  {
    EncodeDecode(s[0..4]);
    EncodeDecode(s[5..7]);
    EncodeDecode(s[8..10]);
    EncodeDecode(s[11..13]);
    assert s[..13] == s[0..4] + s[4..5] + s[5..7] + s[7..8] + s[8..10] + s[10..11] + s[11..13];
  }

  /** A written valid-time text is read back as the date-time it was written from. */
  lemma ValidTimeParsesFormat(t: DateTime)
    requires Valid(t) && OnTheHour(t)
    ensures ParseValidTime(FormatValidTime(t)) == Some(t)
  {
    var s := FormatValidTime(t);
    PrefixFields(t, s);
    assert s[13..] == ":00:00";
  }

  /** Only written texts are accepted as valid times. */
  lemma ValidTimeParsedIsFormat(s: string)
    requires ParseValidTime(s).Some?
    ensures var t := ParseValidTime(s).value; Valid(t) && OnTheHour(t) && s == FormatValidTime(t)
  {
    PrefixText(s);
    assert s == s[..13] + s[13..];
  }

  /** The valid-time text is read back exactly as written, and only written
      texts of valid on-the-hour date-times are accepted. */
  lemma ValidTimeRoundTrip(s: string, t: DateTime)
    ensures ParseValidTime(s) == Some(t) <==> Valid(t) && OnTheHour(t) && s == FormatValidTime(t)
  {
    if Valid(t) && OnTheHour(t) && s == FormatValidTime(t) {
      ValidTimeParsesFormat(t);
    }
    if ParseValidTime(s) == Some(t) {
      ValidTimeParsedIsFormat(s);
    }
  }

  /** A written start-date text is read back as the date-time it was written from. */
  lemma StartDateParsesFormat(t: DateTime)
    requires Valid(t)
    ensures ParseStartDate(FormatStartDate(t)) == Some(t)
  {
    var s := FormatStartDate(t);
    PrefixFields(t, s);
    assert s[14..16] == Encode(t.minute, 2);
    assert s[17..19] == Encode(t.second, 2);
    DecodeEncode(t.minute, 2);
    DecodeEncode(t.second, 2);
  }

  /** Only written texts are accepted as start dates. */
  lemma StartDateParsedIsFormat(s: string)
    requires ParseStartDate(s).Some?
    ensures var t := ParseStartDate(s).value; Valid(t) && s == FormatStartDate(t)
  {
    var t := ParseStartDate(s).value;
    PrefixText(s);
    assert s[..13] == FormatDateHour(t);
    EncodeDecode(s[14..16]);
    EncodeDecode(s[17..19]);
    assert s[14..16] == Encode(t.minute, 2) && s[17..19] == Encode(t.second, 2);
    assert s[13..14] == ":" && s[16..17] == ":";
    assert s == s[..13] + s[13..14] + s[14..16] + s[16..17] + s[17..19];
  }

  /** The start-date text is read back exactly as written, and only written
      texts of valid date-times are accepted. */
  lemma StartDateRoundTrip(s: string, t: DateTime)
    ensures ParseStartDate(s) == Some(t) <==> Valid(t) && s == FormatStartDate(t)
  {
    if Valid(t) && s == FormatStartDate(t) {
      StartDateParsesFormat(t);
    }
    if ParseStartDate(s) == Some(t) {
      StartDateParsedIsFormat(s);
    }
  }
}
