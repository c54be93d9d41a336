/** `format_date_time`: a message timestamp, which the reader gives either as
    a `datetime` or as text, becomes a UK date `DD/MM/YYYY` and a time
    `HH:MM:SS`; text that does not parse is passed through with an empty time. */
module Timestamps {
  import opened Base

  /** The fields of a Python `datetime` (naive; time zones are not modelled). */
  datatype DateTime = DateTime(year: int, month: int, day: int,
                               hour: int, minute: int, second: int, microsecond: int)

  predicate LeapYear(y: int)
  {
    y % 4 == 0 && (y % 100 != 0 || y % 400 == 0)
  }

  function DaysInMonth(y: int, m: int): int
    requires 1 <= m <= 12
  {
    if m == 2 then (if LeapYear(y) then 29 else 28)
    else if m == 4 || m == 6 || m == 9 || m == 11 then 30
    else 31
  }

  /** The ranges Python's `datetime` constructor enforces. */
  predicate ValidDateTime(d: DateTime)
  {
    && 1 <= d.year <= 9999
    && 1 <= d.month <= 12
    && 1 <= d.day <= DaysInMonth(d.year, d.month)
    && 0 <= d.hour <= 23
    && 0 <= d.minute <= 59
    && 0 <= d.second <= 59
    && 0 <= d.microsecond <= 999999
  }

  /** A `datetime` value: every instance Python can build is valid. */
  type Instant = d: DateTime | ValidDateTime(d) witness DateTime(1, 1, 1, 0, 0, 0, 0)

  /** What the reader hands back for a timestamp: a `datetime`, or a `str`
      (whose `str()` is itself). Other value types are not modelled. */
  datatype Stamp = At(instant: Instant) | Text(text: string)

  /** Python truthiness of an optional timestamp: a `datetime` is always
      truthy, text is truthy when non-empty, `None` is falsy. */
  predicate Truthy(ts: Option<Stamp>)
  {
    ts.Some? && (ts.value.At? || |ts.value.text| > 0)
  }

  // ---- decimal digits -------------------------------------------------------

  function Pow10(n: nat): nat
  {
    if n == 0 then 1 else 10 * Pow10(n - 1)
  }

  predicate IsDigit(c: char)
  {
    '0' <= c <= '9'
  }

  predicate AllDigits(s: string)
  {
    forall i :: 0 <= i < |s| ==> IsDigit(s[i])
  }

  /** The number a string of decimal digits denotes. */
  function DigitsValue(s: string): nat
    requires AllDigits(s)
    decreases |s|
  {
    if |s| == 0 then 0
    else 10 * DigitsValue(s[..|s| - 1]) + (s[|s| - 1] as int - '0' as int)
  }

  /** `n` written in exactly `width` decimal digits with leading zeros (`%02d`, `%04d`). */
  function Pad(n: nat, width: nat): (r: string)
    requires n < Pow10(width)
    ensures |r| == width
    ensures AllDigits(r)
    ensures DigitsValue(r) == n
    decreases width
  {
    if width == 0 then ""
    else
      var p := Pad(n / 10, width - 1);
      var r := p + [('0' as int + n % 10) as char];
      assert r[..|r| - 1] == p;
      r
  }

  /** Two digit strings of equal width that denote the same number are equal. */
  lemma {:induction false} DigitsUnique(a: string, b: string)
    requires AllDigits(a) && AllDigits(b) && |a| == |b|
    requires DigitsValue(a) == DigitsValue(b)
    ensures a == b
    decreases |a|
  {
    if |a| > 0 {
      var n := |a| - 1;
      var da := a[n] as int - '0' as int;
      var db := b[n] as int - '0' as int;
      var xa, xb := DigitsValue(a[..n]), DigitsValue(b[..n]);
      assert 10 * xa + da == 10 * xb + db;
      LastDigit(xa, da);
      LastDigit(xb, db);
      assert a[n] == b[n];
      DigitsUnique(a[..n], b[..n]);
      assert a == a[..n] + [a[n]];
      assert b == b[..n] + [b[n]];
    }
  }

  /** A number written with one more decimal digit: that digit and the rest are recovered. */
  lemma LastDigit(x: int, d: int)
    requires 0 <= d < 10
    ensures (10 * x + d) % 10 == d && (10 * x + d) / 10 == x
  {
  }

  // ---- three numeric fields with a separator: DD/MM/YYYY and HH:MM:SS -------

  /** `s` reads as `x`, `y`, `z` in fields of widths 2, 2 and `wz`, separated by `sep`. */
  predicate ShowsFields(s: string, sep: char, x: int, y: int, z: int, wz: nat)
  {
    && |s| == 6 + wz
    && s[2] == sep && s[5] == sep
    && AllDigits(s[0..2]) && AllDigits(s[3..5]) && AllDigits(s[6..])
    && DigitsValue(s[0..2]) == x && DigitsValue(s[3..5]) == y && DigitsValue(s[6..]) == z
  }

  /** The rendering `%{x}<sep>%{y}<sep>%{z}` of `strftime`. */
  function Fields(x: nat, y: nat, z: nat, sep: char, wz: nat): (r: string)
    requires x < 100 && y < 100 && z < Pow10(wz)
    ensures ShowsFields(r, sep, x, y, z, wz)
  {
    var px, py, pz := Pad(x, 2), Pad(y, 2), Pad(z, wz);
    var r := px + [sep] + py + [sep] + pz;
    assert r[0..2] == px && r[3..5] == py && r[6..] == pz;
    r
  }

  /** Only one string shows given fields: the rendering is a bijection onto its readings. */
  lemma {:induction false} FieldsUnique(s: string, sep: char, x: nat, y: nat, z: nat, wz: nat)
    requires x < 100 && y < 100 && z < Pow10(wz)
    requires ShowsFields(s, sep, x, y, z, wz)
    ensures s == Fields(x, y, z, sep, wz)
  {
    var r := Fields(x, y, z, sep, wz);
    DigitsUnique(s[0..2], r[0..2]);
    DigitsUnique(s[3..5], r[3..5]);
    DigitsUnique(s[6..], r[6..]);
    forall i | 0 <= i < |s| ensures s[i] == r[i] {
      if i < 2 {
        assert s[i] == s[0..2][i] && r[i] == r[0..2][i];
      } else if 3 <= i < 5 {
        assert s[i] == s[3..5][i - 3] && r[i] == r[3..5][i - 3];
      } else if 6 <= i {
        assert s[i] == s[6..][i - 6] && r[i] == r[6..][i - 6];
      }
    }
  }

  /** `strftime("%d/%m/%Y")`: reads back as the instant's day, month and year. */
  function FormatDate(d: Instant): (r: string)
    ensures ShowsFields(r, '/', d.day, d.month, d.year, 4)
  {
    Fields(d.day, d.month, d.year, '/', 4)
  }

  /** `strftime("%H:%M:%S")`: reads back as the instant's hour, minute and second. */
  function FormatTime(d: Instant): (r: string)
    ensures ShowsFields(r, ':', d.hour, d.minute, d.second, 2)
  {
    Fields(d.hour, d.minute, d.second, ':', 2)
  }

  // ---- format_date_time -----------------------------------------------------

  /** The `datetime` a truthy timestamp denotes: itself, or what its text parses to. */
  function Denoted(stamp: Stamp, parse: string -> Option<Instant>): Option<Instant>
  {
    match stamp
    case At(d) => Some(d)
    case Text(s) => parse(s)
  }

  /** `format_date_time(timestamp)` returning `(date_str, time_str)`.
      `parse` stands for `datetime.strptime(text, "%Y-%m-%d %H:%M:%S.%f")`,
      `None` where it raises `ValueError`. */
  function FormatDateTime(ts: Option<Stamp>, parse: string -> Option<Instant>)
    : (r: (Option<string>, Option<string>))
    ensures r.0.None? <==> !Truthy(ts)
    ensures r.1.None? <==> !Truthy(ts)
    ensures r.1 == Some("") <==> Truthy(ts) && Denoted(ts.value, parse).None?
    ensures r.1 == Some("") ==> r.0 == Some(ts.value.text)
    ensures Truthy(ts) && Denoted(ts.value, parse).Some? ==>
              var d := Denoted(ts.value, parse).value;
              && ShowsFields(r.0.value, '/', d.day, d.month, d.year, 4)
              && ShowsFields(r.1.value, ':', d.hour, d.minute, d.second, 2)
  {
    if !Truthy(ts) then (None, None)
    else match Denoted(ts.value, parse)
      case Some(d) => (Some(FormatDate(d)), Some(FormatTime(d)))
      case None => (Some(ts.value.text), Some(""))
  }
}
