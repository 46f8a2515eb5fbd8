/** The `strftime('%Y-%m-%d %H:%M')` rendering that audit comments use to
    cite a datetime, and its inverse. */
module Stamp {

  import opened Wrappers
  import opened Calendar

  function Pow10(n: nat): (p: nat)
    ensures p >= 1
  {
    if n == 0 then 1 else 10 * Pow10(n - 1)
  }

  predicate IsDigit(c: char) {
    '0' <= c <= '9'
  }

  function DigitChar(n: int): (c: char)
    requires 0 <= n < 10
    ensures IsDigit(c)
  {
    ('0' as int + n) as char
  }

  /** `n` in decimal, zero-padded (or truncated to its last digits) to `width` characters. */
  function Pad(n: nat, width: nat): (s: string)
    ensures |s| == width
    ensures forall i :: 0 <= i < |s| ==> IsDigit(s[i])
  {
    if width == 0 then "" else Pad(n / 10, width - 1) + [DigitChar(n % 10)]
  }

  /** The number a string of decimal digits spells, or None if a character is not a digit. */
  function ParseNat(s: string): (r: Option<nat>)
    ensures r.Some? <==> forall i :: 0 <= i < |s| ==> IsDigit(s[i])
  {
    if s == [] then Some(0)
    else match ParseNat(s[..|s| - 1])
      case None => None
      case Some(v) =>
        if IsDigit(s[|s| - 1]) then Some(v * 10 + (s[|s| - 1] as int - '0' as int)) else None
  }

  lemma {:induction false} PadRoundTrip(n: nat, width: nat)
    requires n < Pow10(width)
    ensures ParseNat(Pad(n, width)) == Some(n)
  {
    if width > 0 {
      PadRoundTrip(n / 10, width - 1);
      var s := Pad(n, width);
      assert s[..|s| - 1] == Pad(n / 10, width - 1);
    }
  }

  /** `dt.strftime('%Y-%m-%d %H:%M')`. */
  function Format(dt: DateTime): (s: string)
    requires ValidDateTime(dt)
    ensures |s| == 16 && s[4] == '-' && s[7] == '-' && s[10] == ' ' && s[13] == ':'
    ensures forall i :: 0 <= i < 16 && i !in {4, 7, 10, 13} ==> IsDigit(s[i])
  {
    var (y, mo, d, h, mi) := (Pad(dt.date.year, 4), Pad(dt.date.month, 2), Pad(dt.date.day, 2),
                              Pad(dt.time.hour, 2), Pad(dt.time.minute, 2));
    StampLayout(y, mo, d, h, mi);
    y + "-" + mo + "-" + d + " " + h + ":" + mi
  }

  /** Reads back a `YYYY-MM-DD HH:MM` string as a date, an hour and a minute. */
  function Parse(s: string): Option<(Date, int, int)> {
    if |s| != 16 || s[4] != '-' || s[7] != '-' || s[10] != ' ' || s[13] != ':' then None
    else
      match (ParseNat(s[0..4]), ParseNat(s[5..7]), ParseNat(s[8..10]), ParseNat(s[11..13]), ParseNat(s[14..16]))
      case (Some(y), Some(mo), Some(d), Some(h), Some(mi)) => Some((Date(y, mo, d), h, mi))
      case _ => None
  }

  /** Where the five fields and four separators of a stamp sit. */
  lemma StampLayout(y: string, mo: string, d: string, h: string, mi: string)
    requires |y| == 4 && |mo| == 2 && |d| == 2 && |h| == 2 && |mi| == 2
    ensures var s := y + "-" + mo + "-" + d + " " + h + ":" + mi;
      |s| == 16 && s[4] == '-' && s[7] == '-' && s[10] == ' ' && s[13] == ':' &&
      s[0..4] == y && s[5..7] == mo && s[8..10] == d && s[11..13] == h && s[14..16] == mi
  {
  }

  /** A cited datetime can be read back to the minute: the rendering loses
      only seconds and microseconds. */
  lemma FormatRoundTrip(dt: DateTime)
    requires ValidDateTime(dt)
    ensures Parse(Format(dt)) == Some((dt.date, dt.time.hour, dt.time.minute))
  {
    assert Pow10(4) == 10000 && Pow10(2) == 100;
    PadRoundTrip(dt.date.year, 4);
    PadRoundTrip(dt.date.month, 2);
    PadRoundTrip(dt.date.day, 2);
    PadRoundTrip(dt.time.hour, 2);
    PadRoundTrip(dt.time.minute, 2);
    StampLayout(Pad(dt.date.year, 4), Pad(dt.date.month, 2), Pad(dt.date.day, 2),
                Pad(dt.time.hour, 2), Pad(dt.time.minute, 2));
  }
}
