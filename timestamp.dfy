/**
 * The clock reading used by the fallback title, and its `strftime("%Y-%m-%d %H:%M")`
 * rendering (post.py:187). The reading itself is a parameter: the model has no clock.
 */
module Timestamp {
  import opened Wrappers
  import opened AsciiText

  /** A local date and time to the minute, as `datetime.now()` returns it (seconds are never printed). */
  datatype Moment = Moment(year: int, month: int, day: int, hour: int, minute: int) {
    predicate Valid() {
      1 <= year <= 9999 && 1 <= month <= 12 && 1 <= day <= 31 && 0 <= hour <= 23 && 0 <= minute <= 59
    }
  }

  /** Two zero-padded decimal digits. */
  function Pad2(n: nat): (s: string)
    requires n < 100
    ensures |s| == 2 && IsDigits(s) && DigitsValue(s) == n
  {
    var s := [DigitChar(n / 10), DigitChar(n % 10)];
    assert s[..1] == [DigitChar(n / 10)];
    assert s[..1][..0] == [];
    assert DigitsValue(s[..1]) == n / 10;
    s
  }

  /** Four zero-padded decimal digits. */
  function Pad4(n: nat): (s: string)
    requires n < 10000
    ensures |s| == 4 && IsDigits(s) && DigitsValue(s) == n
  {
    var hi, lo := Pad2(n / 100), Pad2(n % 100);
    var s := hi + lo;
    assert s[..3] == hi + [lo[0]];
    assert (hi + [lo[0]])[..2] == hi;
    assert DigitsValue(s) == DigitsValue(hi) * 100 + DigitsValue(lo) by {
      assert lo[..1] == [lo[0]];
      assert [lo[0]][..0] == [];
    }
    s
  }

  /** True when `s` has the shape `YYYY-MM-DD HH:MM`. */
  predicate IsStamp(s: string) {
    |s| == 16 && s[4] == '-' && s[7] == '-' && s[10] == ' ' && s[13] == ':' &&
    IsDigits(s[0..4]) && IsDigits(s[5..7]) && IsDigits(s[8..10]) && IsDigits(s[11..13]) && IsDigits(s[14..16])
  }

  /** `m.strftime("%Y-%m-%d %H:%M")`. */
  function FormatMinute(m: Moment): (s: string)
    requires m.Valid()
    ensures IsStamp(s)
  {
    var s := Pad4(m.year as nat) + "-" + Pad2(m.month as nat) + "-" + Pad2(m.day as nat) + " " +
             Pad2(m.hour as nat) + ":" + Pad2(m.minute as nat);
    assert s[0..4] == Pad4(m.year as nat);
    assert s[5..7] == Pad2(m.month as nat);
    assert s[8..10] == Pad2(m.day as nat);
    assert s[11..13] == Pad2(m.hour as nat);
    assert s[14..16] == Pad2(m.minute as nat);
    s
  }

  /** Reads a `YYYY-MM-DD HH:MM` stamp back; None for anything else or an out-of-range field. */
  function ParseMinute(s: string): (r: Option<Moment>)
    ensures r.Some? ==> r.value.Valid() && IsStamp(s)
  {
    if !IsStamp(s) then None
    else
      var m := Moment(DigitsValue(s[0..4]), DigitsValue(s[5..7]), DigitsValue(s[8..10]),
                      DigitsValue(s[11..13]), DigitsValue(s[14..16]));
      if m.Valid() then Some(m) else None
  }

  /** The rendering loses nothing but the seconds: every field can be read back. */
  lemma FormatParses(m: Moment)
    requires m.Valid()
    ensures ParseMinute(FormatMinute(m)) == Some(m)
  {
    var s := FormatMinute(m);
    assert s[0..4] == Pad4(m.year as nat);
    assert s[5..7] == Pad2(m.month as nat);
    assert s[8..10] == Pad2(m.day as nat);
    assert s[11..13] == Pad2(m.hour as nat);
    assert s[14..16] == Pad2(m.minute as nat);
  }
}
