/**
 * humanDur of the EJBCA client's certificate helpers: an int64 nanosecond
 * duration as compact text ("1y 2d 3h 4m 5s"), with Go's truncating integer
 * division and the wrap-around of negating the minimum int64.
 */
module Durations {
  import Text
  import GoInt

  // The units are written out as literals: a second is 1_000_000_000
  // nanoseconds; a year (365 days) 31_536_000, a day 86_400, an hour 3_600 and
  // a minute 60 seconds.

  /** Whole seconds split into years of 365 days, days, hours, minutes and seconds, with Go's truncating `/` and `%`. */
  datatype Breakdown = Breakdown(years: int, days: int, hours: int, minutes: int, seconds: int)

  function Split(sec: int): (r: Breakdown)
    ensures r.years * 31_536_000 + r.days * 86_400 + r.hours * 3_600 + r.minutes * 60 + r.seconds == sec
    ensures sec >= 0 ==> r.years >= 0 && 0 <= r.days < 365 && 0 <= r.hours < 24
                         && 0 <= r.minutes < 60 && 0 <= r.seconds < 60
  {
    var y := GoInt.Quot(sec, 31_536_000);
    var s1 := GoInt.Rem(sec, 31_536_000);
    var d := GoInt.Quot(s1, 86_400);
    var s2 := GoInt.Rem(s1, 86_400);
    var h := GoInt.Quot(s2, 3_600);
    var s3 := GoInt.Rem(s2, 3_600);
    var m := GoInt.Quot(s3, 60);
    var s := GoInt.Rem(s3, 60);
    Breakdown(y, d, h, m, s)
  }

  /** The positive parts, "%d" followed by the unit letter; the seconds also when nothing else is there. */
  function Parts(b: Breakdown): (r: seq<string>)
    ensures |r| >= 1
  {
    var p0: seq<string> := [];
    var p1 := if b.years > 0 then p0 + [Text.IntToDecimal(b.years) + "y"] else p0;
    var p2 := if b.days > 0 then p1 + [Text.IntToDecimal(b.days) + "d"] else p1;
    var p3 := if b.hours > 0 then p2 + [Text.IntToDecimal(b.hours) + "h"] else p2;
    var p4 := if b.minutes > 0 then p3 + [Text.IntToDecimal(b.minutes) + "m"] else p3;
    if b.seconds > 0 || |p4| == 0 then p4 + [Text.IntToDecimal(b.seconds) + "s"] else p4
  }

  /** The int64 nanoseconds made non-negative as the code does it: negation wraps for the minimum. */
  function Magnitude(d: int): int
    requires GoInt.IsInt64(d)
  {
    if d < 0 then GoInt.Wrap64(-d) else d
  }

  /** humanDur of an int64 nanosecond duration. */
  function DurationText(d: int): string
    requires GoInt.IsInt64(d)
  {
    var text := Text.Join(Parts(Split(GoInt.Quot(Magnitude(d), 1_000_000_000))), " ");
    if d < 0 then "-" + text else text
  }

  /** humanDur, step by step. */
  method HumanDur(d: int) returns (out: string)
    requires GoInt.IsInt64(d)
    ensures out == DurationText(d)
  {
    var neg := d < 0;
    var dur := d;
    if neg {
      dur := GoInt.Wrap64(-dur);
    }
    var sec := GoInt.Quot(dur, 1_000_000_000);
    ghost var b := Split(sec);
    var y := GoInt.Quot(sec, 31_536_000);
    sec := GoInt.Rem(sec, 31_536_000);
    var dd := GoInt.Quot(sec, 86_400);
    sec := GoInt.Rem(sec, 86_400);
    var h := GoInt.Quot(sec, 3_600);
    sec := GoInt.Rem(sec, 3_600);
    var m := GoInt.Quot(sec, 60);
    sec := GoInt.Rem(sec, 60);
    var s := sec;
    assert b == Breakdown(y, dd, h, m, s);
    var parts: seq<string> := [];
    if y > 0 { parts := parts + [Text.IntToDecimal(y) + "y"]; }
    if dd > 0 { parts := parts + [Text.IntToDecimal(dd) + "d"]; }
    if h > 0 { parts := parts + [Text.IntToDecimal(h) + "h"]; }
    if m > 0 { parts := parts + [Text.IntToDecimal(m) + "m"]; }
    if s > 0 || |parts| == 0 { parts := parts + [Text.IntToDecimal(s) + "s"]; }
    assert parts == Parts(b);
    out := Text.Join(parts, " ");
    if neg {
      out := "-" + out;
    }
  }

  /** When no larger unit is positive, the seconds are the only part, whatever their sign. */
  lemma PartsOnlySeconds(b: Breakdown)
    requires b.years <= 0 && b.days <= 0 && b.hours <= 0 && b.minutes <= 0
    ensures Parts(b) == [Text.IntToDecimal(b.seconds) + "s"]
  {
  }

  lemma ZeroSecondsPart()
    ensures Text.IntToDecimal(0) + "s" == "0s"
  {
    assert Text.IntToDecimal(0) == "0";
  }

  /** A non-negative duration is the text of its whole seconds. */
  lemma DurationOfNonNegative(d: int)
    requires 0 <= d <= GoInt.MaxInt64
    ensures DurationText(d) == Text.Join(Parts(Split(d / 1_000_000_000)), " ")
  {
  }

  /** Under a minute there are only seconds. */
  lemma SplitUnderAMinute(sec: int)
    requires 0 <= sec < 60
    ensures Split(sec) == Breakdown(0, 0, 0, 0, sec)
  {
  }

  lemma ZeroSecondsText(b: Breakdown)
    requires b.years == 0 && b.days == 0 && b.hours == 0 && b.minutes == 0 && b.seconds == 0
    ensures Text.Join(Parts(b), " ") == "0s"
  {
    PartsOnlySeconds(b);
    ZeroSecondsPart();
  }

  /** Less than a second, zero included, reads "0s". */
  lemma DurationUnderASecond(d: int)
    requires 0 <= d < 1_000_000_000
    ensures DurationText(d) == "0s"
  {
    DurationOfNonNegative(d);
    var sec := d / 1_000_000_000;
    assert sec == 0;
    SplitUnderAMinute(sec);
    ZeroSecondsText(Split(sec));
  }

  /** Sub-second parts are dropped. */
  lemma DurationTruncates(d: int)
    requires 0 <= d <= GoInt.MaxInt64
    ensures DurationText(d) == DurationText((d / 1_000_000_000) * 1_000_000_000)
  {
    var q := d / 1_000_000_000;
    var e := q * 1_000_000_000;
    assert 0 <= e <= d;
    assert e / 1_000_000_000 == q;
    assert GoInt.Quot(Magnitude(d), 1_000_000_000) == q;
    assert GoInt.Quot(Magnitude(e), 1_000_000_000) == q;
  }

  /** A negative duration other than the minimum reads as "-" and its magnitude. */
  lemma DurationNegative(d: int)
    requires GoInt.MinInt64 < d < 0
    ensures DurationText(d) == "-" + DurationText(-d)
  {
  }

  /** For the minimum int64 the negation wraps and the seconds stay negative: "--16s". */
  lemma DurationMinimum()
    ensures DurationText(GoInt.MinInt64) == "--16s"
  {
    assert Magnitude(GoInt.MinInt64) == GoInt.MinInt64;
    assert GoInt.Quot(GoInt.MinInt64, 1_000_000_000) == -9223372036;
    var b := Split(-9223372036);
    assert b.years == -292 && b.days == -171 && b.hours == -23 && b.minutes == -47 && b.seconds == -16 by {
      assert GoInt.Rem(-9223372036, 31_536_000) == -14860036;
      assert GoInt.Rem(-14860036, 86_400) == -85636;
      assert GoInt.Rem(-85636, 3_600) == -2836;
      assert GoInt.Rem(-2836, 60) == -16;
    }
    PartsOnlySeconds(b);
    assert Text.IntToDecimal(-16) == "-16" by {
      assert Text.NatToDecimal(16) == "16" by {
        assert Text.NatToDecimal(1) == "1";
      }
    }
  }
}
