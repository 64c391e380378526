/**
  The SubRip timestamp of `src/narrator/whisper_transcribe.py` (the nested
  `fmt`): `HH:MM:SS,mmm`, hours with at least two digits. The model's
  writer prints a time of `t` milliseconds as `Fmt(RoundMs(t))`, the
  corrected `fmt`: rounded to whole milliseconds first, then split into
  fields. `fmt` as written, on seconds, is `FmtAsWritten`.
 */
module Timestamps {
  import opened Wrappers
  import opened Text

  /** A time rounded to the nearest millisecond (halves round up). */
  function RoundMs(t: real): (ms: nat)
    requires t >= 0.0
    ensures ms as real - 0.5 <= t < ms as real + 0.5
  {
    (t + 0.5).Floor
  }

  /** A time that already is a whole number of milliseconds is not moved by rounding. */
  lemma RoundMsWhole(n: nat)
    ensures RoundMs(n as real) == n
  {
  }

  /** `n` in decimal, zero-padded on the left to at least `width` digits (`:02d`, `:03d`). */
  function Pad(n: nat, width: nat): string {
    ZeroPad(NatToString(n), width)
  }

  /** The hours, minutes, seconds and milliseconds of a time in milliseconds. */
  function Hours(ms: nat): nat { ms / 3600000 }
  function Minutes(ms: nat): nat { ms / 60000 % 60 }
  function Seconds(ms: nat): nat { ms / 1000 % 60 }
  function Millis(ms: nat): nat { ms % 1000 }

  /** The four fields put back together give the time again. */
  lemma FieldsRecompose(ms: nat)
    ensures FieldsMs(Hours(ms), Minutes(ms), Seconds(ms), Millis(ms)) == ms
    ensures Minutes(ms) < 60 && Seconds(ms) < 60 && Millis(ms) < 1000
  {
    var s := ms / 1000;
    var m := s / 60;
    assert ms == s * 1000 + ms % 1000;
    assert s == m * 60 + s % 60;
    assert ms / 60000 == m;
    assert m == m / 60 * 60 + m % 60;
    assert ms / 3600000 == m / 60;
  }

  /**
    The corrected `fmt` for a time of `ms` whole milliseconds. The separators `:`, `:` and
    `,` sit ten, seven and four characters from the end, and the timestamp
    is exactly twelve characters long below 100 hours, longer from 100
    hours on.
   */
  function Fmt(ms: nat): (s: string)
    ensures |s| >= 12
    ensures s[|s| - 10] == ':' && s[|s| - 7] == ':' && s[|s| - 4] == ','
    ensures ms < 360000000 <==> |s| == 12
  {
    FieldsRecompose(ms);
    SmallNatLength(Hours(ms));
    PadLength(Hours(ms), 2);
    FieldsText(Hours(ms), Minutes(ms), Seconds(ms), Millis(ms))
  }

  /**
    The text of a timestamp with the given fields: the hours padded to two
    digits or more, the minutes and seconds to two and the milliseconds to
    three, joined by `:`, `:` and `,`.
   */
  function FieldsText(h: nat, m: nat, sec: nat, f: nat): (s: string)
    requires m < 100 && sec < 100 && f < 1000
    ensures |s| == |Pad(h, 2)| + 10
    ensures s[|s| - 10] == ':' && s[|s| - 7] == ':' && s[|s| - 4] == ','
  {
    PadLength(m, 2);
    PadLength(sec, 2);
    PadLength(f, 3);
    SmallNatLength(m);
    SmallNatLength(sec);
    SmallNatLength(f);
    JoinedFields(Pad(h, 2), Pad(m, 2), Pad(sec, 2), Pad(f, 3));
    Pad(h, 2) + ":" + Pad(m, 2) + ":" + Pad(sec, 2) + "," + Pad(f, 3)
  }

  /** A timestamp is one line: digits and separators only. */
  lemma FmtOneLine(ms: nat)
    ensures '\n' !in Fmt(ms)
  {
    ZeroPadValue(Hours(ms), 2);
    ZeroPadValue(Minutes(ms), 2);
    ZeroPadValue(Seconds(ms), 2);
    ZeroPadValue(Millis(ms), 3);
    DigitsOneLine(Pad(Hours(ms), 2));
    DigitsOneLine(Pad(Minutes(ms), 2));
    DigitsOneLine(Pad(Seconds(ms), 2));
    DigitsOneLine(Pad(Millis(ms), 3));
  }

  /** The time of a number of hours, minutes, seconds and milliseconds. */
  function FieldsMs(h: nat, m: nat, sec: nat, f: nat): nat {
    h * 3600000 + m * 60000 + sec * 1000 + f
  }

  /** Reads a timestamp written as `H..H:MM:SS,mmm` back into milliseconds. */
  function ParseTimestamp(s: string): (r: Option<nat>)
    ensures r.Some? ==> |s| >= 12 && s[|s| - 10] == ':' && s[|s| - 7] == ':' && s[|s| - 4] == ','
  {
    if |s| < 12 then None
    else
      var n := |s|;
      var h, m, sec, f := s[..n - 10], s[n - 9..n - 7], s[n - 6..n - 4], s[n - 3..];
      if s[n - 10] == ':' && s[n - 7] == ':' && s[n - 4] == ','
         && AllDigits(h) && AllDigits(m) && AllDigits(sec) && AllDigits(f)
      then Some(FieldsMs(DigitsValue(h), DigitsValue(m), DigitsValue(sec), DigitsValue(f)))
      else None
  }

  /** Numbers below 100 take at most two digits, below 1000 at most three, and from 100 on at least three. */
  lemma SmallNatLength(n: nat)
    ensures n < 100 ==> |NatToString(n)| <= 2
    ensures n < 1000 ==> |NatToString(n)| <= 3
    ensures n >= 100 ==> |NatToString(n)| >= 3
  {
    if n >= 10 {
      assert NatToString(n) == NatToString(n / 10) + [DigitChar(n % 10)];
      if n >= 100 {
        assert NatToString(n / 10) == NatToString(n / 100) + [DigitChar(n / 10 % 10)];
        NatToStringDigits(n / 100);
      }
    }
  }

  /** The length of a padded field: the width when the number fits, its own length otherwise. */
  lemma PadLength(n: nat, width: nat)
    ensures |Pad(n, width)| == if |NatToString(n)| < width then width else |NatToString(n)|
  {
    ZeroPadShape(NatToString(n), width);
  }

  /** Where the separators of a joined timestamp sit, and which slices hold the fields. */
  lemma JoinedFields(hh: string, mm: string, ss: string, ff: string)
    requires |mm| == 2 && |ss| == 2 && |ff| == 3
    ensures var s := hh + ":" + mm + ":" + ss + "," + ff;
            var n := |s|;
            && n == |hh| + 10
            && s[n - 10] == ':' && s[n - 7] == ':' && s[n - 4] == ','
            && s[..n - 10] == hh && s[n - 9..n - 7] == mm && s[n - 6..n - 4] == ss && s[n - 3..] == ff
  {
  }

  /** Reading four digit fields joined by the separators gives back their values. */
  lemma {:induction false} ParseJoined(hh: string, mm: string, ss: string, ff: string)
    requires |hh| >= 2 && |mm| == 2 && |ss| == 2 && |ff| == 3
    requires AllDigits(hh) && AllDigits(mm) && AllDigits(ss) && AllDigits(ff)
    ensures ParseTimestamp(hh + ":" + mm + ":" + ss + "," + ff)
         == Some(FieldsMs(DigitsValue(hh), DigitsValue(mm), DigitsValue(ss), DigitsValue(ff)))
  {
    var s := hh + ":" + mm + ":" + ss + "," + ff;
    JoinedFields(hh, mm, ss, ff);
    var n := |s|;
    var h, m, sec, f := s[..n - 10], s[n - 9..n - 7], s[n - 6..n - 4], s[n - 3..];
    assert h == hh && m == mm && sec == ss && f == ff;
    assert AllDigits(h) && AllDigits(m) && AllDigits(sec) && AllDigits(f);
  }

  /** The text of the fields reads back as the time of those fields. */
  lemma ParseFieldsText(h: nat, m: nat, sec: nat, f: nat)
    requires m < 100 && sec < 100 && f < 1000
    ensures ParseTimestamp(FieldsText(h, m, sec, f)) == Some(FieldsMs(h, m, sec, f))
  {
    PadLength(h, 2);
    PadLength(m, 2);
    PadLength(sec, 2);
    PadLength(f, 3);
    SmallNatLength(m);
    SmallNatLength(sec);
    SmallNatLength(f);
    ZeroPadValue(h, 2);
    ZeroPadValue(m, 2);
    ZeroPadValue(sec, 2);
    ZeroPadValue(f, 3);
    ParseJoined(Pad(h, 2), Pad(m, 2), Pad(sec, 2), Pad(f, 3));
  }

  /** Reading a written timestamp gives back the time: `fmt` loses nothing. */
  lemma ParseFmt(ms: nat)
    ensures ParseTimestamp(Fmt(ms)) == Some(ms)
  {
    FieldsRecompose(ms);
    ParseFieldsText(Hours(ms), Minutes(ms), Seconds(ms), Millis(ms));
  }

  /** The four fields of `s`, the text of some fields, are digits and read as the numbers put in. */
  lemma FieldsTextDigits(s: string, h: nat, m: nat, sec: nat, f: nat)
    requires m < 100 && sec < 100 && f < 1000
    requires s == FieldsText(h, m, sec, f)
    ensures var n := |s|;
            && n >= 12
            && AllDigits(s[..n - 10]) && AllDigits(s[n - 9..n - 7])
            && AllDigits(s[n - 6..n - 4]) && AllDigits(s[n - 3..])
            && DigitsValue(s[..n - 10]) == h && DigitsValue(s[n - 9..n - 7]) == m
            && DigitsValue(s[n - 6..n - 4]) == sec && DigitsValue(s[n - 3..]) == f
  {
    PadLength(m, 2);
    PadLength(sec, 2);
    PadLength(f, 3);
    SmallNatLength(m);
    SmallNatLength(sec);
    SmallNatLength(f);
    ZeroPadValue(h, 2);
    ZeroPadValue(m, 2);
    ZeroPadValue(sec, 2);
    ZeroPadValue(f, 3);
    JoinedFields(Pad(h, 2), Pad(m, 2), Pad(sec, 2), Pad(f, 3));
  }

  /**
    The four fields of a written timestamp are digits and read as the
    hours, minutes, seconds and milliseconds of the time, so minutes and
    seconds never read 60 or more.
   */
  lemma FmtFields(ms: nat)
    ensures var s := Fmt(ms);
            var n := |s|;
            && AllDigits(s[..n - 10]) && AllDigits(s[n - 9..n - 7])
            && AllDigits(s[n - 6..n - 4]) && AllDigits(s[n - 3..])
            && DigitsValue(s[..n - 10]) == Hours(ms)
            && DigitsValue(s[n - 9..n - 7]) == Minutes(ms) < 60
            && DigitsValue(s[n - 6..n - 4]) == Seconds(ms) < 60
            && DigitsValue(s[n - 3..]) == Millis(ms) < 1000
  {
    var h, m, sec, f := Hours(ms), Minutes(ms), Seconds(ms), Millis(ms);
    FieldsRecompose(ms);
    FieldsTextDigits(Fmt(ms), h, m, sec, f);
  }

  // ================================================================ fmt on seconds, as written

  /**
    `fmt(t)` as written, for a time of `t` seconds: the whole hours and
    minutes by `divmod`, then the seconds left over printed with three
    decimals (`{s:06.3f}`), which rounds them on their own, after the
    minutes have been fixed.
   */
  function FmtAsWritten(t: real): (s: string)
    requires t >= 0.0
    ensures |s| >= 12
    ensures s[|s| - 10] == ':' && s[|s| - 7] == ':' && s[|s| - 4] == ','
  {
    var h := (t / 3600.0).Floor;
    var rest := t - h as real * 3600.0;
    var m := (rest / 60.0).Floor;
    var sec := rest - m as real * 60.0;
    assert 0.0 <= rest < 3600.0 && 0.0 <= sec < 60.0;
    var thousandths := RoundMs(sec * 1000.0);
    FieldsText(h, m, thousandths / 1000, thousandths % 1000)
  }

  /**
    What `fmt` writes, read back, is the time to within half a millisecond:
    the seconds field can read 60, but the time it stands for is right.
   */
  lemma AsWrittenReadsBack(t: real)
    requires t >= 0.0
    ensures ParseTimestamp(FmtAsWritten(t)).Some?
    ensures var ms := ParseTimestamp(FmtAsWritten(t)).value;
            ms as real - 0.5 <= t * 1000.0 < ms as real + 0.5
  {
    var h := (t / 3600.0).Floor;
    var rest := t - h as real * 3600.0;
    var m := (rest / 60.0).Floor;
    var th := RoundMs((rest - m as real * 60.0) * 1000.0);
    AsWrittenFields(t);
    assert FmtAsWritten(t) == FieldsText(h, m, th / 1000, th % 1000);
    ParseFieldsText(h, m, th / 1000, th % 1000);
  }

  /**
    The fields `FmtAsWritten` prints: minutes below 60, seconds at most 60
    once rounded, and together within half a millisecond of the time.
   */
  lemma AsWrittenFields(t: real)
    requires t >= 0.0
    ensures var h := (t / 3600.0).Floor;
            var rest := t - h as real * 3600.0;
            var m := (rest / 60.0).Floor;
            var th := RoundMs((rest - m as real * 60.0) * 1000.0);
            && 0 <= h && 0 <= m < 60 && th <= 60000
            && var ms := FieldsMs(h, m, th / 1000, th % 1000);
               ms as real - 0.5 <= t * 1000.0 < ms as real + 0.5
  {
    var h := (t / 3600.0).Floor;
    var rest := t - h as real * 3600.0;
    assert 0.0 <= rest < 3600.0;
    var m := (rest / 60.0).Floor;
    var sec := rest - m as real * 60.0;
    assert 0.0 <= sec < 60.0;
    var th := RoundMs(sec * 1000.0);
    assert th == th / 1000 * 1000 + th % 1000;
    assert t * 1000.0 == h as real * 3600000.0 + m as real * 60000.0 + sec * 1000.0;
  }

  /**
    In the last half millisecond before a minute, the written seconds
    round up to a field of 60 with the minutes left at 0; rounding the
    whole time first, as `Fmt` of `RoundMs` does, carries into the minutes
    instead.
   */
  lemma SixtySeconds(t: real)
    requires 59.9995 <= t < 60.0
    ensures FmtAsWritten(t) == "00:00:60,000"
    ensures Fmt(RoundMs(t * 1000.0)) == "00:01:00,000"
  {
    assert (t / 3600.0).Floor == 0;
    assert (t / 60.0).Floor == 0;
    assert RoundMs(t * 1000.0) == 60000;
    assert FmtAsWritten(t) == FieldsText(0, 0, 60, 0);
    assert Fmt(60000) == FieldsText(0, 1, 0, 0) by {
      assert Hours(60000) == 0 && Minutes(60000) == 1 && Seconds(60000) == 0 && Millis(60000) == 0;
    }
    assert NatToString(60) == "60" && NatToString(0) == "0" && NatToString(1) == "1";
    assert Pad(0, 2) == "00" && Pad(60, 2) == "60" && Pad(1, 2) == "01" && Pad(0, 3) == "000";
  }

}
