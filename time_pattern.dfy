/** The exam schema's time format, the regular expression
    `^([0-1]?[0-9]|2[0-3]):[0-5][0-9]$` read as its two groups: an hour of one or two
    characters and a two-digit minute, joined by a colon. */
module TimePattern {
  import opened Text

  /** `[0-1]?[0-9]|2[0-3]` matching the whole of `h`. */
  predicate HourGroup(h: string) {
    || (|h| == 1 && IsDigit(h[0]))
    || (|h| == 2 && '0' <= h[0] <= '1' && IsDigit(h[1]))
    || (|h| == 2 && h[0] == '2' && '0' <= h[1] <= '3')
  }

  /** `[0-5][0-9]` matching the whole of `m`. */
  predicate MinuteGroup(m: string) {
    |m| == 2 && '0' <= m[0] <= '5' && IsDigit(m[1])
  }

  /** The pattern matches `s` with an hour group of `k` characters. */
  predicate MatchesWithHourLength(s: string, k: nat) {
    k < |s| && HourGroup(s[..k]) && s[k] == ':' && MinuteGroup(s[k + 1..])
  }

  /** The whole string matches the anchored pattern: four or five characters, all digits
      except the colon third from the end. */
  predicate IsTimeString(s: string): (ok: bool)
    ensures ok ==> (|s| == 4 || |s| == 5) && s[|s| - 3] == ':'
    ensures ok ==> forall i :: 0 <= i < |s| && i != |s| - 3 ==> IsDigit(s[i])
  {
    MatchesWithHourLength(s, 1) || MatchesWithHourLength(s, 2)
  }

  function ColonIndex(s: string): (k: nat)
    requires IsTimeString(s)
    ensures (k == 1 || k == 2) && MatchesWithHourLength(s, k)
  {
    if MatchesWithHourLength(s, 1) then 1 else 2
  }

  /** The text of the hour group and of the minute group. */
  function HourText(s: string): string
    requires IsTimeString(s)
  {
    s[..ColonIndex(s)]
  }

  function MinuteText(s: string): string
    requires IsTimeString(s)
  {
    s[ColonIndex(s) + 1..]
  }

  /** The hour and minute a matching string denotes, read as decimal numbers. */
  function HourOf(s: string): (h: nat)
    requires IsTimeString(s)
    ensures h < 24
  {
    var t := HourText(s);
    if |t| == 1 then DecimalValueOne(t); DecimalValue(t)
    else DecimalValueTwo(t); DecimalValue(t)
  }

  function MinuteOf(s: string): (m: nat)
    requires IsTimeString(s)
    ensures m < 60
  {
    DecimalValueTwo(MinuteText(s));
    DecimalValue(MinuteText(s))
  }

  /** A matching string has a single colon, so `split(':')` gives exactly the hour text and
      the minute text, both made of digits. */
  lemma {:induction false} SplitTimeString(s: string)
    requires IsTimeString(s)
    ensures Split(s, ':') == [HourText(s), MinuteText(s)]
    ensures AllDigits(HourText(s)) && AllDigits(MinuteText(s))
  {
    var k := ColonIndex(s);
    forall i | 0 <= i < |s| && i != k ensures s[i] != ':' {
      if i < k {
        assert s[i] == s[..k][i];
      } else {
        assert s[i] == s[k + 1..][i - k - 1];
      }
    }
    SplitAtOnlySeparator(s, ':', k);
  }

  /** The canonical two-digit rendering `HH:MM`. */
  function ClockText(hours: nat, minutes: nat): (s: string)
    requires hours < 24 && minutes < 60
  {
    Pad2(hours) + ":" + Pad2(minutes)
  }

  /** Every matching string is `HH:MM` for the hour and minute it denotes, or, when its
      hour group has a single digit, that text without the leading zero. */
  lemma {:induction false} TimeStringShape(s: string)
    requires IsTimeString(s)
    ensures |s| == 5 ==> s == ClockText(HourOf(s), MinuteOf(s))
    ensures |s| == 4 ==> HourOf(s) < 10 && "0" + s == ClockText(HourOf(s), MinuteOf(s))
    ensures |s| == 4 || |s| == 5
  {
    var k := ColonIndex(s);
    var h, m := HourText(s), MinuteText(s);
    assert s == h + ":" + m;
    Pad2OfDecimal(m);
    if k == 2 {
      Pad2OfDecimal(h);
    } else {
      DecimalValueOne(h);
      assert "0" + h == [DigitChar(0), h[0]];
      DecimalValueTwo("0" + h);
      Pad2OfDecimal("0" + h);
      assert "0" + s == ("0" + h) + ":" + m;
    }
  }

  /** Conversely every `HH:MM` rendering matches, denoting that hour and minute. */
  lemma {:induction false} ClockTextMatches(hours: nat, minutes: nat)
    requires hours < 24 && minutes < 60
    ensures IsTimeString(ClockText(hours, minutes))
    ensures HourOf(ClockText(hours, minutes)) == hours
    ensures MinuteOf(ClockText(hours, minutes)) == minutes
  {
    var s := ClockText(hours, minutes);
    assert s[..2] == Pad2(hours) && s[3..] == Pad2(minutes);
    assert MatchesWithHourLength(s, 2);
    assert !MatchesWithHourLength(s, 1);
  }

  /** And so does the short form of a single-digit hour, such as `9:05`. */
  lemma {:induction false} ShortClockTextMatches(hours: nat, minutes: nat)
    requires hours < 10 && minutes < 60
    ensures IsTimeString([DigitChar(hours)] + ":" + Pad2(minutes))
    ensures HourOf([DigitChar(hours)] + ":" + Pad2(minutes)) == hours
    ensures MinuteOf([DigitChar(hours)] + ":" + Pad2(minutes)) == minutes
  {
    var s := [DigitChar(hours)] + ":" + Pad2(minutes);
    assert s[..1] == [DigitChar(hours)] && s[2..] == Pad2(minutes);
    assert MatchesWithHourLength(s, 1);
    DecimalValueOne(s[..1]);
  }

  /** Strings the pattern refuses: an hour past 23, a one-digit minute, a three-digit hour. */
  lemma RejectedExamples()
    ensures !IsTimeString("24:00")
    ensures !IsTimeString("9:5")
    ensures !IsTimeString("009:00")
  {
    assert "24:00"[..2] == "24";
    assert "009:00"[..2] == "00" && "009:00"[2] == '9';
  }
}
