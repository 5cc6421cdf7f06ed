/**
 * The `HH:MM:SS` text that `updateTimerDisplay` writes into the timer widget
 * (chrome-extension/content.js:182-194), and a reader for it.
 */
module TimerDisplay {
  import opened JsText
  import opened Wrappers

  const MsPerHour: nat := 3600000
  const MsPerMinute: nat := 60000
  const MsPerSecond: nat := 1000

  datatype Fields = Fields(hours: nat, minutes: nat, seconds: nat)

  /** The three numbers the display is built from; the hours are not bounded. */
  function FieldsOf(t: nat): (f: Fields)
    ensures f.minutes < 60 && f.seconds < 60
    ensures f.hours * MsPerHour + f.minutes * MsPerMinute + f.seconds * MsPerSecond <= t
    ensures t < f.hours * MsPerHour + f.minutes * MsPerMinute + f.seconds * MsPerSecond + MsPerSecond
  {
    var h := t / MsPerHour;
    var m := (t % MsPerHour) / MsPerMinute;
    var sec := (t % MsPerMinute) / MsPerSecond;
    FieldsBounds(t, h, m, sec);
    Fields(h, m, sec)
  }

  lemma FieldsBounds(t: nat, h: nat, m: nat, sec: nat)
    requires h == t / 3600000 && m == (t % 3600000) / 60000 && sec == (t % 60000) / 1000
    ensures m < 60 && sec < 60
    ensures h * 3600000 + m * 60000 + sec * 1000 <= t < h * 3600000 + m * 60000 + sec * 1000 + 1000
  {
    var r := t % 3600000;
    var q := r % 60000;
    assert r == m * 60000 + q && 0 <= q < 60000;
    ModMinute(t, h * 60 + m, q);
    assert q == sec * 1000 + q % 1000;
  }

  /** The remainder modulo a minute, from any decomposition. */
  lemma ModMinute(t: nat, k: nat, q: nat)
    requires t == k * 60000 + q && q < 60000
    ensures t % 60000 == q
  {
  }

  /** Reads `H..H:MM:SS` back into its three fields. */
  function Parse(text: string): Option<Fields>
  {
    var n := |text|;
    if n >= 8 && text[n - 3] == ':' && text[n - 6] == ':'
       && AllDigits(text[..n - 6]) && AllDigits(text[n - 5..n - 3]) && AllDigits(text[n - 2..])
    then Some(Fields(DigitsValue(text[..n - 6]), DigitsValue(text[n - 5..n - 3]), DigitsValue(text[n - 2..])))
    else None
  }

  lemma TwoDigits(n: nat)
    requires n < 60
    ensures |PadStart2(NatToString(n))| == 2
    ensures AllDigits(PadStart2(NatToString(n)))
    ensures DigitsValue(PadStart2(NatToString(n))) == n
  {
    NatToStringValue(n);
    PadStart2Value(NatToString(n));
  }

  lemma ParseShape(text: string)
    requires |text| >= 8 && text[|text| - 3] == ':' && text[|text| - 6] == ':'
    requires AllDigits(text[..|text| - 6]) && AllDigits(text[|text| - 5..|text| - 3]) && AllDigits(text[|text| - 2..])
    ensures Parse(text) == Some(Fields(DigitsValue(text[..|text| - 6]), DigitsValue(text[|text| - 5..|text| - 3]), DigitsValue(text[|text| - 2..])))
  {
  }

  /** Parsing undoes the concatenation of three numerals with two colons. */
  lemma ParseJoined(hs: string, ms: string, ss: string)
    requires AllDigits(hs) && AllDigits(ms) && AllDigits(ss)
    requires |hs| >= 2 && |ms| == 2 && |ss| == 2
    ensures Parse(hs + ":" + ms + ":" + ss) == Some(Fields(DigitsValue(hs), DigitsValue(ms), DigitsValue(ss)))
  {
    var text := hs + ":" + ms + ":" + ss;
    var n := |text|;
    assert n == |hs| + 6;
    assert text[..n - 6] == hs;
    assert text[n - 5..n - 3] == ms;
    assert text[n - 2..] == ss;
    assert text[n - 3] == ':' && text[n - 6] == ':';
    ParseShape(text);
    assert DigitsValue(text[..n - 6]) == DigitsValue(hs);
    assert DigitsValue(text[n - 5..n - 3]) == DigitsValue(ms);
    assert DigitsValue(text[n - 2..]) == DigitsValue(ss);
  }

  /** The display text for an elapsed time of `t` milliseconds. It determines
      the fields: hours are written in full (at least two digits, never
      truncated) and minutes and seconds in exactly two digits, so reading it
      back recovers every field. */
  function Format(t: nat): (r: string)
    ensures Parse(r) == Some(FieldsOf(t))
    ensures |r| > 8 ==> r[0] != '0'
  {
    var f := FieldsOf(t);
    var hs := PadStart2(NatToString(f.hours));
    var ms := PadStart2(NatToString(f.minutes));
    var ss := PadStart2(NatToString(f.seconds));
    NatToStringValue(f.hours);
    PadStart2Value(NatToString(f.hours));
    TwoDigits(f.minutes);
    TwoDigits(f.seconds);
    ParseJoined(hs, ms, ss);
    hs + ":" + ms + ":" + ss
  }

  /** The value the display stands for, in milliseconds. */
  function FieldsMs(f: Fields): nat {
    f.hours * MsPerHour + f.minutes * MsPerMinute + f.seconds * MsPerSecond
  }

  /** A multiple of 1000 within the second containing `t` is `t` rounded down to the second. */
  lemma WholeSecond(t: nat, k: nat)
    requires k * 1000 <= t < k * 1000 + 1000
    ensures k * 1000 == t - t % 1000
  {
  }

  /** The display shows `t` truncated to whole seconds. */
  lemma DisplayedValue(t: nat)
    ensures Parse(Format(t)).Some?
    ensures FieldsMs(Parse(Format(t)).value) == t - t % 1000
  {
    var f := FieldsOf(t);
    var k := f.hours * 3600 + f.minutes * 60 + f.seconds;
    assert FieldsMs(f) == k * 1000;
    WholeSecond(t, k);
  }
}
