/**
 * `parseHoursFromContent` (chrome-extension/content.js:258-261): the
 * case-insensitive regular expression `(\d+(?:\.\d+)?)\s*(?:hours?|hrs?)`
 * searched for in the body text, giving the number of its leftmost match.
 *
 * The regular expression is stated relationally by `RegexMatchAt`; the
 * scanner `MatchAt` / `FindFrom` is proved to find exactly its leftmost match.
 * The number is an exact rational (`real`); `parseFloat`'s rounding is not modelled.
 */
module HoursParser {
  import opened JsText
  import opened Wrappers

  /** `hours?|hrs?` ignoring case, starting at `k`; the optional `s` does not change what matches. */
  predicate UnitAt(s: string, k: nat) {
    MatchesAt(s, k, "hour") || MatchesAt(s, k, "hr")
  }

  /** The capture group's text: `\d+` or `\d+\.\d+`. */
  predicate IsNumberText(t: string) {
    (|t| >= 1 && AllDigits(t)) ||
    (exists p :: 1 <= p < |t| - 1 && t[p] == '.' && AllDigits(t[..p]) && AllDigits(t[p + 1..]))
  }

  /** The regular expression matches at `i` with capture group `s[i..e]`. */
  ghost predicate RegexMatchAt(s: string, i: nat, e: nat) {
    i <= e <= |s| && IsNumberText(s[i..e]) &&
    exists w :: e <= w <= |s| && AllSpaces(s[e..w]) && UnitAt(s, w)
  }

  /** The end of the number that starts at `i`, if one does. */
  function NumberEnd(s: string, i: nat): (r: Option<nat>)
    requires i <= |s|
    ensures r.Some? ==> i < r.value <= |s|
  {
    var intEnd := DigitRunEnd(s, i);
    if intEnd == i then None
    else if intEnd + 1 < |s| && s[intEnd] == '.' && IsDigit(s[intEnd + 1]) then Some(DigitRunEnd(s, intEnd + 1))
    else Some(intEnd)
  }

  /** Trying the expression at start position `i`: greedy digits, the optional
      fraction, greedy white space, then the unit. */
  function MatchAt(s: string, i: nat): (r: Option<nat>)
    requires i <= |s|
    ensures r.Some? ==> i < r.value <= |s|
  {
    match NumberEnd(s, i)
    case None => None
    case Some(e) => if UnitAt(s, SpaceRunEnd(s, e)) then Some(e) else None
  }

  /** Start positions are tried from `i` to the end, as a search with a regular expression does. */
  function FindFrom(s: string, i: nat): (r: Option<(nat, nat)>)
    requires i <= |s|
    ensures r.Some? ==> i <= r.value.0 < r.value.1 <= |s|
    decreases |s| - i
  {
    if i == |s| then None
    else match MatchAt(s, i)
      case Some(e) => Some((i, e))
      case None => FindFrom(s, i + 1)
  }

  /** The value `parseFloat` gives a number text, computed exactly. */
  function NumberValue(t: string): (v: real)
    ensures v >= 0.0
  {
    var p := DotIndex(t, 0);
    if p < |t| && AllDigits(t[..p]) && AllDigits(t[p + 1..])
    then DigitsValue(t[..p]) as real + DigitsValue(t[p + 1..]) as real / Pow10(|t| - p - 1) as real
    else if AllDigits(t) then DigitsValue(t) as real
    else 0.0
  }

  function DotIndex(t: string, k: nat): (p: nat)
    requires k <= |t|
    ensures k <= p <= |t| && (p < |t| ==> t[p] == '.')
    ensures forall j :: k <= j < p ==> t[j] != '.'
    decreases |t| - k
  {
    if k == |t| || t[k] == '.' then k else DotIndex(t, k + 1)
  }

  /** `parseHoursFromContent`: `null` (None) when nothing matches. */
  function ParseHours(content: string): (r: Option<real>)
    ensures r.Some? ==> r.value >= 0.0
  {
    match FindFrom(content, 0)
    case None => None
    case Some((i, e)) => Some(NumberValue(content[i..e]))
  }

  // ---------------------------------------------------------------------------
  // The scanner agrees with the regular expression
  // ---------------------------------------------------------------------------

  /** Whatever `MatchAt` returns is a match of the expression. */
  lemma MatchAtSound(s: string, i: nat)
    requires i <= |s| && MatchAt(s, i).Some?
    ensures RegexMatchAt(s, i, MatchAt(s, i).value)
  {
    var intEnd := DigitRunEnd(s, i);
    var e := NumberEnd(s, i).value;
    var w := SpaceRunEnd(s, e);
    var t := s[i..e];
    if e == intEnd {
      assert AllDigits(t) && |t| >= 1;
    } else {
      var p := intEnd - i;
      assert t[p] == '.';
      assert t[..p] == s[i..intEnd];
      assert t[p + 1..] == s[intEnd + 1..e];
    }
    assert e <= w <= |s| && AllSpaces(s[e..w]) && UnitAt(s, w);
  }

  /** The unit starts with a letter, so it is neither a digit, a dot nor white space. */
  lemma UnitStart(s: string, w: nat)
    requires w <= |s| && UnitAt(s, w)
    ensures w < |s| && (s[w] == 'h' || s[w] == 'H')
  {
    if MatchesAt(s, w, "hour") {
      assert Lower(s[w + 0]) == "hour"[0];
    } else {
      assert Lower(s[w + 0]) == "hr"[0];
    }
  }

  /** After a match's number comes white space or the unit, and then the unit. */
  lemma AfterNumber(s: string, e: nat, w: nat)
    requires e <= w <= |s| && AllSpaces(s[e..w]) && UnitAt(s, w)
    ensures e < |s| && !IsDigit(s[e]) && s[e] != '.'
    ensures SpaceRunEnd(s, e) == w
  {
    UnitStart(s, w);
    if e < w {
      assert s[e..w][0] == s[e];
    }
    SpaceRunEndUnique(s, e, w);
  }

  /** With a fraction, the number's integer digits end at the dot and its fraction digits at `e`. */
  lemma FractionRuns(s: string, i: nat, e: nat, p: nat)
    requires i <= e <= |s| && (e == |s| || !IsDigit(s[e]))
    requires 1 <= p < e - i - 1 && s[i + p] == '.'
    requires AllDigits(s[i..e][..p]) && AllDigits(s[i..e][p + 1..])
    ensures DigitRunEnd(s, i) == i + p
    ensures IsDigit(s[i + p + 1])
    ensures DigitRunEnd(s, i + p + 1) == e
  {
    var t := s[i..e];
    assert s[i..i + p] == t[..p];
    assert s[i + p + 1..e] == t[p + 1..];
    DigitRunEndUnique(s, i, i + p);
    assert s[i + p + 1] == t[p + 1];
    DigitRunEndUnique(s, i + p + 1, e);
  }

  /** A capture group without a fraction is the whole digit run at `i`. */
  lemma IntegerGroupEnd(s: string, i: nat, e: nat)
    requires i < e <= |s| && AllDigits(s[i..e]) && (e == |s| || (!IsDigit(s[e]) && s[e] != '.'))
    ensures NumberEnd(s, i) == Some(e)
  {
    DigitRunEndUnique(s, i, e);
  }

  /** A capture group with a fraction ends where the fraction's digit run ends. */
  lemma FractionGroupEnd(s: string, i: nat, e: nat, p: nat)
    requires i <= e <= |s| && (e == |s| || !IsDigit(s[e]))
    requires 1 <= p < e - i - 1 && s[i..e][p] == '.'
    requires AllDigits(s[i..e][..p]) && AllDigits(s[i..e][p + 1..])
    ensures NumberEnd(s, i) == Some(e)
  {
    assert s[i + p] == s[i..e][p];
    FractionRuns(s, i, e, p);
  }

  /** Every match of the expression at `i` is the one `MatchAt` finds: the
      capture group at a given start position is unique. */
  lemma MatchAtComplete(s: string, i: nat, e: nat)
    requires RegexMatchAt(s, i, e)
    ensures MatchAt(s, i) == Some(e)
  {
    var w :| e <= w <= |s| && AllSpaces(s[e..w]) && UnitAt(s, w);
    AfterNumber(s, e, w);
    var t := s[i..e];
    if |t| >= 1 && AllDigits(t) {
      IntegerGroupEnd(s, i, e);
    } else {
      var p :| 1 <= p < |t| - 1 && t[p] == '.' && AllDigits(t[..p]) && AllDigits(t[p + 1..]);
      FractionGroupEnd(s, i, e, p);
    }
  }

  /** No match starts at the end of the text: the number needs a digit. */
  lemma NoMatchAtEnd(s: string)
    ensures forall j': nat, e': nat :: |s| <= j' ==> !RegexMatchAt(s, j', e')
  {
    forall j': nat, e': nat | |s| <= j' ensures !RegexMatchAt(s, j', e') {
      if RegexMatchAt(s, j', e') {
        var w :| e' <= w <= |s| && AllSpaces(s[e'..w]) && UnitAt(s, w);
        UnitStart(s, w);
      }
    }
  }

  /** Where the scanner finds nothing, the expression matches nothing. */
  lemma NoMatchAt(s: string, i: nat)
    requires i <= |s| && MatchAt(s, i).None?
    ensures forall e': nat :: !RegexMatchAt(s, i, e')
  {
    forall e': nat ensures !RegexMatchAt(s, i, e') {
      if RegexMatchAt(s, i, e') { MatchAtComplete(s, i, e'); }
    }
  }

  /** The search returns the leftmost start position at which the expression
      matches, with that match's capture group; it returns nothing only when
      there is no match at or after `i`. */
  lemma {:induction false} FindFromLeftmost(s: string, i: nat)
    requires i <= |s|
    ensures FindFrom(s, i).Some? ==>
              var (j, e) := FindFrom(s, i).value;
              i <= j && RegexMatchAt(s, j, e) &&
              forall j': nat, e': nat :: i <= j' < j ==> !RegexMatchAt(s, j', e')
    ensures FindFrom(s, i).None? ==> forall j': nat, e': nat :: i <= j' ==> !RegexMatchAt(s, j', e')
    decreases |s| - i
  {
    if i == |s| {
      NoMatchAtEnd(s);
    } else if MatchAt(s, i).Some? {
      MatchAtSound(s, i);
    } else {
      FindFromLeftmost(s, i + 1);
      NoMatchAt(s, i);
      assert FindFrom(s, i) == FindFrom(s, i + 1);
      if FindFrom(s, i + 1).Some? {
        var (j, e) := FindFrom(s, i + 1).value;
        forall j': nat, e': nat | i <= j' < j ensures !RegexMatchAt(s, j', e') {
          if i < j' { assert i + 1 <= j' < j; }
        }
      } else {
        forall j': nat, e': nat | i <= j' ensures !RegexMatchAt(s, j', e') {
          if i < j' { assert i + 1 <= j'; }
        }
      }
    }
  }

  /** `parseHoursFromContent` returns the value of the leftmost match's number. */
  lemma ParseHoursSpec(content: string)
    ensures ParseHours(content).None? <==> forall j: nat, e: nat :: !RegexMatchAt(content, j, e)
    ensures ParseHours(content).Some? ==>
              exists j: nat, e: nat :: RegexMatchAt(content, j, e) && ParseHours(content).value == NumberValue(content[j..e]) &&
                             forall j': nat, e': nat :: j' < j ==> !RegexMatchAt(content, j', e')
  {
    FindFromLeftmost(content, 0);
    if FindFrom(content, 0).Some? {
      var (j, e) := FindFrom(content, 0).value;
      assert RegexMatchAt(content, j, e);
    }
  }

  /** The number of a group with a fraction is the integer part plus the
      fraction digits over a power of ten. */
  lemma NumberValueSpec(t: string, p: nat)
    requires 1 <= p < |t| - 1 && t[p] == '.' && AllDigits(t[..p]) && AllDigits(t[p + 1..])
    ensures NumberValue(t) == DigitsValue(t[..p]) as real + DigitsValue(t[p + 1..]) as real / Pow10(|t| - p - 1) as real
  {
    DotIndexFound(t, p);
  }

  lemma DotIndexFound(t: string, p: nat)
    requires 1 <= p < |t| && t[p] == '.' && AllDigits(t[..p])
    ensures DotIndex(t, 0) == p
  {
  }

  /** A group without a fraction is read as an integer. */
  lemma IntegerValue(t: string)
    requires AllDigits(t)
    ensures NumberValue(t) == DigitsValue(t) as real
  {
    assert DotIndex(t, 0) == |t|;
  }

  /** Start positions holding no digit are skipped by the search. */
  lemma {:induction false} SkipNonDigits(s: string, i: nat, j: nat)
    requires i <= j <= |s|
    requires forall k :: i <= k < j ==> !IsDigit(s[k])
    ensures FindFrom(s, i) == FindFrom(s, j)
    decreases j - i
  {
    if i < j {
      assert DigitRunEnd(s, i) == i;
      SkipNonDigits(s, i + 1, j);
    }
  }

  /** Text without any digit has no hour expression. */
  lemma NoDigitsNoHours(s: string)
    requires forall k :: 0 <= k < |s| ==> !IsDigit(s[k])
    ensures ParseHours(s) == None
  {
    SkipNonDigits(s, 0, |s|);
  }

  lemma ExampleNumberEnd(s: string)
    requires s == "Spent 2.5 hours reviewing the contract"
    ensures NumberEnd(s, 6) == Some(9)
  {
    assert DigitRunEnd(s, 7) == 7;
    assert DigitRunEnd(s, 6) == 7;
    assert DigitRunEnd(s, 9) == 9;
    assert DigitRunEnd(s, 8) == 9;
  }

  lemma ExampleUnit(s: string)
    requires s == "Spent 2.5 hours reviewing the contract"
    ensures SpaceRunEnd(s, 9) == 10 && UnitAt(s, 10)
  {
    assert SpaceRunEnd(s, 10) == 10;
    assert MatchesAt(s, 10, "hour");
  }

  lemma ExampleSlice(s: string)
    requires s == "Spent 2.5 hours reviewing the contract"
    ensures s[6..9] == "2.5"
  {
    assert s[6] == '2' && s[7] == '.' && s[8] == '5';
  }

  lemma ExampleValue()
    ensures NumberValue("2.5") == 2.5
  {
    NumberValueSpec("2.5", 1);
    assert "2.5"[..1] == "2" && "2.5"[2..] == "5";
    assert DigitsValue("2") == 2 && DigitsValue("5") == 5;
  }

  /** The worked example: "2.5 hours" in the body gives 2.5 hours. */
  lemma ExampleSpentHours(s: string)
    requires s == "Spent 2.5 hours reviewing the contract"
    ensures ParseHours(s) == Some(2.5)
  {
    SkipNonDigits(s, 0, 6);
    ExampleNumberEnd(s);
    ExampleUnit(s);
    assert MatchAt(s, 6) == Some(9);
    assert FindFrom(s, 0) == Some((6, 9));
    ExampleSlice(s);
    ExampleValue();
  }

  /** Text without an hour expression yields `null`. */
  lemma ExampleNoHours()
    ensures ParseHours("see attached") == None
  {
    NoDigitsNoHours("see attached");
  }
}
