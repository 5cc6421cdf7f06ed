/**
 * The pure helpers of the background script (chrome-extension/background.js):
 * `cleanSummary`, the unsaved-entry count behind the toolbar badge, the body
 * of a log request, and the settings written at installation.
 */
module Background {
  import opened Wrappers
  import opened JsText
  import opened Entries

  // ---------------------------------------------------------------------------
  // cleanSummary, step 1: /^\[.*?\]\s*\|\s*/
  // ---------------------------------------------------------------------------

  /** After the `]` at `p - 1`: white space, a `|`, white space; the end of that match. */
  function PipeEnd(s: string, p: nat): (r: Option<nat>)
    requires p <= |s|
    ensures r.Some? ==> p < r.value <= |s|
  {
    var q := SpaceRunEnd(s, p);
    if q < |s| && s[q] == '|' then Some(SpaceRunEnd(s, q + 1)) else None
  }

  /** The lazy `.*?\]` from index `k`: the first `]` (before any line terminator)
      after which the rest of the pattern matches; its index and the match end. */
  function CloseBracket(s: string, k: nat): (r: Option<(nat, nat)>)
    requires 1 <= k <= |s|
    ensures r.Some? ==> k <= r.value.0 < r.value.1 <= |s|
    decreases |s| - k
  {
    if k == |s| then None
    else if s[k] == ']' && PipeEnd(s, k + 1).Some? then Some((k, PipeEnd(s, k + 1).value))
    else if IsLineTerminator(s[k]) then None
    else CloseBracket(s, k + 1)
  }

  /** The prefix match at the start of the string, if any: the index of its `]` and its end. */
  function BracketPrefix(s: string): (r: Option<(nat, nat)>)
    ensures r.Some? ==> r.value.1 <= |s|
  {
    if |s| >= 1 && s[0] == '[' then CloseBracket(s, 1) else None
  }

  function StripBracketPrefix(s: string): (r: string)
    ensures |s| == 0 || s[0] != '[' ==> r == s
    ensures BracketPrefix(s).None? ==> r == s
  {
    match BracketPrefix(s)
    case None => s
    case Some((_, e)) => s[e..]
  }

  /** The shape the prefix pattern describes: `[`, text without a line
      terminator, `]` at `c`, white space, `|` at `q`, the longest run of white space after it up to `e`. */
  ghost predicate PrefixShape(s: string, c: nat, q: nat, e: nat) {
    1 <= c < q < e <= |s| && s[0] == '[' && s[c] == ']' && s[q] == '|' &&
    (forall k :: 1 <= k < c ==> !IsLineTerminator(s[k])) &&
    AllSpaces(s[c + 1..q]) && AllSpaces(s[q + 1..e]) && (e == |s| || !IsSpace(s[e]))
  }

  lemma PipeEndShape(s: string, c: nat, q: nat, e: nat)
    requires c < q < e <= |s| && s[q] == '|'
    requires AllSpaces(s[c + 1..q]) && AllSpaces(s[q + 1..e]) && (e == |s| || !IsSpace(s[e]))
    ensures PipeEnd(s, c + 1) == Some(e)
  {
    SpaceRunEndUnique(s, c + 1, q);
    SpaceRunEndUnique(s, q + 1, e);
  }

  lemma {:induction false} CloseBracketSound(s: string, k: nat)
    requires 1 <= k <= |s| && CloseBracket(s, k).Some?
    ensures var (c, e) := CloseBracket(s, k).value;
            s[c] == ']' && PipeEnd(s, c + 1) == Some(e) &&
            forall j :: k <= j < c ==> !IsLineTerminator(s[j])
    decreases |s| - k
  {
    if !(s[k] == ']' && PipeEnd(s, k + 1).Some?) {
      assert !IsLineTerminator(s[k]) && CloseBracket(s, k) == CloseBracket(s, k + 1);
      CloseBracketSound(s, k + 1);
      var c := CloseBracket(s, k + 1).value.0;
      forall j | k <= j < c ensures !IsLineTerminator(s[j]) {
        if k < j { assert k + 1 <= j < c; }
      }
    }
  }

  lemma {:induction false} CloseBracketLeast(s: string, k: nat, c: nat, e: nat)
    requires 1 <= k <= c < |s| && s[c] == ']' && PipeEnd(s, c + 1) == Some(e)
    requires forall j :: k <= j < c ==> !IsLineTerminator(s[j])
    ensures CloseBracket(s, k).Some?
    ensures CloseBracket(s, k).value.0 <= c
    ensures CloseBracket(s, k).value.0 == c ==> CloseBracket(s, k).value.1 == e
    decreases c - k
  {
    if k < c && !(s[k] == ']' && PipeEnd(s, k + 1).Some?) {
      CloseBracketLeast(s, k + 1, c, e);
    }
  }

  /** A removed prefix has exactly the pattern's shape, `s[e..]` is what remains. */
  lemma BracketPrefixSound(s: string)
    requires BracketPrefix(s).Some?
    ensures var (c, e) := BracketPrefix(s).value;
            StripBracketPrefix(s) == s[e..] && exists q :: PrefixShape(s, c, q, e)
  {
    var (c, e) := BracketPrefix(s).value;
    CloseBracketSound(s, 1);
    var q := SpaceRunEnd(s, c + 1);
    assert PrefixShape(s, c, q, e);
  }

  /** Whenever the string starts with the pattern's shape, a prefix is removed,
      and its `]` is the first one that completes the pattern (the lazy `.*?`). */
  lemma BracketPrefixLeast(s: string, c: nat, q: nat, e: nat)
    requires PrefixShape(s, c, q, e)
    ensures BracketPrefix(s).Some?
    ensures BracketPrefix(s).value.0 <= c
    ensures BracketPrefix(s).value.0 == c ==> StripBracketPrefix(s) == s[e..]
  {
    PipeEndShape(s, c, q, e);
    CloseBracketLeast(s, 1, c, e);
  }

  /** A prefix is removed exactly when the string starts with the pattern's
      shape; text without that shape, even when it starts with `[`, is kept whole. */
  lemma BracketPrefixExact(s: string)
    ensures BracketPrefix(s).Some? <==> exists c, q, e :: PrefixShape(s, c, q, e)
    ensures (forall c, q, e :: !PrefixShape(s, c, q, e)) ==> StripBracketPrefix(s) == s
  {
    forall c, q, e | PrefixShape(s, c, q, e) ensures BracketPrefix(s).Some? {
      BracketPrefixLeast(s, c, q, e);
    }
    if BracketPrefix(s).Some? {
      BracketPrefixSound(s);
      var (c, e) := BracketPrefix(s).value;
      var q :| PrefixShape(s, c, q, e);
    }
  }

  /** Text whose `]` is not followed by a `|` is unchanged. */
  lemma UnclosedBracketKept()
    ensures StripBracketPrefix("[Client] notes") == "[Client] notes"
  {
    var s := "[Client] notes";
    assert PipeEnd(s, 8) == None by { assert SpaceRunEnd(s, 8) == 9; }
    assert CloseBracket(s, 7) == CloseBracket(s, 8);
  }

  // ---------------------------------------------------------------------------
  // cleanSummary, step 2: /Professional Legal Billable Summary for.*?:?/gi
  // ---------------------------------------------------------------------------

  const Title := "professional legal billable summary for"

  /** What follows an occurrence of `pat` at the start of `s`: the lazy
      `.*?` takes nothing, so only a colon right after it goes with it. */
  function AfterMatch(s: string, pat: string): (r: string)
    requires |pat| > 0 && MatchesAt(s, 0, pat)
    ensures |r| < |s|
    ensures |s| > |pat| && s[|pat|] == ':' ==> r == s[|pat| + 1..]
    ensures !(|s| > |pat| && s[|pat|] == ':') ==> r == s[|pat|..]
  {
    var rest := s[|pat|..];
    if rest != [] && rest[0] == ':' then rest[1..] else rest
  }

  /** The global replacement of `pat` followed by an optional colon: scanning
      left to right, each occurrence is removed and scanning resumes after it. */
  function RemoveAll(s: string, pat: string): (r: string)
    requires |pat| > 0
    ensures |r| <= |s|
    decreases |s|
  {
    if s == [] then []
    else if MatchesAt(s, 0, pat) then RemoveAll(AfterMatch(s, pat), pat)
    else [s[0]] + RemoveAll(s[1..], pat)
  }

  function RemoveTitle(s: string): (r: string)
    ensures |r| <= |s|
  {
    RemoveAll(s, Title)
  }

  lemma MatchesAtShift(s: string, i: nat, p: string)
    requires 1 <= |s|
    ensures MatchesAt(s[1..], i, p) == MatchesAt(s, i + 1, p)
  {
    if MatchesAt(s, i + 1, p) {
      forall k | 0 <= k < |p| ensures Lower(s[1..][i + k]) == p[k] {
        assert s[1..][i + k] == s[i + 1 + k];
      }
    }
    if MatchesAt(s[1..], i, p) {
      forall k | 0 <= k < |p| ensures Lower(s[i + 1 + k]) == p[k] {
        assert s[1..][i + k] == s[i + 1 + k];
      }
    }
  }

  /** Text without an occurrence of the pattern is left as it is. */
  lemma {:induction false} RemoveAllNoOccurrence(s: string, pat: string)
    requires |pat| > 0
    requires forall i :: 0 <= i < |s| ==> !MatchesAt(s, i, pat)
    ensures RemoveAll(s, pat) == s
    decreases |s|
  {
    if s != [] {
      forall i | 0 <= i < |s[1..]| ensures !MatchesAt(s[1..], i, pat) {
        MatchesAtShift(s, i, pat);
      }
      RemoveAllNoOccurrence(s[1..], pat);
    }
  }

  /** No occurrence of `pat` starts before index `i`, stated one character at a time. */
  predicate NoMatchBefore(s: string, pat: string, i: nat)
    decreases i
  {
    i == 0 || (s != [] && !MatchesAt(s, 0, pat) && NoMatchBefore(s[1..], pat, i - 1))
  }

  lemma {:induction false} NoMatchBeforeFromAll(s: string, pat: string, i: nat)
    requires i <= |s|
    requires forall j :: 0 <= j < i ==> !MatchesAt(s, j, pat)
    ensures NoMatchBefore(s, pat, i)
    decreases i
  {
    if i > 0 {
      forall j | 0 <= j < i - 1 ensures !MatchesAt(s[1..], j, pat) {
        MatchesAtShift(s, j, pat);
      }
      NoMatchBeforeFromAll(s[1..], pat, i - 1);
    }
  }

  lemma MatchesAtSuffix(s: string, i: nat, pat: string)
    requires i <= |s| && MatchesAt(s, i, pat)
    ensures MatchesAt(s[i..], 0, pat)
  {
    forall k | 0 <= k < |pat| ensures Lower(s[i..][k]) == pat[k] {
      assert s[i..][k] == s[i + k];
    }
  }

  lemma PrefixCons(s: string, i: nat)
    requires 1 <= i <= |s|
    ensures s[..i] == [s[0]] + s[1..][..i - 1]
  {
  }

  lemma RemoveAllStep(s: string, pat: string)
    requires |pat| > 0 && s != [] && !MatchesAt(s, 0, pat)
    ensures RemoveAll(s, pat) == [s[0]] + RemoveAll(s[1..], pat)
  {
  }

  /** The leftmost occurrence at `i` is removed (with a colon right after it),
      the text before it is kept, and the pass continues after it. */
  lemma {:induction false} RemoveAllLeftmost(s: string, pat: string, i: nat)
    requires |pat| > 0
    requires i < |s| && MatchesAt(s[i..], 0, pat)
    requires NoMatchBefore(s, pat, i)
    ensures RemoveAll(s, pat) == s[..i] + RemoveAll(AfterMatch(s[i..], pat), pat)
    decreases i
  {
    if i == 0 {
      assert s[i..] == s;
    } else {
      var t := s[1..];
      assert t[i - 1..] == s[i..];
      RemoveAllLeftmost(t, pat, i - 1);
      var rest := RemoveAll(AfterMatch(s[i..], pat), pat);
      RemoveAllStep(s, pat);
      PrefixCons(s, i);
      ConsAssoc(s[0], t[..i - 1], rest);
    }
  }

  lemma ConsAssoc<T>(x: T, a: seq<T>, b: seq<T>)
    ensures [x] + (a + b) == ([x] + a) + b
  {
  }

  /** The title step: text without the title is unchanged; otherwise the text
      before the leftmost occurrence is kept and the title (with a colon right after it) is dropped. */
  lemma RemoveTitleSpec(s: string, i: nat)
    ensures (forall j :: 0 <= j < |s| ==> !MatchesAt(s, j, Title)) ==> RemoveTitle(s) == s
    ensures i < |s| && MatchesAt(s, i, Title) && (forall j :: 0 <= j < i ==> !MatchesAt(s, j, Title)) ==>
              RemoveTitle(s) == s[..i] + RemoveTitle(AfterMatch(s[i..], Title))
  {
    if forall j :: 0 <= j < |s| ==> !MatchesAt(s, j, Title) {
      RemoveAllNoOccurrence(s, Title);
    }
    if i < |s| && MatchesAt(s, i, Title) && (forall j :: 0 <= j < i ==> !MatchesAt(s, j, Title)) {
      MatchesAtSuffix(s, i, Title);
      NoMatchBeforeFromAll(s, Title, i);
      RemoveAllLeftmost(s, Title, i);
    }
  }

  /** The same step with the removed span written out: the title at `i`, and
      the colon at `i + |Title|` when there is one; everything after it stays. */
  lemma TitleDropped(s: string, i: nat)
    requires i < |s| && MatchesAt(s, i, Title) && (forall j :: 0 <= j < i ==> !MatchesAt(s, j, Title))
    ensures var e := i + |Title|;
            e <= |s| && RemoveTitle(s) == s[..i] + RemoveTitle(if e < |s| && s[e] == ':' then s[e + 1..] else s[e..])
  {
    RemoveTitleSpec(s, i);
    MatchesAtSuffix(s, i, Title);
    var t := s[i..];
    var e := i + |Title|;
    assert t[|Title|..] == s[e..];
    if e < |s| {
      assert t[|Title|] == s[e];
      assert t[|Title| + 1..] == s[e + 1..];
    }
  }

  // ---------------------------------------------------------------------------
  // cleanSummary, step 3: /^Email Date\s*[:|-]?\s*/gi
  // ---------------------------------------------------------------------------

  const EmailDate := "email date"

  predicate IsDateSeparator(c: char) {
    c == ':' || c == '|' || c == '-'
  }

  /** What `\s*[:|-]?\s*` may consume: white space, or white space around one separator. */
  ghost predicate DateGap(g: string) {
    AllSpaces(g) ||
    exists p :: 0 <= p < |g| && IsDateSeparator(g[p]) && AllSpaces(g[..p]) && AllSpaces(g[p + 1..])
  }

  /** The label, the gap after it, and what remains; a separator left at the
      front of the rest means none was consumed, so the gap is not only white space. */
  function StripEmailDate(s: string): (r: string)
    ensures !MatchesAt(s, 0, EmailDate) ==> r == s
    ensures |r| <= |s| && r == s[|s| - |r|..]
    ensures MatchesAt(s, 0, EmailDate) ==>
              |r| <= |s| - |EmailDate| && (r == [] || !IsSpace(r[0])) &&
              DateGap(s[|EmailDate|..|s| - |r|]) &&
              (AllSpaces(s[|EmailDate|..|s| - |r|]) ==> r == [] || !IsDateSeparator(r[0]))
  {
    if MatchesAt(s, 0, EmailDate) then
      var p := SpaceRunEnd(s, |EmailDate|);
      if p < |s| && IsDateSeparator(s[p]) then
        var q := SpaceRunEnd(s, p + 1);
        SeparatorGap(s, |EmailDate|, p, q);
        s[q..]
      else
        s[p..]
    else s
  }

  lemma SeparatorGap(s: string, a: nat, p: nat, q: nat)
    requires a <= p < q <= |s| && IsDateSeparator(s[p])
    requires AllSpaces(s[a..p]) && AllSpaces(s[p + 1..q])
    ensures DateGap(s[a..q]) && !AllSpaces(s[a..q])
  {
    var g := s[a..q];
    assert g[p - a] == s[p];
    assert g[..p - a] == s[a..p];
    assert g[p - a + 1..] == s[p + 1..q];
  }

  // ---------------------------------------------------------------------------
  // cleanSummary, step 5: /\n+/g replaced by one space
  // ---------------------------------------------------------------------------

  function NewlineRunEnd(s: string, i: nat): (j: nat)
    requires i <= |s|
    ensures i <= j <= |s| && (j == |s| || s[j] != '\n')
    ensures forall k :: i <= k < j ==> s[k] == '\n'
    decreases |s| - i
  {
    if i == |s| || s[i] != '\n' then i else NewlineRunEnd(s, i + 1)
  }

  function CollapseNewlines(s: string): (r: string)
    ensures forall k :: 0 <= k < |r| ==> r[k] != '\n'
    ensures |r| <= |s|
    decreases |s|
  {
    if s == [] then []
    else if s[0] == '\n' then " " + CollapseNewlines(s[NewlineRunEnd(s, 1)..])
    else [s[0]] + CollapseNewlines(s[1..])
  }

  /** Text without a newline is left as it is. */
  lemma {:induction false} CollapseNoNewline(s: string)
    requires forall k :: 0 <= k < |s| ==> s[k] != '\n'
    ensures CollapseNewlines(s) == s
    decreases |s|
  {
    if s != [] {
      CollapseNoNewline(s[1..]);
    }
  }

  lemma {:induction false} NewlineRunEndAt(s: string, i: nat, j: nat)
    requires i <= j <= |s| && (j == |s| || s[j] != '\n')
    requires forall k :: i <= k < j ==> s[k] == '\n'
    ensures NewlineRunEnd(s, i) == j
    decreases j - i
  {
    if i < j {
      NewlineRunEndAt(s, i + 1, j);
    }
  }

  /** Each maximal run of newlines becomes exactly one space, and the
      characters before it are kept as they are. */
  lemma {:induction false} CollapseRun(x: string, nl: string, y: string)
    requires forall k :: 0 <= k < |x| ==> x[k] != '\n'
    requires |nl| > 0 && forall k :: 0 <= k < |nl| ==> nl[k] == '\n'
    requires y == [] || y[0] != '\n'
    ensures CollapseNewlines(x + nl + y) == x + " " + CollapseNewlines(y)
    decreases |x|
  {
    var t := x + nl + y;
    if x == [] {
      assert t == nl + y;
      NewlineRunEndAt(t, 1, |nl|);
      assert t[|nl|..] == y;
    } else {
      assert t[0] == x[0];
      assert t[1..] == x[1..] + nl + y;
      CollapseRun(x[1..], nl, y);
      assert x + " " + CollapseNewlines(y) == [x[0]] + (x[1..] + " " + CollapseNewlines(y));
    }
  }

  /** A last character that is not a newline stays the last character. */
  lemma {:induction false} CollapseKeepsLast(s: string)
    requires s != [] && s[|s| - 1] != '\n'
    ensures CollapseNewlines(s) != [] && CollapseNewlines(s)[|CollapseNewlines(s)| - 1] == s[|s| - 1]
    decreases |s|
  {
    if s[0] == '\n' {
      var j := NewlineRunEnd(s, 1);
      assert j < |s|;
      CollapseKeepsLast(s[j..]);
    } else if |s| > 1 {
      CollapseKeepsLast(s[1..]);
    }
  }

  /** On trimmed text, collapsing newlines keeps both ends free of white space,
      so the last `.trim()` of `cleanSummary` never removes anything. */
  lemma FinalTrimRedundant(x: string)
    ensures Trim(CollapseNewlines(Trim(x))) == CollapseNewlines(Trim(x))
  {
    var t := Trim(x);
    if t != [] {
      CollapseKeepsLast(t);
    }
    TrimUnchanged(CollapseNewlines(t));
  }

  // ---------------------------------------------------------------------------
  // cleanSummary
  // ---------------------------------------------------------------------------

  /** Trimming keeps a string free of newlines. */
  lemma TrimNoNewline(s: string)
    requires forall k :: 0 <= k < |s| ==> s[k] != '\n'
    ensures forall k :: 0 <= k < |Trim(s)| ==> Trim(s)[k] != '\n'
  {
    var r := Trim(s);
    var i := SpaceRunEnd(s, 0);
    forall k | 0 <= k < |r| ensures r[k] != '\n' {
      assert r[k] == s[i + k];
    }
  }

  /** The steps before the newline collapse: prefix, title, date label, trim. */
  function CleanHead(summary: string): string {
    Trim(StripEmailDate(RemoveTitle(StripBracketPrefix(summary))))
  }

  function CleanSummary(summary: string): (r: string)
    ensures forall k :: 0 <= k < |r| ==> r[k] != '\n'
    ensures r == [] || (!IsSpace(r[0]) && !IsSpace(r[|r| - 1]))
  {
    var collapsed := CollapseNewlines(CleanHead(summary));
    TrimNoNewline(collapsed);
    Trim(collapsed)
  }

  // ---------------------------------------------------------------------------
  // Badge
  // ---------------------------------------------------------------------------

  /** `!entry.synced`: a missing or false `synced` counts as not synced. */
  predicate Unsynced(e: StoredEntry) {
    e.synced != Some(true)
  }

  /** `entries.filter(entry => !entry.synced).length`. */
  function UnsavedCount(entries: seq<StoredEntry>): (n: nat)
    ensures n <= |entries|
  {
    if entries == [] then 0
    else UnsavedCount(entries[..|entries| - 1]) + (if Unsynced(entries[|entries| - 1]) then 1 else 0)
  }

  function UnsyncedPositions(entries: seq<StoredEntry>): set<nat> {
    set k: nat | k < |entries| && Unsynced(entries[k])
  }

  /** The count is the number of positions holding an unsynced entry. */
  lemma {:induction false} UnsavedCountIsPositions(entries: seq<StoredEntry>)
    ensures UnsavedCount(entries) == |UnsyncedPositions(entries)|
  {
    if entries != [] {
      var init := entries[..|entries| - 1];
      UnsavedCountIsPositions(init);
      var n := |init|;
      if Unsynced(entries[n]) {
        assert UnsyncedPositions(entries) == UnsyncedPositions(init) + {n};
      } else {
        assert UnsyncedPositions(entries) == UnsyncedPositions(init);
      }
    }
  }

  /** Every entry written by `saveLocally` lacks `synced`, so each save raises the count by one. */
  lemma LocalSaveRaisesCount(entries: seq<StoredEntry>, d: Draft, now: nat)
    ensures UnsavedCount(entries + [LocalEntry(d, now)]) == UnsavedCount(entries) + 1
  {
    assert (entries + [LocalEntry(d, now)])[..|entries|] == entries;
  }

  /** The badge text, or None when the badge is left alone. */
  function BadgeText(entries: seq<StoredEntry>): (r: Option<string>)
    ensures r.Some? <==> UnsavedCount(entries) > 0
    ensures r.Some? ==> AllDigits(r.value) && DigitsValue(r.value) == UnsavedCount(entries)
    ensures r.Some? ==> r.value[0] != '0'
  {
    var n := UnsavedCount(entries);
    NatToStringValue(n);
    if n > 0 then Some(NatToString(n)) else None
  }

  /** The badge is set exactly when some entry is unsynced, and shows the count in decimal. */
  lemma BadgeSpec(entries: seq<StoredEntry>)
    ensures BadgeText(entries).Some? <==> exists k :: 0 <= k < |entries| && Unsynced(entries[k])
    ensures BadgeText(entries).Some? ==>
              AllDigits(BadgeText(entries).value) && DigitsValue(BadgeText(entries).value) == UnsavedCount(entries)
  {
    UnsavedCountIsPositions(entries);
    if exists k :: 0 <= k < |entries| && Unsynced(entries[k]) {
      var k :| 0 <= k < |entries| && Unsynced(entries[k]);
      assert k in UnsyncedPositions(entries);
    } else {
      assert UnsyncedPositions(entries) == {};
    }
    NatToStringValue(UnsavedCount(entries));
  }

  // ---------------------------------------------------------------------------
  // Log request and settings
  // ---------------------------------------------------------------------------

  /** `billableData` as the message router passes it on. */
  datatype LogRequest = LogRequest(recipient: string, subject: string, content: string, summary: string,
                                   duration: real, rate: Option<real>)

  /** `rate || 350`: a missing or zero rate falls back to 350. */
  function RateOrDefault(rate: Option<real>): (r: real)
    ensures r != 0.0
    ensures rate.Some? && rate.value != 0.0 ==> r == rate.value
    ensures rate.None? || rate == Some(0.0) ==> r == 350.0
  {
    if rate.Some? && rate.value != 0.0 then rate.value else 350.0
  }

  /** The body `saveToPracticePanther` in the background script sends. */
  function LogPayloadOf(b: LogRequest): (p: LogPayload)
    ensures p.timeSpent == b.duration
    ensures p.source == Email && p.status == Logged
    ensures p.recipient == b.recipient && p.subject == b.subject && p.content == b.content && p.summary == b.summary
  {
    LogPayload(b.recipient, b.subject, b.content, b.summary, b.duration, Email, Logged, RateOrDefault(b.rate))
  }

  datatype Settings = Settings(autoTracking: bool, aiSummaries: bool, defaultRate: real)

  /** The settings written when the extension is installed. */
  function DefaultSettings(): (s: Settings)
    ensures s.autoTracking && s.aiSummaries
    ensures s.defaultRate == 350.0 && s.defaultRate == RateOrDefault(None)
  {
    Settings(true, true, 350.0)
  }

  /** A request without a usable rate is logged at the installed default rate, and a logged rate is never zero. */
  lemma LogRateSpec(b: LogRequest)
    ensures LogPayloadOf(b).rate != 0.0
    ensures b.rate.Some? && b.rate.value != 0.0 ==> LogPayloadOf(b).rate == b.rate.value
    ensures b.rate.None? || b.rate == Some(0.0) ==> LogPayloadOf(b).rate == DefaultSettings().defaultRate == 350.0
    ensures DefaultSettings().autoTracking && DefaultSettings().aiSummaries
  {
  }
}
