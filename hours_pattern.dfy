/**
 * The time-range pattern of the opening-hours evaluator,
 *   (\d{1,2}):(\d{2})\s*(?:AM|PM|am|pm)?\s*[-–]\s*(\d{1,2}):(\d{2})\s*(?:AM|PM|am|pm)?
 * searched for anywhere in a range string, as a scanner. `MatchAt` is the
 * pattern tried at one start position with the regular-expression engine's
 * backtracking worked out; `Search` is the leftmost match and yields the four
 * captured numbers.
 */
module HoursPattern {
  import opened Wrappers
  import opened Text

  /** The four capture groups of a match, as the numbers `parseInt` makes of them. */
  datatype Match = Match(openHour: nat, openMinute: nat, closeHour: nat, closeMinute: nat)

  predicate IsDigit(c: char) {
    '0' <= c <= '9'
  }

  function DigitValue(c: char): (d: nat)
    requires IsDigit(c)
    ensures d < 10
  {
    c as int - '0' as int
  }

  /** The hyphen or the en dash, the class `[-–]`. */
  predicate IsDash(c: char) {
    c == '-' || c == '\U{2013}'
  }

  /** An optional `AM|PM|am|pm` group that can start at `p`. */
  predicate MeridiemAt(s: string, p: nat) {
    p + 2 <= |s| && s[p..p + 2] in {"AM", "PM", "am", "pm"}
  }

  /** The end of the run of white space, `\s*`, starting at `p`. */
  function SkipSpace(s: string, p: nat): (q: nat)
    requires p <= |s|
    ensures p <= q <= |s|
    ensures forall k :: p <= k < q ==> IsSpace(s[k])
    ensures q < |s| ==> !IsSpace(s[q])
    decreases |s| - p
  {
    if p < |s| && IsSpace(s[p]) then SkipSpace(s, p + 1) else p
  }

  /**
   * `(\d{1,2}):` at `p`: the hour and the position after the colon. Greedy
   * matching takes two digits when there are two; falling back to one digit
   * cannot succeed then, because the character after it is a digit and not a
   * colon.
   */
  function HourAt(s: string, p: nat): (r: Option<(nat, nat)>)
    ensures r.Some? ==> r.value.0 < 100 && p + 2 <= r.value.1 <= p + 3 && r.value.1 <= |s|
  {
    if p < |s| && IsDigit(s[p]) then
      if p + 1 < |s| && IsDigit(s[p + 1]) then
        if p + 2 < |s| && s[p + 2] == ':' then
          Some((10 * DigitValue(s[p]) + DigitValue(s[p + 1]), p + 3))
        else None
      else if p + 1 < |s| && s[p + 1] == ':' then
        Some((DigitValue(s[p]), p + 2))
      else None
    else None
  }

  /** `(\d{2})` at `p`: the minute and the position after it. */
  function MinuteAt(s: string, p: nat): (r: Option<(nat, nat)>)
    ensures r.Some? ==> r.value.0 < 100 && r.value.1 == p + 2 <= |s|
  {
    if p + 1 < |s| && IsDigit(s[p]) && IsDigit(s[p + 1]) then
      Some((10 * DigitValue(s[p]) + DigitValue(s[p + 1]), p + 2))
    else None
  }

  /**
   * `\s*(?:AM|PM|am|pm)?\s*[-–]\s*` at `p`: the position after the white space
   * that follows the dash. A marker, when present, cannot be skipped to reach
   * the dash, since it is not white space.
   */
  function SeparatorAt(s: string, p: nat): (r: Option<nat>)
    requires p <= |s|
    ensures r.Some? ==> p < r.value <= |s|
  {
    var q := SkipSpace(s, p);
    if q < |s| && IsDash(s[q]) then Some(SkipSpace(s, q + 1))
    else if MeridiemAt(s, q) then
      var q' := SkipSpace(s, q + 2);
      if q' < |s| && IsDash(s[q']) then Some(SkipSpace(s, q' + 1)) else None
    else None
  }

  /**
   * The pattern tried at start position `p`: the opening time, the separator,
   * the closing time. The trailing optional marker can always match the empty
   * string, so it decides nothing.
   */
  function MatchAt(s: string, p: nat): Option<Match> {
    match HourAt(s, p)
    case None => None
    case Some((openHour, p1)) => MatchFromOpenMinute(s, openHour, p1)
  }

  function MatchFromOpenMinute(s: string, openHour: nat, p1: nat): Option<Match> {
    match MinuteAt(s, p1)
    case None => None
    case Some((openMinute, p2)) =>
      match SeparatorAt(s, p2)
      case None => None
      case Some(p3) => MatchFromCloseHour(s, openHour, openMinute, p3)
  }

  function MatchFromCloseHour(s: string, openHour: nat, openMinute: nat, p3: nat): Option<Match> {
    match HourAt(s, p3)
    case None => None
    case Some((closeHour, p4)) =>
      match MinuteAt(s, p4)
      case None => None
      case Some((closeMinute, _)) => Some(Match(openHour, openMinute, closeHour, closeMinute))
  }

  /** Every number the pattern captures has at most two digits. */
  lemma MatchInRange(s: string, p: nat)
    ensures MatchAt(s, p).Some? ==> p < |s| && InPatternRange(MatchAt(s, p).value)
  {
  }

  /** The pattern tried at `from`, `from + 1`, ... until it matches. */
  function SearchFrom(s: string, from: nat): Option<Match>
    decreases |s| - from
  {
    if from >= |s| then None
    else if MatchAt(s, from).Some? then MatchAt(s, from)
    else SearchFrom(s, from + 1)
  }

  /** `range.match(pattern)`: the match at the leftmost position where the pattern matches. */
  function Search(s: string): Option<Match> {
    SearchFrom(s, 0)
  }

  /** The pattern matches at no position from `from` up to `to`. */
  ghost predicate NoMatchBetween(s: string, from: nat, to: nat) {
    forall q :: from <= q < to ==> MatchAt(s, q).None?
  }

  /** The search finds nothing exactly when the pattern matches at no position. */
  lemma {:induction false} SearchFromNone(s: string, from: nat)
    ensures SearchFrom(s, from).None? <==> NoMatchBetween(s, from, |s|)
    decreases |s| - from
  {
    if from < |s| && MatchAt(s, from).None? {
      SearchFromNone(s, from + 1);
      assert NoMatchBetween(s, from + 1, |s|) <==> NoMatchBetween(s, from, |s|);
    }
  }

  /** Every time in the pattern has a colon, so a string without one never matches. */
  lemma NoColonNoMatch(s: string)
    requires ':' !in s
    ensures Search(s).None?
  {
    forall q | 0 <= q < |s|
      ensures MatchAt(s, q).None?
    {
      assert HourAt(s, q).None?;
    }
    SearchFromNone(s, 0);
  }

  /** A match found is the one at the first position where the pattern matches. */
  lemma {:induction false} SearchFromSome(s: string, from: nat)
    requires SearchFrom(s, from).Some?
    ensures exists p :: from <= p < |s| && SearchFrom(s, from) == MatchAt(s, p) && NoMatchBetween(s, from, p)
    decreases |s| - from
  {
    if MatchAt(s, from).Some? {
      assert NoMatchBetween(s, from, from);
    } else {
      SearchFromSome(s, from + 1);
      var p :| from + 1 <= p < |s| && SearchFrom(s, from + 1) == MatchAt(s, p) && NoMatchBetween(s, from + 1, p);
      assert NoMatchBetween(s, from, p);
    }
  }

  /** The first position where the pattern matches decides the match. */
  lemma {:induction false} SearchFromFirstMatch(s: string, from: nat, p: nat)
    requires from <= p < |s| && MatchAt(s, p).Some?
    requires NoMatchBetween(s, from, p)
    ensures SearchFrom(s, from) == MatchAt(s, p)
    decreases p - from
  {
    if from < p {
      SearchFromFirstMatch(s, from + 1, p);
    }
  }

  // ---------------------------------------------------------------------------
  // Rendering a range in the pattern's format, and reading it back
  // ---------------------------------------------------------------------------

  function DigitChar(d: nat): (c: char)
    requires d < 10
    ensures IsDigit(c) && DigitValue(c) == d
  {
    ('0' as int + d) as char
  }

  /** An hour written with one digit below ten, with two otherwise. */
  function HourText(h: nat): string
    requires h < 100
  {
    if h < 10 then [DigitChar(h)] else [DigitChar(h / 10), DigitChar(h % 10)]
  }

  /** A minute written with two digits. */
  function MinuteText(m: nat): string
    requires m < 100
  {
    [DigitChar(m / 10), DigitChar(m % 10)]
  }

  predicate IsMarker(marker: string) {
    marker in {"", "am", "pm", "AM", "PM"}
  }

  predicate InPatternRange(m: Match) {
    m.openHour < 100 && m.openMinute < 100 && m.closeHour < 100 && m.closeMinute < 100
  }

  /** `H:MM`: a time of day written the way the pattern reads it. */
  function TimeText(h: nat, m: nat): string
    requires h < 100 && m < 100
  {
    HourText(h) + ":" + MinuteText(m)
  }

  /** `H:MM<marker> - H:MM<marker>`, the way opening hours are usually written. */
  function Render(m: Match, marker: string): string
    requires InPatternRange(m) && IsMarker(marker)
  {
    TimeText(m.openHour, m.openMinute) + marker + " - " + TimeText(m.closeHour, m.closeMinute) + marker
  }

  /** Reading `TimeText(h, m)` at `p` gives back `h` and then `m`. */
  lemma {:induction false} TimeTextRead(s: string, p: nat, h: nat, m: nat)
    requires h < 100 && m < 100
    requires p + |TimeText(h, m)| <= |s| && s[p..p + |TimeText(h, m)|] == TimeText(h, m)
    ensures HourAt(s, p) == Some((h, p + |HourText(h)| + 1))
    ensures MinuteAt(s, p + |HourText(h)| + 1) == Some((m, p + |TimeText(h, m)|))
  {
    var t := TimeText(h, m);
    assert forall k :: 0 <= k < |t| ==> s[p + k] == t[k];
    var n := |HourText(h)|;
    assert t[0] == HourText(h)[0] && t[n] == ':';
    assert t[n + 1] == MinuteText(m)[0] && t[n + 2] == MinuteText(m)[1];
    if h >= 10 {
      assert t[1] == HourText(h)[1];
    }
  }

  /** Reading `<marker> - ` at `p`, followed by a digit, ends at that digit. */
  lemma SeparatorRead(s: string, p: nat, marker: string)
    requires IsMarker(marker)
    requires p + |marker| + 3 < |s| && s[p..p + |marker| + 3] == marker + " - "
    requires IsDigit(s[p + |marker| + 3])
    ensures SeparatorAt(s, p) == Some(p + |marker| + 3)
  {
    var n := |marker|;
    var w := s[p..p + n + 3];
    assert s[p + n] == w[n] == ' ';
    assert s[p + n + 1] == w[n + 1] == '-';
    assert s[p + n + 2] == w[n + 2] == ' ';
    DashRead(s, p + n);
    if marker != "" {
      assert s[p] == w[0] == marker[0] && s[p + 1] == w[1] == marker[1];
      MarkerRead(s, p, marker);
    }
  }

  /** `" - "` followed by a digit: white space, the dash, white space. */
  lemma DashRead(s: string, q: nat)
    requires q + 3 < |s| && s[q] == ' ' && s[q + 1] == '-' && s[q + 2] == ' ' && IsDigit(s[q + 3])
    ensures SkipSpace(s, q) == q + 1 && IsDash(s[q + 1]) && SkipSpace(s, q + 2) == q + 3
  {
    assert SkipSpace(s, q + 3) == q + 3;
  }

  /** A marker at `p` is neither white space nor a dash, and the `(?:AM|PM|am|pm)` group takes it. */
  lemma MarkerRead(s: string, p: nat, marker: string)
    requires IsMarker(marker) && marker != ""
    requires p + 2 <= |s| && s[p] == marker[0] && s[p + 1] == marker[1]
    ensures SkipSpace(s, p) == p && !IsDash(s[p]) && MeridiemAt(s, p)
  {
    assert s[p..p + 2] == marker;
  }

  /** The pattern matches at `p` when its five pieces are read one after the other. */
  lemma MatchAtFromPieces(s: string, p: nat, m: Match, p1: nat, p2: nat, p3: nat, p4: nat, p5: nat)
    requires p2 <= |s|
    requires HourAt(s, p) == Some((m.openHour, p1))
    requires MinuteAt(s, p1) == Some((m.openMinute, p2))
    requires SeparatorAt(s, p2) == Some(p3)
    requires HourAt(s, p3) == Some((m.closeHour, p4))
    requires MinuteAt(s, p4) == Some((m.closeMinute, p5))
    ensures MatchAt(s, p) == Some(m)
  {
    assert MatchFromCloseHour(s, m.openHour, m.openMinute, p3) == Some(m);
    assert MatchFromOpenMinute(s, m.openHour, p1) == Some(m);
  }

  /** Where the pieces of a rendered range sit. */
  lemma RenderLayout(m: Match, marker: string)
    requires InPatternRange(m) && IsMarker(marker)
    ensures var s, t1, t2 := Render(m, marker), TimeText(m.openHour, m.openMinute), TimeText(m.closeHour, m.closeMinute);
            var c := |t1| + |marker| + 3;
            c + |t2| <= |s| && s[..|t1|] == t1 && s[|t1|..c] == marker + " - "
            && s[c..c + |t2|] == t2 && IsDigit(s[c])
  {
    var t1, t2 := TimeText(m.openHour, m.openMinute), TimeText(m.closeHour, m.closeMinute);
    var sep := marker + " - ";
    assert Render(m, marker) == t1 + sep + t2 + marker;
    ConcatPieces(t1, sep, t2, marker);
    assert t2[0] == HourText(m.closeHour)[0];
  }

  /** Where the first three of four concatenated strings sit. */
  lemma ConcatPieces(a: string, b: string, c: string, d: string)
    ensures var s, i, j := a + b + c + d, |a| + |b|, |a| + |b| + |c|;
            j <= |s| && s[..|a|] == a && s[|a|..i] == b && s[i..j] == c && (|c| > 0 ==> s[i] == c[0])
  {
    var s := a + b + c + d;
    assert s[..|a|] == a;
    assert s[|a|..|a| + |b|] == b;
    assert s[|a| + |b|..|a| + |b| + |c|] == c;
  }

  /** The pattern matches a rendered range at its first character. */
  lemma RenderMatchesAtStart(m: Match, marker: string)
    requires InPatternRange(m) && IsMarker(marker)
    ensures MatchAt(Render(m, marker), 0) == Some(m)
  {
    RenderLayout(m, marker);
    LayoutMatchesAtStart(Render(m, marker), m, marker);
  }

  /** A string laid out the way `Render` lays out a range matches at its start. */
  lemma LayoutMatchesAtStart(s: string, m: Match, marker: string)
    requires InPatternRange(m) && IsMarker(marker)
    requires var t1, t2 := TimeText(m.openHour, m.openMinute), TimeText(m.closeHour, m.closeMinute);
             var c := |t1| + |marker| + 3;
             c + |t2| <= |s| && s[..|t1|] == t1 && s[|t1|..c] == marker + " - "
             && s[c..c + |t2|] == t2 && IsDigit(s[c])
    ensures MatchAt(s, 0) == Some(m)
  {
    var t1, t2 := TimeText(m.openHour, m.openMinute), TimeText(m.closeHour, m.closeMinute);
    var c := |t1| + |marker| + 3;
    var n1, n2 := |HourText(m.openHour)| + 1, |HourText(m.closeHour)| + 1;
    LayoutOpeningRead(s, m, marker);
    TimeTextRead(s, c, m.closeHour, m.closeMinute);
    MatchAtFromPieces(s, 0, m, n1, |t1|, c, c + n2, c + |t2|);
  }

  /** The opening time and the separator of such a string read back. */
  lemma LayoutOpeningRead(s: string, m: Match, marker: string)
    requires InPatternRange(m) && IsMarker(marker)
    requires var t1 := TimeText(m.openHour, m.openMinute);
             var c := |t1| + |marker| + 3;
             c < |s| && s[..|t1|] == t1 && s[|t1|..c] == marker + " - " && IsDigit(s[c])
    ensures var t1 := TimeText(m.openHour, m.openMinute);
            var n1 := |HourText(m.openHour)| + 1;
            HourAt(s, 0) == Some((m.openHour, n1))
            && MinuteAt(s, n1) == Some((m.openMinute, |t1|))
            && SeparatorAt(s, |t1|) == Some(|t1| + |marker| + 3)
  {
    TimeTextRead(s, 0, m.openHour, m.openMinute);
    SeparatorRead(s, |TimeText(m.openHour, m.openMinute)|, marker);
  }

  /** A rendered range is read back exactly: the pattern recovers all four numbers. */
  lemma RenderMatches(m: Match, marker: string)
    requires InPatternRange(m) && IsMarker(marker)
    ensures Search(Render(m, marker)) == Some(m)
  {
    RenderMatchesAtStart(m, marker);
    SearchFromFirstMatch(Render(m, marker), 0, 0);
  }
}
