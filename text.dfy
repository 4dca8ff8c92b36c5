/**
 * The JavaScript string built-ins the opening-hours evaluator relies on:
 * `split` on a one-character separator, `trim`, `toLowerCase` and `includes`.
 * Strings are sequences of characters.
 */
module Text {

  /** JavaScript white space and line terminators: what `\s` matches and `trim` removes. */
  predicate IsSpace(c: char) {
    c == ' ' || c == '\t' || c == '\n' || c == '\U{B}' || c == '\U{C}' || c == '\r'
    || c == '\U{A0}' || c == '\U{1680}' || ('\U{2000}' <= c <= '\U{200A}')
    || c == '\U{2028}' || c == '\U{2029}' || c == '\U{202F}' || c == '\U{205F}'
    || c == '\U{3000}' || c == '\U{FEFF}'
  }

  predicate AllSpace(s: string) {
    forall i :: 0 <= i < |s| ==> IsSpace(s[i])
  }

  // ---------------------------------------------------------------------------
  // toLowerCase
  // ---------------------------------------------------------------------------

  /** Lower-casing of one character; only the letters A-Z change. */
  function LowerChar(c: char): (d: char)
    ensures 'A' <= c <= 'Z' ==> 'a' <= d <= 'z' && d as int == c as int + 32
    ensures !('A' <= c <= 'Z') ==> d == c
  {
    if 'A' <= c <= 'Z' then (c as int + 32) as char else c
  }

  function Lower(s: string): (r: string)
    ensures |r| == |s|
    ensures forall i :: 0 <= i < |s| ==> r[i] == LowerChar(s[i])
  {
    seq(|s|, i requires 0 <= i < |s| => LowerChar(s[i]))
  }

  // ---------------------------------------------------------------------------
  // includes
  // ---------------------------------------------------------------------------

  /** `pat` occurs in `s` starting at position `i`. */
  predicate OccursAt(pat: string, s: string, i: nat) {
    i + |pat| <= |s| && s[i..i + |pat|] == pat
  }

  /** `pat` occurs somewhere in `s` as a contiguous piece. */
  ghost predicate Occurs(pat: string, s: string) {
    exists i: nat :: OccursAt(pat, s, i)
  }

  /** `s.includes(pat)`: a left-to-right scan for `pat`. */
  function Includes(s: string, pat: string): (b: bool)
    ensures b <==> Occurs(pat, s)
    decreases |s|
  {
    if |s| < |pat| then false
    else if s[..|pat|] == pat then
      assert OccursAt(pat, s, 0);
      true
    else
      var b := Includes(s[1..], pat);
      assert b ==> Occurs(pat, s) by {
        if b {
          var i: nat :| OccursAt(pat, s[1..], i);
          assert s[1..][i..i + |pat|] == s[i + 1..i + 1 + |pat|];
          assert OccursAt(pat, s, i + 1);
        }
      }
      assert Occurs(pat, s) ==> b by {
        if Occurs(pat, s) {
          var i: nat :| OccursAt(pat, s, i);
          assert i != 0;
          assert s[1..][i - 1..i - 1 + |pat|] == s[i..i + |pat|];
          assert OccursAt(pat, s[1..], i - 1);
        }
      }
      b
  }

  // ---------------------------------------------------------------------------
  // split on one separator character, and its inverse
  // ---------------------------------------------------------------------------

  /** The pieces put back together with `sep` between neighbours. */
  function Join(pieces: seq<string>, sep: char): string
    requires |pieces| > 0
  {
    if |pieces| == 1 then pieces[0] else pieces[0] + [sep] + Join(pieces[1..], sep)
  }

  /** `s.split(sep)`: the maximal separator-free pieces, empty ones included. */
  function Split(s: string, sep: char): (pieces: seq<string>)
    ensures |pieces| > 0
    ensures forall k :: 0 <= k < |pieces| ==> sep !in pieces[k]
    decreases |s|
  {
    if |s| == 0 then [""]
    else if s[0] == sep then [""] + Split(s[1..], sep)
    else
      var rest := Split(s[1..], sep);
      [[s[0]] + rest[0]] + rest[1..]
  }

  /** Splitting loses nothing: joining the pieces gives back the string. */
  lemma {:induction false} JoinSplit(s: string, sep: char)
    ensures Join(Split(s, sep), sep) == s
    decreases |s|
  {
    if |s| == 0 {
    } else if s[0] == sep {
      JoinSplit(s[1..], sep);
      assert Split(s, sep)[1..] == Split(s[1..], sep);
    } else {
      JoinSplit(s[1..], sep);
      var rest := Split(s[1..], sep);
      var pieces := Split(s, sep);
      if |rest| == 1 {
        assert pieces == [[s[0]] + rest[0]];
      } else {
        assert pieces[1..] == rest[1..];
        assert Join(rest, sep) == rest[0] + [sep] + Join(rest[1..], sep);
      }
    }
  }

  /** Joining separator-free pieces and splitting again gives back the pieces. */
  lemma {:induction false} SplitJoin(pieces: seq<string>, sep: char)
    requires |pieces| > 0
    requires forall k :: 0 <= k < |pieces| ==> sep !in pieces[k]
    ensures Split(Join(pieces, sep), sep) == pieces
    decreases |pieces|, |pieces[0]|
  {
    var p := pieces[0];
    if |p| == 0 {
      if |pieces| == 1 {
      } else {
        SplitJoin(pieces[1..], sep);
        var s := Join(pieces, sep);
        assert s == [sep] + Join(pieces[1..], sep);
        assert s[1..] == Join(pieces[1..], sep);
      }
    } else {
      var shorter := [p[1..]] + pieces[1..];
      assert shorter[1..] == pieces[1..];
      assert forall k :: 0 <= k < |shorter| ==> sep !in shorter[k] by {
        assert forall c :: c in p[1..] ==> c in p;
      }
      SplitJoin(shorter, sep);
      var s := Join(pieces, sep);
      assert s == [p[0]] + Join(shorter, sep) by {
        if |pieces| == 1 {
          assert p == [p[0]] + p[1..];
        } else {
          assert p == [p[0]] + p[1..];
          assert s == [p[0]] + (p[1..] + [sep] + Join(pieces[1..], sep));
        }
      }
      assert s[0] == p[0] && s[0] != sep;
      assert s[1..] == Join(shorter, sep);
      assert [p[0]] + p[1..] == p;
      assert pieces == [p] + pieces[1..];
    }
  }

  /** Appending a separator and a separator-free tail appends exactly one piece. */
  lemma {:induction false} SplitAppend(s: string, sep: char, tail: string)
    requires sep !in tail
    ensures Split(s + [sep] + tail, sep) == Split(s, sep) + [tail]
  {
    var pieces := Split(s, sep);
    JoinSplit(s, sep);
    var longer := pieces + [tail];
    assert forall k :: 0 <= k < |longer| ==> sep !in longer[k];
    JoinAppend(pieces, sep, tail);
    SplitJoin(longer, sep);
  }

  lemma {:induction false} JoinAppend(pieces: seq<string>, sep: char, tail: string)
    requires |pieces| > 0
    ensures Join(pieces + [tail], sep) == Join(pieces, sep) + [sep] + tail
    decreases |pieces|
  {
    if |pieces| == 1 {
    } else {
      assert (pieces + [tail])[1..] == pieces[1..] + [tail];
      JoinAppend(pieces[1..], sep, tail);
    }
  }

  // ---------------------------------------------------------------------------
  // trim
  // ---------------------------------------------------------------------------

  /** The length of the white-space run at the start of `s`. */
  function LeadingSpace(s: string): (n: nat)
    ensures n <= |s|
    ensures forall i :: 0 <= i < n ==> IsSpace(s[i])
    ensures n < |s| ==> !IsSpace(s[n])
    decreases |s|
  {
    if |s| > 0 && IsSpace(s[0]) then 1 + LeadingSpace(s[1..]) else 0
  }

  /** The length of the white-space run at the end of `s`. */
  function TrailingSpace(s: string): (n: nat)
    ensures n <= |s|
    ensures forall i :: |s| - n <= i < |s| ==> IsSpace(s[i])
    ensures n < |s| ==> !IsSpace(s[|s| - 1 - n])
    decreases |s|
  {
    if |s| > 0 && IsSpace(s[|s| - 1]) then 1 + TrailingSpace(s[..|s| - 1]) else 0
  }

  /** `r` is `s` with the white space at `s[..i]` and after `r` taken off. */
  ghost predicate TrimmedAt(r: string, s: string, i: nat) {
    i + |r| <= |s| && s[i..i + |r|] == r && AllSpace(s[..i]) && AllSpace(s[i + |r|..])
  }

  /** `s.trim()`: `s` without the white space at its start and at its end. */
  function Trim(s: string): string {
    var i := LeadingSpace(s);
    s[i..|s| - TrailingSpace(s[i..])]
  }

  /**
   * The trim of `s` neither starts nor ends with white space, and only white
   * space surrounds it in `s`.
   */
  lemma TrimSpec(s: string)
    ensures var r := Trim(s);
            (r == [] || (!IsSpace(r[0]) && !IsSpace(r[|r| - 1])))
            && exists i: nat :: TrimmedAt(r, s, i)
  {
    TrimmedAtLeadingSpace(s);
  }

  /** The trim sits right after the leading white space of `s`. */
  lemma TrimmedAtLeadingSpace(s: string)
    ensures TrimmedAt(Trim(s), s, LeadingSpace(s))
  {
    var i := LeadingSpace(s);
    var rest := s[i..];
    var n := TrailingSpace(rest);
    assert Trim(s) == s[i..|s| - n];
    assert AllSpace(s[..i]);
    assert AllSpace(s[|s| - n..]) by {
      assert s[|s| - n..] == rest[|rest| - n..];
      SpaceSuffix(rest, n);
    }
    TrimmedAtPieces(s, i, n);
  }

  /** Cutting `i` characters of white space off the front and `n` off the back leaves a trim. */
  lemma TrimmedAtPieces(s: string, i: nat, n: nat)
    requires i + n <= |s| && AllSpace(s[..i]) && AllSpace(s[|s| - n..])
    ensures TrimmedAt(s[i..|s| - n], s, i)
  {
  }

  /** The last `n` characters of `s` are white space, read as a slice. */
  lemma SpaceSuffix(s: string, n: nat)
    requires n <= |s|
    requires forall k :: |s| - n <= k < |s| ==> IsSpace(s[k])
    ensures AllSpace(s[|s| - n..])
  {
    var tail := s[|s| - n..];
    forall k | 0 <= k < |tail|
      ensures IsSpace(tail[k])
    {
      assert tail[k] == s[|s| - n + k];
    }
  }

  /** A string without white space at either end is its own trim. */
  lemma TrimUnpadded(s: string)
    requires s == [] || (!IsSpace(s[0]) && !IsSpace(s[|s| - 1]))
    ensures Trim(s) == s
  {
    var r := Trim(s);
    TrimSpec(s);
    var i: nat :| TrimmedAt(r, s, i);
    assert s != [] ==> AllSpace(s[..i]) && AllSpace(s[i + |r|..]);
  }

  /** A string without the separator splits into itself alone. */
  lemma SplitWithoutSeparator(s: string, sep: char)
    requires sep !in s
    ensures Split(s, sep) == [s]
  {
    SplitJoin([s], sep);
  }

  /** A string without the first character of `pat` does not include `pat`. */
  lemma MissingFirstCharacter(s: string, pat: string)
    requires |pat| > 0 && pat[0] !in s
    ensures !Includes(s, pat)
  {
  }

  /** Lower-casing leaves a string without capital letters as it is. */
  lemma LowerWithoutCapitals(s: string)
    requires forall i :: 0 <= i < |s| ==> !('A' <= s[i] <= 'Z')
    ensures Lower(s) == s
  {
  }

  /** A lower-cased string has no capital letters left, so lower-casing it again changes nothing. */
  lemma LowerIdempotent(s: string)
    ensures forall i :: 0 <= i < |s| ==> !('A' <= Lower(s)[i] <= 'Z')
    ensures Lower(Lower(s)) == Lower(s)
  {
    LowerWithoutCapitals(Lower(s));
  }
}
