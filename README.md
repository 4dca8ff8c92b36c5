# Pub popularity engine, modelled in Dafny

This project models the popularity engine of a pub-finder app. The engine is
`updatePopularity.ts` and has three parts:

- **`isCurrentlyOpen`** decides whether a pub is open now. It reads the pub's
  weekly table of free-text opening hours, e.g. `"12:00pm - 11:00pm"`, keyed by
  lower-case weekday name. It splits today's entry on commas and trims each
  range. It pulls `H:MM [am|pm] - H:MM [am|pm]` out of each range with a
  regular expression. It applies the "pm" correction, treats a close time of
  0:00 as the end of the day and lets windows run past midnight.
- **`updatePopularityScores`** scores every pub and writes the scores back.
  - It tallies the check-ins of the last four hours per pub.
  - A closed pub scores 0.
  - An open pub scores an activity term capped at 40, plus a base of 20, plus
    four weekday and hour bonuses, plus a random jitter. The sum is clamped to
    [0, 100] and rounded.
  - A pub is hot when the unclamped score is above 75 and it has a recent
    check-in.
  - It counts open and closed pubs, and successful and failed writes.
- **`shouldUpdatePopularity`** lets a run go ahead only when more than five
  minutes have passed since the last one.

## Modules

- `Wrappers`: `Option`.
- `Text` models the JavaScript string built-ins the evaluator uses:
  `toLowerCase` (`Lower`), `includes` (`Includes`), `split` on one character
  (`Split`) and `trim` (`Trim`). `Lower` is defined character by character,
  with `LowerIdempotent` and `LowerWithoutCapitals` proved about it. The
  others are proved against an independent description: `Includes` against
  "occurs at some position", `Split` against `Join` in both directions, `Trim`
  against "only white space around it".
- `HoursPattern` models the regular expression as a leftmost scanner.
  - `MatchAt` tries the pattern at one position.
  - `Search` tries the positions left to right, as an unanchored `match` does.
  - The lemmas prove that `Search` returns the match at the first position
    where one exists.
  - They also prove that a range rendered in the pattern's own format reads
    back as the times it was rendered from.
- `OpeningHours` has two layers.
  - The ghost predicate `OpenAt` is the specification.
  - The method `IsCurrentlyOpen` is the source's loop, proved equal to it. Its
    loop over ranges, with early return and mutable hours, is
    `FirstOpenRange`.
- `Popularity` has two layers.
  - The specification is `PubUpdate`, one pub's update, and `ExpectedUpdates`,
    the whole batch.
  - The methods follow the source's steps and are each proved against that
    specification. `CountCheckIns` is the `reduce`. `ScorePubs` and
    `ScorePub` are the `map` with its open/closed counters. `SaveUpdates` is
    the write loop. `UpdatePopularityScores` chains the three.
- `RunGate`: `ShouldUpdatePopularity` and its threshold lemmas.

The clock, the randomness and the database are inputs:
- `now` is a `Moment` (weekday with Sunday as 0, hour, minute). It is the
  clock read at the start of a run, which the bonuses and the stamp use.
- `openClock` holds one `Moment` per pub. Each `isCurrentlyOpen` call reads
  the clock again, after the awaited fetch, so a pub's opening check can fall
  in a later hour than its bonuses.
- There is one `Jitter` per pub, a real in [-7.5, 7.5).
- The check-in fetch is `CheckIns`: the `pub_id` of every row, or
  `FetchFailed`.
- Write failures are a `seq<bool>` aligned with the updates.
- The run's timestamp is an opaque `Stamp`.
- The gate's inputs are the parsed last-check time and the current time in
  milliseconds.

Four behaviours of the code are worth noting:

- `!todayHours` is also true for an empty string, so an empty entry means
  closed, like a missing one (`TodaysHours`).
- Under "pm" the adjusted open hour is at least 12. So the guard
  `closeHour !== openHour` never stops a close hour below 12 from being moved
  (`PmCorrection`).
- The "pm" test looks at the whole range, so an "am" time in a range that also
  says "pm" is moved too.
  - `MixedMarkersEntry` proves that "9:00am - 5:00pm" reads as 21:00 to 17:00,
    running past midnight.
  - `ElevenToElevenEntry` proves that "11:00am - 11:00pm" is open only at
    23:00.
  - The model keeps this behaviour of the code.
- The same correction moves a close time of 0:00 or 12:00 to noon in any range
  that mentions "pm". So "6:00pm - 0:00" and "6:00pm - 12:00am" both give a
  window from 18:00 round to 12:00 the next day, open overnight and all
  morning (`PmMidnightCloseIsNoon`). Only a range without "pm" that closes at
  0:00 runs to the end of the day (`MidnightCloseRunsToEndOfDay`).

## Model

| member | source | states |
|---|---|---|
| Text.IsSpace | updatePopularity.ts:31-34 | the JavaScript white-space set that both `trim` and `\s` use: tab, line feed, vertical tab, form feed, carriage return, space, the no-break spaces, the Unicode space separators, line and paragraph separators and the byte-order mark |
| Text.Lower | updatePopularity.ts:29 | `toLowerCase` keeps the length and lower-cases each character on its own, only A-Z changing |
| Text.LowerWithoutCapitals | updatePopularity.ts:42 | a string without capitals lower-cases to itself |
| Text.LowerIdempotent | updatePopularity.ts:29 | a lower-cased string has no capital A-Z left, and lower-casing it again changes nothing |
| Text.Includes | updatePopularity.ts:42 | `includes` is true exactly when the pattern occurs at some position of the string |
| Text.MissingFirstCharacter | updatePopularity.ts:42 | a string lacking the pattern's first character does not include it |
| Text.Split | updatePopularity.ts:31 | `split(',')` gives at least one piece and no piece contains the separator |
| Text.JoinSplit | updatePopularity.ts:31 | joining the pieces of a split with the separator gives back the original string |
| Text.SplitJoin | updatePopularity.ts:31 | splitting separator-free pieces joined with the separator gives back exactly those pieces |
| Text.SplitAppend | updatePopularity.ts:31 | appending the separator and a separator-free tail appends exactly that tail as one more piece |
| Text.JoinAppend | updatePopularity.ts:31 | joining pieces with one more piece appends the separator and that piece |
| Text.SplitWithoutSeparator | updatePopularity.ts:31 | a string without the separator splits into itself alone |
| Text.LeadingSpace | updatePopularity.ts:31 | the white-space run at the start of a range, which `trim` removes, ends at the first other character |
| Text.TrailingSpace | updatePopularity.ts:31 | the white-space run at the end of a range, which `trim` removes, starts after the last other character |
| Text.Trim | updatePopularity.ts:31 | `trim` drops the leading and the trailing white-space runs; `TrimSpec` proves what that leaves |
| Text.TrimSpec | updatePopularity.ts:31 | `trim` gives a piece of the string with no white space at either end and only white space around it |
| Text.TrimUnpadded | updatePopularity.ts:31 | a string without white space at its ends is its own trim |
| HoursPattern.MeridiemAt | updatePopularity.ts:34 | the optional marker group: one of AM, PM, am or pm starts at the position |
| HoursPattern.SkipSpace | updatePopularity.ts:34 | `\s*`: every character skipped is white space, the run ends at or after its start, never beyond the end of the string, and on a character that is not white space |
| HoursPattern.HourAt | updatePopularity.ts:34 | `(\d{1,2}):` captures a number below 100 and ends two or three characters later |
| HoursPattern.MinuteAt | updatePopularity.ts:34 | `(\d{2})` captures a number below 100 and ends two characters later |
| HoursPattern.SeparatorAt | updatePopularity.ts:34 | the separator with its optional marker and white space always moves forward within the string |
| HoursPattern.MatchAt | updatePopularity.ts:34 | the pattern tried at one position: hour, minutes, separator, hour, minutes in turn, no match as soon as one piece fails |
| HoursPattern.SearchFrom | updatePopularity.ts:34 | the positions from a start tried left to right, the first match winning; `SearchFromNone`, `SearchFromSome` and `SearchFromFirstMatch` prove this |
| HoursPattern.Search | updatePopularity.ts:34 | `range.match(pattern)`: the search from the first character |
| HoursPattern.MatchInRange | updatePopularity.ts:34 | every captured hour and minute has at most two digits |
| HoursPattern.SearchFromNone | updatePopularity.ts:34-35 | the range fails to match exactly when the pattern matches at no position |
| HoursPattern.SearchFromSome | updatePopularity.ts:34 | a match found is the match at some position with no match before it |
| HoursPattern.SearchFromFirstMatch | updatePopularity.ts:34 | the leftmost position where the pattern matches decides the captured times |
| HoursPattern.NoColonNoMatch | updatePopularity.ts:34-35 | a range without a colon never matches and is skipped |
| HoursPattern.TimeTextRead | updatePopularity.ts:34 | a time written as `H:MM` reads back as its hour and minute |
| HoursPattern.SeparatorRead | updatePopularity.ts:34 | a marker followed by " - " is consumed as the separator |
| HoursPattern.DashRead | updatePopularity.ts:34 | a single space, a dash and a single space are read as white space, the dash, white space |
| HoursPattern.MarkerRead | updatePopularity.ts:34 | an "am" or "pm" marker right after the minutes is taken as the optional marker, not as white space or the dash |
| HoursPattern.MatchAtFromPieces | updatePopularity.ts:34 | hour, minute, separator, hour and minute read in sequence make the match |
| HoursPattern.RenderLayout | updatePopularity.ts:34 | where each piece of a rendered range starts and ends |
| HoursPattern.LayoutOpeningRead | updatePopularity.ts:34 | in a string laid out as a range, the opening hour, minute and separator read back in turn |
| HoursPattern.LayoutMatchesAtStart | updatePopularity.ts:34 | any string laid out as `H:MM<marker> - H:MM...` matches at its start with those times |
| HoursPattern.RenderMatchesAtStart | updatePopularity.ts:34 | a range rendered as `H:MM<marker> - H:MM<marker>` matches at its start with the rendered times |
| HoursPattern.RenderMatches | updatePopularity.ts:34-40 | searching a rendered range captures exactly the hours and minutes it was rendered from |
| OpeningHours.MinuteOfDay | updatePopularity.ts:49 | the current minute of the day is below 1440 |
| OpeningHours.TodaysHours | updatePopularity.ts:23-29 | today's entry under its lower-case weekday name, absent when the key is missing or the entry is empty |
| OpeningHours.AdjustedHours | updatePopularity.ts:42-47 | the hours after the "pm" correction; `PmCorrection` states what it does to each hour |
| OpeningHours.PmCorrection | updatePopularity.ts:42-47 | without "pm" no hour changes; an hour of 12 or more is always kept; with "pm" an open hour below 12 gains exactly 12 and so does a close hour below 12, leaving both at 12 or later at the same place on the 12-hour clock |
| OpeningHours.WindowOf | updatePopularity.ts:50-55 | the window opens at the corrected opening minute of the day; a closing minute of 0 becomes 1440 and any other closing minute is kept, so a window never closes at minute 0 |
| OpeningHours.Covers | updatePopularity.ts:57-65 | a window covers a minute between its ends, both included, or for a window closing before it opens, a minute from the opening on or up to the closing |
| OpeningHours.Ranges | updatePopularity.ts:31 | the entry split on commas, each piece trimmed; `RangesAppend` proves how a further piece is added |
| OpeningHours.RangeOpenAt | updatePopularity.ts:33-65 | one range opens the pub when it matches the pattern and its corrected window covers the current minute |
| OpeningHours.OvernightWindow | updatePopularity.ts:57-60 | a window closing before it opens covers every minute except those strictly between close and open |
| OpeningHours.MidnightCloseRunsToEndOfDay | updatePopularity.ts:53-65 | a range whose corrected close hour is 0, which needs a range without "pm" closing at 0:00, is open from its opening minute to the end of the day |
| OpeningHours.PmMidnightCloseIsNoon | updatePopularity.ts:42-65 | in a range mentioning "pm" that opens in the afternoon or evening, a close time of 0:00 or 12:00 becomes noon, so the window covers now exactly from the opening minute on or up to 12:00 |
| OpeningHours.AnyRangeOpenAtIff | updatePopularity.ts:33-68 | trying the ranges in order finds one that covers now exactly when such a range exists |
| OpeningHours.OpenAt | updatePopularity.ts:19-69 | open with no table; closed on a missing, empty or "closed" entry; otherwise open when some range of the entry covers now |
| OpeningHours.FirstOpenRange | updatePopularity.ts:33-68 | the loop returns true exactly when some range matches and its corrected window covers the current minute |
| OpeningHours.IsCurrentlyOpen | updatePopularity.ts:19-69 | the result is the specification `OpenAt`: open without a table, closed on a missing, empty or "closed" entry, otherwise open exactly when some trimmed comma-separated range covers now |
| OpeningHours.NoScheduleMeansOpen | updatePopularity.ts:20 | a pub without opening hours is open at every moment |
| OpeningHours.ClosedDayMeansClosed | updatePopularity.ts:28-29 | a missing or empty entry, or "closed" in any letter case, means closed at every moment of that day |
| OpeningHours.RangesAppend | updatePopularity.ts:31 | appending a comma and a comma-free piece to an entry adds exactly that piece, trimmed, as a last range |
| OpeningHours.CommaIsNotClosed | updatePopularity.ts:29 | an entry with a comma never counts as "closed" |
| OpeningHours.SomeRangeOpenAtAppend | updatePopularity.ts:33-35 | adding a range that does not cover now to a list of ranges does not change whether some range covers now |
| OpeningHours.UnmatchedRangeIsSkipped | updatePopularity.ts:31-35 | appending a range that does not match the pattern to a day's entry does not change whether the pub is open |
| OpeningHours.ClosedIsOneUnmatchedRange | updatePopularity.ts:29-35 | an entry reading "closed" is a single range that does not match |
| OpeningHours.SingleRangeEntry | updatePopularity.ts:31-35 | an entry that is a single range, with no comma and nothing to trim, decides the day through that range alone |
| OpeningHours.SingleMatchedEntry | updatePopularity.ts:31-65 | such an entry matching from its first character is open exactly when its corrected window covers now |
| OpeningHours.OvernightEntry | updatePopularity.ts:53-60 | "22:00-02:00" is open from 22:00 through 2:00 and closed in between |
| OpeningHours.OvernightEntryReads | updatePopularity.ts:29-42 | "22:00-02:00" is not "closed", has no comma, no white space at its ends and no "pm" |
| OpeningHours.OvernightEntryMatches | updatePopularity.ts:34 | "22:00-02:00" matches at its start as 22:00 to 2:00 |
| OpeningHours.AfternoonEntry | updatePopularity.ts:42-62 | "12:00pm-6:00pm" is open from 12:00 through 18:00 |
| OpeningHours.AfternoonEntryReads | updatePopularity.ts:29-42 | "12:00pm-6:00pm" is not "closed", has no comma, no white space at its ends and mentions "pm" |
| OpeningHours.AfternoonEntryMatches | updatePopularity.ts:34 | "12:00pm-6:00pm" matches at its start as 12:00 to 6:00 |
| OpeningHours.MixedMarkersEntry | updatePopularity.ts:42-60 | "9:00am - 5:00pm" is read as 21:00 to 17:00, running past midnight |
| OpeningHours.MixedMarkersEntryReads | updatePopularity.ts:29-42 | "9:00am - 5:00pm" is not "closed", has no comma, no white space at its ends and mentions "pm" even though its opening time is in the morning |
| OpeningHours.MixedMarkersEntryMatches | updatePopularity.ts:34 | "9:00am - 5:00pm" matches at its start as 9:00 to 5:00 |
| OpeningHours.ElevenToElevenEntry | updatePopularity.ts:42-62 | "11:00am - 11:00pm" is open during the single minute 23:00 |
| OpeningHours.ElevenToElevenEntryReads | updatePopularity.ts:29-42 | "11:00am - 11:00pm" is not "closed", has no comma, no white space at its ends and mentions "pm" |
| OpeningHours.ElevenToElevenEntryMatches | updatePopularity.ts:34 | "11:00am - 11:00pm" matches at its start as 11:00 to 11:00 |
| Popularity.Clamp | updatePopularity.ts:148 | clamping gives a value in [0, 100] and leaves values already there alone |
| Popularity.Round | updatePopularity.ts:148 | `Math.round` gives the integer within half a unit, halves rounded up |
| Popularity.Lookup | updatePopularity.ts:119 | the pub's entry in the check-in counts, or 0 when it has none |
| Popularity.Fetched | updatePopularity.ts:85-89 | the fetched rows, or no rows at all when the fetch failed |
| Popularity.RecentCount | updatePopularity.ts:80-92 | a pub's number of fetched rows, counted as a multiset |
| Popularity.Activity | updatePopularity.ts:120 | 15 points per check-in, at most 40; `ActivitySaturates` proves where it caps |
| Popularity.Bonus | updatePopularity.ts:125-139 | the evening, weekend-lunch, Friday/Saturday and late Friday/Saturday bonuses at the run's clock read; `BonusRange` proves their range |
| Popularity.RawScore | updatePopularity.ts:117-142 | activity, base 20, bonuses and jitter added up, before clamping and rounding |
| Popularity.PubUpdate | updatePopularity.ts:108-151 | a closed pub scores 0 and is not hot; an open pub scores its clamped, rounded raw score and is hot above 75 with a check-in; `ScoreInRange`, `HotIff` and `MoreCheckInsNeverLower` prove its properties |
| Popularity.ScorePub | updatePopularity.ts:108-151 | building the score term by term gives the specified update for the pub |
| Popularity.ScoreInRange | updatePopularity.ts:146-151 | every update keeps the pub's id and the run's stamp, and its score is an integer in [0, 100] |
| Popularity.ClosedPubScoresZero | updatePopularity.ts:108-115 | a closed pub scores 0 and is not hot, whatever its check-ins |
| Popularity.HotIff | updatePopularity.ts:144 | a pub is hot exactly when it is open, has a recent check-in and its raw score is above 75 |
| Popularity.NoCheckInsNeverHot | updatePopularity.ts:119-144 | a pub without recent check-ins is never hot |
| Popularity.BonusRange | updatePopularity.ts:125-139 | the four bonuses add up to between 0 and 70, and reach 70 exactly on Friday or Saturday from 21:00 |
| Popularity.OpenPubScoresAtLeast13 | updatePopularity.ts:117-148 | an open pub scores at least 13 because the base outweighs any jitter |
| Popularity.HotPubScoresAtLeast75 | updatePopularity.ts:144-148 | a hot pub's rounded score is at least 75 |
| Popularity.RoundMonotone | updatePopularity.ts:148 | rounding never reverses the order of two values |
| Popularity.ClampMonotone | updatePopularity.ts:148 | clamping never reverses the order of two values |
| Popularity.ActivitySaturates | updatePopularity.ts:120 | the activity term is at most 40 and reaches it exactly from three check-ins |
| Popularity.MoreCheckInsNeverLower | updatePopularity.ts:117-148 | more check-ins never lower an open pub's score and never make a hot pub cold |
| Popularity.CountCheckIns | updatePopularity.ts:89-92 | each pub's count is the number of fetched rows naming it, and a pub with no rows has no entry |
| Popularity.ExpectedUpdates | updatePopularity.ts:96-152 | the batch the run returns: one `PubUpdate` per pub in order, with the pub's row count, its own opening check and jitter, and the run's clock read and stamp |
| Popularity.ScorePubs | updatePopularity.ts:96-152 | one update per pub in order, each the specified update for that pub's count and its opening state at its own clock read; the open and closed tallies count the open and closed pubs |
| Popularity.SaveUpdates | updatePopularity.ts:157-176 | every write is tried; the error tally is the number of failed writes and the success tally the rest |
| Popularity.UpdatePopularityScores | updatePopularity.ts:71-181 | the returned updates are `ExpectedUpdates`, with a failed fetch counting as no check-ins and each pub judged open at its own clock read; the open and closed tallies count the open and closed pubs, the error and success tallies the failed and other writes |
| Popularity.UpdatesFollowPubs | updatePopularity.ts:99-151 | the batch keeps the pubs' order and ids, stamps every update with the run's time and scores each in [0, 100] |
| Popularity.FailedFetchMeansNothingHot | updatePopularity.ts:85-92 | when the check-ins cannot be fetched the batch still scores every pub and none is hot |
| Popularity.PubWithoutHoursIsScored | updatePopularity.ts:99-148 | a pub without opening hours is scored as open, at least 13 |
| Popularity.TallyStep | updatePopularity.ts:102-105 | counting one more outcome adds one to exactly the tally it belongs to |
| Popularity.TalliesSplit | updatePopularity.ts:96-106 | the true and false counts of a sequence of outcomes add up to its length |
| RunGate.GateThreshold | updatePopularity.ts:186-190 | with a last check, the gate opens exactly when more than 300000 ms have passed |
| RunGate.GateStaysOpen | updatePopularity.ts:186-190 | once the gate is open it stays open as time goes on |
| RunGate.GateShutAfterRun | updatePopularity.ts:186-190 | for five minutes after a check, and for a check in the future, the gate is shut |
| RunGate.GateWithoutDate | updatePopularity.ts:183-190 | without a last check the gate is open; with an unparseable one, whose time is NaN, it is shut |
| RunGate.ShouldUpdatePopularity | updatePopularity.ts:183-191 | run with no last check, never with an unparseable one, otherwise when more than five minutes have passed; `GateThreshold` proves the threshold in milliseconds |
| RunGate.MinutesSince | updatePopularity.ts:188 | `(now - last) / 1000 / 60` on exact reals |

## Left out

- The reads and writes to the database (updatePopularity.ts:80-83, 161-168) are inputs. The model takes the fetched `pub_id`s or a fetch error, and one write outcome per update. The four-hour cut-off of the check-in query belongs to the query, so only the rows it returns are modelled.
- `console.log`, `console.warn` and `console.error` output are left out. The tallies the log lines report are returned by `UpdatePopularityScores`; the source itself returns only the updates.
- `new Date()` and `Math.random()` are parameters: one clock read for the run and one per opening check. The clock is the weekday, hour and minute, or milliseconds for the gate. The jitter is one value in [-7.5, 7.5) per pub; closed pubs, which the source scores without drawing one, ignore theirs.
- ISO timestamp formatting is left out: `last_popularity_check` is an opaque `Stamp`, the same for every pub.
- Parsing the `lastCheck` string with `new Date` is left out. The gate receives it already parsed: missing or empty, not a date, or a time in milliseconds.
- Floating point is modelled with exact reals. The score sum, the rounding and the gate's division by 1000 and by 60 are all exact.
- `async` and the promises are left out. The methods run in sequence. `shouldUpdatePopularity` is declared `async`, so its callers receive a promise; the model gives the boolean that promise resolves to.
- A pub's `lat`, `lng` and `name` are only passed through, so they are not modelled.
- Popularity.Lookup: pub ids are taken to be ordinary keys. The counts live in a plain object, so an id that names an `Object.prototype` property, such as `constructor`, `toString` or `__proto__`, reads the inherited value rather than 0; the activity term then becomes NaN and the pub is written a NaN score, whereas the model gives such a pub its row count.
- Popularity.CountCheckIns: for a row whose id names an `Object.prototype` property the source's `reduce` stores a string such as `"function Object() { [native code] }1"`, or, for `__proto__`, stores nothing; the model counts such rows like any other id.
- JavaScript lower-casing beyond A-Z is left out. `toLowerCase` also lower-cases other alphabets, which cannot change whether a string is "closed" or contains "pm".
- An opening-hours object whose keys are not weekday names, or whose values are not strings, is left out. The table is a map from strings to strings.
- Only the subset of regular-expression behaviour the one pattern uses is modelled: unanchored leftmost search, greedy `\d{1,2}`, `\s` as JavaScript white space and the optional markers.
- Popularity.Round: exact on reals, so it does not reproduce the double-precision rounding of `Math.round` on sums such as 75.49999999999999.
- `ProfileModal.tsx`, `useReviews.ts`, `FavouritesContext.tsx` and `utils.ts` are not part of this model. They are UI, thin data-store wrappers and floating-point geography and date formatting.
