/**
 * One popularity run over a list of pubs: tally the check-ins of the last four
 * hours per pub, score every pub from whether it is open, its check-ins, the
 * weekday and hour and a random jitter, and write each score back. `PubUpdate`
 * and `ExpectedUpdates` are the specification; `CountCheckIns`, `ScorePub`,
 * `ScorePubs`, `SaveUpdates` and `UpdatePopularityScores` are the steps of the
 * run, each proved against it.
 */
module Popularity {
  import opened Wrappers
  import opened OpeningHours

  type PubId = string

  /** The timestamp of the run, written unchanged into every update. */
  type Stamp = string

  /** The fields of a pub the run reads: its id and its weekly hours, if any. */
  datatype Pub = Pub(id: PubId, hours: Option<Schedule>)

  /** What the run writes for one pub: `popularity_score`, `hot_now` and `last_popularity_check`. */
  datatype PopularityUpdate = PopularityUpdate(id: PubId, score: int, hot: bool, checkedAt: Stamp)

  /** The result of fetching recent check-ins: the `pub_id` of each row, or an error. */
  datatype CheckIns = Rows(pubIds: seq<PubId>) | FetchFailed

  /** `Math.random() * 15 - 7.5`: a value in [-7.5, 7.5). */
  type Jitter = r: real | -7.5 <= r < 7.5 witness 0.0

  const BasePopularity: int := 20
  const HotThreshold: real := 75.0

  /** The rows to count; a failed fetch counts as no rows at all. */
  function Fetched(checkIns: CheckIns): seq<PubId> {
    match checkIns
    case Rows(ids) => ids
    case FetchFailed => []
  }

  /** The number of fetched rows naming the pub. */
  function RecentCount(checkIns: CheckIns, id: PubId): nat {
    multiset(Fetched(checkIns))[id]
  }

  /** `checkInCounts[id] || 0`: a pub without an entry has no check-ins. */
  function Lookup(counts: map<PubId, nat>, id: PubId): nat {
    if id in counts then counts[id] else 0
  }

  // ---------------------------------------------------------------------------
  // The score of one pub
  // ---------------------------------------------------------------------------

  /** `Math.min(count * 15, 40)`: 15 points per check-in, at most 40. */
  function Activity(count: nat): nat {
    if count * 15 < 40 then count * 15 else 40
  }

  /**
   * The weekday and hour bonuses: evening (17-23), weekend lunch (12-14 on
   * Saturday or Sunday), Friday or Saturday from 18, and late Friday or
   * Saturday (21-23).
   */
  function Bonus(now: Moment): nat {
    var h, d := now.hour, now.day;
    (if h >= 17 && h <= 23 then 25 else 0)
    + (if h >= 12 && h <= 14 && (d == 6 || d == 0) then 20 else 0)
    + (if (d == 5 || d == 6) && h >= 18 then 30 else 0)
    + (if h >= 21 && h <= 23 && (d == 5 || d == 6) then 15 else 0)
  }

  /** The score of an open pub before clamping and rounding. */
  function RawScore(count: nat, now: Moment, jitter: Jitter): real {
    (Activity(count) + BasePopularity + Bonus(now)) as real + jitter
  }

  /** `Math.max(0, Math.min(100, x))`. */
  function Clamp(x: real): (c: real)
    ensures 0.0 <= c <= 100.0
    ensures 0.0 <= x <= 100.0 ==> c == x
  {
    if x < 0.0 then 0.0 else if x > 100.0 then 100.0 else x
  }

  /** `Math.round`: the nearest integer, halves rounded up. */
  function Round(x: real): (r: int)
    ensures r as real - 0.5 <= x < r as real + 0.5
  {
    (x + 0.5).Floor
  }

  /**
   * The update for one pub. A closed pub scores 0 and is not hot. An open pub
   * scores its clamped and rounded raw score, and is hot when the raw score is
   * above 75 and it has at least one recent check-in.
   */
  function PubUpdate(pub: Pub, open: bool, count: nat, now: Moment, jitter: Jitter, stamp: Stamp): PopularityUpdate {
    if !open then PopularityUpdate(pub.id, 0, false, stamp)
    else
      var raw := RawScore(count, now, jitter);
      PopularityUpdate(pub.id, Round(Clamp(raw)), raw > HotThreshold && count > 0, stamp)
  }

  /** The body of the `map` callback after the opening-hours check: build the score term by term. */
  method ScorePub(pub: Pub, isOpen: bool, recentCheckInCount: nat, now: Moment, jitter: Jitter, stamp: Stamp)
    returns (update: PopularityUpdate)
    ensures update == PubUpdate(pub, isOpen, recentCheckInCount, now, jitter, stamp)
  {
    if !isOpen {
      return PopularityUpdate(pub.id, 0, false, stamp);
    }
    var currentHour, dayOfWeek := now.hour, now.day;
    var popularityScore: real := 0.0;
    var activity := recentCheckInCount * 15;
    if activity > 40 {
      activity := 40;
    }
    popularityScore := popularityScore + activity as real;
    popularityScore := popularityScore + BasePopularity as real;
    if currentHour >= 17 && currentHour <= 23 {
      popularityScore := popularityScore + 25.0;
    }
    if currentHour >= 12 && currentHour <= 14 && (dayOfWeek == 6 || dayOfWeek == 0) {
      popularityScore := popularityScore + 20.0;
    }
    if (dayOfWeek == 5 || dayOfWeek == 6) && currentHour >= 18 {
      popularityScore := popularityScore + 30.0;
    }
    if currentHour >= 21 && currentHour <= 23 && (dayOfWeek == 5 || dayOfWeek == 6) {
      popularityScore := popularityScore + 15.0;
    }
    popularityScore := popularityScore + jitter;
    var isHot := popularityScore > HotThreshold && recentCheckInCount > 0;
    update := PopularityUpdate(pub.id, Round(Clamp(popularityScore)), isHot, stamp);
  }

  // ---------------------------------------------------------------------------
  // Properties of one pub's update
  // ---------------------------------------------------------------------------

  /** Every score is a whole number from 0 to 100. */
  lemma ScoreInRange(pub: Pub, open: bool, count: nat, now: Moment, jitter: Jitter, stamp: Stamp)
    ensures var u := PubUpdate(pub, open, count, now, jitter, stamp);
            0 <= u.score <= 100 && u.id == pub.id && u.checkedAt == stamp
  {
    var raw := RawScore(count, now, jitter);
    var r := Round(Clamp(raw));
    assert r as real - 0.5 <= 100.0 && 0.0 < r as real + 0.5;
  }

  /** A closed pub scores 0 and is not hot, however many check-ins it has. */
  lemma ClosedPubScoresZero(pub: Pub, count: nat, now: Moment, jitter: Jitter, stamp: Stamp)
    ensures var u := PubUpdate(pub, false, count, now, jitter, stamp);
            u.score == 0 && !u.hot
  {
  }

  /** A pub is hot exactly when it is open, has a recent check-in and its raw score is above 75. */
  lemma HotIff(pub: Pub, open: bool, count: nat, now: Moment, jitter: Jitter, stamp: Stamp)
    ensures PubUpdate(pub, open, count, now, jitter, stamp).hot
            <==> open && count > 0 && RawScore(count, now, jitter) > 75.0
  {
  }

  /** Without recent check-ins a pub is never hot. */
  lemma NoCheckInsNeverHot(pub: Pub, open: bool, now: Moment, jitter: Jitter, stamp: Stamp)
    ensures !PubUpdate(pub, open, 0, now, jitter, stamp).hot
  {
  }

  /** The weekday and hour bonuses add up to between 0 and 70. */
  lemma BonusRange(now: Moment)
    ensures 0 <= Bonus(now) <= 70
    ensures Bonus(now) == 70 <==> (now.day == 5 || now.day == 6) && now.hour >= 21
  {
  }

  /** An open pub scores at least 13: the base of 20 outweighs the worst jitter. */
  lemma OpenPubScoresAtLeast13(pub: Pub, count: nat, now: Moment, jitter: Jitter, stamp: Stamp)
    ensures PubUpdate(pub, true, count, now, jitter, stamp).score >= 13
  {
    var raw := RawScore(count, now, jitter);
    assert raw >= 12.5;
    assert Clamp(raw) >= 12.5;
    RoundMonotone(12.5, Clamp(raw));
  }

  /** A hot pub scores at least 75: rounding can bring a raw score just above 75 down to 75. */
  lemma HotPubScoresAtLeast75(pub: Pub, open: bool, count: nat, now: Moment, jitter: Jitter, stamp: Stamp)
    requires PubUpdate(pub, open, count, now, jitter, stamp).hot
    ensures PubUpdate(pub, open, count, now, jitter, stamp).score >= 75
  {
    var raw := RawScore(count, now, jitter);
    assert Clamp(raw) > 75.0;
    RoundMonotone(75.0, Clamp(raw));
  }

  lemma RoundMonotone(x: real, y: real)
    requires x <= y
    ensures Round(x) <= Round(y)
  {
  }

  lemma ClampMonotone(x: real, y: real)
    requires x <= y
    ensures Clamp(x) <= Clamp(y)
  {
  }

  /** From three check-ins on, more check-ins add nothing. */
  lemma ActivitySaturates(count: nat)
    ensures Activity(count) <= 40
    ensures Activity(count) == 40 <==> count >= 3
  {
  }

  /** More check-ins never lower an open pub's score, and never turn a hot pub cold. */
  lemma MoreCheckInsNeverLower(pub: Pub, count: nat, more: nat, now: Moment, jitter: Jitter, stamp: Stamp)
    requires count <= more
    ensures var u, v := PubUpdate(pub, true, count, now, jitter, stamp), PubUpdate(pub, true, more, now, jitter, stamp);
            u.score <= v.score && (u.hot ==> v.hot)
  {
    assert Activity(count) <= Activity(more);
    var x, y := RawScore(count, now, jitter), RawScore(more, now, jitter);
    ClampMonotone(x, y);
    RoundMonotone(Clamp(x), Clamp(y));
  }

  // ---------------------------------------------------------------------------
  // The batch
  // ---------------------------------------------------------------------------

  /**
   * Whether each pub is open, in order. Each opening check reads the clock
   * afresh, so pub `k` is judged at `openClock[k]`, not at the run's `now`.
   */
  ghost function OpenFlags(pubs: seq<Pub>, openClock: seq<Moment>): seq<bool>
    requires |openClock| == |pubs|
  {
    seq(|pubs|, k requires 0 <= k < |pubs| => OpenAt(pubs[k].hours, openClock[k]))
  }

  /**
   * The updates the run returns: one per pub, in order, each pub with its own
   * jitter and its own opening check; the bonuses and the stamp all use the
   * clock read taken when the run starts.
   */
  ghost function ExpectedUpdates(pubs: seq<Pub>, checkIns: CheckIns, now: Moment, openClock: seq<Moment>,
                                 jitters: seq<Jitter>, stamp: Stamp): seq<PopularityUpdate>
    requires |openClock| == |pubs| && |jitters| == |pubs|
  {
    seq(|pubs|, k requires 0 <= k < |pubs| =>
      PubUpdate(pubs[k], OpenAt(pubs[k].hours, openClock[k]), RecentCount(checkIns, pubs[k].id), now, jitters[k], stamp))
  }

  /** The `reduce` over the fetched rows: one more for each row's pub. */
  method CountCheckIns(rows: seq<PubId>) returns (checkInCounts: map<PubId, nat>)
    ensures forall id :: Lookup(checkInCounts, id) == multiset(rows)[id]
    ensures forall id :: id in checkInCounts <==> id in rows
  {
    checkInCounts := map[];
    var i := 0;
    while i < |rows|
      invariant 0 <= i <= |rows|
      invariant forall id :: Lookup(checkInCounts, id) == multiset(rows[..i])[id]
      invariant forall id :: id in checkInCounts <==> id in rows[..i]
    {
      assert rows[..i + 1] == rows[..i] + [rows[i]];
      var id := rows[i];
      checkInCounts := checkInCounts[id := Lookup(checkInCounts, id) + 1];
      i := i + 1;
    }
    assert rows[..i] == rows;
  }

  /** The updates for pubs whose opening states are `open` and whose counts are in `checkInCounts`. */
  function ScoredUpdates(pubs: seq<Pub>, open: seq<bool>, checkInCounts: map<PubId, nat>, now: Moment,
                         jitters: seq<Jitter>, stamp: Stamp): seq<PopularityUpdate>
    requires |open| == |pubs| && |jitters| == |pubs|
  {
    seq(|pubs|, k requires 0 <= k < |pubs| =>
      PubUpdate(pubs[k], open[k], Lookup(checkInCounts, pubs[k].id), now, jitters[k], stamp))
  }

  /** The `map` over the pubs: check the hours, tally open and closed, and score. */
  method ScorePubs(pubs: seq<Pub>, checkInCounts: map<PubId, nat>, now: Moment, openClock: seq<Moment>,
                   jitters: seq<Jitter>, stamp: Stamp)
    returns (updates: seq<PopularityUpdate>, openCount: nat, closedCount: nat)
    requires |openClock| == |pubs| && |jitters| == |pubs|
    ensures updates == ScoredUpdates(pubs, OpenFlags(pubs, openClock), checkInCounts, now, jitters, stamp)
    ensures openCount == multiset(OpenFlags(pubs, openClock))[true]
    ensures closedCount == multiset(OpenFlags(pubs, openClock))[false]
    ensures openCount + closedCount == |pubs|
  {
    ghost var flags := OpenFlags(pubs, openClock);
    ghost var expected := ScoredUpdates(pubs, flags, checkInCounts, now, jitters, stamp);
    updates, openCount, closedCount := [], 0, 0;
    var i := 0;
    while i < |pubs|
      invariant 0 <= i <= |pubs|
      invariant updates == expected[..i]
      invariant openCount == multiset(flags[..i])[true]
      invariant closedCount == multiset(flags[..i])[false]
      invariant openCount + closedCount == i
    {
      TallyStep(flags, i);
      var pub := pubs[i];
      var isOpen := IsCurrentlyOpen(pub.hours, openClock[i]);
      assert isOpen == flags[i];
      if isOpen {
        openCount := openCount + 1;
      } else {
        closedCount := closedCount + 1;
      }
      var update := ScorePub(pub, isOpen, Lookup(checkInCounts, pub.id), now, jitters[i], stamp);
      assert expected[..i + 1] == expected[..i] + [update];
      updates := updates + [update];
      i := i + 1;
    }
    assert expected[..i] == expected;
    assert flags[..i] == flags;
  }

  /** Counting one more outcome adds one to its own tally and nothing to the other. */
  lemma TallyStep(outcomes: seq<bool>, i: nat)
    requires i < |outcomes|
    ensures multiset(outcomes[..i + 1])[true] == multiset(outcomes[..i])[true] + (if outcomes[i] then 1 else 0)
    ensures multiset(outcomes[..i + 1])[false] == multiset(outcomes[..i])[false] + (if outcomes[i] then 0 else 1)
  {
    assert outcomes[..i + 1] == outcomes[..i] + [outcomes[i]];
  }

  /** The write loop: every update is attempted, and each failure is counted and passed over. */
  method SaveUpdates(updates: seq<PopularityUpdate>, writeFailed: seq<bool>)
    returns (successCount: nat, errorCount: nat)
    requires |writeFailed| == |updates|
    ensures successCount == multiset(writeFailed)[false]
    ensures errorCount == multiset(writeFailed)[true]
    ensures successCount + errorCount == |updates|
  {
    successCount, errorCount := 0, 0;
    var i := 0;
    while i < |updates|
      invariant 0 <= i <= |updates|
      invariant successCount == multiset(writeFailed[..i])[false]
      invariant errorCount == multiset(writeFailed[..i])[true]
      invariant successCount + errorCount == i
    {
      TallyStep(writeFailed, i);
      if writeFailed[i] {
        errorCount := errorCount + 1;
      } else {
        successCount := successCount + 1;
      }
      i := i + 1;
    }
    assert writeFailed[..i] == writeFailed;
  }

  /**
   * `updatePopularityScores`: count the check-ins (none when the fetch failed),
   * score every pub, then try every write. Returns the updates and the four
   * tallies the run reports.
   */
  method UpdatePopularityScores(pubs: seq<Pub>, checkIns: CheckIns, now: Moment, openClock: seq<Moment>,
                                jitters: seq<Jitter>, stamp: Stamp, writeFailed: seq<bool>)
    returns (updates: seq<PopularityUpdate>, openCount: nat, closedCount: nat, successCount: nat, errorCount: nat)
    requires |openClock| == |pubs| && |jitters| == |pubs| && |writeFailed| == |pubs|
    ensures updates == ExpectedUpdates(pubs, checkIns, now, openClock, jitters, stamp)
    ensures openCount == multiset(OpenFlags(pubs, openClock))[true]
    ensures closedCount == multiset(OpenFlags(pubs, openClock))[false]
    ensures openCount + closedCount == |pubs|
    ensures errorCount == multiset(writeFailed)[true]
    ensures successCount == multiset(writeFailed)[false]
    ensures successCount + errorCount == |updates|
  {
    var checkInCounts := CountCheckIns(Fetched(checkIns));
    updates, openCount, closedCount := ScorePubs(pubs, checkInCounts, now, openClock, jitters, stamp);
    assert updates == ExpectedUpdates(pubs, checkIns, now, openClock, jitters, stamp) by {
      forall k | 0 <= k < |pubs|
        ensures updates[k] == ExpectedUpdates(pubs, checkIns, now, openClock, jitters, stamp)[k]
      {
        assert Lookup(checkInCounts, pubs[k].id) == RecentCount(checkIns, pubs[k].id);
      }
    }
    successCount, errorCount := SaveUpdates(updates, writeFailed);
  }

  // ---------------------------------------------------------------------------
  // Properties of the batch
  // ---------------------------------------------------------------------------

  /** One update per pub, in input order, with the pub's id and the run's stamp. */
  lemma UpdatesFollowPubs(pubs: seq<Pub>, checkIns: CheckIns, now: Moment, openClock: seq<Moment>,
                          jitters: seq<Jitter>, stamp: Stamp)
    requires |openClock| == |pubs| && |jitters| == |pubs|
    ensures var us := ExpectedUpdates(pubs, checkIns, now, openClock, jitters, stamp);
            |us| == |pubs|
            && forall k :: 0 <= k < |us| ==> us[k].id == pubs[k].id && us[k].checkedAt == stamp && 0 <= us[k].score <= 100
  {
    var us := ExpectedUpdates(pubs, checkIns, now, openClock, jitters, stamp);
    forall k | 0 <= k < |us|
      ensures us[k].id == pubs[k].id && us[k].checkedAt == stamp && 0 <= us[k].score <= 100
    {
      ScoreInRange(pubs[k], OpenAt(pubs[k].hours, openClock[k]), RecentCount(checkIns, pubs[k].id), now, jitters[k], stamp);
    }
  }

  /** When the check-ins cannot be fetched the run goes on, and no pub is hot. */
  lemma FailedFetchMeansNothingHot(pubs: seq<Pub>, now: Moment, openClock: seq<Moment>, jitters: seq<Jitter>, stamp: Stamp)
    requires |openClock| == |pubs| && |jitters| == |pubs|
    ensures var us := ExpectedUpdates(pubs, FetchFailed, now, openClock, jitters, stamp);
            |us| == |pubs| && forall k :: 0 <= k < |us| ==> !us[k].hot
  {
  }

  /** A pub without a table of hours is treated as open, so it scores at least 13. */
  lemma PubWithoutHoursIsScored(pubs: seq<Pub>, checkIns: CheckIns, now: Moment, openClock: seq<Moment>,
                                jitters: seq<Jitter>, stamp: Stamp, k: nat)
    requires |openClock| == |pubs| && |jitters| == |pubs| && k < |pubs| && pubs[k].hours.None?
    ensures ExpectedUpdates(pubs, checkIns, now, openClock, jitters, stamp)[k].score >= 13
  {
    NoScheduleMeansOpen(openClock[k]);
    OpenPubScoresAtLeast13(pubs[k], RecentCount(checkIns, pubs[k].id), now, jitters[k], stamp);
  }

  /** The open and closed tallies split the pubs; likewise the write tallies split the updates. */
  lemma {:induction false} TalliesSplit(flags: seq<bool>)
    ensures multiset(flags)[true] + multiset(flags)[false] == |flags|
  {
    if flags != [] {
      TalliesSplit(flags[1..]);
      assert flags == [flags[0]] + flags[1..];
      var rest := multiset(flags[1..]);
      assert multiset(flags) == multiset{flags[0]} + rest;
      if flags[0] {
        assert multiset(flags)[true] == rest[true] + 1 && multiset(flags)[false] == rest[false];
      } else {
        assert multiset(flags)[true] == rest[true] && multiset(flags)[false] == rest[false] + 1;
      }
    }
  }
}
