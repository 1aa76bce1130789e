/**
 * A retention (main.go:43-49) and the greedy claiming of periods that
 * main.go:159-176 performs for it, one snapshot at a time.
 *
 * `ClaimAll(p, ss)` is the specification: the claims a retention with
 * policy p holds after being offered the snapshots ss in order, starting
 * from no claims.  The lemmas below state what the source promises about
 * it: the capacity bound, that a full retention stays as it is, that the
 * first snapshot of a period wins and is never replaced, and that the
 * claimed periods are the first `keep` distinct periods met.
 */
module Retentions {
  import opened Civil
  import opened Periods
  import opened Snapshots

  /** What one retention holds: each claimed period key with the snapshot kept for it. */
  type Claims = map<PeriodKey, Snap>

  /** The period key a retention with policy p gives a snapshot: `Align`'s key for its timestamp. */
  function KeyOf(p: Policy): Snap -> PeriodKey {
    (s: Snap) => PeriodKeyOf(p, s.timestamp)
  }

  /** The most periods a retention can claim: its keep count, or none when that is not positive. */
  function Capacity(keep: int): nat {
    if keep > 0 then keep else 0
  }

  /**
   * Offer snapshot s to a retention holding m that keeps `keep` periods and
   * keys snapshots with `key`: skip it when full, else claim its period if
   * that is unclaimed.
   */
  function ClaimStep(key: Snap -> PeriodKey, keep: int, m: Claims, s: Snap): Claims {
    if |m| >= keep then m
    else if key(s) in m then m
    else m[key(s) := s]
  }

  /** The claims after offering every snapshot of ss, in order, to a retention that starts empty. */
  function ClaimAll(key: Snap -> PeriodKey, keep: int, ss: seq<Snap>): Claims {
    if ss == [] then map[] else ClaimStep(key, keep, ClaimAll(key, keep, ss[..|ss| - 1]), ss[|ss| - 1])
  }

  /** The claims a retention with policy p ends with after being offered ss. */
  function Claimed(p: Policy, ss: seq<Snap>): Claims {
    ClaimAll(KeyOf(p), p.keep, ss)
  }

  /** The distinct period keys of ss in the order they are first met. */
  function DistinctKeys(key: Snap -> PeriodKey, ss: seq<Snap>): seq<PeriodKey> {
    if ss == [] then []
    else
      var d := DistinctKeys(key, ss[..|ss| - 1]);
      if key(ss[|ss| - 1]) in d then d else d + [key(ss[|ss| - 1])]
  }

  function Min(a: int, b: int): int {
    if a <= b then a else b
  }

  /** `after` holds every claim of `before`, with the same snapshot. */
  ghost predicate Extends(after: Claims, before: Claims) {
    forall k :: k in before ==> k in after && after[k] == before[k]
  }

  lemma AllButLast(ss: seq<Snap>, i: int)
    requires 0 <= i < |ss|
    ensures ss[..|ss| - 1][..i] == ss[..i]
  {
  }

  /** Each retention's map never holds more than max(keep, 0) periods. */
  lemma {:induction false} CapacityBound(key: Snap -> PeriodKey, keep: int, ss: seq<Snap>)
    ensures |ClaimAll(key, keep, ss)| <= Capacity(keep)
  {
    if ss != [] {
      CapacityBound(key, keep, ss[..|ss| - 1]);
    }
  }

  /** Once a period is claimed its snapshot is never replaced: later claims extend earlier ones. */
  lemma {:induction false} ClaimsNeverOverwritten(key: Snap -> PeriodKey, keep: int, ss: seq<Snap>, i: int)
    requires 0 <= i <= |ss|
    ensures Extends(ClaimAll(key, keep, ss), ClaimAll(key, keep, ss[..i]))
    ensures |ClaimAll(key, keep, ss[..i])| <= |ClaimAll(key, keep, ss)|
  {
    if i == |ss| {
      assert ss[..i] == ss;
    } else {
      ClaimsNeverOverwritten(key, keep, ss[..|ss| - 1], i);
      AllButLast(ss, i);
    }
  }

  /** A retention that holds `keep` periods after some prefix is not changed by any later snapshot. */
  lemma {:induction false} FullClaimsFrozen(key: Snap -> PeriodKey, keep: int, ss: seq<Snap>, i: int)
    requires 0 <= i <= |ss|
    requires |ClaimAll(key, keep, ss[..i])| >= keep
    ensures ClaimAll(key, keep, ss) == ClaimAll(key, keep, ss[..i])
  {
    if i == |ss| {
      assert ss[..i] == ss;
    } else {
      AllButLast(ss, i);
      FullClaimsFrozen(key, keep, ss[..|ss| - 1], i);
    }
  }

  /** A retention with keep <= 0 claims nothing. */
  lemma NonPositiveKeepClaimsNothing(key: Snap -> PeriodKey, keep: int, ss: seq<Snap>)
    requires keep <= 0
    ensures ClaimAll(key, keep, ss) == map[]
  {
    CapacityBound(key, keep, ss);
  }

  /** A retention that ends with fewer than `keep` periods holds the period of every snapshot offered. */
  lemma {:induction false} UnderfullHoldsEveryPeriod(key: Snap -> PeriodKey, keep: int, ss: seq<Snap>)
    requires |ClaimAll(key, keep, ss)| < keep
    ensures forall i :: 0 <= i < |ss| ==> key(ss[i]) in ClaimAll(key, keep, ss)
  {
    if ss != [] {
      var prefix := ss[..|ss| - 1];
      UnderfullHoldsEveryPeriod(key, keep, prefix);
      assert forall i :: 0 <= i < |ss| - 1 ==> ss[i] == prefix[i];
    }
  }

  /**
   * The snapshot a retention keeps for period k is the first snapshot
   * offered whose period is k.
   */
  lemma {:induction false} FirstSnapshotWins(key: Snap -> PeriodKey, keep: int, ss: seq<Snap>, k: PeriodKey)
    requires k in ClaimAll(key, keep, ss)
    ensures exists i :: 0 <= i < |ss| && ClaimAll(key, keep, ss)[k] == ss[i] && key(ss[i]) == k
                        && forall j :: 0 <= j < i ==> key(ss[j]) != k
  {
    var prefix := ss[..|ss| - 1];
    var before := ClaimAll(key, keep, prefix);
    if k in before {
      FirstSnapshotWins(key, keep, prefix, k);
      var i :| 0 <= i < |prefix| && before[k] == prefix[i] && key(prefix[i]) == k
               && forall j :: 0 <= j < i ==> key(prefix[j]) != k;
      assert forall j :: 0 <= j <= i ==> ss[j] == prefix[j];
    } else {
      UnderfullHoldsEveryPeriod(key, keep, prefix);
      assert forall j :: 0 <= j < |ss| - 1 ==> ss[j] == prefix[j];
      assert ClaimAll(key, keep, ss)[k] == ss[|ss| - 1];
    }
  }

  /** Offered newest first, a retention keeps the newest snapshot of each period it claims. */
  lemma NewestSnapshotPerPeriod(key: Snap -> PeriodKey, keep: int, ss: seq<Snap>, k: PeriodKey)
    requires NewestFirst(ss) && k in ClaimAll(key, keep, ss)
    ensures forall s :: s in ss && key(s) == k ==> ClaimAll(key, keep, ss)[k].timestamp >= s.timestamp
  {
    FirstSnapshotWins(key, keep, ss, k);
  }

  /**
   * Offered newest first, a retention keeps the most recent periods: a
   * snapshot whose period it does not hold is no newer than any snapshot it
   * keeps, so every period it passes over lies before all it holds.
   */
  lemma MostRecentPeriodsKept(key: Snap -> PeriodKey, keep: int, ss: seq<Snap>, i: int, k: PeriodKey)
    requires NewestFirst(ss) && 0 <= i < |ss|
    requires key(ss[i]) !in ClaimAll(key, keep, ss) && k in ClaimAll(key, keep, ss)
    ensures ClaimAll(key, keep, ss)[k].timestamp >= ss[i].timestamp
  {
    var before := ClaimAll(key, keep, ss[..i]);
    assert ss[..i + 1][..i] == ss[..i];
    assert ClaimAll(key, keep, ss[..i + 1]) == ClaimStep(key, keep, before, ss[i]);
    ClaimsNeverOverwritten(key, keep, ss, i + 1);
    FullClaimsFrozen(key, keep, ss, i);
    FirstSnapshotWins(key, keep, ss[..i], k);
  }

  /** Every snapshot a retention keeps is one of the snapshots offered. */
  lemma ClaimedSnapshotsAreOffered(key: Snap -> PeriodKey, keep: int, ss: seq<Snap>)
    ensures forall k :: k in ClaimAll(key, keep, ss) ==> ClaimAll(key, keep, ss)[k] in ss
  {
    forall k | k in ClaimAll(key, keep, ss)
      ensures ClaimAll(key, keep, ss)[k] in ss
    {
      FirstSnapshotWins(key, keep, ss, k);
    }
  }

  /** The distinct keys are distinct, and they are exactly the periods of the snapshots. */
  lemma {:induction false} DistinctKeysAreThePeriods(key: Snap -> PeriodKey, ss: seq<Snap>)
    ensures forall a, b :: 0 <= a < b < |DistinctKeys(key, ss)| ==> DistinctKeys(key, ss)[a] != DistinctKeys(key, ss)[b]
    ensures forall k :: k in DistinctKeys(key, ss) <==> exists i :: 0 <= i < |ss| && key(ss[i]) == k
  {
    if ss != [] {
      var prefix := ss[..|ss| - 1];
      DistinctKeysAreThePeriods(key, prefix);
      assert forall j :: 0 <= j < |ss| - 1 ==> ss[j] == prefix[j];
    }
  }

  /**
   * The periods a retention claims are the first max(keep, 0) distinct
   * periods met, in offering order (all of them when there are fewer).
   */
  lemma {:induction false} ClaimsAreFirstDistinctPeriods(key: Snap -> PeriodKey, keep: int, ss: seq<Snap>)
    ensures var n := Min(Capacity(keep), |DistinctKeys(key, ss)|);
      && |ClaimAll(key, keep, ss)| == n
      && ClaimAll(key, keep, ss).Keys == set k | k in DistinctKeys(key, ss)[..n]
  {
    if ss != [] {
      var prefix := ss[..|ss| - 1];
      ClaimsAreFirstDistinctPeriods(key, keep, prefix);
      var d := DistinctKeys(key, prefix);
      var n := Min(Capacity(keep), |d|);
      var before := ClaimAll(key, keep, prefix);
      var k := key(ss[|ss| - 1]);
      var d' := DistinctKeys(key, ss);
      var n' := Min(Capacity(keep), |d'|);
      if |before| >= keep {
        assert n == Capacity(keep) == n';
        assert d'[..n'] == d[..n];
      } else if k in before {
        assert d[..n] == d;
        assert d' == d;
      } else {
        assert n == |d| && d[..n] == d;
        assert d' == d + [k];
        assert d'[..n'] == d + [k];
      }
    }
  }

  /** A retention that ends below capacity holds one claim for every distinct period offered. */
  lemma UnderfullClaimsAllPeriods(key: Snap -> PeriodKey, keep: int, ss: seq<Snap>)
    requires |ClaimAll(key, keep, ss)| < keep
    ensures ClaimAll(key, keep, ss).Keys == set i | 0 <= i < |ss| :: key(ss[i])
  {
    UnderfullHoldsEveryPeriod(key, keep, ss);
    forall k | k in ClaimAll(key, keep, ss)
      ensures exists i :: 0 <= i < |ss| && key(ss[i]) == k
    {
      FirstSnapshotWins(key, keep, ss, k);
    }
  }

  /**
   * One step of the weekly walk, at midnight of day z between t's Monday and
   * t's day: the day before has a different week code exactly when z is that
   * Monday, and then `start` is t's week start.
   */
  lemma WalkBackStep(start: int, z: int, t: int)
    requires start == z * Day && MondayOf(t / Day) <= z <= t / Day
    ensures start - Day == (z - 1) * Day
    ensures var w, nw := IsoWeekAt(start), IsoWeekAt(start - Day);
      if nw.year * 100 + nw.week != w.year * 100 + w.week
      then start == WeekStart(t) && w == IsoWeekAt(t)
      else MondayOf(t / Day) < z
  {
    MidnightOfDay(z, MondayOf(t / Day));
    IsoWeekAtMidnight(z);
    WalkBackDay(z, t / Day);
  }

  /**
   * The weekly branch of `Align`: from midnight of t's day, step back a day
   * at a time while the day before is in the same ISO week (compared as
   * year * 100 + week).  It stops at the Monday, after at most six steps.
   */
  method WeekStartByWalk(t: int) returns (start: int)
    ensures start == WeekStart(t) && IsoWeekAt(start) == IsoWeekAt(t)
  {
    TruncateToDay(t);
    start := Truncate(t, Day);
    ghost var z := t / Day;
    while true
      invariant start == z * Day
      invariant MondayOf(t / Day) <= z <= t / Day
      decreases z - MondayOf(t / Day)
    {
      WalkBackStep(start, z, t);
      var w := IsoWeekAt(start);
      var nw := IsoWeekAt(start - Day);
      if nw.year * 100 + nw.week != w.year * 100 + w.week {
        break;
      }
      start := start - Day;
      z := z - 1;
    }
  }

  /** The policies of a sequence of retentions, in order. */
  function Configs(rs: seq<Retention>): seq<Policy> {
    seq(|rs|, i requires 0 <= i < |rs| => rs[i].Config())
  }

  /** A retention of the program: its fixed policy fields and the map of periods it has claimed. */
  class Retention {
    const alias: Kind
    const duration: int
    const keep: int
    var snaps: Claims

    /** A retention as the spec parser creates it; `snaps` starts empty (the source creates it lazily). */
    constructor (p: Policy)
      ensures Config() == p && snaps == map[]
    {
      alias, duration, keep := p.alias, p.duration, p.keep;
      snaps := map[];
    }

    function Config(): Policy {
      Policy(alias, duration, keep)
    }

    /**
     * The start and key of t's period.  Weekly walks back a day at a time
     * from t's midnight while the day before is in the same ISO week
     * (at most six steps); the others truncate to their duration.
     */
    method Align(t: int) returns (start: int, key: PeriodKey)
      ensures start == PeriodStart(Config(), t)
      ensures key == PeriodKeyOf(Config(), t)
    {
      if alias == Weekly {
        start := WeekStartByWalk(t);
        var w := IsoWeekAt(start);
        key := WeekKey(w.year, w.week);
        return;
      }
      start := Truncate(t, duration);
      key := FormatKey(alias, start);
    }

    /**
     * Offer one snapshot (the body of main.go:160-175 for this retention):
     * when the map holds fewer than `keep` periods and the snapshot's period
     * is unclaimed, claim it.
     */
    method Claim(s: Snap) returns (claimed: bool)
      modifies this
      ensures snaps == ClaimStep(KeyOf(Config()), keep, old(snaps), s)
      ensures claimed <==> |old(snaps)| < keep && KeyOf(Config())(s) !in old(snaps)
    {
      claimed := false;
      if |snaps| >= keep {
        // Retention already satisfied.
        return;
      }
      var _, key := Align(s.timestamp);
      if key !in snaps {
        snaps := snaps[key := s];
        claimed := true;
      }
    }
  }
}
