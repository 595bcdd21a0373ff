/**
 * The granularity classifier (get_snapshot_type): from the clock and the
 * existing snapshot names grouped by type, pick the type of the next snapshot.
 * Levels are tried from YEAR down to HOUR; MINUTE is the fallback.
 */
module Classifier {
  import opened Strings
  import opened SnapshotNames

  /** `existing_snapshots.get(kind, [])` */
  function Get(buckets: map<SnapshotType, seq<string>>, kind: SnapshotType): seq<string>
  {
    if kind in buckets then buckets[kind] else []
  }

  /** `any(snapshot[0:k] == text for snapshot in names)` */
  predicate AnyHeadIs(names: seq<string>, k: nat, text: string)
  {
    exists i | 0 <= i < |names| :: Head(names[i], k) == text
  }

  /** The clock stands exactly at the start of a period of `level` (to the minute). */
  predicate AtBoundary(level: SnapshotType, now: DateTime)
  {
    match level
    case Year => now.month == 1 && now.day == 1 && now.hour == 0 && now.minute == 0
    case Month => now.day == 1 && now.hour == 0 && now.minute == 0
    case Day => now.hour == 0 && now.minute == 0
    case Hour => now.minute == 0
    case Minute => true
  }

  /**
   * A snapshot of `level` is due: the clock is on its boundary, or no name in
   * its bucket starts with the current period's text. MINUTE is always due.
   */
  predicate Due(level: SnapshotType, now: DateTime, buckets: map<SnapshotType, seq<string>>)
    requires now.Valid()
  {
    level == Minute || AtBoundary(level, now)
    || !AnyHeadIs(Get(buckets, level), PeriodLen(level), PeriodText(level, now))
  }

  /** Coarseness of a level: YEAR highest, MINUTE lowest. */
  function Rank(level: SnapshotType): nat
  {
    match level
    case Minute => 0
    case Hour => 1
    case Day => 2
    case Month => 3
    case Year => 4
  }

  /**
   * get_snapshot_type with the clock and the grouped listing as inputs. The
   * result is the coarsest level that is due.
   */
  function SnapshotTypeFor(now: DateTime, buckets: map<SnapshotType, seq<string>>): (kind: SnapshotType)
    requires now.Valid()
    ensures Due(kind, now, buckets)
    ensures forall level :: Rank(level) > Rank(kind) ==> !Due(level, now, buckets)
  {
    if now.month == 1 && now.day == 1 && now.hour == 0 && now.minute == 0 then Year
    else if !AnyHeadIs(Get(buckets, Year), 4, YearText(now)) then Year
    else if now.day == 1 && now.hour == 0 && now.minute == 0 then Month
    else if !AnyHeadIs(Get(buckets, Month), 6, MonthText(now)) then Month
    else if now.hour == 0 && now.minute == 0 then Day
    else if !AnyHeadIs(Get(buckets, Day), 8, DayText(now)) then Day
    else if now.minute == 0 then Hour
    else if !AnyHeadIs(Get(buckets, Hour), 11, HourText(now)) then Hour
    else Minute
  }

  /** Exactly one level is the coarsest due one, so the description above pins the result down. */
  lemma CoarsestDueIsUnique(now: DateTime, buckets: map<SnapshotType, seq<string>>, kind: SnapshotType)
    requires now.Valid()
    ensures kind == SnapshotTypeFor(now, buckets) <==>
      Due(kind, now, buckets) && forall level :: Rank(level) > Rank(kind) ==> !Due(level, now, buckets)
  {
    var r := SnapshotTypeFor(now, buckets);
    if Due(kind, now, buckets) && forall level :: Rank(level) > Rank(kind) ==> !Due(level, now, buckets) {
      assert !(Rank(kind) > Rank(r));
      assert !(Rank(r) > Rank(kind));
    }
  }

  /**
   * YEAR wins whenever the clock is at 1 January 00:00 or no YEAR-bucket name
   * starts with the current year, whatever the other buckets hold.
   */
  lemma YearWhenYearUnseen(now: DateTime, buckets: map<SnapshotType, seq<string>>)
    requires now.Valid()
    requires AtBoundary(Year, now) || !AnyHeadIs(Get(buckets, Year), 4, YearText(now))
    ensures SnapshotTypeFor(now, buckets) == Year
  {
  }

  /**
   * MINUTE comes out exactly when the YEAR, MONTH, DAY and HOUR buckets each
   * hold a name of the current period and the clock is not on a whole hour.
   */
  lemma MinuteOnlyWhenAllSeen(now: DateTime, buckets: map<SnapshotType, seq<string>>)
    requires now.Valid()
    ensures SnapshotTypeFor(now, buckets) == Minute <==>
      now.minute != 0
      && AnyHeadIs(Get(buckets, Year), 4, YearText(now))
      && AnyHeadIs(Get(buckets, Month), 6, MonthText(now))
      && AnyHeadIs(Get(buckets, Day), 8, DayText(now))
      && AnyHeadIs(Get(buckets, Hour), 11, HourText(now))
  {
  }

  /** An empty snapshot directory (or a listing that failed) gives YEAR. */
  lemma EmptyListingGivesYear(now: DateTime)
    requires now.Valid()
    ensures SnapshotTypeFor(now, Group([])) == Year
  {
    assert Get(Group([]), Year) == [];
  }

  /**
   * A snapshot the monitor itself named in the current period is seen by the
   * classifier: its level's bucket then holds a name with the period's text.
   */
  lemma OwnSnapshotSeen(listing: seq<string>, named: DateTime, level: SnapshotType, now: DateTime)
    requires named.Valid() && now.Valid() && level != Minute
    requires SnapshotName(named, level) in listing
    requires PeriodText(level, named) == PeriodText(level, now)
    ensures AnyHeadIs(Get(Group(listing), level), PeriodLen(level), PeriodText(level, now))
  {
    var name := SnapshotName(named, level);
    NameInOwnBucket(listing, named, level);
    NameHeads(named, level, level);
    var bucket := Get(Group(listing), level);
    var i :| 0 <= i < |bucket| && bucket[i] == name;
    assert Head(bucket[i], PeriodLen(level)) == PeriodText(level, now);
  }

  /**
   * Away from the boundary, a level is not chosen again in a period in which
   * the monitor already wrote a snapshot of that level.
   */
  lemma NoRepeatWithinPeriod(listing: seq<string>, named: DateTime, level: SnapshotType, now: DateTime)
    requires named.Valid() && now.Valid() && level != Minute
    requires SnapshotName(named, level) in listing
    requires PeriodText(level, named) == PeriodText(level, now)
    requires !AtBoundary(level, now)
    ensures SnapshotTypeFor(now, Group(listing)) != level
  {
    OwnSnapshotSeen(listing, named, level, now);
    assert !Due(level, now, Group(listing));
  }

  /**
   * After a first YEAR snapshot, the next one in the same year (away from
   * 1 January 00:00) is MONTH: only the YEAR bucket has been filled.
   */
  lemma MonthFollowsFirstYear(named: DateTime, now: DateTime)
    requires named.Valid() && now.Valid()
    requires named.year == now.year && !AtBoundary(Year, now)
    ensures SnapshotTypeFor(now, Group([SnapshotName(named, Year)])) == Month
  {
    var listing := [SnapshotName(named, Year)];
    var buckets := Group(listing);
    NoRepeatWithinPeriod(listing, named, Year, now);
    OnlyYearBucketFilled(named);
    assert Due(Month, now, buckets);
    CoarsestDueIsUnique(now, buckets, Month);
  }

  lemma OnlyYearBucketFilled(named: DateTime)
    requires named.Valid()
    ensures Get(Group([SnapshotName(named, Year)]), Month) == []
  {
    var listing := [SnapshotName(named, Year)];
    LabelledNameInBucket(Timestamp(named), Year);
    assert !InBucket(listing[0], Month);
    assert listing[1..] == [];
    assert Bucket(listing, Month) == [];
  }
}
