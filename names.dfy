/**
 * Snapshot types, the clock value, the `strftime` texts the monitor builds from
 * it, the on-disk name `YYYYMMDD_HHMMSS_<TYPE>` and the grouping of a directory
 * listing by the type at the end of each name.
 */
module SnapshotNames {
  import opened Wrappers
  import opened Strings

  /** The five retention types (`self.snapshot_types`). */
  datatype SnapshotType = Minute | Hour | Day | Month | Year

  const AllTypes: set<SnapshotType> := {Minute, Hour, Day, Month, Year}

  /** The type's text in a snapshot name. */
  function TypeName(t: SnapshotType): string
  {
    match t
    case Minute => "MINUTE"
    case Hour => "HOUR"
    case Day => "DAY"
    case Month => "MONTH"
    case Year => "YEAR"
  }

  /** `type_part in self.snapshot_types`, giving the type it names. */
  function ParseType(s: string): (r: Option<SnapshotType>)
    ensures r.Some? ==> TypeName(r.value) == s
    ensures r.None? ==> forall t :: TypeName(t) != s
  {
    if s == "MINUTE" then Some(Minute)
    else if s == "HOUR" then Some(Hour)
    else if s == "DAY" then Some(Day)
    else if s == "MONTH" then Some(Month)
    else if s == "YEAR" then Some(Year)
    else None
  }

  /** Parsing a type's name gives the type back; no type name holds an underscore. */
  lemma ParseTypeName(kind: SnapshotType)
    ensures ParseType(TypeName(kind)) == Some(kind)
    ensures '_' !in TypeName(kind)
  {
    match kind
    case Minute => assert TypeName(kind) == "MINUTE";
    case Hour => assert TypeName(kind) == "HOUR";
    case Day => assert TypeName(kind) == "DAY";
    case Month => assert TypeName(kind) == "MONTH";
    case Year => assert TypeName(kind) == "YEAR";
  }

  // ---------------------------------------------------------------------------
  // Clock values and their strftime texts
  // ---------------------------------------------------------------------------

  /** A `datetime` read from the clock, to the second. */
  datatype DateTime = DateTime(year: int, month: int, day: int, hour: int, minute: int, second: int)
  {
    /**
     * A real calendar date and time of day. Years are kept to four digits:
     * only for those does `%Y` print exactly four characters.
     */
    predicate Valid()
    {
      1000 <= year <= 9999 && 1 <= month <= 12 && 1 <= day <= DaysInMonth(year, month)
      && 0 <= hour < 24 && 0 <= minute < 60 && 0 <= second < 60
    }
  }

  predicate IsLeapYear(y: int)
  {
    y % 4 == 0 && (y % 100 != 0 || y % 400 == 0)
  }

  function DaysInMonth(y: int, m: int): int
  {
    if m == 2 then (if IsLeapYear(y) then 29 else 28)
    else if m == 4 || m == 6 || m == 9 || m == 11 then 30
    else 31
  }

  function Digit(d: int): char
    requires 0 <= d < 10
  {
    ('0' as int + d) as char
  }

  /** A zero-padded two-digit field (`%m`, `%d`, `%H`, `%M`, `%S`). */
  function Pad2(n: int): string
    requires 0 <= n < 100
  {
    [Digit(n / 10), Digit(n % 10)]
  }

  /** A zero-padded four-digit field (`%Y`). */
  function Pad4(n: int): string
    requires 0 <= n < 10000
  {
    Pad2(n / 100) + Pad2(n % 100)
  }

  /** `now.strftime('%Y')` */
  function YearText(t: DateTime): string
    requires t.Valid()
  {
    Pad4(t.year)
  }

  /** `now.strftime('%Y%m')` */
  function MonthText(t: DateTime): string
    requires t.Valid()
  {
    Pad4(t.year) + Pad2(t.month)
  }

  /** `now.strftime('%Y%m%d')` */
  function DayText(t: DateTime): string
    requires t.Valid()
  {
    Pad4(t.year) + Pad2(t.month) + Pad2(t.day)
  }

  /** `now.strftime('%Y%m%d_%H')` */
  function HourText(t: DateTime): string
    requires t.Valid()
  {
    Pad4(t.year) + Pad2(t.month) + Pad2(t.day) + "_" + Pad2(t.hour)
  }

  /** `datetime.now().strftime('%Y%m%d_%H%M%S')` */
  function Timestamp(t: DateTime): string
    requires t.Valid()
  {
    Pad4(t.year) + Pad2(t.month) + Pad2(t.day) + "_" + Pad2(t.hour) + Pad2(t.minute) + Pad2(t.second)
  }

  /** `f"{timestamp}_{snapshot_type}"` in create_snapshot. */
  function SnapshotName(t: DateTime, kind: SnapshotType): string
    requires t.Valid()
  {
    Timestamp(t) + "_" + TypeName(kind)
  }

  /** Python's slice `s[0:k]`: the first `k` characters, or all of a shorter string. */
  function Head(s: string, k: nat): (r: string)
    ensures |r| == if |s| < k then |s| else k
    ensures r == s[..|r|]
  {
    if |s| <= k then s else s[..k]
  }

  /** How many leading characters of a name the classifier compares for a level. */
  function PeriodLen(level: SnapshotType): nat
    requires level != Minute
  {
    match level
    case Hour => 11
    case Day => 8
    case Month => 6
    case Year => 4
  }

  /** The text of the current period that the classifier compares those characters with. */
  function PeriodText(level: SnapshotType, t: DateTime): string
    requires level != Minute && t.Valid()
  {
    match level
    case Hour => HourText(t)
    case Day => DayText(t)
    case Month => MonthText(t)
    case Year => YearText(t)
  }

  /**
   * The first 4, 6, 8 and 11 characters of a snapshot name are the year, month,
   * day and hour texts of the time it was named at.
   */
  lemma NameHeads(t: DateTime, kind: SnapshotType, level: SnapshotType)
    requires t.Valid() && level != Minute
    ensures Head(SnapshotName(t, kind), PeriodLen(level)) == PeriodText(level, t)
  {
    var y, mo, d := Pad4(t.year), Pad2(t.month), Pad2(t.day);
    var h, mi, s := Pad2(t.hour), Pad2(t.minute), Pad2(t.second);
    var name := SnapshotName(t, kind);
    assert name == HourText(t) + (mi + s + "_" + TypeName(kind));
    assert HourText(t) == DayText(t) + ("_" + h);
    assert DayText(t) == MonthText(t) + d;
    assert MonthText(t) == YearText(t) + mo;
    assert name[..11] == HourText(t);
    assert name[..8] == HourText(t)[..8] == DayText(t);
    assert name[..6] == DayText(t)[..6] == MonthText(t);
    assert name[..4] == MonthText(t)[..4] == YearText(t);
  }

  // ---------------------------------------------------------------------------
  // Chronological order of names
  // ---------------------------------------------------------------------------

  /** `a` is not later than `b`. */
  predicate NotLater(a: DateTime, b: DateTime)
  {
    a.year < b.year || (a.year == b.year &&
    (a.month < b.month || (a.month == b.month &&
    (a.day < b.day || (a.day == b.day &&
    (a.hour < b.hour || (a.hour == b.hour &&
    (a.minute < b.minute || (a.minute == b.minute && a.second <= b.second)))))))))
  }

  /** Comparing two strings whose first parts have the same length. */
  lemma {:induction false} LexLeAppend(x: string, y: string, x': string, y': string)
    requires |x| == |x'|
    ensures LexLe(x + y, x' + y') <==> (x != x' && LexLe(x, x')) || (x == x' && LexLe(y, y'))
  {
    if |x| == 0 {
      assert x + y == y && x' + y' == y';
    } else {
      assert (x + y)[0] == x[0] && (x' + y')[0] == x'[0];
      assert (x + y)[1..] == x[1..] + y && (x' + y')[1..] == x'[1..] + y';
      LexLeAppend(x[1..], y, x'[1..], y');
      assert x == [x[0]] + x[1..] && x' == [x'[0]] + x'[1..];
      assert x == x' <==> x[0] == x'[0] && x[1..] == x'[1..];
    }
  }

  lemma Pad2Order(m: int, n: int)
    requires 0 <= m < 100 && 0 <= n < 100
    ensures LexLe(Pad2(m), Pad2(n)) <==> m <= n
    ensures Pad2(m) == Pad2(n) <==> m == n
  {
    var a, b := Pad2(m), Pad2(n);
    assert m == 10 * (m / 10) + m % 10 && n == 10 * (n / 10) + n % 10;
    assert m <= n <==> m / 10 < n / 10 || (m / 10 == n / 10 && m % 10 <= n % 10);
    assert a[1..] == [Digit(m % 10)] && b[1..] == [Digit(n % 10)];
    assert a[1..][1..] == [] && b[1..][1..] == [];
    assert LexLe(a[1..], b[1..]) <==> m % 10 <= n % 10;
    assert LexLe(a, b) <==> m / 10 < n / 10 || (m / 10 == n / 10 && LexLe(a[1..], b[1..]));
    assert a == b <==> (m / 10 == n / 10 && m % 10 == n % 10);
  }

  lemma Pad4Order(m: int, n: int)
    requires 0 <= m < 10000 && 0 <= n < 10000
    ensures LexLe(Pad4(m), Pad4(n)) <==> m <= n
    ensures Pad4(m) == Pad4(n) <==> m == n
  {
    Pad2Order(m / 100, n / 100);
    Pad2Order(m % 100, n % 100);
    LexLeAppend(Pad2(m / 100), Pad2(m % 100), Pad2(n / 100), Pad2(n % 100));
    assert Pad4(m) == Pad4(n) <==> (m / 100 == n / 100 && m % 100 == n % 100);
  }

  /**
   * Two-digit fields compared one after the other: the fields are compared as
   * numbers, the first difference decides.
   */
  lemma {:induction false} FieldsOrder(ms: seq<int>, ns: seq<int>)
    requires |ms| == |ns|
    requires forall i :: 0 <= i < |ms| ==> 0 <= ms[i] < 100 && 0 <= ns[i] < 100
    ensures LexLe(Fields(ms), Fields(ns)) <==> NumLe(ms, ns)
    ensures Fields(ms) == Fields(ns) <==> ms == ns
  {
    if |ms| > 0 {
      var x, y, x', y' := Pad2(ms[0]), Fields(ms[1..]), Pad2(ns[0]), Fields(ns[1..]);
      assert Fields(ms) == x + y && Fields(ns) == x' + y';
      Pad2Order(ms[0], ns[0]);
      FieldsOrder(ms[1..], ns[1..]);
      LexLeAppend(x, y, x', y');
      ConcatEq(x, y, x', y');
      assert ms == [ms[0]] + ms[1..] && ns == [ns[0]] + ns[1..];
    }
  }

  /** Two concatenations with first parts of one length are equal exactly when both parts are. */
  lemma ConcatEq(x: string, y: string, x': string, y': string)
    requires |x| == |x'|
    ensures x + y == x' + y' <==> x == x' && y == y'
  {
    if x + y == x' + y' {
      assert x == (x + y)[..|x|] && x' == (x' + y')[..|x|];
      assert y == (x + y)[|x|..] && y' == (x' + y')[|x|..];
    }
  }

  /** Two-digit fields written one after the other. */
  function Fields(ns: seq<int>): (r: string)
    requires forall i :: 0 <= i < |ns| ==> 0 <= ns[i] < 100
    ensures |r| == 2 * |ns|
  {
    if ns == [] then [] else Pad2(ns[0]) + Fields(ns[1..])
  }

  lemma FieldsTwo(x: int, y: int)
    requires 0 <= x < 100 && 0 <= y < 100
    ensures Fields([x, y]) == Pad2(x) + Pad2(y)
  {
    assert [x, y][1..] == [y] && [y][1..] == [];
    assert Fields([y]) == Pad2(y) + Fields([]);
  }

  lemma FieldsThree(x: int, y: int, z: int)
    requires 0 <= x < 100 && 0 <= y < 100 && 0 <= z < 100
    ensures Fields([x, y, z]) == Pad2(x) + Pad2(y) + Pad2(z)
  {
    assert [x, y, z][1..] == [y, z];
    FieldsTwo(y, z);
  }

  /** Lexicographic `<=` on sequences of numbers of the same length. */
  predicate NumLe(ms: seq<int>, ns: seq<int>)
    requires |ms| == |ns|
  {
    |ms| == 0 || ms[0] < ns[0] || (ms[0] == ns[0] && NumLe(ms[1..], ns[1..]))
  }

  /** A snapshot name regrouped as year, then month and day, then time of day. */
  lemma NameShape(t: DateTime, kind: SnapshotType)
    requires t.Valid()
    ensures SnapshotName(t, kind) == Pad4(t.year) + (Fields([t.month, t.day]) + ("_" + (Fields([t.hour, t.minute, t.second]) + ("_" + TypeName(kind)))))
  {
    FieldsTwo(t.month, t.day);
    FieldsThree(t.hour, t.minute, t.second);
    Regroup(Pad4(t.year), Pad2(t.month), Pad2(t.day), Pad2(t.hour), Pad2(t.minute), Pad2(t.second), "_" + TypeName(kind));
  }

  lemma Regroup(y: string, mo: string, d: string, h: string, mi: string, s: string, tail: string)
    ensures y + mo + d + "_" + h + mi + s + tail == y + ((mo + d) + ("_" + ((h + mi + s) + tail)))
  {
  }

  lemma NotLaterByFields(a: DateTime, b: DateTime)
    ensures NotLater(a, b) <==>
      (a.year != b.year && a.year <= b.year) || (a.year == b.year &&
      (([a.month, a.day] != [b.month, b.day] && NumLe([a.month, a.day], [b.month, b.day])) ||
       ([a.month, a.day] == [b.month, b.day] && NumLe([a.hour, a.minute, a.second], [b.hour, b.minute, b.second]))))
  {
    var ma, mb := [a.month, a.day], [b.month, b.day];
    var ha, hb := [a.hour, a.minute, a.second], [b.hour, b.minute, b.second];
    assert ma[1..] == [a.day] && mb[1..] == [b.day];
    assert ma[1..][1..] == [] && mb[1..][1..] == [];
    assert ha[1..] == [a.minute, a.second] && hb[1..] == [b.minute, b.second];
    assert ha[1..][1..] == [a.second] && hb[1..][1..] == [b.second];
    assert ha[1..][1..][1..] == [] && hb[1..][1..][1..] == [];
    assert ma == mb <==> a.month == b.month && a.day == b.day;
    assert NumLe(ma[1..], mb[1..]) <==> a.day <= b.day by {
      assert NumLe(ma[1..][1..], mb[1..][1..]);
    }
    assert NumLe(ma, mb) <==> a.month < b.month || (a.month == b.month && a.day <= b.day);
    assert NumLe(ha[1..][1..], hb[1..][1..]) <==> a.second <= b.second by {
      assert NumLe(ha[1..][1..][1..], hb[1..][1..][1..]);
    }
    assert NumLe(ha[1..], hb[1..]) <==> a.minute < b.minute || (a.minute == b.minute && a.second <= b.second);
    assert NumLe(ha, hb) <==> a.hour < b.hour || (a.hour == b.hour && (a.minute < b.minute || (a.minute == b.minute && a.second <= b.second)));
  }

  /** Comparing the parts that follow the year: month and day first, then time of day. */
  lemma TailOrder(a: DateTime, b: DateTime, tail: string)
    requires a.Valid() && b.Valid()
    ensures var ra := Fields([a.month, a.day]) + ("_" + (Fields([a.hour, a.minute, a.second]) + tail));
      var rb := Fields([b.month, b.day]) + ("_" + (Fields([b.hour, b.minute, b.second]) + tail));
      (LexLe(ra, rb) <==>
        (([a.month, a.day] != [b.month, b.day] && NumLe([a.month, a.day], [b.month, b.day])) ||
         ([a.month, a.day] == [b.month, b.day] && NumLe([a.hour, a.minute, a.second], [b.hour, b.minute, b.second]))))
      && (ra == rb <==> [a.month, a.day] == [b.month, b.day] && [a.hour, a.minute, a.second] == [b.hour, b.minute, b.second])
  {
    var ma, mb := [a.month, a.day], [b.month, b.day];
    var ha, hb := [a.hour, a.minute, a.second], [b.hour, b.minute, b.second];
    FieldsOrder(ma, mb);
    FieldsOrder(ha, hb);
    LexLeAppend(Fields(ma), "_" + (Fields(ha) + tail), Fields(mb), "_" + (Fields(hb) + tail));
    LexLeAppend("_", Fields(ha) + tail, "_", Fields(hb) + tail);
    LexLeAppend(Fields(ha), tail, Fields(hb), tail);
    LexLeRefl(tail);
    LexLeRefl(Fields(ha));
    LexLeRefl(Fields(ma));
    var ra := Fields(ma) + ("_" + (Fields(ha) + tail));
    var rb := Fields(mb) + ("_" + (Fields(hb) + tail));
    if ra == rb {
      SameShapeParts(Fields(ma), Fields(ha), Fields(mb), Fields(hb), tail);
    }
  }

  /** Equal texts of the shape `x_y<tail>` with equal part lengths have equal parts. */
  lemma SameShapeParts(x: string, y: string, x': string, y': string, tail: string)
    requires |x| == |x'| && |y| == |y'|
    requires x + ("_" + (y + tail)) == x' + ("_" + (y' + tail))
    ensures x == x' && y == y'
  {
    var r, r' := x + ("_" + (y + tail)), x' + ("_" + (y' + tail));
    assert x == r[..|x|] && x' == r'[..|x|];
    assert y == r[|x| + 1..|x| + 1 + |y|];
    assert y' == r'[|x| + 1..|x| + 1 + |y|];
  }

  /**
   * Snapshot names of one type sort in the order of the times they were named
   * at: Python's string order on them is chronological order.
   */
  lemma NameOrder(a: DateTime, b: DateTime, kind: SnapshotType)
    requires a.Valid() && b.Valid()
    ensures LexLe(SnapshotName(a, kind), SnapshotName(b, kind)) <==> NotLater(a, b)
  {
    var tail := "_" + TypeName(kind);
    NameShape(a, kind);
    NameShape(b, kind);
    Pad4Order(a.year, b.year);
    var ra := Fields([a.month, a.day]) + ("_" + (Fields([a.hour, a.minute, a.second]) + tail));
    var rb := Fields([b.month, b.day]) + ("_" + (Fields([b.hour, b.minute, b.second]) + tail));
    LexLeAppend(Pad4(a.year), ra, Pad4(b.year), rb);
    TailOrder(a, b, tail);
    NotLaterByFields(a, b);
  }

  // ---------------------------------------------------------------------------
  // Grouping a directory listing by type (get_existing_snapshots)
  // ---------------------------------------------------------------------------

  /** `snapshot_name.split('_')[-1]`: the text after the last underscore. */
  function TypePart(name: string): string
  {
    var fields := Split(name, '_');
    fields[|fields| - 1]
  }

  /** A listed name goes to the bucket of `kind`: it holds an underscore and its last field names `kind`. */
  predicate InBucket(name: string, kind: SnapshotType)
  {
    '_' in name && ParseType(TypePart(name)) == Some(kind)
  }

  /** The names of a listing that land in the bucket of `kind`, in listing order. */
  function Bucket(listing: seq<string>, kind: SnapshotType): seq<string>
  {
    if listing == [] then []
    else (if InBucket(listing[0], kind) then [listing[0]] else []) + Bucket(listing[1..], kind)
  }

  /** The dictionary that get_existing_snapshots returns for a listing. */
  function Group(listing: seq<string>): map<SnapshotType, seq<string>>
  {
    map kind | kind in AllTypes :: Bucket(listing, kind)
  }

  /** A bucket holds exactly the listed names that belong to its type. */
  lemma {:induction false} BucketMembers(listing: seq<string>, kind: SnapshotType, name: string)
    ensures name in Bucket(listing, kind) <==> name in listing && InBucket(name, kind)
  {
    if listing != [] {
      BucketMembers(listing[1..], kind, name);
      assert listing == [listing[0]] + listing[1..];
    }
  }

  /** Buckets keep listing order: the bucket of a concatenation is the concatenation of buckets. */
  lemma {:induction false} BucketAppend(a: seq<string>, b: seq<string>, kind: SnapshotType)
    ensures Bucket(a + b, kind) == Bucket(a, kind) + Bucket(b, kind)
  {
    if a == [] {
      assert a + b == b;
    } else {
      assert (a + b)[0] == a[0];
      assert (a + b)[1..] == a[1..] + b;
      BucketAppend(a[1..], b, kind);
    }
  }

  /** No name sits in two buckets. */
  lemma BucketsDisjoint(listing: seq<string>, name: string, k1: SnapshotType, k2: SnapshotType)
    requires name in Bucket(listing, k1) && name in Bucket(listing, k2)
    ensures k1 == k2
  {
    BucketMembers(listing, k1, name);
    BucketMembers(listing, k2, name);
  }

  lemma {:induction false} BucketNoDup(listing: seq<string>, kind: SnapshotType)
    requires NoDup(listing)
    ensures NoDup(Bucket(listing, kind))
  {
    if listing != [] {
      assert NoDup(listing[1..]);
      BucketNoDup(listing[1..], kind);
      BucketMembers(listing[1..], kind, listing[0]);
      assert listing == [listing[0]] + listing[1..];
    }
  }

  /**
   * Round trip: any text followed by `_` and a type name lands in that type's
   * bucket, whatever underscores the text holds.
   */
  lemma LabelledNameInBucket(stamp: string, kind: SnapshotType)
    ensures InBucket(stamp + "_" + TypeName(kind), kind)
  {
    var name := stamp + "_" + TypeName(kind);
    ParseTypeName(kind);
    SplitLastField(stamp, TypeName(kind), '_');
    assert name == stamp + ['_'] + TypeName(kind);
    assert name[|stamp|] == '_';
  }

  /**
   * A snapshot name built by create_snapshot is grouped into the bucket of its
   * own type, and into no other.
   */
  lemma NameInOwnBucket(listing: seq<string>, t: DateTime, kind: SnapshotType)
    requires t.Valid() && SnapshotName(t, kind) in listing
    ensures SnapshotName(t, kind) in Group(listing)[kind]
    ensures forall other :: other != kind ==> SnapshotName(t, kind) !in Bucket(listing, other)
  {
    LabelledNameInBucket(Timestamp(t), kind);
    BucketMembers(listing, kind, SnapshotName(t, kind));
    forall other | other != kind
      ensures SnapshotName(t, kind) !in Bucket(listing, other)
    {
      BucketMembers(listing, other, SnapshotName(t, kind));
    }
  }
}
