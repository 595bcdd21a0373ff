/**
 * The retention pruner (cleanup_old_snapshots) as functions on the directory
 * listing: which names it targets, and what the directory holds afterwards.
 */
module Retention {
  import opened Strings
  import opened SnapshotNames

  /** The names of `entries` that are not in `gone`, in their order. */
  function Without(entries: seq<string>, gone: set<string>): seq<string>
  {
    if entries == [] then []
    else (if entries[0] in gone then [] else [entries[0]]) + Without(entries[1..], gone)
  }

  /**
   * The names cleanup_old_snapshots tries to delete from the names of one type:
   * nothing below the cap, otherwise the first `len - max + 1` of the sorted
   * names; with a cap of 0 or less that is more than there are, and the loop
   * deletes all of them before `snapshots[i]` raises IndexError.
   */
  function PruneTargets(names: seq<string>, maxPerType: int): seq<string>
  {
    if |names| < maxPerType then []
    else
      var sorted := Sort(names);
      var count := |names| - maxPerType + 1;
      if count <= |sorted| then sorted[..count] else sorted
  }

  /** The directory after cleanup_old_snapshots(kind), the deletes of `deleteFails` failing. */
  function AfterCleanup(entries: seq<string>, kind: SnapshotType, maxPerType: int, deleteFails: set<string>): seq<string>
  {
    Without(entries, Elems(PruneTargets(Bucket(entries, kind), maxPerType)) - deleteFails)
  }

  // ---------------------------------------------------------------------------
  // Without
  // ---------------------------------------------------------------------------

  lemma {:induction false} WithoutMembers(entries: seq<string>, gone: set<string>, x: string)
    ensures x in Without(entries, gone) <==> x in entries && x !in gone
  {
    if entries != [] {
      WithoutMembers(entries[1..], gone, x);
      assert entries == [entries[0]] + entries[1..];
    }
  }

  lemma {:induction false} WithoutMultiset(entries: seq<string>, gone: set<string>, x: string)
    ensures multiset(Without(entries, gone))[x] == if x in gone then 0 else multiset(entries)[x]
  {
    if entries != [] {
      WithoutMultiset(entries[1..], gone, x);
      assert entries == [entries[0]] + entries[1..];
    }
  }

  lemma {:induction false} WithoutNoDup(entries: seq<string>, gone: set<string>)
    requires NoDup(entries)
    ensures NoDup(Without(entries, gone))
  {
    if entries != [] {
      assert NoDup(entries[1..]);
      WithoutNoDup(entries[1..], gone);
      WithoutMembers(entries[1..], gone, entries[0]);
      assert entries == [entries[0]] + entries[1..];
    }
  }

  lemma {:induction false} WithoutAppend(a: seq<string>, b: seq<string>, gone: set<string>)
    ensures Without(a + b, gone) == Without(a, gone) + Without(b, gone)
  {
    if a == [] {
      assert a + b == b;
    } else {
      assert (a + b)[0] == a[0] && (a + b)[1..] == a[1..] + b;
      WithoutAppend(a[1..], b, gone);
    }
  }

  /** Deleting one more name after a set of names is deleting the larger set. */
  lemma {:induction false} WithoutOneMore(entries: seq<string>, gone: set<string>, x: string)
    ensures Without(Without(entries, gone), {x}) == Without(entries, gone + {x})
  {
    if entries != [] {
      WithoutOneMore(entries[1..], gone, x);
      var head := if entries[0] in gone then [] else [entries[0]];
      WithoutAppend(head, Without(entries[1..], gone), {x});
    }
  }

  /** Going one name further down a delete list, where the deletes of `fails` fail. */
  lemma DeleteStep(entries: seq<string>, targets: seq<string>, i: nat, fails: set<string>)
    requires i < |targets|
    ensures var before := Without(entries, Elems(targets[..i]) - fails);
      Without(entries, Elems(targets[..i + 1]) - fails)
        == if targets[i] in fails then before else Without(before, {targets[i]})
  {
    var x := targets[i];
    assert targets[..i + 1] == targets[..i] + [x];
    WithoutOneMore(entries, Elems(targets[..i]) - fails, x);
    if x in fails {
      assert Elems(targets[..i + 1]) - fails == Elems(targets[..i]) - fails;
    } else {
      assert Elems(targets[..i + 1]) - fails == Elems(targets[..i]) - fails + {x};
    }
  }

  lemma WithoutNothing(entries: seq<string>)
    ensures Without(entries, {}) == entries
  {
  }

  /** Deleting names and then grouping is grouping and then deleting. */
  lemma {:induction false} BucketWithout(entries: seq<string>, gone: set<string>, kind: SnapshotType)
    ensures Bucket(Without(entries, gone), kind) == Without(Bucket(entries, kind), gone)
  {
    if entries != [] {
      var rest := Without(entries[1..], gone);
      BucketWithout(entries[1..], gone, kind);
      var head := if entries[0] in gone then [] else [entries[0]];
      BucketAppend(head, rest, kind);
      var bhead := if InBucket(entries[0], kind) then [entries[0]] else [];
      WithoutAppend(bhead, Bucket(entries[1..], kind), gone);
    }
  }

  /** Deleting names of one type leaves the bucket of every other type as it was. */
  lemma {:induction false} OtherBucketKept(entries: seq<string>, gone: set<string>, kind: SnapshotType, other: SnapshotType)
    requires forall x :: x in gone ==> InBucket(x, kind)
    requires other != kind
    ensures Bucket(Without(entries, gone), other) == Bucket(entries, other)
  {
    if entries != [] {
      OtherBucketKept(entries[1..], gone, kind, other);
      var head := if entries[0] in gone then [] else [entries[0]];
      BucketAppend(head, Without(entries[1..], gone), other);
    }
  }

  lemma {:induction false} NoDupCount(s: seq<string>, x: string)
    requires NoDup(s)
    ensures multiset(s)[x] <= 1
  {
    if s != [] {
      assert NoDup(s[1..]);
      NoDupCount(s[1..], x);
      assert s == [s[0]] + s[1..];
    }
  }

  /** Removing a sub-list of a duplicate-free list shortens it by the sub-list's length. */
  lemma WithoutSublist(names: seq<string>, part: seq<string>)
    requires NoDup(names) && multiset(part) <= multiset(names)
    ensures |Without(names, Elems(part))| == |names| - |part|
  {
    var rest := multiset(names) - multiset(part);
    forall x
      ensures multiset(Without(names, Elems(part)))[x] == rest[x]
    {
      WithoutMultiset(names, Elems(part), x);
      NoDupCount(names, x);
    }
    assert multiset(Without(names, Elems(part))) == rest;
    assert rest + multiset(part) == multiset(names);
  }

  // ---------------------------------------------------------------------------
  // Which names are pruned
  // ---------------------------------------------------------------------------

  /** Cutting a sorted list in two: each name of the first part is no greater than any of the second. */
  lemma SortedCut(sorted: seq<string>, count: nat)
    requires Sorted(sorted) && count <= |sorted|
    ensures multiset(sorted) == multiset(sorted[..count]) + multiset(sorted[count..])
    ensures forall x, y :: x in sorted[..count] && y in multiset(sorted[count..]) ==> LexLe(x, y)
  {
    assert sorted == sorted[..count] + sorted[count..];
    forall x, y | x in sorted[..count] && y in multiset(sorted[count..])
      ensures LexLe(x, y)
    {
      var i :| 0 <= i < count && sorted[..count][i] == x;
      var j :| 0 <= j < |sorted| - count && sorted[count..][j] == y;
      assert sorted[i] == x && sorted[count + j] == y;
    }
  }

  /**
   * Below the cap nothing is targeted; at or above it exactly `len - max + 1`
   * names are (all of them with a cap of 0 or less); the targets are names of
   * the input, and each is no greater than any name that is kept.
   */
  lemma PruneTargetsSpec(names: seq<string>, maxPerType: int)
    ensures |names| < maxPerType ==> PruneTargets(names, maxPerType) == []
    ensures |names| >= maxPerType >= 1 ==> |PruneTargets(names, maxPerType)| == |names| - maxPerType + 1
    ensures maxPerType <= 0 ==> multiset(PruneTargets(names, maxPerType)) == multiset(names)
    ensures multiset(PruneTargets(names, maxPerType)) <= multiset(names)
    ensures forall x, y :: (x in PruneTargets(names, maxPerType)
      && y in multiset(names) - multiset(PruneTargets(names, maxPerType))) ==> LexLe(x, y)
  {
    if |names| >= maxPerType {
      var sorted := Sort(names);
      SortSpec(names);
      var count := if maxPerType >= 1 then |names| - maxPerType + 1 else |names|;
      assert sorted[..|names|] == sorted;
      assert PruneTargets(names, maxPerType) == sorted[..count];
      SortedCut(sorted, count);
      assert multiset(names) - multiset(sorted[..count]) == multiset(sorted[count..]);
    }
  }

  /**
   * Oldest first: among snapshot names of one type, every targeted name was
   * taken no later than every kept one.
   */
  lemma PruneOldestFirst(names: seq<string>, maxPerType: int, kind: SnapshotType, a: DateTime, b: DateTime)
    requires a.Valid() && b.Valid()
    requires SnapshotName(a, kind) in PruneTargets(names, maxPerType)
    requires SnapshotName(b, kind) in multiset(names) - multiset(PruneTargets(names, maxPerType))
    ensures NotLater(a, b)
  {
    PruneTargetsSpec(names, maxPerType);
    NameOrder(a, b, kind);
  }

  /**
   * When every delete succeeds, a duplicate-free list of names keeps all of
   * them below the cap and `max - 1` of them at or above it (none with a cap
   * of 0 or less).
   */
  lemma RemainingAfterPrune(names: seq<string>, maxPerType: int)
    requires NoDup(names)
    ensures |Without(names, Elems(PruneTargets(names, maxPerType)))|
      == if |names| < maxPerType then |names| else if maxPerType >= 1 then maxPerType - 1 else 0
  {
    PruneTargetsSpec(names, maxPerType);
    var targets := PruneTargets(names, maxPerType);
    WithoutSublist(names, targets);
    if maxPerType <= 0 {
      assert |targets| == |multiset(targets)| == |multiset(names)| == |names|;
    }
  }

  // ---------------------------------------------------------------------------
  // The directory after one cleanup pass
  // ---------------------------------------------------------------------------

  /**
   * A name is gone after cleanup exactly when it was targeted and its delete
   * did not fail; a failed delete leaves its name and does not stop the others.
   */
  lemma CleanupMembers(entries: seq<string>, kind: SnapshotType, maxPerType: int, deleteFails: set<string>, x: string)
    ensures x in AfterCleanup(entries, kind, maxPerType, deleteFails) <==>
      x in entries && (x !in PruneTargets(Bucket(entries, kind), maxPerType) || x in deleteFails)
  {
    WithoutMembers(entries, Elems(PruneTargets(Bucket(entries, kind), maxPerType)) - deleteFails, x);
  }

  /** Cleanup of one type deletes only names of that type. */
  lemma CleanupKeepsOtherTypes(entries: seq<string>, kind: SnapshotType, maxPerType: int, deleteFails: set<string>, other: SnapshotType)
    requires other != kind
    ensures Bucket(AfterCleanup(entries, kind, maxPerType, deleteFails), other) == Bucket(entries, other)
  {
    var bucket := Bucket(entries, kind);
    var gone := Elems(PruneTargets(bucket, maxPerType)) - deleteFails;
    PruneTargetsSpec(bucket, maxPerType);
    forall x | x in gone
      ensures InBucket(x, kind)
    {
      assert x in multiset(bucket);
      BucketMembers(entries, kind, x);
    }
    OtherBucketKept(entries, gone, kind, other);
  }

  /**
   * Retention as written: when no delete fails, a type whose bucket had `n`
   * names keeps `n` of them below the cap and `max - 1` at or above it.
   */
  lemma CleanupRetention(entries: seq<string>, kind: SnapshotType, maxPerType: int, deleteFails: set<string>)
    requires NoDup(entries) && maxPerType >= 1
    requires forall x :: x in deleteFails ==> x !in PruneTargets(Bucket(entries, kind), maxPerType)
    ensures var n := |Bucket(entries, kind)|;
      |Bucket(AfterCleanup(entries, kind, maxPerType, deleteFails), kind)|
        == if n < maxPerType then n else maxPerType - 1
  {
    var bucket := Bucket(entries, kind);
    var targets := Elems(PruneTargets(bucket, maxPerType));
    assert targets - deleteFails == targets;
    BucketWithout(entries, targets, kind);
    BucketNoDup(entries, kind);
    RemainingAfterPrune(bucket, maxPerType);
  }
}
