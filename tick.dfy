/**
 * One pass of monitor_loop's body as a transition of the monitor's state (the
 * stored fingerprint) and of the snapshot directory: has_changes, then
 * get_snapshot_type, create_snapshot and cleanup_old_snapshots.
 */
module MonitorSpec {
  import opened Wrappers
  import opened Strings
  import opened SnapshotNames
  import opened Classifier
  import opened Retention
  import opened Generation

  /** has_changes' answer for the stored and the current fingerprint (None is Python's None). */
  function ChangeDetected(stored: Option<string>, current: Option<string>): bool
  {
    if stored.None? then false else current != stored
  }

  /** Where an exception left the pass (monitor_loop logs it and sleeps). */
  datatype TickError =
    | HashReadFailed   // `btrfs subvolume show` failed in has_changes
    | CreateFailed     // create_snapshot raised: the snapshot command or the hash re-read failed
    | PruneIndexError  // cleanup_old_snapshots indexed past the end of its list

  datatype TickOutcome = NoChange | Created(name: string, kind: SnapshotType) | Raised(error: TickError)

  /** What the outside world answers during one pass. */
  datatype TickInputs = TickInputs(
    showBefore: Option<string>,  // stdout of `btrfs subvolume show` in has_changes; None if it fails
    now: DateTime,               // clock read by get_snapshot_type
    classifyListOk: bool,        // whether os.listdir succeeds in get_snapshot_type
    createdAt: DateTime,         // clock read by create_snapshot
    createOk: bool,              // whether `btrfs subvolume snapshot -r` succeeds
    showAfter: Option<string>,   // stdout of the re-read after creating; None if it fails
    cleanupListOk: bool,         // whether os.listdir succeeds in cleanup_old_snapshots
    deleteFails: set<string>)    // names whose `btrfs subvolume delete` fails
  {
    predicate Valid()
    {
      now.Valid() && createdAt.Valid()
    }
  }

  datatype TickResult = TickResult(outcome: TickOutcome, lastHash: Option<string>, entries: seq<string>)

  /** The outcome, the stored fingerprint and the directory after one pass. */
  function TickSpec(lastHash: Option<string>, entries: seq<string>, maxPerType: int, inputs: TickInputs): TickResult
    requires inputs.Valid()
  {
    if inputs.showBefore.None? then TickResult(Raised(HashReadFailed), lastHash, entries)
    else
      var current := GenerationOf(inputs.showBefore.value);
      if !ChangeDetected(lastHash, current) then TickResult(NoChange, current, entries)
      else
        var kind := TickKind(entries, inputs);
        var name := SnapshotName(inputs.createdAt, kind);
        if !inputs.createOk || name in entries then TickResult(Raised(CreateFailed), current, entries)
        else if inputs.showAfter.None? then TickResult(Raised(CreateFailed), current, entries + [name])
        else
          var pruned := if inputs.cleanupListOk then AfterCleanup(entries + [name], kind, maxPerType, inputs.deleteFails)
            else entries + [name];
          var outcome := if maxPerType >= 1 then Created(name, kind) else Raised(PruneIndexError);
          TickResult(outcome, GenerationOf(inputs.showAfter.value), pruned)
  }

  /**
   * The type the pass classifies with, from the directory it starts from; a
   * listing that fails groups as an empty directory.
   */
  function TickKind(entries: seq<string>, inputs: TickInputs): SnapshotType
    requires inputs.Valid()
  {
    SnapshotTypeFor(inputs.now, Group(if inputs.classifyListOk then entries else []))
  }

  /**
   * The first pass after start-up (nothing stored) never snapshots: it only
   * stores the fingerprint, or fails to read it.
   */
  lemma FirstTickTakesNoSnapshot(entries: seq<string>, maxPerType: int, inputs: TickInputs)
    requires inputs.Valid()
    ensures var r := TickSpec(None, entries, maxPerType, inputs);
      r.entries == entries && (r.outcome == NoChange || r.outcome == Raised(HashReadFailed))
  {
  }

  /**
   * A pass that reads the stored fingerprint again changes nothing, and the
   * stored fingerprint after any pass that read one is the one read last.
   */
  lemma QuietWhenUnchanged(lastHash: Option<string>, entries: seq<string>, maxPerType: int, inputs: TickInputs)
    requires inputs.Valid() && inputs.showBefore.Some?
    ensures GenerationOf(inputs.showBefore.value) == lastHash ==>
      TickSpec(lastHash, entries, maxPerType, inputs) == TickResult(NoChange, lastHash, entries)
    ensures var r := TickSpec(lastHash, entries, maxPerType, inputs);
      r.lastHash == (if r.outcome.Created? || r.outcome == Raised(PruneIndexError)
                     then GenerationOf(inputs.showAfter.value)
                     else GenerationOf(inputs.showBefore.value))
  {
  }

  /**
   * At most one snapshot per pass: every name in the directory afterwards was
   * there before or is the name of the classified type at the creation time.
   */
  lemma AtMostOneSnapshot(lastHash: Option<string>, entries: seq<string>, maxPerType: int, inputs: TickInputs, x: string)
    requires inputs.Valid()
    ensures var r := TickSpec(lastHash, entries, maxPerType, inputs);
      x in r.entries ==> x in entries || x == SnapshotName(inputs.createdAt, TickKind(entries, inputs))
    ensures var r := TickSpec(lastHash, entries, maxPerType, inputs);
      r.outcome.Created? ==> r.outcome == Created(SnapshotName(inputs.createdAt, TickKind(entries, inputs)), TickKind(entries, inputs))
  {
    var r := TickSpec(lastHash, entries, maxPerType, inputs);
    var kind := TickKind(entries, inputs);
    var name := SnapshotName(inputs.createdAt, kind);
    if inputs.showBefore.Some? && ChangeDetected(lastHash, GenerationOf(inputs.showBefore.value))
      && inputs.createOk && name !in entries && inputs.showAfter.Some? && inputs.cleanupListOk
    {
      CleanupMembers(entries + [name], kind, maxPerType, inputs.deleteFails, x);
    }
  }

  /** A pass adds and deletes names of its classified type only. */
  lemma TickKeepsOtherTypes(lastHash: Option<string>, entries: seq<string>, maxPerType: int, inputs: TickInputs, other: SnapshotType)
    requires inputs.Valid() && other != TickKind(entries, inputs)
    ensures Bucket(TickSpec(lastHash, entries, maxPerType, inputs).entries, other) == Bucket(entries, other)
  {
    var kind := TickKind(entries, inputs);
    var name := SnapshotName(inputs.createdAt, kind);
    LabelledNameInBucket(Timestamp(inputs.createdAt), kind);
    BucketAppend(entries, [name], other);
    assert !InBucket(name, other);
    if inputs.showBefore.Some? && ChangeDetected(lastHash, GenerationOf(inputs.showBefore.value))
      && inputs.createOk && name !in entries && inputs.showAfter.Some? && inputs.cleanupListOk
    {
      CleanupKeepsOtherTypes(entries + [name], kind, maxPerType, inputs.deleteFails, other);
    }
  }

  /** A directory without repeated names keeps that property. */
  lemma TickKeepsNoDup(lastHash: Option<string>, entries: seq<string>, maxPerType: int, inputs: TickInputs)
    requires inputs.Valid() && NoDup(entries)
    ensures NoDup(TickSpec(lastHash, entries, maxPerType, inputs).entries)
  {
    var kind := TickKind(entries, inputs);
    var name := SnapshotName(inputs.createdAt, kind);
    if name !in entries {
      assert NoDup(entries + [name]);
      WithoutNoDup(entries + [name], Elems(PruneTargets(Bucket(entries + [name], kind), maxPerType)) - inputs.deleteFails);
    }
  }

  /**
   * Retention as written: when a pass creates a snapshot of type T and every
   * delete succeeds, T's bucket ends with `n + 1` names if that is below the
   * cap and with `max - 1` otherwise, `n` being its size before the pass.
   * When cleanup cannot list the directory, nothing is deleted and the bucket
   * ends with `n + 1`.
   */
  lemma TickRetention(lastHash: Option<string>, entries: seq<string>, maxPerType: int, inputs: TickInputs)
    requires inputs.Valid() && NoDup(entries) && inputs.deleteFails == {}
    ensures var r := TickSpec(lastHash, entries, maxPerType, inputs);
      var kind := TickKind(entries, inputs);
      var n := |Bucket(entries, kind)| + 1;
      r.outcome.Created? ==>
        |Bucket(r.entries, kind)| == if n < maxPerType || !inputs.cleanupListOk then n else maxPerType - 1
  {
    if !TickSpec(lastHash, entries, maxPerType, inputs).outcome.Created? {
      return;
    }
    var kind := TickKind(entries, inputs);
    var name := SnapshotName(inputs.createdAt, kind);
    var created := entries + [name];
    assert NoDup(created);
    LabelledNameInBucket(Timestamp(inputs.createdAt), kind);
    BucketAppend(entries, [name], kind);
    assert Bucket([name], kind) == [name];
    if inputs.cleanupListOk {
      CleanupRetention(created, kind, maxPerType, {});
    }
  }

  /**
   * With a cap of 1, a pass that creates a snapshot and lists the directory
   * for cleanup deletes every snapshot of the type, the new one included.
   */
  lemma CapOfOneKeepsNothing(lastHash: Option<string>, entries: seq<string>, inputs: TickInputs)
    requires inputs.Valid() && NoDup(entries) && inputs.deleteFails == {}
    ensures var r := TickSpec(lastHash, entries, 1, inputs);
      r.outcome.Created? && inputs.cleanupListOk ==>
        Bucket(r.entries, TickKind(entries, inputs)) == [] && r.outcome.name !in r.entries
  {
    var r := TickSpec(lastHash, entries, 1, inputs);
    if r.outcome.Created? && inputs.cleanupListOk {
      var kind := TickKind(entries, inputs);
      TickRetention(lastHash, entries, 1, inputs);
      AtMostOneSnapshot(lastHash, entries, 1, inputs, r.outcome.name);
      LabelledNameInBucket(Timestamp(inputs.createdAt), kind);
      BucketMembers(r.entries, kind, r.outcome.name);
    }
  }

  /** A pass that cannot list the directory when classifying creates a YEAR snapshot. */
  lemma UnlistedDirectoryGivesYear(lastHash: Option<string>, entries: seq<string>, maxPerType: int, inputs: TickInputs)
    requires inputs.Valid() && !inputs.classifyListOk
    ensures var r := TickSpec(lastHash, entries, maxPerType, inputs);
      r.outcome.Created? ==> r.outcome.kind == Year
  {
    EmptyListingGivesYear(inputs.now);
  }

  /** On an empty directory, the first snapshot a pass creates is a YEAR snapshot. */
  lemma FirstSnapshotIsYear(lastHash: Option<string>, maxPerType: int, inputs: TickInputs)
    requires inputs.Valid()
    ensures var r := TickSpec(lastHash, [], maxPerType, inputs);
      r.outcome.Created? ==> r.outcome.kind == Year
  {
    EmptyListingGivesYear(inputs.now);
  }
}
