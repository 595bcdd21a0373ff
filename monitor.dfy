/**
 * The monitor itself (class BTRFSSnapshotMonitor) over a model of the btrfs
 * snapshot directory. The btrfs commands become methods of SnapshotStore whose
 * success is an input; the clock and the command outputs are parameters.
 */
module Monitor {
  import opened Wrappers
  import opened Strings
  import opened SnapshotNames
  import opened Classifier
  import opened Retention
  import opened Generation
  import opened MonitorSpec

  /** The snapshot directory as the btrfs backend keeps it: its names, in listing order. */
  class SnapshotStore {
    var entries: seq<string>

    /** A directory never lists a name twice. */
    ghost predicate Valid()
      reads this
    {
      NoDup(entries)
    }

    constructor(initial: seq<string>)
      requires NoDup(initial)
      ensures Valid() && entries == initial
    {
      entries := initial;
    }

    /** `os.listdir(self.snapshot_dir)`, giving None when the backend fails (it raises). */
    method List(backendOk: bool) returns (listing: Option<seq<string>>)
      ensures listing == if backendOk then Some(entries) else None
    {
      listing := if backendOk then Some(entries) else None;
    }

    /**
     * `btrfs subvolume snapshot -r <source> <dir>/<name>`, succeeding when the
     * backend does (`backendOk`) and the name is new: onto an existing name the
     * command would write inside a read-only snapshot, which fails.
     */
    method SnapshotCreate(name: string, backendOk: bool) returns (created: bool)
      requires Valid()
      modifies this
      ensures Valid()
      ensures created == (backendOk && name !in old(entries))
      ensures entries == if created then old(entries) + [name] else old(entries)
    {
      created := backendOk && name !in entries;
      if created {
        entries := entries + [name];
      }
    }

    /** `btrfs subvolume delete <dir>/<name>`, succeeding when the backend does. */
    method SubvolumeDelete(name: string, backendOk: bool) returns (deleted: bool)
      requires Valid()
      modifies this
      ensures Valid()
      ensures deleted == (backendOk && name in old(entries))
      ensures entries == if backendOk then Without(old(entries), {name}) else old(entries)
    {
      WithoutMembers(entries, {name}, name);
      deleted := backendOk && name in entries;
      if backendOk {
        WithoutNoDup(entries, {name});
        entries := Without(entries, {name});
      }
    }
  }

  /** What get_subvolume_hash does: raise, or return a fingerprint (possibly None). */
  datatype HashRead = HashRaised | HashReturned(hash: Option<string>)

  /**
   * get_subvolume_hash given the output of `btrfs subvolume show` (None when
   * the command fails; the fallback it then calls is not defined, so it raises).
   */
  method GetSubvolumeHash(show: Option<string>) returns (read: HashRead)
    ensures read == if show.None? then HashRaised else HashReturned(GenerationOf(show.value))
  {
    if show.None? {
      return HashRaised;
    }
    var generation := ParseGeneration(show.value);
    return HashReturned(generation);
  }

  /**
   * get_existing_snapshots: every listed name whose last `_` field is a type
   * name, appended to that type's list; all five lists empty when listing the
   * directory fails (`listing` None).
   */
  method GetExistingSnapshots(listing: Option<seq<string>>) returns (buckets: map<SnapshotType, seq<string>>)
    ensures buckets == Group(if listing.None? then [] else listing.value)
  {
    buckets := map kind | kind in AllTypes :: [];
    EveryTypeListed();
    var names := if listing.None? then [] else listing.value;
    if listing.Some? {
      for i := 0 to |names|
        invariant forall kind :: kind in buckets && buckets[kind] == Bucket(names[..i], kind)
      {
        var name := names[i];
        BucketStep(names, i);
        if '_' in name {
          var fields := Split(name, '_');
          var typePart := fields[|fields| - 1];
          assert typePart == TypePart(name);
          match ParseType(typePart)
          case Some(kind) =>
            assert forall other :: InBucket(name, other) <==> other == kind;
            buckets := buckets[kind := buckets[kind] + [name]];
          case None =>
            assert forall other :: !InBucket(name, other);
        } else {
          assert forall other :: !InBucket(name, other);
        }
      }
      assert names[..|names|] == names;
    }
    GroupIs(names, buckets);
  }

  /** Grouping one more listed name appends it to the bucket of its type. */
  lemma BucketStep(names: seq<string>, i: nat)
    requires i < |names|
    ensures forall kind ::
      Bucket(names[..i + 1], kind) == Bucket(names[..i], kind) + (if InBucket(names[i], kind) then [names[i]] else [])
  {
    assert names[..i + 1] == names[..i] + [names[i]];
    forall kind
      ensures Bucket(names[..i + 1], kind) == Bucket(names[..i], kind) + (if InBucket(names[i], kind) then [names[i]] else [])
    {
      BucketAppend(names[..i], [names[i]], kind);
    }
  }

  lemma GroupIs(names: seq<string>, buckets: map<SnapshotType, seq<string>>)
    requires forall kind :: kind in buckets && buckets[kind] == Bucket(names, kind)
    ensures buckets == Group(names)
  {
    EveryTypeListed();
    assert buckets.Keys == Group(names).Keys;
  }

  lemma EveryTypeListed()
    ensures forall kind: SnapshotType :: kind in AllTypes
  {
    forall kind: SnapshotType
      ensures kind in AllTypes
    {
      match kind
      case Minute =>
      case Hour =>
      case Day =>
      case Month =>
      case Year =>
    }
  }

  class SnapshotMonitor {
    const maxSnapshotsPerType: int
    const store: SnapshotStore
    var lastSnapshotHash: Option<string>

    constructor(maxSnapshotsPerType: int, store: SnapshotStore)
      ensures this.maxSnapshotsPerType == maxSnapshotsPerType && this.store == store
      ensures lastSnapshotHash == None
    {
      this.maxSnapshotsPerType := maxSnapshotsPerType;
      this.store := store;
      lastSnapshotHash := None;
    }

    /**
     * has_changes with the fingerprint just read. The first call only stores it;
     * later calls report whether it differs from the stored one. Either way the
     * stored fingerprint is the current one afterwards.
     */
    method HasChanges(currentHash: Option<string>) returns (changed: bool)
      modifies this
      ensures changed == (old(lastSnapshotHash).Some? && currentHash != old(lastSnapshotHash))
      ensures lastSnapshotHash == currentHash
    {
      if lastSnapshotHash.None? {
        lastSnapshotHash := currentHash;
        return false;
      }
      changed := currentHash != lastSnapshotHash;
      if changed {
        lastSnapshotHash := currentHash;
      }
    }

    /**
     * get_snapshot_type with the clock reading `now`; `listOk` says whether
     * listing the directory succeeds (a failed listing groups as empty).
     */
    method GetSnapshotType(now: DateTime, listOk: bool) returns (kind: SnapshotType)
      requires now.Valid()
      ensures kind == SnapshotTypeFor(now, Group(if listOk then store.entries else []))
    {
      var listing := store.List(listOk);
      var existing := GetExistingSnapshots(listing);
      kind := SnapshotTypeFor(now, existing);
    }

    /**
     * create_snapshot with the clock reading `createdAt`. Returns the name, or
     * None where the source raises: the snapshot command failed (nothing
     * created) or re-reading the fingerprint failed (snapshot kept, fingerprint
     * not stored).
     */
    method CreateSnapshot(kind: SnapshotType, createdAt: DateTime, createOk: bool, showAfter: Option<string>)
      returns (name: Option<string>)
      requires createdAt.Valid() && store.Valid()
      modifies this, store
      ensures store.Valid()
      ensures var wanted := SnapshotName(createdAt, kind);
        var created := createOk && wanted !in old(store.entries);
        && store.entries == (if created then old(store.entries) + [wanted] else old(store.entries))
        && name == (if created && showAfter.Some? then Some(wanted) else None)
        && lastSnapshotHash == (if created && showAfter.Some? then GenerationOf(showAfter.value) else old(lastSnapshotHash))
    {
      var timestamp := Timestamp(createdAt);
      var snapshotName := timestamp + "_" + TypeName(kind);
      var created := store.SnapshotCreate(snapshotName, createOk);
      if !created {
        return None;
      }
      var read := GetSubvolumeHash(showAfter);
      match read
      case HashRaised =>
        return None;
      case HashReturned(hash) =>
        lastSnapshotHash := hash;
        return Some(snapshotName);
    }

    /**
     * cleanup_old_snapshots: at or above the cap, sort the type's names and
     * delete the first `len - max + 1`, going on past failed deletes. Returns
     * false where the loop runs past the list's end (a cap of 0 or less).
     * When the directory cannot be listed (`listOk` false) the list is empty
     * and nothing is deleted.
     */
    method CleanupOldSnapshots(kind: SnapshotType, listOk: bool, deleteFails: set<string>) returns (completed: bool)
      requires store.Valid()
      modifies store
      ensures store.Valid()
      ensures completed == (maxSnapshotsPerType >= 1)
      ensures store.entries == if listOk then AfterCleanup(old(store.entries), kind, maxSnapshotsPerType, deleteFails)
        else old(store.entries)
    {
      var listing := store.entries;
      var read := store.List(listOk);
      var existing := GetExistingSnapshots(read);
      var snapshots := Get(existing, kind);
      ghost var bucket := snapshots;
      assert bucket == Bucket(if listOk then listing else [], kind);
      assert !listOk ==> bucket == [] && PruneTargets(bucket, maxSnapshotsPerType) == [];
      if |snapshots| >= maxSnapshotsPerType {
        snapshots := Sort(snapshots);
        var toRemove := |snapshots| - maxSnapshotsPerType + 1;
        var i := 0;
        WithoutNothing(listing);
        assert Elems(snapshots[..0]) - deleteFails == {};
        while i < toRemove
          invariant 0 <= i <= |snapshots| && i <= toRemove
          invariant store.Valid()
          invariant store.entries == Without(listing, Elems(snapshots[..i]) - deleteFails)
        {
          if i == |snapshots| {
            assert snapshots[..i] == snapshots == PruneTargets(bucket, maxSnapshotsPerType);
            return false;
          }
          var name := snapshots[i];
          DeleteStep(listing, snapshots, i, deleteFails);
          var deleted := store.SubvolumeDelete(name, name !in deleteFails);
          i := i + 1;
        }
        assert |snapshots| == |bucket| && i == toRemove;
        assert snapshots[..i] == PruneTargets(bucket, maxSnapshotsPerType);
      } else {
        assert Elems(PruneTargets(bucket, maxSnapshotsPerType)) - deleteFails == {};
        WithoutNothing(listing);
      }
      return true;
    }

    /**
     * One pass of monitor_loop: has_changes, then get_snapshot_type,
     * create_snapshot and cleanup_old_snapshots of the created type.
     */
    method Tick(inputs: TickInputs) returns (outcome: TickOutcome)
      requires inputs.Valid() && store.Valid()
      modifies this, store
      ensures store.Valid()
      ensures TickResult(outcome, lastSnapshotHash, store.entries)
        == TickSpec(old(lastSnapshotHash), old(store.entries), maxSnapshotsPerType, inputs)
    {
      var read := GetSubvolumeHash(inputs.showBefore);
      if read.HashRaised? {
        return Raised(HashReadFailed);
      }
      var changed := HasChanges(read.hash);
      if !changed {
        return NoChange;
      }
      var kind := GetSnapshotType(inputs.now, inputs.classifyListOk);
      var name := CreateSnapshot(kind, inputs.createdAt, inputs.createOk, inputs.showAfter);
      if name.None? {
        return Raised(CreateFailed);
      }
      var completed := CleanupOldSnapshots(kind, inputs.cleanupListOk, inputs.deleteFails);
      outcome := if completed then Created(name.value, kind) else Raised(PruneIndexError);
    }
  }
}
