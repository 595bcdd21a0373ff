# BTRFS snapshot monitor — a Dafny model of its decision core

The BTRFS snapshot monitor watches one btrfs subvolume. On each pass it
reads the subvolume's `Generation:` number with `btrfs subvolume show`. When
that number differs from the one it stored, it takes a read-only snapshot
named `YYYYMMDD_HHMMSS_TYPE`. It then deletes the oldest snapshots of that
type beyond a per-type cap. `TYPE` is one of YEAR, MONTH, DAY, HOUR and
MINUTE. The classifier picks the coarsest level whose current period has no
snapshot yet, or whose period starts at this minute.

This project models that logic in Dafny and proves properties of it:

- `wrappers.dfy` (`Wrappers`): an `Option` type.
- `strings.dfy` (`Strings`): the Python `str` operations the monitor relies
  on. These are `<=` and `list.sort()`, `split`, `strip` (with Python's
  `isspace` set) and the substring test `in`.
- `names.dfy` (`SnapshotNames`): snapshot types, clock readings, the
  `strftime` texts and snapshot names. It also holds the grouping of a
  directory listing by type, which is `get_existing_snapshots`.
- `classifier.dfy` (`Classifier`): `get_snapshot_type` as a function of the
  clock and the grouped listing.
- `retention.dfy` (`Retention`): `cleanup_old_snapshots` as functions. They
  give the names targeted and the directory afterwards.
- `generation.dfy` (`Generation`): the `Generation:` parse in
  `get_subvolume_hash`, with its search loop as a method.
- `tick.dfy` (`MonitorSpec`): one pass of `monitor_loop` as a state
  transition, and the properties of passes.
- `monitor.dfy` (`Monitor`): the imperative side.
  - `SnapshotStore` is the snapshot directory; its btrfs commands are
    methods whose success is an input.
  - `SnapshotMonitor` is the monitor class. It holds the cap, the store and
    the stored fingerprint. Its methods follow the Python methods one for
    one, and each is proved against the functions above. `Tick` is proved
    equal to `TickSpec`.

The clock, the command outputs and the command outcomes are inputs of the
model:

- `now`: the clock read by the classifier.
- `createdAt`: the clock read when the name is made.
- the standard output of `btrfs subvolume show` before and after creating,
  each `None` when the command fails.
- whether each of the two directory listings succeeds: the one that
  classifies and the one that cleans up. A failed listing groups as an empty
  directory, so the classifier picks YEAR and cleanup deletes nothing.
- whether the snapshot command succeeds.
- the set of names whose delete fails.

### Where the code differs from the documented intent

The model follows the code.

- **Retention keeps `max - 1`, not `max`.** The module docstring says
  `Retention: 30 snapshots per type` (`btr_snap/btrfs_snapshot_monitor.py:16`).
  Cleanup runs right after a snapshot is created, so the count includes it.
  It deletes `len - max + 1` names whenever `len >= max`. Take a pass that
  reaches the cap, where cleanup lists the directory, every delete succeeds
  and the cap is at least 1. That type then holds `max - 1` snapshots (29
  for the default 30). With a cap of 1 this deletes every snapshot of the
  type, the one the pass just created included. See:
  - `Retention.CleanupRetention`;
  - `Retention.RemainingAfterPrune`;
  - `MonitorSpec.TickRetention`;
  - `MonitorSpec.CapOfOneKeepsNothing`.
- **A cap of 0 or less.** `range(len - max + 1)` then runs past the end of
  the sorted list. A delete is tried for every name of the type, and a
  failed delete leaves its name (`Retention.CleanupMembers`). Then
  `snapshots[i]` raises `IndexError`. The model has both effects: the
  deletions, and the `PruneIndexError` outcome.
- **A failed `btrfs subvolume show`.** The handler calls
  `get_directory_hash`, which the class does not define. The pass therefore
  raises instead of falling back. The model treats this as a raised read.

### Other behaviour worth knowing

- **MONTH follows the first YEAR snapshot.** Take a listing that holds only
  a YEAR snapshot of the current year, away from 1 January 00:00. The MONTH
  bucket is empty, so the next type is MONTH. See
  `Classifier.MonthFollowsFirstYear`.
- **A directory that cannot be listed** is grouped as empty. Classifying
  then gives YEAR (`MonitorSpec.UnlistedDirectoryGivesYear`), and cleanup
  deletes nothing.

## Model

| member | source | states |
|---|---|---|
| Strings.IsSpace | btr_snap/btrfs_snapshot_monitor.py:97 | `str.strip`'s white space as CPython defines `isspace`: the ASCII controls 9-13 and 28-31, space, and the Unicode separators |
| Strings.LexLe | btr_snap/btrfs_snapshot_monitor.py:217 | Python's `<=` on strings: code point by code point, a prefix before its extensions (properties in `LexLeRefl` to `LexLeAntisym`) |
| Strings.Sort | btr_snap/btrfs_snapshot_monitor.py:217 | `list.sort()` on strings, as an insertion sort; it keeps the length, and `SortSpec` and `SortedUnique` pin it down |
| Strings.Strip | btr_snap/btrfs_snapshot_monitor.py:97 | `str.strip()`: `TrimEnd` of `TrimStart` (characterised by `StripSpec`) |
| Strings.Contains | btr_snap/btrfs_snapshot_monitor.py:96 | the substring test `'Generation:' in line`: the pattern occurs at some index of the string |
| Strings.LexLeRefl | btr_snap/btrfs_snapshot_monitor.py:217 | Python's string `<=` is reflexive |
| Strings.LexLeTotal | btr_snap/btrfs_snapshot_monitor.py:217 | any two strings are comparable |
| Strings.LexLeTrans | btr_snap/btrfs_snapshot_monitor.py:217 | string `<=` is transitive |
| Strings.LexLeAntisym | btr_snap/btrfs_snapshot_monitor.py:217 | two strings each `<=` the other are equal |
| Strings.SortSpec | btr_snap/btrfs_snapshot_monitor.py:217 | the sort's result is ascending and a permutation of its input |
| Strings.SortedUnique | btr_snap/btrfs_snapshot_monitor.py:217 | two ascending permutations of the same strings are equal, so the model's sort gives exactly what `list.sort()` gives |
| Strings.Split | btr_snap/btrfs_snapshot_monitor.py:198 | `split(sep)` gives at least one field, at least two exactly when `sep` occurs, and no field holds `sep` |
| Strings.JoinSplit | btr_snap/btrfs_snapshot_monitor.py:198 | round trip: joining the fields of `split(sep)` with `sep` gives the string back |
| Strings.SplitNoSep | btr_snap/btrfs_snapshot_monitor.py:198 | a string without the separator splits into itself alone |
| Strings.SplitLastField | btr_snap/btrfs_snapshot_monitor.py:198 | `(x + sep + y).split(sep)[-1]` is `y` when `y` has no separator, whatever `x` holds |
| Strings.TrimStart | btr_snap/btrfs_snapshot_monitor.py:97 | lstrip leaves a suffix that is empty or starts with a non-space |
| Strings.TrimEnd | btr_snap/btrfs_snapshot_monitor.py:97 | rstrip leaves a prefix that is empty or ends with a non-space |
| Strings.TrimStartDropsSpace | btr_snap/btrfs_snapshot_monitor.py:97 | everything lstrip drops is white space |
| Strings.TrimEndDropsSpace | btr_snap/btrfs_snapshot_monitor.py:97 | everything rstrip drops is white space |
| Strings.StripSpec | btr_snap/btrfs_snapshot_monitor.py:97 | `strip()` keeps one slice of its argument with only white space around it, and the slice neither starts nor ends with white space |
| SnapshotNames.TypeName | btr_snap/btrfs_snapshot_monitor.py:42 | the text of each of the five types, as listed in `snapshot_types` |
| SnapshotNames.YearText | btr_snap/btrfs_snapshot_monitor.py:127 | `now.strftime('%Y')`: the year in four digits |
| SnapshotNames.MonthText | btr_snap/btrfs_snapshot_monitor.py:128 | `now.strftime('%Y%m')`: year and two-digit month |
| SnapshotNames.DayText | btr_snap/btrfs_snapshot_monitor.py:129 | `now.strftime('%Y%m%d')`: year, month and two-digit day |
| SnapshotNames.HourText | btr_snap/btrfs_snapshot_monitor.py:130 | `now.strftime('%Y%m%d_%H')`: the day text, `_` and the two-digit hour |
| SnapshotNames.PeriodText | btr_snap/btrfs_snapshot_monitor.py:127-130 | the text a level's prefix test compares with: YEAR, MONTH, DAY and HOUR give the four texts above |
| SnapshotNames.Timestamp | btr_snap/btrfs_snapshot_monitor.py:166 | `strftime('%Y%m%d_%H%M%S')`: fifteen characters, date, `_`, then hour, minute and second in two digits each |
| SnapshotNames.SnapshotName | btr_snap/btrfs_snapshot_monitor.py:167 | the name `f"{timestamp}_{snapshot_type}"` of a snapshot taken at a clock reading (its prefixes are given by `NameHeads`, its bucket by `NameInOwnBucket`) |
| SnapshotNames.TypePart | btr_snap/btrfs_snapshot_monitor.py:198 | `snapshot_name.split('_')[-1]`: the last `_` field of a name |
| SnapshotNames.InBucket | btr_snap/btrfs_snapshot_monitor.py:195-200 | the test a listed name passes to join a type's bucket: it holds `_` and its last field is that type's name |
| SnapshotNames.Bucket | btr_snap/btrfs_snapshot_monitor.py:194-200 | the names of one type, in listing order (characterised by `BucketMembers` and `BucketAppend`) |
| SnapshotNames.Group | btr_snap/btrfs_snapshot_monitor.py:188-208 | `get_existing_snapshots`: a bucket for each of the five types over one listing |
| SnapshotNames.ParseType | btr_snap/btrfs_snapshot_monitor.py:199 | a field is accepted exactly when it is one of the five type names, and it gives the type so named |
| SnapshotNames.ParseTypeName | btr_snap/btrfs_snapshot_monitor.py:42 | round trip: parsing a type's name gives the type back; no type name holds `_` |
| SnapshotNames.Head | btr_snap/btrfs_snapshot_monitor.py:136 | `s[0:k]` is the first `k` characters, or all of a shorter string |
| SnapshotNames.NameHeads | btr_snap/btrfs_snapshot_monitor.py:127-130 | the first 4, 6, 8 and 11 characters of a name made at time `t` are `t`'s `%Y`, `%Y%m`, `%Y%m%d` and `%Y%m%d_%H` texts |
| SnapshotNames.Pad2Order | btr_snap/btrfs_snapshot_monitor.py:166 | two-digit fields compare as strings as their numbers compare, and are equal exactly when the numbers are |
| SnapshotNames.Pad4Order | btr_snap/btrfs_snapshot_monitor.py:166 | the same for the four-digit year |
| SnapshotNames.NameOrder | btr_snap/btrfs_snapshot_monitor.py:216-217 | for names of one type, string order is chronological order of the times they were named at, in both directions |
| SnapshotNames.BucketMembers | btr_snap/btrfs_snapshot_monitor.py:194-200 | a bucket holds exactly the listed names with a `_` whose last `_` field names its type |
| SnapshotNames.BucketAppend | btr_snap/btrfs_snapshot_monitor.py:194-200 | buckets keep listing order: the bucket of a concatenation is the concatenation of the buckets |
| SnapshotNames.BucketsDisjoint | btr_snap/btrfs_snapshot_monitor.py:198-200 | no name is in two buckets |
| SnapshotNames.BucketNoDup | btr_snap/btrfs_snapshot_monitor.py:194-200 | a listing without repeats gives buckets without repeats |
| SnapshotNames.LabelledNameInBucket | btr_snap/btrfs_snapshot_monitor.py:198-200 | round trip: any text followed by `_` and a type name is grouped under that type, whatever underscores the text holds |
| SnapshotNames.NameInOwnBucket | btr_snap/btrfs_snapshot_monitor.py:195-200 | a name made by create_snapshot is grouped under its own type and under no other |
| Classifier.Get | btr_snap/btrfs_snapshot_monitor.py:136 | `existing_snapshots.get(level, [])`: a level's bucket, empty when absent |
| Classifier.AnyHeadIs | btr_snap/btrfs_snapshot_monitor.py:136 | `any(snapshot[0:k] == text for snapshot in bucket)`: some name of the bucket starts with the period text |
| Classifier.AtBoundary | btr_snap/btrfs_snapshot_monitor.py:133-154 | the clock test of each level: 1 January 00:00 for YEAR, the 1st at 00:00 for MONTH, 00:00 for DAY, minute 0 for HOUR |
| Classifier.Due | btr_snap/btrfs_snapshot_monitor.py:133-162 | a level is due when its boundary is now or its period has no snapshot; MINUTE, the fallback, is always due |
| Classifier.SnapshotTypeFor | btr_snap/btrfs_snapshot_monitor.py:132-162 | the type chosen is due, because its boundary is now or its period has no snapshot, and no coarser type is due |
| Classifier.CoarsestDueIsUnique | btr_snap/btrfs_snapshot_monitor.py:132-162 | a type is the one chosen exactly when it is due and no coarser type is due |
| Classifier.YearWhenYearUnseen | btr_snap/btrfs_snapshot_monitor.py:133-137 | at 1 January 00:00, or with no YEAR name starting with the current year, YEAR is chosen whatever else is listed |
| Classifier.MinuteOnlyWhenAllSeen | btr_snap/btrfs_snapshot_monitor.py:154-162 | MINUTE is chosen exactly when the minute is not 0 and each of the YEAR, MONTH, DAY and HOUR buckets has a name of the current period |
| Classifier.EmptyListingGivesYear | btr_snap/btrfs_snapshot_monitor.py:136-137 | an empty or unreadable directory gives YEAR |
| Classifier.OwnSnapshotSeen | btr_snap/btrfs_snapshot_monitor.py:136-157 | a listed snapshot made in the current period is recognised by its level's prefix test |
| Classifier.NoRepeatWithinPeriod | btr_snap/btrfs_snapshot_monitor.py:132-158 | away from its boundary, a level is not chosen again within a period that already has a snapshot of it |
| Classifier.MonthFollowsFirstYear | btr_snap/btrfs_snapshot_monitor.py:139-144 | after a listing holding only a YEAR snapshot of this year, and away from 1 January 00:00, the type is MONTH |
| Classifier.OnlyYearBucketFilled | btr_snap/btrfs_snapshot_monitor.py:190-200 | a listing holding only a YEAR name has an empty MONTH bucket |
| Retention.PruneTargets | btr_snap/btrfs_snapshot_monitor.py:215-222 | the names the delete loop visits: none below the cap, otherwise the first `len - max + 1` of the sorted bucket, all of them when that exceeds the bucket (characterised by `PruneTargetsSpec`) |
| Retention.AfterCleanup | btr_snap/btrfs_snapshot_monitor.py:210-232 | the directory after cleanup: every target whose delete did not fail is removed, and the rest keep their order (characterised by `CleanupMembers`) |
| Retention.PruneTargetsSpec | btr_snap/btrfs_snapshot_monitor.py:215-222 | below the cap nothing is targeted. At or above it, `len - max + 1` names are targeted, or all names when max ≤ 0. Targets are names of the input, and each is `<=` every kept name. |
| Retention.PruneOldestFirst | btr_snap/btrfs_snapshot_monitor.py:216-217 | among names of one type, each deleted snapshot was taken no later than each kept one |
| Retention.RemainingAfterPrune | btr_snap/btrfs_snapshot_monitor.py:215-222 | with all deletes succeeding, a list without repeats keeps `len` names below the cap, `max - 1` at or above it, and none with a cap of 0 or less |
| Retention.CleanupMembers | btr_snap/btrfs_snapshot_monitor.py:222-232 | a name is gone after cleanup exactly when it was targeted and its delete did not fail; a failed delete stops none of the others |
| Retention.CleanupKeepsOtherTypes | btr_snap/btrfs_snapshot_monitor.py:212-213 | cleanup of one type leaves every other type's bucket as it was |
| Retention.CleanupRetention | btr_snap/btrfs_snapshot_monitor.py:215-228 | with no targeted delete failing, a bucket of `n` names ends with `n` below the cap and `max - 1` at or above it |
| Generation.LineValue | btr_snap/btrfs_snapshot_monitor.py:97 | `line.split(':')[1].strip()` of a line holding the key |
| Generation.FirstGeneration | btr_snap/btrfs_snapshot_monitor.py:95-101 | the value of the first line that holds `Generation:`, or None when no line does (characterised by `FirstGenerationNone` and `FirstGenerationAt`) |
| Generation.GenerationOf | btr_snap/btrfs_snapshot_monitor.py:92-101 | the fingerprint parsed from the whole output of `btrfs subvolume show`, split on newlines |
| Generation.KeyLineHasColon | btr_snap/btrfs_snapshot_monitor.py:96-97 | a line holding `Generation:` has a colon, so `split(':')[1]` exists |
| Generation.KeyIndex | btr_snap/btrfs_snapshot_monitor.py:95-96 | the index of the first line holding the key: no earlier line holds it; it is the line count when no line does |
| Generation.FirstGenerationNone | btr_snap/btrfs_snapshot_monitor.py:95-101 | the search gives None exactly when no line holds the key |
| Generation.FirstGenerationAt | btr_snap/btrfs_snapshot_monitor.py:95-98 | otherwise it gives the stripped second `:` field of the first line that holds the key |
| Generation.GenerationOfSpec | btr_snap/btrfs_snapshot_monitor.py:92-101 | the same two facts for the command's whole output split on newlines |
| Generation.StripKeepsOut | btr_snap/btrfs_snapshot_monitor.py:97 | strip adds no character: a character absent from a field is absent after strip |
| Generation.GenerationValueShape | btr_snap/btrfs_snapshot_monitor.py:97 | a fingerprint holds no colon and neither starts nor ends with white space |
| Generation.ParseGeneration | btr_snap/btrfs_snapshot_monitor.py:95-101 | the line-by-line search loop returns the first key line's value, or None |
| MonitorSpec.ChangeDetected | btr_snap/btrfs_snapshot_monitor.py:108-121 | `has_changes`'s answer: false while nothing is stored, otherwise whether the current fingerprint differs from the stored one |
| MonitorSpec.TickKind | btr_snap/btrfs_snapshot_monitor.py:123-126 | the type a pass classifies: the classifier over the grouping of the listing, or of an empty listing when it fails |
| MonitorSpec.TickSpec | btr_snap/btrfs_snapshot_monitor.py:245-253 | one pass as a state transition: the outcome, the stored fingerprint and the directory afterwards, for every raise point (properties in the `MonitorSpec` lemmas) |
| MonitorSpec.FirstTickTakesNoSnapshot | btr_snap/btrfs_snapshot_monitor.py:112-114 | with nothing stored, a pass never snapshots: it stores the fingerprint or fails to read it |
| MonitorSpec.QuietWhenUnchanged | btr_snap/btrfs_snapshot_monitor.py:116-121 | reading the stored fingerprint again changes nothing. After a pass, the stored fingerprint is the one read last, which is the re-read after a creation. |
| MonitorSpec.AtMostOneSnapshot | btr_snap/btrfs_snapshot_monitor.py:245-253 | a pass adds at most the one name of the classified type at the creation time, and reports exactly that name |
| MonitorSpec.TickKeepsOtherTypes | btr_snap/btrfs_snapshot_monitor.py:247-253 | a pass changes only the bucket of the type it classified |
| MonitorSpec.TickKeepsNoDup | btr_snap/btrfs_snapshot_monitor.py:245-253 | a directory without repeated names keeps that property across a pass |
| MonitorSpec.TickRetention | btr_snap/btrfs_snapshot_monitor.py:250-253 | after a pass that creates a type-T snapshot with no delete failing, T's bucket holds `n + 1` below the cap or when cleanup cannot list the directory, and `max - 1` otherwise |
| MonitorSpec.CapOfOneKeepsNothing | btr_snap/btrfs_snapshot_monitor.py:215-222 | with a cap of 1, a creating pass whose cleanup lists the directory leaves no snapshot of the type, the new one included |
| MonitorSpec.UnlistedDirectoryGivesYear | btr_snap/btrfs_snapshot_monitor.py:205-208 | when the classifier's listing fails, a created snapshot is YEAR |
| MonitorSpec.FirstSnapshotIsYear | btr_snap/btrfs_snapshot_monitor.py:136-137 | on an empty directory, the first snapshot a pass creates is YEAR |
| Monitor.SnapshotStore.constructor | btr_snap/btrfs_snapshot_monitor.py:194 | a directory starts with a listing without repeats |
| Monitor.SnapshotStore.List | btr_snap/btrfs_snapshot_monitor.py:194 | listing returns the directory's names, or None when the backend fails |
| Monitor.SnapshotStore.SnapshotCreate | btr_snap/btrfs_snapshot_monitor.py:172-175 | a snapshot is created exactly when the backend succeeds and the name is new; only then is it appended |
| Monitor.SnapshotStore.SubvolumeDelete | btr_snap/btrfs_snapshot_monitor.py:228 | a successful delete removes the name and nothing else; a failed one changes nothing |
| Monitor.GetSubvolumeHash | btr_snap/btrfs_snapshot_monitor.py:88-105 | a failed `show` raises; otherwise the result is the parsed fingerprint, None when there is no `Generation:` line |
| Monitor.GetExistingSnapshots | btr_snap/btrfs_snapshot_monitor.py:188-208 | the loop builds the five buckets of the listing in listing order, all empty when listing fails |
| Monitor.SnapshotMonitor.constructor | btr_snap/btrfs_snapshot_monitor.py:36-51 | a new monitor holds the cap and the directory, with no fingerprint stored |
| Monitor.SnapshotMonitor.HasChanges | btr_snap/btrfs_snapshot_monitor.py:108-121 | the first call reports no change. Later calls report whether the fingerprint differs from the stored one. The stored fingerprint is the current one afterwards. |
| Monitor.SnapshotMonitor.GetSnapshotType | btr_snap/btrfs_snapshot_monitor.py:123-126 | the method returns the classifier's type for the directory's current grouping, or for an empty grouping when listing fails |
| Monitor.SnapshotMonitor.CreateSnapshot | btr_snap/btrfs_snapshot_monitor.py:164-186 | the new directory, the name returned (None where the source raises) and the stored fingerprint re-read after creating |
| Monitor.SnapshotMonitor.CleanupOldSnapshots | btr_snap/btrfs_snapshot_monitor.py:210-232 | the delete loop leaves exactly `AfterCleanup` of the old directory, or the directory unchanged when listing fails. It reports the IndexError exactly when the cap is below 1. |
| Monitor.SnapshotMonitor.Tick | btr_snap/btrfs_snapshot_monitor.py:241-263 | one pass of the loop gives the outcome, fingerprint and directory that `TickSpec` prescribes |

## Left out

- Logging: the handlers catch their own errors, so a log call changes no
  state and raises nothing.
- Monitor.GetExistingSnapshots: the grouping is all or nothing. Either the
  whole listing is grouped, or listing fails and every bucket is empty. The
  `print` after each append can raise (for example on a closed standard
  output). The `except Exception` then returns the buckets built so far, a
  grouping of only the first names of the listing. The model does not
  capture that partial grouping, in this method or in `MonitorSpec.TickKind`
  and `MonitorSpec.TickSpec`.
- `setup_logging`, `ensure_directories` (`mkdir`), `load_config`, argument
  parsing and `main`: these are configuration and I/O. The cap is a
  constructor parameter, and a non-integer cap from a JSON file is not
  modelled.
- `time.sleep`, the endless `while True` and `KeyboardInterrupt`: the model
  covers one pass (`Tick`). A sequence of passes is successive calls.
- `run_command` and `subprocess`: the output of `btrfs subvolume show` and
  the success of the snapshot and delete commands are inputs.
- Exception types: the model keeps where a pass stopped (`TickError`), not
  the Python exception class or message.
- `get_directory_hash`: the class does not define it, so the model treats
  calling it as a raise.
- `os.path.join` and the source and snapshot directory paths: the model
  knows snapshots by name only.
- The order `os.listdir` returns is an input, since the listing is a
  sequence. Cleanup sorts, so the names deleted do not depend on it.
- Classification and naming read the clock separately (`now` and
  `createdAt`), as the source does. The model puts no relation between the
  two readings.
- SnapshotNames.DateTime.Valid: clock readings have years from 1000 to
  9999 only. Whether `strftime('%Y')` pads smaller years to four digits
  depends on the platform, so such years are not modelled.
- MonitorSpec.TickRetention: stated only for passes in which no delete
  fails. With failures, `Retention.CleanupMembers` gives the exact
  survivors instead of a count.
- Retention.CleanupRetention: stated only for a cap of 1 or more with no
  targeted delete failing. `Retention.RemainingAfterPrune` covers caps of 0
  or less.
