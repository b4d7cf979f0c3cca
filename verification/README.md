# OCI Image Layout directory backend: index and bookkeeping model

This project models the core of the `ocidir` backend of regclient. The backend
stores container images in an OCI Image Layout directory: an `oci-layout`
marker file and an `index.json` catalog of manifest descriptors. It covers
four areas:

- **Index resolution** (`index_resolution.dfy`, `index_properties.dfy`).
  - `indexGet` looks an entry up by digest, by exact tag, or by a `:<tag>` suffix. An empty reference means tag `latest`.
  - `indexSet` stamps the tag onto the descriptor, replaces the first entry with the same identity in place, prunes later duplicates, or appends.
  - `indexCreate` builds the empty index.
  - `IndexSet` is the pure definition of the upsert. `IndexSetInPlace` models Go's forward scan and backward prune loops, and is proved equal to it.
- **GC reference tracker** (`gc_tracker.dfy`). `GCLock`, `GCUnlock` and `refMod` act on a per-path map of `{mod, locks}`. The unlock saturates at zero.
- **Throttle controller** (`throttle_control.dfy`). `Throttle` and `throttleGet` hand a write exactly one throttle per path. The throttle is created on first use and shared after that. Each throttle is an opaque handle with an identity.
- **Layout store** (`layout_store.dfy`).
  - `valid` (`CheckLayout`) applies the version gate on the marker.
  - `readIndex` validates and then reads the index, and `initIndex` creates the marker when it cannot be found.
  - `writeIndex` writes the index to a temporary file and then renames it over `index.json`.
  - `updateIndex` decides when to write.
  - The directory is reduced to what a reader sees: the decoded marker version and the decoded index. Each file-system call's success or failure is an input: the set of calls that fail.

The identity an upsert replaces is "an untagged entry with the descriptor's
digest, or (for a non-empty tag) an entry carrying that tag". `WellFormed`
states the two invariants of the index:
- at most one entry carries any tag;
- at most one untagged entry has any digest.

Upserts keep them when they are *admissible*: a digest-only upsert inserts an
untagged descriptor. `TaggedDescriptorUnderDigestRefDuplicatesTag` shows that
the condition is needed. A digest-only upsert of a descriptor that already
carries a tag looks only for untagged entries with its digest, so an existing
entry with that tag is neither replaced nor pruned, and two entries can end up
carrying the tag.

Behaviour of the code a reader might not expect:

- A second upsert under tag `t` does not always land in the slot the `t` entry
  held before. The scan takes the *first* entry with the identity. An earlier
  untagged entry with the new digest wins, and the old `t` entry is pruned
  (`IndexProperties.UpsertReplacesFirstMatch`).
- `updateIndex` writes whenever the entry is not a child entry, whether or not
  the upsert changed anything (`LayoutStore.UpdateIndex`).
- The marker rewrite is not atomic. `oci-layout` is truncated before it is
  written, so a failed write leaves an unreadable marker. `initIndex` does not
  repair it, since the file still exists. The next update cannot read the
  index, starts from an empty one and drops every earlier entry
  (`LayoutStore.FailedMarkerWriteLosesIndex`). A child update writes an empty
  index, without the descriptor (`LayoutStore.ChildUpdateWipesIndex`). A
  layout whose marker names another version is likewise replaced wholesale by
  an update (`LayoutStore.OtherVersionIndexReplaced`).
- `valid` checks only the marker. The index file is looked at only by
  `readIndex`.

## Model

| member | source | states |
|---|---|---|
| IndexResolution.IndexCreate | scheme/ocidir/ocidir.go:331-339 | A new index has no manifests and no annotations, and carries the OCI image-index schema version 2 and media type |
| IndexResolution.FindFirst | scheme/ocidir/ocidir.go:352-356 | A front-to-back scan that stops at the first hit: returns the position of the first hit and no earlier entry is hit, or reports that no entry is hit |
| IndexResolution.IndexGet | scheme/ocidir/ocidir.go:341-365 | With a digest, the result is the first entry with that digest, or not-found exactly when none has it. Without one, the tag (or `latest`) is used: the first exact match, else (only when nothing matches exactly) the first `:<tag>` suffix match, else not-found |
| IndexResolution.Prune | scheme/ocidir/ocidir.go:393-405 | The pruned list is no longer than the original, contains only entries of the original, and contains no entry with the pruned identity |
| IndexResolution.Stamp | scheme/ocidir/ocidir.go:371-376 | A non-empty tag becomes the descriptor's reference name. Every other annotation, the digest, media type and size are kept. An empty tag leaves the descriptor unchanged |
| IndexResolution.Upsert | scheme/ocidir/ocidir.go:380-409 | The stamped descriptor is in the result. Every other entry was already in the index. The list grows by at most one |
| IndexResolution.IndexSet | scheme/ocidir/ocidir.go:367-411 | A nil index is the only error. Otherwise only the manifest list changes and it contains the stamped descriptor |
| IndexResolution.ScanFirst | scheme/ocidir/ocidir.go:380-392 | The forward loop with `break` finds the same position as the first-hit scan, or -1 exactly when no entry has the identity |
| IndexResolution.PruneAfter | scheme/ocidir/ocidir.go:393-405 | The backward loop that deletes in place keeps everything up to the replaced slot and leaves exactly the non-matching later entries, in order |
| IndexResolution.IndexSetInPlace | scheme/ocidir/ocidir.go:367-411 | The loop-based upsert as written produces the same index as the pure definition, for every input including a nil index |
| IndexProperties.PruneAppend | scheme/ocidir/ocidir.go:393-405 | Pruning distributes over concatenation, so the entries it keeps stay in their relative order |
| IndexProperties.UpsertReplacesFirstMatch | scheme/ocidir/ocidir.go:380-405 | When the first entry with the identity is at p: entries before p are unchanged, the descriptor sits at p, and later entries are the non-matching ones that followed, with none left that matches |
| IndexProperties.UpsertAppendsWhenNoMatch | scheme/ocidir/ocidir.go:406-409 | With no entry of the identity, the list grows by exactly one, the old entries are unchanged, and the descriptor is last |
| IndexProperties.UpsertTagIsUnique | scheme/ocidir/ocidir.go:371-405 | After an upsert under a non-empty tag, exactly one entry carries the tag, and it is the inserted descriptor |
| IndexProperties.UpsertPreservesWellFormed | scheme/ocidir/ocidir.go:380-409 | An admissible upsert keeps at most one entry per tag and at most one untagged entry per digest |
| IndexProperties.UpsertsKeepWellFormed | scheme/ocidir/ocidir.go:367-411 | Any series of admissible upserts applied to a well-formed index, the empty one included, keeps both uniqueness invariants |
| IndexProperties.EmptyIsWellFormed | scheme/ocidir/ocidir.go:331-339 | A freshly created index satisfies both uniqueness invariants |
| IndexProperties.UpsertIdempotent | scheme/ocidir/ocidir.go:380-409 | Repeating an admissible upsert of the same descriptor under the same tag changes nothing |
| IndexProperties.TaggedDescriptorUnderDigestRefDuplicatesTag | scheme/ocidir/ocidir.go:371-387 | A digest-only upsert of an already tagged descriptor, applied to a well-formed index, leaves two entries with the same tag |
| IndexProperties.IndexGetDefaultsToLatest | scheme/ocidir/ocidir.go:342-344 | A lookup with neither tag nor digest returns exactly what a lookup of tag `latest` returns |
| IndexProperties.IndexGetIgnoresTagWithDigest | scheme/ocidir/ocidir.go:345-350 | With a digest, the tag of the reference does not affect the lookup |
| IndexProperties.IndexGetOnEmpty | scheme/ocidir/ocidir.go:364 | Every lookup in an empty index is not-found |
| IndexProperties.IndexGetSuffixFallback | scheme/ocidir/ocidir.go:357-362 | An entry named `myrepo/app:v1` is found by tag `v1` through the suffix fallback |
| IndexProperties.GetAfterSet | scheme/ocidir/ocidir.go:351-356 | After setting a descriptor under a tag, looking that tag up returns the stamped descriptor |
| GcTracker.GCLock | scheme/ocidir/ocidir.go:108-117 | The path's lock count grows by one. A new path starts at one lock, not modified. Other paths are unchanged |
| GcTracker.GCUnlock | scheme/ocidir/ocidir.go:119-126 | A positive count drops by one. A zero count or an unknown path leaves the whole map unchanged |
| GcTracker.RefMod | scheme/ocidir/ocidir.go:323-329 | The path is marked modified and its lock count is kept (zero for a new path). Other paths are unchanged |
| GcTracker.LockUnlockBalance | scheme/ocidir/ocidir.go:108-126 | A lock then an unlock restores the tracker. A new path is left tracked with zero locks and not modified |
| GcTracker.RunNonNegative | scheme/ocidir/ocidir.go:108-126 | Any series of lock, unlock and modify calls, however unbalanced, keeps every lock count at zero or above |
| GcTracker.ExtraUnlocksAreNoOps | scheme/ocidir/ocidir.go:119-126 | Any number of unlocks of a path at zero locks, or of an unknown path, change nothing |
| ThrottleControl.EmptyRegistry | scheme/ocidir/ocidir.go:71 | The backend starts with no throttles |
| ThrottleControl.ThrottleGet | scheme/ocidir/ocidir.go:140-149 | A known path gets its existing throttle, and nothing changes. An unknown path gets a new throttle with the default capacity, distinct from every existing one. Other paths keep theirs |
| ThrottleControl.Throttle | scheme/ocidir/ocidir.go:128-138 | A read, or a default capacity of zero or less, gets no throttle and changes nothing. A write gets exactly one throttle, the one registered for its path |
| ThrottleControl.ThrottleReused | scheme/ocidir/ocidir.go:140-149 | Two writes to the same path get the same throttle |
| ThrottleControl.ThrottleSeparatesPaths | scheme/ocidir/ocidir.go:140-149 | Writes to different paths get different throttles |
| LayoutStore.CheckLayout | scheme/ocidir/ocidir.go:296-321 | The layout is valid exactly when the marker opens, reads and decodes to version `1.0.0`. Any other decoded version is a version-mismatch error naming both versions. A missing or unopenable marker is an open error, a failed read a read error, and undecodable content a parse error |
| LayoutStore.ReadIndex | scheme/ocidir/ocidir.go:185-211 | A read succeeds exactly when the layout is valid and `index.json` opens, reads and decodes, and then returns that document. An invalid layout returns the validation error itself. On a valid layout, a missing or unopenable index is an open error, a failed read a read error, and undecodable content a parse error |
| LayoutStore.RewriteMarker | scheme/ocidir/ocidir.go:245-265 | The marker rewrite succeeds exactly when the directory, create and write steps succeed, and then leaves version `1.0.0`. A failed directory or create step leaves everything as it was; a failed write after the create leaves a truncated, unreadable marker. It never touches the index |
| LayoutStore.InitIndex | scheme/ocidir/ocidir.go:151-183 | A layout whose marker is found is left as is. Otherwise initialisation succeeds exactly when the directory, create and write steps succeed, and then leaves a `1.0.0` marker. It never touches the index |
| LayoutStore.WriteIndex | scheme/ocidir/ocidir.go:240-294 | A write succeeds exactly when none of its steps fails, and then leaves the new document and a `1.0.0` marker. A failed write leaves the visible index as it was, and the marker the marker rewrite left: unchanged after a directory or create failure, truncated after a marker write failure, `1.0.0` after a temporary-file or rename failure |
| LayoutStore.UpdateIndex | scheme/ocidir/ocidir.go:213-238 | A write is attempted exactly when the read failed or the entry is not a child. Without a write nothing changes. A successful write stores the read (or new empty) index, with the descriptor upserted unless it is a child entry. A failure is a wrapped write error and leaves the index as it was |
| LayoutStore.Commit | scheme/ocidir/ocidir.go:231-236 | The write at the end of an update is always attempted. It succeeds exactly when no write step fails, and then stores the given index. A failure is the write's own error wrapped as a write failure, and leaves the visible index as it was |
| LayoutStore.WriteThenRead | scheme/ocidir/ocidir.go:240-294 | A written index reads back unchanged, and the layout it leaves is valid |
| LayoutStore.WriteIsAtomic | scheme/ocidir/ocidir.go:240-294 | After a write, a reader of the layout reads the new index or finds `index.json` as it was. When the marker rewrite succeeded, a previously readable index reads as either the old document or the new one |
| LayoutStore.VersionGate | scheme/ocidir/ocidir.go:317-319 | A marker with any version but `1.0.0` fails validation and reading with the version-mismatch error, whatever the index holds |
| LayoutStore.InitThenValid | scheme/ocidir/ocidir.go:151-183 | Initialising an empty directory gives a valid layout, and initialising it again changes nothing |
| LayoutStore.GetAfterUpdate | scheme/ocidir/ocidir.go:213-238 | After a successful top-level update under a tag, reading the index and looking the tag up returns the stamped descriptor |
| LayoutStore.FreshLayoutScenario | scheme/ocidir/ocidir.go:151-238 | Initialising a fresh directory and updating it with a descriptor under `v1` leaves an index whose only entry is that descriptor, tagged `v1`, with its digest |
| LayoutStore.FailedMarkerWriteLosesIndex | scheme/ocidir/ocidir.go:213-265 | After a write whose marker write fails, the marker is unreadable, `initIndex` leaves it so, and the next fault-free update under `v1` leaves an index holding only the new entry: every earlier entry is lost |
| LayoutStore.ChildUpdateWipesIndex | scheme/ocidir/ocidir.go:219-232 | A child update of a layout whose index cannot be read, with no write step failing, writes an empty index with a `1.0.0` marker and never adds the descriptor |
| LayoutStore.OtherVersionIndexReplaced | scheme/ocidir/ocidir.go:212-238 | An update of a layout whose marker names another version replaces its index with one holding only the new entry, and rewrites the marker as `1.0.0` |

## Left out

- File-system I/O (`Stat`, `MkdirAll`, `Create`, `CreateTemp`, `Rename`, `Open`, `ReadAll`, `Close`). Each call's result is an input: the set of calls that fail. The directory is reduced to the decoded marker and index, one directory per reference path.
- JSON encoding and decoding of `oci-layout` and `index.json`. Files hold decoded values, and a failure to decode is a `None` content. The "cannot marshal" errors are not modelled: encoding these documents does not fail.
- Orphaned temporary files left by a failed write. They are not visible as `index.json` or as the marker.
- The mutex and the `locked` re-entrancy flags, which exist for concurrency. The model is sequential.
- The throttle semaphore (`throttle.New`, acquire, release). A throttle is an opaque handle with an identity and a capacity.
- Construction and options (`New`, `WithFS`, `WithGC`, `WithLog`, `WithThrottle`), including the default capacity 3, the GC switch and the logger. The default capacity is a parameter of `Throttle`.
- The `io.containerd.image.name` annotation constant. No logic reads it.
- Fields of a reference other than its path, tag and digest.
- Fields of descriptors and indexes other than those kept: a descriptor keeps its media type, digest, size and annotations; platform, URLs, artifact type, subject and the rest are dropped. Resolution reads only the digest and the reference-name annotation.
- Nil entries in the GC map (`gc != nil`). The backend never stores one.
- IndexResolution.Stamp: the Go code writes the tag into the caller's annotation map, which it shares with the caller. The model has value semantics, so the caller's descriptor is unchanged.
- GcTracker.GCLock: wrap-around of the machine-integer lock counter is not modelled. The count is unbounded.
- The file-system adapter and its sandbox test (`internal/rwfs`), which are I/O plumbing.
