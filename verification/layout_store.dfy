/** The layout directory of one reference path and the backend's operations on
    it: validating the `oci-layout` marker, reading `index.json`, initialising
    the layout, rewriting the index through a temporary file and a rename, and
    the read-modify-write of an update.

    File contents are kept already decoded (the JSON codec is not modelled),
    and the outcome of each file-system call is an input: `faults` is the set
    of calls that fail. */
module LayoutStore {
  import opened OciTypes
  import opened IndexResolution
  import IndexProperties

  /** The `oci-layout` file: absent, or present with the version it decodes
      to (None when its bytes do not decode). */
  datatype MarkerFile = MarkerAbsent | Marker(version: Option<string>)

  /** The `index.json` file: absent, or present with the document it decodes
      to (None when its bytes do not decode). */
  datatype IndexFile = IndexAbsent | IndexDoc(doc: Option<Index>)

  /** What a reader of the directory can observe. Temporary files are not
      observable through either name. */
  datatype Dir = Dir(marker: MarkerFile, index: IndexFile)

  /** The file-system calls the backend makes. */
  datatype IoStep =
    | StatMarker
    | Mkdir          // a failure other than "already exists"
    | CreateMarker
    | WriteMarker
    | OpenMarker
    | ReadMarker
    | OpenIndex
    | ReadIndexBytes
    | CreateTemp
    | StatTemp
    | WriteTemp
    | CloseTemp
    | RenameTemp

  /** The calls that can fail an index write. */
  const WriteSteps: set<IoStep> :=
    {Mkdir, CreateMarker, WriteMarker, CreateTemp, StatTemp, WriteTemp, CloseTemp, RenameTemp}

  /** The calls that can fail an index read. */
  const ReadSteps: set<IoStep> := {OpenMarker, ReadMarker, OpenIndex, ReadIndexBytes}

  datatype Written = Written(dir: Dir, outcome: Outcome)

  /** Go `valid`: the marker must open, read, decode, and carry exactly the
      supported version. */
  function CheckLayout(dir: Dir, faults: set<IoStep>): (o: Outcome)
    ensures o.Pass? <==>
      dir.marker == Marker(Some(LayoutVersion)) && OpenMarker !in faults && ReadMarker !in faults
    ensures dir.marker.Marker? && dir.marker.version.Some? && dir.marker.version.value != LayoutVersion
      && OpenMarker !in faults && ReadMarker !in faults
      ==> o == Fail(VersionMismatch(LayoutVersion, dir.marker.version.value))
    ensures dir.marker.MarkerAbsent? || OpenMarker in faults ==> o == Fail(MarkerOpen)
    ensures dir.marker.Marker? && OpenMarker !in faults && ReadMarker in faults ==> o == Fail(MarkerRead)
    ensures dir.marker == Marker(None) && OpenMarker !in faults && ReadMarker !in faults ==> o == Fail(MarkerParse)
  {
    if dir.marker.MarkerAbsent? || OpenMarker in faults then Fail(MarkerOpen)
    else if ReadMarker in faults then Fail(MarkerRead)
    else if dir.marker.version.None? then Fail(MarkerParse)
    else if dir.marker.version.value != LayoutVersion then
      Fail(VersionMismatch(LayoutVersion, dir.marker.version.value))
    else Pass
  }

  /** Go `readIndex`: validate the layout, then open, read and decode the
      index. */
  function ReadIndex(dir: Dir, faults: set<IoStep>): (res: Result<Index>)
    ensures res.Ok? <==>
      CheckLayout(dir, faults).Pass? && dir.index.IndexDoc? && dir.index.doc.Some?
      && OpenIndex !in faults && ReadIndexBytes !in faults
    ensures res.Ok? ==> dir.index == IndexDoc(Some(res.value))
    ensures CheckLayout(dir, faults).Fail? ==> res == Err(CheckLayout(dir, faults).error)
    ensures CheckLayout(dir, faults).Pass? && (dir.index.IndexAbsent? || OpenIndex in faults) ==> res == Err(IndexOpen)
    ensures CheckLayout(dir, faults).Pass? && dir.index.IndexDoc? && OpenIndex !in faults && ReadIndexBytes in faults
      ==> res == Err(IndexRead)
    ensures CheckLayout(dir, faults).Pass? && dir.index == IndexDoc(None) && OpenIndex !in faults
      && ReadIndexBytes !in faults
      ==> res == Err(IndexParse)
  {
    match CheckLayout(dir, faults)
    case Fail(e) => Err(e)
    case Pass =>
      if dir.index.IndexAbsent? || OpenIndex in faults then Err(IndexOpen)
      else if ReadIndexBytes in faults then Err(IndexRead)
      else if dir.index.doc.None? then Err(IndexParse)
      else Ok(dir.index.doc.value)
  }

  /** The steps `initIndex` and `writeIndex` share: create the directory
      (an existing one is fine) and rewrite the marker with the supported
      version. A failed write leaves a truncated marker behind. */
  function RewriteMarker(dir: Dir, faults: set<IoStep>): (w: Written)
    ensures w.dir.index == dir.index
    ensures w.outcome.Pass? <==> Mkdir !in faults && CreateMarker !in faults && WriteMarker !in faults
    ensures w.outcome.Pass? ==> w.dir.marker == Marker(Some(LayoutVersion))
    ensures Mkdir in faults || CreateMarker in faults ==> w.dir == dir
    ensures Mkdir !in faults && CreateMarker !in faults && WriteMarker in faults ==>
      w.dir.marker == Marker(None)
  {
    if Mkdir in faults then Written(dir, Fail(MkdirFailed))
    else if CreateMarker in faults then Written(dir, Fail(MarkerCreate))
    else if WriteMarker in faults then Written(dir.(marker := Marker(None)), Fail(MarkerWrite))
    else Written(dir.(marker := Marker(Some(LayoutVersion))), Pass)
  }

  /** Go `initIndex`: nothing to do when the marker can be found; otherwise
      create the directory and write the marker. The index is never touched. */
  function InitIndex(dir: Dir, faults: set<IoStep>): (w: Written)
    ensures w.dir.index == dir.index
    ensures dir.marker.Marker? && StatMarker !in faults ==> w == Written(dir, Pass)
    ensures !(dir.marker.Marker? && StatMarker !in faults) ==>
      && (w.outcome.Pass? <==> Mkdir !in faults && CreateMarker !in faults && WriteMarker !in faults)
      && (w.outcome.Pass? ==> w.dir.marker == Marker(Some(LayoutVersion)))
  {
    if dir.marker.Marker? && StatMarker !in faults then Written(dir, Pass)
    else RewriteMarker(dir, faults)
  }

  /** Go `writeIndex`: rewrite the marker, write the document to a temporary
      file in the same directory, and rename it over `index.json`. The rename
      is the only step that changes what a reader of `index.json` sees. */
  function WriteIndex(dir: Dir, faults: set<IoStep>, i: Index): (w: Written)
    ensures w.outcome.Pass? <==> faults !! WriteSteps
    ensures w.outcome.Pass? ==> w.dir == Dir(Marker(Some(LayoutVersion)), IndexDoc(Some(i)))
    ensures w.outcome.Fail? ==> w.dir.index == dir.index
    ensures w.outcome.Fail? ==> w.dir.marker == RewriteMarker(dir, faults).dir.marker
  {
    var m := RewriteMarker(dir, faults);
    if m.outcome.Fail? then m
    else if CreateTemp in faults then Written(m.dir, Fail(TempCreate))
    else if StatTemp in faults then Written(m.dir, Fail(TempStat))
    else if WriteTemp in faults then Written(m.dir, Fail(TempWrite))
    else if CloseTemp in faults then Written(m.dir, Fail(TempClose))
    else if RenameTemp in faults then Written(m.dir, Fail(RenameFailed))
    else Written(m.dir.(index := IndexDoc(Some(i))), Pass)
  }

  /** The result of an update: the directory afterwards, whether a write was
      attempted, and the outcome. */
  datatype Updated = Updated(dir: Dir, wrote: bool, outcome: Outcome)

  /** The index an update writes: the one read, or a new empty index when the
      read fails, with the descriptor upserted unless it is a child entry. */
  function UpdatedIndex(dir: Dir, faults: set<IoStep>, r: Ref, d: Descriptor, child: bool): Index {
    var base := match ReadIndex(dir, faults) case Ok(i) => i case Err(_) => IndexCreate();
    if child then base else base.(manifests := Upsert(base.manifests, r.tag, d))
  }

  /** Go `updateIndex`: read the index (starting from an empty one when the
      read fails), upsert the descriptor unless it is a child entry, and write
      back only if something changed. */
  function UpdateIndex(dir: Dir, faults: set<IoStep>, r: Ref, d: Descriptor, child: bool): (u: Updated)
    ensures u.wrote <==> ReadIndex(dir, faults).Err? || !child
    ensures !u.wrote ==> u.dir == dir && u.outcome == Pass
    ensures u.wrote ==> (u.outcome.Pass? <==> faults !! WriteSteps)
    ensures u.wrote && u.outcome.Pass? ==>
      u.dir.index == IndexDoc(Some(UpdatedIndex(dir, faults, r, d, child)))
    ensures u.outcome.Fail? ==> u.dir.index == dir.index && u.outcome.error.WriteFailed?
  {
    var read := ReadIndex(dir, faults);
    var changed := read.Err?;
    var index := if read.Err? then IndexCreate() else read.value;
    if !child then
      match IndexSet(Some(index), r, d)
      case Err(e) => Updated(dir, false, Fail(UpdateFailed(e)))
      case Ok(index') => Commit(dir, faults, index')
    else if changed then Commit(dir, faults, index)
    else Updated(dir, false, Pass)
  }

  /** The write at the end of an update, with its error wrapped. */
  function Commit(dir: Dir, faults: set<IoStep>, i: Index): (u: Updated)
    ensures u.wrote
    ensures u.outcome.Pass? <==> faults !! WriteSteps
    ensures u.outcome.Pass? ==> u.dir.index == IndexDoc(Some(i))
    ensures u.outcome.Fail? ==>
      u.outcome.error == WriteFailed(WriteIndex(dir, faults, i).outcome.error) && u.dir.index == dir.index
  {
    var w := WriteIndex(dir, faults, i);
    match w.outcome
    case Pass => Updated(w.dir, true, Pass)
    case Fail(e) => Updated(w.dir, true, Fail(WriteFailed(e)))
  }

  // ---------------------------------------------------------------------
  // Properties

  /** A written index is read back unchanged, and the layout it leaves is
      valid. */
  lemma WriteThenRead(dir: Dir, faults: set<IoStep>, i: Index)
    requires faults !! WriteSteps && faults !! ReadSteps
    ensures CheckLayout(WriteIndex(dir, faults, i).dir, faults) == Pass
    ensures ReadIndex(WriteIndex(dir, faults, i).dir, faults) == Ok(i)
  {
  }

  /** What a reader of the layout gets after a write: the new index, or the
      old index untouched. When the marker rewrite itself succeeds, a reader
      of a previously readable index reads either the old document or the
      new one, never anything in between. */
  lemma WriteIsAtomic(dir: Dir, faults: set<IoStep>, i: Index, prev: Index)
    requires faults !! ReadSteps
    requires dir.index == IndexDoc(Some(prev))
    ensures var w := WriteIndex(dir, faults, i);
      ReadIndex(w.dir, faults) == Ok(i) || w.dir.index == dir.index
    ensures var w := WriteIndex(dir, faults, i);
      Mkdir !in faults && CreateMarker !in faults && WriteMarker !in faults ==>
        ReadIndex(w.dir, faults) in {Ok(prev), Ok(i)}
  {
  }

  /** A marker with any other version fails validation with a version
      mismatch, whatever the index holds. */
  lemma VersionGate(v: string, index: IndexFile, faults: set<IoStep>)
    requires v != LayoutVersion && faults !! ReadSteps
    ensures CheckLayout(Dir(Marker(Some(v)), index), faults) == Fail(VersionMismatch(LayoutVersion, v))
    ensures ReadIndex(Dir(Marker(Some(v)), index), faults) == Err(VersionMismatch(LayoutVersion, v))
  {
  }

  /** Initialising an empty directory yields a valid layout, and initialising
      it again changes nothing. */
  lemma InitThenValid(faults: set<IoStep>)
    requires faults !! WriteSteps && faults !! ReadSteps
    ensures var w := InitIndex(Dir(MarkerAbsent, IndexAbsent), faults);
      && w.outcome == Pass
      && CheckLayout(w.dir, faults) == Pass
      && (StatMarker !in faults ==> InitIndex(w.dir, faults) == w)
  {
  }

  /** After a successful top-level update under a tag, reading the index and
      looking the tag up returns the descriptor, stamped with the tag. */
  lemma GetAfterUpdate(dir: Dir, faults: set<IoStep>, r: Ref, d: Descriptor)
    requires r.tag != "" && faults !! ReadSteps
    requires UpdateIndex(dir, faults, r, d, false).outcome.Pass?
    ensures var u := UpdateIndex(dir, faults, r, d, false);
      && ReadIndex(u.dir, faults).Ok?
      && IndexGet(ReadIndex(u.dir, faults).value, Ref(r.path, r.tag, "")) == Ok(Stamp(d, r.tag))
  {
    var base := match ReadIndex(dir, faults) case Ok(i) => i case Err(_) => IndexCreate();
    IndexProperties.GetAfterSet(base, r, d);
  }

  /** A fresh directory, initialised and then updated with a descriptor under
      tag "v1", holds an index with exactly that one entry, tagged "v1". */
  lemma FreshLayoutScenario(x: Descriptor)
    ensures var w := InitIndex(Dir(MarkerAbsent, IndexAbsent), {});
      var u := UpdateIndex(w.dir, {}, Ref("a", "v1", ""), x, false);
      && w.outcome == Pass
      && CheckLayout(w.dir, {}) == Pass
      && u.wrote && u.outcome == Pass
      && ReadIndex(u.dir, {}).Ok?
      && ReadIndex(u.dir, {}).value.manifests == [Stamp(x, "v1")]
      && RefName(ReadIndex(u.dir, {}).value.manifests[0]) == "v1"
      && ReadIndex(u.dir, {}).value.manifests[0].digest == x.digest
  {
    var w := InitIndex(Dir(MarkerAbsent, IndexAbsent), {});
    assert ReadIndex(w.dir, {}) == Err(IndexOpen);
    assert FindFirst([], Identity("v1", Stamp(x, "v1"))) == None;
  }

  /** The marker rewrite is not atomic: the marker is truncated before it is
      written. A write of an unchanged index whose marker write fails leaves
      an unreadable marker that `initIndex` does not repair, and the next
      fault-free top-level update then starts from an empty index, so every
      earlier entry is lost. */
  lemma FailedMarkerWriteLosesIndex(prev: Index, x: Descriptor)
    ensures var w := WriteIndex(Dir(Marker(Some(LayoutVersion)), IndexDoc(Some(prev))), {WriteMarker}, prev);
      var u := UpdateIndex(w.dir, {}, Ref("a", "v1", ""), x, false);
      && w.outcome == Fail(MarkerWrite)
      && w.dir == Dir(Marker(None), IndexDoc(Some(prev)))
      && InitIndex(w.dir, {}) == Written(w.dir, Pass)
      && ReadIndex(w.dir, {}) == Err(MarkerParse)
      && u.outcome == Pass
      && u.dir.index == IndexDoc(Some(IndexCreate().(manifests := [Stamp(x, "v1")])))
  {
    var w := WriteIndex(Dir(Marker(Some(LayoutVersion)), IndexDoc(Some(prev))), {WriteMarker}, prev);
    assert w.dir == Dir(Marker(None), IndexDoc(Some(prev)));
    assert FindFirst([], Identity("v1", Stamp(x, "v1"))) == None;
    assert Upsert([], "v1", x) == [Stamp(x, "v1")];
    assert UpdatedIndex(w.dir, {}, Ref("a", "v1", ""), x, false) == IndexCreate().(manifests := [Stamp(x, "v1")]);
  }

  /** A child update of a layout whose index cannot be read writes the new
      empty index and never adds the descriptor: every earlier entry of
      `index.json` is lost and nothing takes their place. */
  lemma ChildUpdateWipesIndex(dir: Dir, faults: set<IoStep>, r: Ref, d: Descriptor)
    requires ReadIndex(dir, faults).Err? && faults !! WriteSteps
    ensures var u := UpdateIndex(dir, faults, r, d, true);
      && u.wrote && u.outcome == Pass
      && u.dir == Dir(Marker(Some(LayoutVersion)), IndexDoc(Some(IndexCreate())))
      && u.dir.index.doc.value.manifests == []
  {
  }

  /** A layout whose marker names another version cannot be read, so a
      top-level update replaces its index wholesale with one holding only the
      new entry, and rewrites the marker with the supported version. */
  lemma OtherVersionIndexReplaced(v: string, prev: Index, x: Descriptor)
    requires v != LayoutVersion
    ensures var u := UpdateIndex(Dir(Marker(Some(v)), IndexDoc(Some(prev))), {}, Ref("a", "v1", ""), x, false);
      && u.outcome == Pass
      && u.dir == Dir(Marker(Some(LayoutVersion)), IndexDoc(Some(IndexCreate().(manifests := [Stamp(x, "v1")]))))
  {
    var dir := Dir(Marker(Some(v)), IndexDoc(Some(prev)));
    assert ReadIndex(dir, {}) == Err(VersionMismatch(LayoutVersion, v));
    assert FindFirst([], Identity("v1", Stamp(x, "v1"))) == None;
    assert Upsert([], "v1", x) == [Stamp(x, "v1")];
    var i := IndexCreate().(manifests := [Stamp(x, "v1")]);
    assert WriteIndex(dir, {}, i).dir == Dir(Marker(Some(LayoutVersion)), IndexDoc(Some(i)));
  }
}
