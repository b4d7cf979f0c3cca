/** Resolution of references against the manifest list of an index document:
    lookup by digest or tag, and the upsert that replaces the first entry with
    the same identity, prunes later duplicates, or appends. */
module IndexResolution {
  import opened OciTypes

  /** The entry tests the backend scans the manifest list with. */
  datatype Query =
    | ByDigest(digest: string)
      // the entry's digest equals `digest`
    | ByTag(tag: string)
      // the entry's reference-name annotation is present and equals `tag`
    | BySuffix(tag: string)
      // the entry's reference-name annotation is present and ends in ":" + tag
    | SameIdentity(tag: string, digest: string)
      // the entry is untagged with this digest, or (tag non-empty) carries this tag

  predicate Hits(q: Query, e: Descriptor) {
    match q
    case ByDigest(dg) => e.digest == dg
    case ByTag(t) => RefNameKey in e.annotations && e.annotations[RefNameKey] == t
    case BySuffix(t) => RefNameKey in e.annotations && HasSuffix(e.annotations[RefNameKey], ":" + t)
    case SameIdentity(t, dg) => (RefName(e) == "" && e.digest == dg) || (t != "" && RefName(e) == t)
  }

  /** `k` is the position of the first entry of `ms` that `q` hits. */
  predicate IsFirstHit(ms: seq<Descriptor>, q: Query, k: int) {
    0 <= k < |ms| && Hits(q, ms[k]) && forall j :: 0 <= j < k ==> !Hits(q, ms[j])
  }

  predicate NoHit(ms: seq<Descriptor>, q: Query) {
    forall j :: 0 <= j < |ms| ==> !Hits(q, ms[j])
  }

  /** Front-to-back scan that stops at the first hit. */
  function FindFirst(ms: seq<Descriptor>, q: Query): (r: Option<nat>)
    ensures r.Some? ==> IsFirstHit(ms, q, r.value)
    ensures r.None? ==> NoHit(ms, q)
  {
    if |ms| == 0 then None
    else if Hits(q, ms[0]) then Some(0)
    else
      match FindFirst(ms[1..], q)
      case None => None
      case Some(k) =>
        assert forall j :: 1 <= j < k + 1 ==> ms[j] == ms[1..][j - 1];
        Some(k + 1)
  }

  /** The entries of `s` that `q` does not hit, in their original order. */
  function Prune(s: seq<Descriptor>, q: Query): (r: seq<Descriptor>)
    ensures |r| <= |s|
    ensures forall k :: 0 <= k < |r| ==> !Hits(q, r[k]) && r[k] in s
  {
    if |s| == 0 then []
    else
      var rest := Prune(s[1..], q);
      assert forall e :: e in s[1..] ==> e in s;
      (if Hits(q, s[0]) then [] else [s[0]]) + rest
  }

  /** An empty index document (Go `indexCreate`). */
  function IndexCreate(): (i: Index)
    ensures i.manifests == [] && i.annotations == map[]
    ensures i.schemaVersion == IndexSchemaVersion && i.mediaType == IndexMediaType
  {
    Index(IndexSchemaVersion, IndexMediaType, [], map[])
  }

  /** Go `indexGet`: a digest wins over a tag; a reference with neither is
      looked up as tag "latest"; an exact tag match wins over a ":tag" suffix
      match; every scan returns the first entry it hits. */
  function IndexGet(index: Index, r: Ref): (res: Result<Descriptor>)
    ensures res.Err? ==> res.error == NotFound
    ensures r.digest != "" ==>
      match res
      case Ok(e) => exists k :: IsFirstHit(index.manifests, ByDigest(r.digest), k) && e == index.manifests[k]
      case Err(_) => NoHit(index.manifests, ByDigest(r.digest))
    ensures r.digest == "" ==>
      var t := if r.tag == "" then LatestTag else r.tag;
      match res
      case Ok(e) =>
        || (exists k :: IsFirstHit(index.manifests, ByTag(t), k) && e == index.manifests[k])
        || (NoHit(index.manifests, ByTag(t)) &&
            exists k :: IsFirstHit(index.manifests, BySuffix(t), k) && e == index.manifests[k])
      case Err(_) => NoHit(index.manifests, ByTag(t)) && NoHit(index.manifests, BySuffix(t))
  {
    var ms := index.manifests;
    var tag := if r.digest == "" && r.tag == "" then LatestTag else r.tag;
    if r.digest != "" then
      match FindFirst(ms, ByDigest(r.digest))
      case Some(k) => Ok(ms[k])
      case None => Err(NotFound)
    else if tag != "" then
      match FindFirst(ms, ByTag(tag))
      case Some(k) => Ok(ms[k])
      case None =>
        match FindFirst(ms, BySuffix(tag))
        case Some(k) => Ok(ms[k])
        case None => Err(NotFound)
    else
      Err(NotFound)
  }

  /** The descriptor as inserted: a non-empty tag is written into its
      reference-name annotation; every other annotation is kept. */
  function Stamp(d: Descriptor, tag: string): (d': Descriptor)
    ensures tag != "" ==> RefName(d') == tag
    ensures tag == "" ==> d' == d
    ensures d'.digest == d.digest && d'.mediaType == d.mediaType && d'.size == d.size
    ensures forall k :: k != RefNameKey ==>
      (k in d'.annotations <==> k in d.annotations) &&
      (k in d.annotations ==> d'.annotations[k] == d.annotations[k])
  {
    if tag != "" then d.(annotations := d.annotations[RefNameKey := tag]) else d
  }

  /** The identity an upsert of `d` under `tag` replaces and prunes. */
  function Identity(tag: string, d: Descriptor): Query {
    SameIdentity(tag, d.digest)
  }

  /** The manifest list after Go `indexSet` of `d` under `tag`: the first
      entry with the same identity is replaced in place and every later one is
      dropped; with no such entry the descriptor is appended. */
  function Upsert(ms: seq<Descriptor>, tag: string, d: Descriptor): (r: seq<Descriptor>)
    ensures Stamp(d, tag) in r
    ensures forall k :: 0 <= k < |r| ==> r[k] in ms || r[k] == Stamp(d, tag)
    ensures |r| <= |ms| + 1
  {
    var d' := Stamp(d, tag);
    var id := Identity(tag, d');
    match FindFirst(ms, id)
    case Some(p) =>
      assert forall e :: e in ms[..p] ==> e in ms;
      assert forall e :: e in ms[p + 1..] ==> e in ms;
      ms[..p] + [d'] + Prune(ms[p + 1..], id)
    case None => ms + [d']
  }

  /** Go `indexSet` on a possibly nil index. Only the manifest list changes. */
  function IndexSet(index: Option<Index>, r: Ref, d: Descriptor): (res: Result<Index>)
    ensures index.None? <==> res == Err(IndexNil)
    ensures index.Some? ==>
      && res.Ok?
      && res.value.schemaVersion == index.value.schemaVersion
      && res.value.mediaType == index.value.mediaType
      && res.value.annotations == index.value.annotations
      && Stamp(d, r.tag) in res.value.manifests
  {
    match index
    case None => Err(IndexNil)
    case Some(i) => Ok(i.(manifests := Upsert(i.manifests, r.tag, d)))
  }

  lemma FirstHitUnique(ms: seq<Descriptor>, q: Query, a: int, b: int)
    requires IsFirstHit(ms, q, a) && IsFirstHit(ms, q, b)
    ensures a == b
  {
  }

  /** The forward scan of Go `indexSet`: the position of the first entry with
      the identity of `desc`, or -1. */
  method ScanFirst(ms: seq<Descriptor>, tag: string, desc: Descriptor) returns (pos: int)
    ensures pos < 0 ==> FindFirst(ms, Identity(tag, desc)) == None
    ensures pos >= 0 ==> FindFirst(ms, Identity(tag, desc)) == Some(pos)
  {
    ghost var id := Identity(tag, desc);
    pos := -1;
    var i := 0;
    while i < |ms|
      invariant 0 <= i <= |ms|
      invariant forall j :: 0 <= j < i ==> !Hits(id, ms[j])
    {
      var name := RefName(ms[i]);
      if (name == "" && ms[i].digest == desc.digest) || (tag != "" && name == tag) {
        pos := i;
        break;
      }
      i := i + 1;
    }
    if pos >= 0 {
      var f := FindFirst(ms, id);
      FirstHitUnique(ms, id, pos, f.value);
    }
  }

  /** The backward scan of Go `indexSet`: walking from the last entry down to
      just after `pos`, delete every entry with the identity of `desc`. */
  method PruneAfter(ms: seq<Descriptor>, pos: nat, tag: string, desc: Descriptor) returns (out: seq<Descriptor>)
    requires pos < |ms|
    ensures out == ms[..pos + 1] + Prune(ms[pos + 1..], Identity(tag, desc))
  {
    ghost var id := Identity(tag, desc);
    out := ms;
    var k := |ms| - 1;
    while k > pos
      invariant pos <= k < |ms|
      invariant out == ms[..k + 1] + Prune(ms[k + 1..], id)
    {
      PruneBackStep(ms, k, id, out);
      var name := RefName(out[k]);
      if (name == "" && out[k].digest == desc.digest) || (tag != "" && name == tag) {
        out := out[..k] + out[k + 1..];
      }
      k := k - 1;
    }
  }

  /** One step of the backward scan: deciding about entry `k` extends the
      pruned suffix by one position. */
  lemma PruneBackStep(ms: seq<Descriptor>, k: nat, q: Query, out: seq<Descriptor>)
    requires k < |ms|
    requires out == ms[..k + 1] + Prune(ms[k + 1..], q)
    ensures k < |out| && out[k] == ms[k]
    ensures Hits(q, ms[k]) ==> out[..k] + out[k + 1..] == ms[..k] + Prune(ms[k..], q)
    ensures !Hits(q, ms[k]) ==> out == ms[..k] + Prune(ms[k..], q)
  {
    PruneStep(ms, k, q);
    assert out[..k] == ms[..k];
    assert out[k + 1..] == Prune(ms[k + 1..], q);
    assert ms[..k + 1] == ms[..k] + [ms[k]];
  }

  lemma PruneStep(s: seq<Descriptor>, k: nat, q: Query)
    requires k < |s|
    ensures Prune(s[k..], q) == (if Hits(q, s[k]) then [] else [s[k]]) + Prune(s[k + 1..], q)
  {
    assert s[k..][1..] == s[k + 1..];
  }

  /** Go `indexSet` as written: stamp the tag, scan forward for the first
      match and replace it, then prune later matches backwards; or append. */
  method IndexSetInPlace(index: Option<Index>, r: Ref, d: Descriptor) returns (res: Result<Index>)
    ensures res == IndexSet(index, r, d)
  {
    if index.None? {
      return Err(IndexNil);
    }
    var desc := d;
    if r.tag != "" {
      desc := desc.(annotations := desc.annotations[RefNameKey := r.tag]);
    }
    var ms := index.value.manifests;
    var pos := ScanFirst(ms, r.tag, desc);
    if pos >= 0 {
      ghost var m0 := ms;
      ms := ms[pos := desc];
      ms := PruneAfter(ms, pos, r.tag, desc);
      assert ms[..pos + 1] == m0[..pos] + [desc];
      assert m0[pos := desc][pos + 1..] == m0[pos + 1..];
    } else {
      ms := ms + [desc];
    }
    res := Ok(index.value.(manifests := ms));
  }
}
