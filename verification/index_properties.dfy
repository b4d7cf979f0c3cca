/** Properties of index resolution: what an upsert leaves in the manifest
    list, the uniqueness invariants it keeps, and how lookup sees its result. */
module IndexProperties {
  import opened OciTypes
  import opened IndexResolution

  /** Number of entries of `s` that `q` hits. */
  function Count(s: seq<Descriptor>, q: Query): nat {
    if |s| == 0 then 0 else (if Hits(q, s[0]) then 1 else 0) + Count(s[1..], q)
  }

  /** At most one entry carries any given (non-empty) tag. */
  ghost predicate TagsUnique(ms: seq<Descriptor>) {
    forall t :: t != "" ==> Count(ms, ByTag(t)) <= 1
  }

  /** At most one untagged entry has any given digest. */
  ghost predicate UntaggedDigestsUnique(ms: seq<Descriptor>) {
    forall dg :: Count(ms, SameIdentity("", dg)) <= 1
  }

  ghost predicate WellFormed(ms: seq<Descriptor>) {
    TagsUnique(ms) && UntaggedDigestsUnique(ms)
  }

  /** A digest-only upsert inserts an untagged descriptor. */
  predicate Admissible(tag: string, d: Descriptor) {
    tag != "" || RefName(d) == ""
  }

  // ---------------------------------------------------------------------
  // Counting and pruning

  lemma {:induction false} CountAppend(a: seq<Descriptor>, b: seq<Descriptor>, q: Query)
    ensures Count(a + b, q) == Count(a, q) + Count(b, q)
  {
    if |a| > 0 {
      assert (a + b)[1..] == a[1..] + b;
      CountAppend(a[1..], b, q);
    } else {
      assert a + b == b;
    }
  }

  lemma {:induction false} PruneCount(s: seq<Descriptor>, q: Query, q2: Query)
    ensures Count(Prune(s, q), q2) <= Count(s, q2)
  {
    if |s| > 0 {
      PruneCount(s[1..], q, q2);
      var head := if Hits(q, s[0]) then [] else [s[0]];
      CountAppend(head, Prune(s[1..], q), q2);
    }
  }

  /** Pruning is a filter: it distributes over concatenation, so the kept
      entries stay in their relative order. */
  lemma {:induction false} PruneAppend(a: seq<Descriptor>, b: seq<Descriptor>, q: Query)
    ensures Prune(a + b, q) == Prune(a, q) + Prune(b, q)
  {
    if |a| > 0 {
      assert (a + b)[1..] == a[1..] + b;
      PruneAppend(a[1..], b, q);
    } else {
      assert a + b == b;
    }
  }

  /** Pruning an entry list nothing in which matches keeps it whole. */
  lemma {:induction false} PruneNoHit(s: seq<Descriptor>, q: Query)
    requires NoHit(s, q)
    ensures Prune(s, q) == s
  {
    if |s| > 0 {
      PruneNoHit(s[1..], q);
    }
  }

  /** For a non-empty tag, an exact tag match is the same as carrying that tag. */
  lemma ByTagIsRefName(t: string, e: Descriptor)
    requires t != ""
    ensures Hits(ByTag(t), e) <==> RefName(e) == t
  {
  }

  // ---------------------------------------------------------------------
  // Shape of an upsert

  /** A match is replaced in place: entries before it are untouched, the
      descriptor takes its slot, and later entries are exactly the non-matching
      ones that followed it, in order. */
  lemma UpsertReplacesFirstMatch(ms: seq<Descriptor>, tag: string, d: Descriptor, p: int)
    requires IsFirstHit(ms, Identity(tag, Stamp(d, tag)), p)
    ensures var r := Upsert(ms, tag, d); var id := Identity(tag, Stamp(d, tag));
      && p < |r| <= |ms|
      && r[..p] == ms[..p]
      && r[p] == Stamp(d, tag)
      && r[p + 1..] == Prune(ms[p + 1..], id)
      && NoHit(r[p + 1..], id)
  {
    var id := Identity(tag, Stamp(d, tag));
    var f := FindFirst(ms, id);
    FirstHitUnique(ms, id, p, f.value);
    var r := Upsert(ms, tag, d);
    assert r == ms[..p] + [Stamp(d, tag)] + Prune(ms[p + 1..], id);
    assert r[p + 1..] == Prune(ms[p + 1..], id);
  }

  /** Without a match the descriptor is appended and nothing else changes. */
  lemma UpsertAppendsWhenNoMatch(ms: seq<Descriptor>, tag: string, d: Descriptor)
    requires NoHit(ms, Identity(tag, Stamp(d, tag)))
    ensures var r := Upsert(ms, tag, d);
      |r| == |ms| + 1 && r[..|ms|] == ms && r[|ms|] == Stamp(d, tag)
  {
    var r := Upsert(ms, tag, d);
    assert r == ms + [Stamp(d, tag)];
    assert r[..|ms|] == ms;
  }

  /** The position an upsert writes the descriptor to. */
  function Slot(ms: seq<Descriptor>, tag: string, d: Descriptor): nat {
    match FindFirst(ms, Identity(tag, Stamp(d, tag)))
    case Some(p) => p
    case None => |ms|
  }

  /** After an upsert under a non-empty tag exactly one entry carries that tag,
      and it is the inserted descriptor. */
  lemma UpsertTagIsUnique(ms: seq<Descriptor>, tag: string, d: Descriptor)
    requires tag != ""
    ensures var r := Upsert(ms, tag, d); var p := Slot(ms, tag, d);
      && p < |r|
      && r[p] == Stamp(d, tag)
      && forall k :: 0 <= k < |r| ==> (RefName(r[k]) == tag <==> k == p)
  {
    var d' := Stamp(d, tag);
    var id := Identity(tag, d');
    var r := Upsert(ms, tag, d);
    match FindFirst(ms, id)
    case Some(p) =>
      UpsertReplacesFirstMatch(ms, tag, d, p);
      forall k | 0 <= k < |r|
        ensures RefName(r[k]) == tag <==> k == p
      {
        if k < p {
          assert r[k] == r[..p][k] == ms[k];
        } else if k > p {
          assert r[k] == r[p + 1..][k - p - 1];
        }
      }
    case None =>
      UpsertAppendsWhenNoMatch(ms, tag, d);
      forall k | 0 <= k < |r|
        ensures RefName(r[k]) == tag <==> k == |ms|
      {
        if k < |ms| {
          assert r[k] == r[..|ms|][k] == ms[k];
        }
      }
  }

  // ---------------------------------------------------------------------
  // Invariants

  lemma EmptyIsWellFormed()
    ensures WellFormed(IndexCreate().manifests)
  {
    forall t | t != "" ensures Count(IndexCreate().manifests, ByTag(t)) <= 1 { }
    forall dg ensures Count(IndexCreate().manifests, SameIdentity("", dg)) <= 1 { }
  }

  /** `q` is a narrower test than the upsert identity `id`: the upserted tag
      itself, or an untagged entry with the upserted digest. */
  predicate Finer(q: Query, id: Query) {
    id.SameIdentity? &&
    ((q == ByTag(id.tag) && id.tag != "") || q == SameIdentity("", id.digest))
  }

  lemma {:induction false} CountNoneFiner(s: seq<Descriptor>, q: Query, id: Query)
    requires Finer(q, id) && NoHit(s, id)
    ensures Count(s, q) == 0
  {
    if |s| > 0 {
      CountNoneFiner(s[1..], q, id);
    }
  }

  /** Counting any test after an upsert: at most what the old list had plus
      the inserted descriptor. */
  lemma UpsertCountBound(ms: seq<Descriptor>, tag: string, d: Descriptor, q: Query)
    ensures Count(Upsert(ms, tag, d), q) <= Count(ms, q) + (if Hits(q, Stamp(d, tag)) then 1 else 0)
  {
    var d' := Stamp(d, tag);
    var id := Identity(tag, d');
    assert Count([d'], q) == if Hits(q, d') then 1 else 0;
    match FindFirst(ms, id)
    case Some(p) =>
      var a, b := ms[..p], ms[p + 1..];
      assert ms == a + [ms[p]] + b;
      CountAppend(a + [ms[p]], b, q);
      CountAppend(a, [ms[p]], q);
      CountAppend(a + [d'], Prune(b, id), q);
      CountAppend(a, [d'], q);
      PruneCount(b, id, q);
    case None =>
      CountAppend(ms, [d'], q);
  }

  /** Counting a test narrower than the upsert identity: only the inserted
      descriptor can be left. */
  lemma UpsertCountFiner(ms: seq<Descriptor>, tag: string, d: Descriptor, q: Query)
    requires Finer(q, Identity(tag, Stamp(d, tag)))
    ensures Count(Upsert(ms, tag, d), q) == (if Hits(q, Stamp(d, tag)) then 1 else 0)
  {
    var d' := Stamp(d, tag);
    var id := Identity(tag, d');
    assert Count([d'], q) == if Hits(q, d') then 1 else 0;
    match FindFirst(ms, id)
    case Some(p) =>
      var a, b := ms[..p], ms[p + 1..];
      assert NoHit(a, id);
      CountAppend(a + [d'], Prune(b, id), q);
      CountAppend(a, [d'], q);
      CountNoneFiner(a, q, id);
      CountNoneFiner(Prune(b, id), q, id);
    case None =>
      CountAppend(ms, [d'], q);
      CountNoneFiner(ms, q, id);
  }

  /** An admissible upsert keeps tags unique and untagged digests unique. */
  lemma UpsertPreservesWellFormed(ms: seq<Descriptor>, tag: string, d: Descriptor)
    requires WellFormed(ms) && Admissible(tag, d)
    ensures WellFormed(Upsert(ms, tag, d))
  {
    var d' := Stamp(d, tag);
    var id := Identity(tag, d');
    var r := Upsert(ms, tag, d);
    forall t | t != ""
      ensures Count(r, ByTag(t)) <= 1
    {
      if t == tag {
        UpsertCountFiner(ms, tag, d, ByTag(t));
      } else {
        assert !Hits(ByTag(t), d');
        UpsertCountBound(ms, tag, d, ByTag(t));
      }
    }
    forall dg
      ensures Count(r, SameIdentity("", dg)) <= 1
    {
      if dg == d'.digest {
        UpsertCountFiner(ms, tag, d, SameIdentity("", dg));
      } else {
        assert !Hits(SameIdentity("", dg), d');
        UpsertCountBound(ms, tag, d, SameIdentity("", dg));
      }
    }
  }

  /** Applies a series of upserts, each a tag and a descriptor, in order. */
  function ApplyUpserts(ms: seq<Descriptor>, ops: seq<(string, Descriptor)>): seq<Descriptor>
    decreases |ops|
  {
    if |ops| == 0 then ms else ApplyUpserts(Upsert(ms, ops[0].0, ops[0].1), ops[1..])
  }

  /** Any series of admissible upserts applied to a well-formed index (the
      empty one, for instance) leaves tags unique and untagged digests unique. */
  lemma {:induction false} UpsertsKeepWellFormed(ms: seq<Descriptor>, ops: seq<(string, Descriptor)>)
    requires WellFormed(ms)
    requires forall i :: 0 <= i < |ops| ==> Admissible(ops[i].0, ops[i].1)
    ensures WellFormed(ApplyUpserts(ms, ops))
    decreases |ops|
  {
    if |ops| > 0 {
      UpsertPreservesWellFormed(ms, ops[0].0, ops[0].1);
      UpsertsKeepWellFormed(Upsert(ms, ops[0].0, ops[0].1), ops[1..]);
    }
  }

  /** Upserting the same descriptor twice is the same as once. */
  lemma UpsertIdempotent(ms: seq<Descriptor>, tag: string, d: Descriptor)
    requires Admissible(tag, d)
    ensures Upsert(Upsert(ms, tag, d), tag, d) == Upsert(ms, tag, d)
  {
    var d' := Stamp(d, tag);
    var id := Identity(tag, d');
    var r := Upsert(ms, tag, d);
    assert Hits(id, d');
    var p := Slot(ms, tag, d);
    if FindFirst(ms, id).Some? {
      UpsertReplacesFirstMatch(ms, tag, d, p);
    } else {
      UpsertAppendsWhenNoMatch(ms, tag, d);
    }
    UpsertSlotIsFirstHit(ms, tag, d);
    UpsertReplacesFirstMatch(r, tag, d, p);
    var r2 := Upsert(r, tag, d);
    PruneNoHit(r[p + 1..], id);
    assert r2[p + 1..] == r[p + 1..];
    assert r2 == r2[..p] + [r2[p]] + r2[p + 1..];
    assert r == r[..p] + [r[p]] + r[p + 1..];
  }

  /** In the result of an upsert, the descriptor's slot is the first entry
      with its identity. */
  lemma UpsertSlotIsFirstHit(ms: seq<Descriptor>, tag: string, d: Descriptor)
    requires Admissible(tag, d)
    ensures var p := Slot(ms, tag, d); var r := Upsert(ms, tag, d);
      IsFirstHit(r, Identity(tag, Stamp(d, tag)), p) && NoHit(r[p + 1..], Identity(tag, Stamp(d, tag)))
  {
    var d' := Stamp(d, tag);
    var id := Identity(tag, d');
    var r := Upsert(ms, tag, d);
    var p := Slot(ms, tag, d);
    assert Hits(id, d');
    if FindFirst(ms, id).Some? {
      UpsertReplacesFirstMatch(ms, tag, d, p);
    } else {
      UpsertAppendsWhenNoMatch(ms, tag, d);
      assert r[p + 1..] == [];
    }
    assert forall j :: 0 <= j < p ==> r[j] == r[..p][j] == ms[j];
  }

  /** A digest-only upsert of a descriptor that already carries a tag can
      leave two entries with that tag: the identity it looks for is the
      digest alone, so the existing tagged entry is neither replaced nor
      pruned. */
  lemma TaggedDescriptorUnderDigestRefDuplicatesTag()
    ensures var e := Descriptor("", "sha256:a", 0, map[RefNameKey := "v1"]);
      var d := Descriptor("", "sha256:b", 0, map[RefNameKey := "v1"]);
      && WellFormed([e])
      && !Admissible("", d)
      && Upsert([e], "", d) == [e, d]
      && Count(Upsert([e], "", d), ByTag("v1")) == 2
  {
    var e := Descriptor("", "sha256:a", 0, map[RefNameKey := "v1"]);
    var d := Descriptor("", "sha256:b", 0, map[RefNameKey := "v1"]);
    forall t | t != "" ensures Count([e], ByTag(t)) <= 1 {
      assert [e][1..] == [];
    }
    forall dg ensures Count([e], SameIdentity("", dg)) <= 1 {
      assert [e][1..] == [];
    }
    assert !Hits(Identity("", d), e);
    assert FindFirst([e], Identity("", d)) == None;
    assert [e, d][1..] == [d];
    assert [e, d][1..][1..] == [];
  }

  // ---------------------------------------------------------------------
  // Lookup

  /** A reference with neither tag nor digest is looked up as "latest". */
  lemma IndexGetDefaultsToLatest(index: Index, path: string)
    ensures IndexGet(index, Ref(path, "", "")) == IndexGet(index, Ref(path, LatestTag, ""))
  {
  }

  /** With a digest the tag plays no part in a lookup. */
  lemma IndexGetIgnoresTagWithDigest(index: Index, r: Ref, t: string)
    requires r.digest != ""
    ensures IndexGet(index, r) == IndexGet(index, r.(tag := t))
  {
  }

  /** Nothing is found in an empty index. */
  lemma IndexGetOnEmpty(r: Ref)
    ensures IndexGet(IndexCreate(), r) == Err(NotFound)
  {
  }

  /** A tag lookup falls back to an entry named by a full image reference
      ending in ":" + tag. */
  lemma IndexGetSuffixFallback()
    ensures var e := Descriptor("", "sha256:a", 0, map[RefNameKey := "myrepo/app:v1"]);
      var index := Index(IndexSchemaVersion, IndexMediaType, [e], map[]);
      IndexGet(index, Ref("dir", "v1", "")) == Ok(e)
  {
    var e := Descriptor("", "sha256:a", 0, map[RefNameKey := "myrepo/app:v1"]);
    var index := Index(IndexSchemaVersion, IndexMediaType, [e], map[]);
    assert !Hits(ByTag("v1"), e);
    assert "myrepo/app:v1"[10..] == ":v1";
    assert Hits(BySuffix("v1"), e);
  }

  /** After setting a descriptor under a tag, looking the tag up returns it. */
  lemma GetAfterSet(index: Index, r: Ref, d: Descriptor)
    requires r.tag != ""
    ensures IndexSet(Some(index), r, d).Ok?
    ensures IndexGet(IndexSet(Some(index), r, d).value, Ref(r.path, r.tag, "")) == Ok(Stamp(d, r.tag))
  {
    var ms := Upsert(index.manifests, r.tag, d);
    var p := Slot(index.manifests, r.tag, d);
    UpsertTagIsUnique(index.manifests, r.tag, d);
    ByTagIsRefName(r.tag, ms[p]);
    assert forall k :: 0 <= k < |ms| ==> (Hits(ByTag(r.tag), ms[k]) <==> k == p);
    assert IsFirstHit(ms, ByTag(r.tag), p);
    var res := IndexGet(IndexSet(Some(index), r, d).value, Ref(r.path, r.tag, ""));
    assert !NoHit(ms, ByTag(r.tag));
    forall k | IsFirstHit(ms, ByTag(r.tag), k) ensures ms[k] == Stamp(d, r.tag) {
      FirstHitUnique(ms, ByTag(r.tag), p, k);
    }
  }
}
