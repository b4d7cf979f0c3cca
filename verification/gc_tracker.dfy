/** Per-path garbage-collection bookkeeping: a lock counter that an external
    collector must see at zero, and a flag recording that content under the
    path changed. Entries are created on first use and never removed. */
module GcTracker {
  import opened OciTypes

  datatype GcEntry = GcEntry(mod: bool, locks: int)

  type GcMap = map<string, GcEntry>

  /** No entry has a negative lock count. */
  ghost predicate NonNegative(m: GcMap) {
    forall p :: p in m ==> m[p].locks >= 0
  }

  /** Go `GCLock`: one more hold on the path; a new entry starts at one lock,
      not modified. */
  function GCLock(m: GcMap, r: Ref): (m': GcMap)
    ensures m'.Keys == m.Keys + {r.path}
    ensures r.path in m ==> m'[r.path] == m[r.path].(locks := m[r.path].locks + 1)
    ensures r.path !in m ==> m'[r.path] == GcEntry(false, 1)
    ensures forall p :: p in m && p != r.path ==> m'[p] == m[p]
  {
    if r.path in m then m[r.path := m[r.path].(locks := m[r.path].locks + 1)]
    else m[r.path := GcEntry(false, 1)]
  }

  /** Go `GCUnlock`: one hold fewer when the count is positive; otherwise, and
      for an unknown path, nothing changes. */
  function GCUnlock(m: GcMap, r: Ref): (m': GcMap)
    ensures m'.Keys == m.Keys
    ensures r.path in m && m[r.path].locks > 0 ==> m'[r.path] == m[r.path].(locks := m[r.path].locks - 1)
    ensures (r.path !in m || m[r.path].locks <= 0) ==> m' == m
    ensures forall p :: p in m && p != r.path ==> m'[p] == m[p]
  {
    if r.path in m && m[r.path].locks > 0 then m[r.path := m[r.path].(locks := m[r.path].locks - 1)]
    else m
  }

  /** Go `refMod`: the path is marked modified; its lock count is kept
      (zero for a new entry). */
  function RefMod(m: GcMap, r: Ref): (m': GcMap)
    ensures m'.Keys == m.Keys + {r.path}
    ensures m'[r.path].mod
    ensures m'[r.path].locks == (if r.path in m then m[r.path].locks else 0)
    ensures forall p :: p in m && p != r.path ==> m'[p] == m[p]
  {
    if r.path in m then m[r.path := m[r.path].(mod := true)]
    else m[r.path := GcEntry(true, 0)]
  }

  /** A lock followed by an unlock of the same path restores the path's lock
      count and flag; a path seen for the first time is left tracked with no
      locks and not modified. */
  lemma LockUnlockBalance(m: GcMap, r: Ref)
    requires NonNegative(m)
    ensures GCUnlock(GCLock(m, r), r) == (if r.path in m then m else m[r.path := GcEntry(false, 0)])
  {
  }

  /** The calls the backend makes on the tracker. */
  datatype GcOp = Lock(r: Ref) | Unlock(r: Ref) | Mod(r: Ref)

  function Step(m: GcMap, op: GcOp): GcMap {
    match op
    case Lock(r) => GCLock(m, r)
    case Unlock(r) => GCUnlock(m, r)
    case Mod(r) => RefMod(m, r)
  }

  function Run(m: GcMap, ops: seq<GcOp>): GcMap
    decreases |ops|
  {
    if |ops| == 0 then m else Run(Step(m, ops[0]), ops[1..])
  }

  /** Starting from any tracker with no negative count (the empty one, for
      instance), any series of lock, unlock and modify calls, in any order and
      however unbalanced, keeps every lock count at zero or above. */
  lemma {:induction false} RunNonNegative(m: GcMap, ops: seq<GcOp>)
    requires NonNegative(m)
    ensures NonNegative(Run(m, ops))
    decreases |ops|
  {
    if |ops| > 0 {
      var m' := Step(m, ops[0]);
      assert NonNegative(m');
      RunNonNegative(m', ops[1..]);
    }
  }

  /** Extra unlocks beyond zero leave the tracker as it is. */
  lemma {:induction false} ExtraUnlocksAreNoOps(m: GcMap, r: Ref, n: nat)
    requires r.path !in m || m[r.path].locks == 0
    ensures Run(m, seq(n, _ => Unlock(r))) == m
  {
    if n > 0 {
      assert seq(n, _ => Unlock(r))[1..] == seq(n - 1, _ => Unlock(r));
      ExtraUnlocksAreNoOps(m, r, n - 1);
    }
  }
}
