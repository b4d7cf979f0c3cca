/** Per-path write throttles. Each path gets one throttle, created on first
    use with the engine's default capacity and shared from then on. A throttle
    is an opaque handle: its semaphore is not part of this model. */
module ThrottleControl {
  import opened OciTypes

  /** A throttle instance, told apart from all others by `id`. */
  datatype Handle = Handle(id: nat, capacity: int)

  /** The throttles handed out so far, and the next unused identity. */
  datatype Registry = Registry(byPath: map<string, Handle>, next: nat)

  /** Every handle has an identity below `next`, and no two paths share one. */
  ghost predicate Valid(reg: Registry) {
    && (forall p :: p in reg.byPath ==> reg.byPath[p].id < reg.next)
    && (forall p, q :: p in reg.byPath && q in reg.byPath && p != q ==> reg.byPath[p].id != reg.byPath[q].id)
  }

  function EmptyRegistry(): (reg: Registry)
    ensures Valid(reg) && reg.byPath == map[]
  {
    Registry(map[], 0)
  }

  datatype Got = Got(handle: Handle, registry: Registry)

  /** Go `throttleGet`: the path's throttle, created with capacity `def` if
      the path has none. */
  function ThrottleGet(reg: Registry, def: int, r: Ref): (g: Got)
    ensures g.registry.byPath.Keys == reg.byPath.Keys + {r.path}
    ensures g.registry.byPath[r.path] == g.handle
    ensures r.path in reg.byPath ==> g.handle == reg.byPath[r.path] && g.registry == reg
    ensures r.path !in reg.byPath ==>
      && g.handle.capacity == def
      && (forall p :: p in reg.byPath ==> g.registry.byPath[p] == reg.byPath[p])
      && (Valid(reg) ==> forall p :: p in reg.byPath ==> reg.byPath[p].id != g.handle.id)
    ensures Valid(reg) ==> Valid(g.registry)
  {
    if r.path in reg.byPath then Got(reg.byPath[r.path], reg)
    else
      var h := Handle(reg.next, def);
      var reg' := Registry(reg.byPath[r.path := h], reg.next + 1);
      Got(h, reg')
  }

  datatype Throttled = Throttled(handles: seq<Handle>, registry: Registry)

  /** Go `Throttle`: reads, and every request when the default capacity is not
      positive, get no throttle; a write gets exactly the path's throttle. */
  function Throttle(reg: Registry, def: int, r: Ref, put: bool): (t: Throttled)
    ensures !put || def <= 0 ==> t.handles == [] && t.registry == reg
    ensures put && def > 0 ==>
      && |t.handles| == 1
      && r.path in t.registry.byPath
      && t.handles[0] == t.registry.byPath[r.path]
      && (r.path in reg.byPath ==> t.handles[0] == reg.byPath[r.path] && t.registry == reg)
      && (r.path !in reg.byPath ==> t.handles[0].capacity == def)
    ensures Valid(reg) ==> Valid(t.registry)
  {
    if !put || def <= 0 then Throttled([], reg)
    else
      var g := ThrottleGet(reg, def, r);
      Throttled([g.handle], g.registry)
  }

  /** Two writes to the same path get the same throttle, and the second leaves
      the registry as the first left it. */
  lemma ThrottleReused(reg: Registry, def: int, r: Ref, r2: Ref)
    requires def > 0 && r2.path == r.path
    ensures var t1 := Throttle(reg, def, r, true);
      var t2 := Throttle(t1.registry, def, r2, true);
      t2.handles == t1.handles && t2.registry == t1.registry
  {
  }

  /** Writes to different paths never share a throttle. */
  lemma ThrottleSeparatesPaths(reg: Registry, def: int, r: Ref, r2: Ref)
    requires Valid(reg) && def > 0 && r2.path != r.path
    ensures var t1 := Throttle(reg, def, r, true);
      var t2 := Throttle(t1.registry, def, r2, true);
      t2.handles[0] != t1.handles[0]
  {
    var t1 := Throttle(reg, def, r, true);
    var t2 := Throttle(t1.registry, def, r2, true);
    assert t2.registry.byPath[r.path] == t1.registry.byPath[r.path];
  }
}
