/** The hook table of src/hook.rs: one engine hook per hook type or address, many callbacks behind
    it. A callback is a function of the emulator state; its own data counts as part of that. */
module Hooks {
  import opened Words

  datatype HookFlag =
    | INTR | INSN | CODE | BLOCK
    | MEM_READ_UNMAPPED | MEM_WRITE_UNMAPPED | MEM_FETCH_UNMAPPED
    | MEM_READ_PROT | MEM_WRITE_PROT | MEM_FETCH_PROT
    | MEM_READ | MEM_WRITE | MEM_FETCH | MEM_READ_AFTER
    | INSN_INVALID

  /** A combination of hook flags, as the engine takes it. */
  type HookType = set<HookFlag>

  const MEM_UNMAPPED: HookType := {MEM_READ_UNMAPPED, MEM_WRITE_UNMAPPED, MEM_FETCH_UNMAPPED}
  const MEM_PROT: HookType := {MEM_READ_PROT, MEM_WRITE_PROT, MEM_FETCH_PROT}

  datatype HookKind = Common(t: HookType) | Address(addr: U64)

  datatype HookArgs =
    | Trace(addr: U64, size: U32)
    | Intr(intno: U32)
    | Mem(access: nat, addr: U64, len: nat, value: int)
    | InvalidInsn

  datatype Hook<!C> = Hook(id: nat, begin: U64, end: U64, cb: (C, HookArgs) -> (C, Option<U32>))

  datatype AddrHook<!C> = AddrHook(id: nat, addr: U64, cb: C -> (C, Option<U32>))

  /** The fields of `VCoreHooks` as a value. */
  datatype Table<!C> = Table(
    nextId: nat,
    hookFuc: map<HookType, nat>,
    addrHookFuc: map<U64, nat>,
    hooks: map<HookType, seq<Hook<C>>>,
    addrHooks: map<U64, seq<AddrHook<C>>>)

  // ---- the engine's side

  /** Engine hooks by handle. The engine may refuse a new one, and may refuse to let one go. */
  class EngineHooks {
    var live: set<nat>
    var accepts: bool
    var stuck: set<nat>

    constructor ()
      ensures live == {} && accepts && stuck == {}
    {
      live, accepts, stuck := {}, true, {};
    }

    method Add() returns (handle: Option<nat>)
      modifies this`live
      ensures handle.Some? == accepts
      ensures handle.Some? ==> handle.value !in old(live) && live == old(live) + {handle.value}
      ensures handle.None? ==> live == old(live)
    {
      if !accepts {
        return None;
      }
      var n := Unused(live);
      live := live + {n};
      return Some(n);
    }

    method Remove(handle: nat) returns (ok: bool)
      modifies this`live
      ensures ok == (handle in old(live) && handle !in stuck)
      ensures live == if ok then old(live) - {handle} else old(live)
    {
      ok := handle in live && handle !in stuck;
      if ok {
        live := live - {handle};
      }
    }
  }

  method Unused(s: set<nat>) returns (n: nat)
    ensures n !in s
  {
    n := 0;
    var rest := s;
    while rest != {}
      invariant rest <= s
      invariant forall x :: x in s && x !in rest ==> x < n
      decreases rest
    {
      var x :| x in rest;
      rest := rest - {x};
      n := if n <= x then x + 1 else n;
    }
  }

  // ---- the table's operations

  function AddedHook<C>(h: Table<C>, t: HookType, begin: U64, end: U64, cb: (C, HookArgs) -> (C, Option<U32>),
                        handle: Option<nat>): (r: (Table<C>, Option<nat>))
  {
    if t !in h.hookFuc && handle.None? then (h, None)
    else
      var list := if t in h.hooks then h.hooks[t] else [];
      (h.(nextId := h.nextId + 1,
          hookFuc := if t in h.hookFuc then h.hookFuc else h.hookFuc[t := handle.value],
          hooks := h.hooks[t := list + [Hook(h.nextId, begin, end, cb)]]), Some(h.nextId))
  }

  function AddedAddr<C>(h: Table<C>, addr: U64, cb: C -> (C, Option<U32>), handle: Option<nat>)
    : (r: (Table<C>, Option<nat>))
  {
    if addr !in h.addrHookFuc && handle.None? then (h, None)
    else
      var list := if addr in h.addrHooks then h.addrHooks[addr] else [];
      (h.(nextId := h.nextId + 1,
          addrHookFuc := if addr in h.addrHookFuc then h.addrHookFuc else h.addrHookFuc[addr := handle.value],
          addrHooks := h.addrHooks[addr := list + [AddrHook(h.nextId, addr, cb)]]), Some(h.nextId))
  }

  /** The hooks behind a type, in registration order. */
  function HooksOf<C>(h: Table<C>, t: HookType): seq<Hook<C>> {
    if t in h.hooks then h.hooks[t] else []
  }

  function AddrHooksOf<C>(h: Table<C>, addr: U64): seq<AddrHook<C>> {
    if addr in h.addrHooks then h.addrHooks[addr] else []
  }

  /** The list of the type is one hook longer: its callback, range and id are the ones given. All other
      lists are as they were. */
  ghost predicate Registered<C>(h: Table<C>, g: Table<C>, t: HookType, begin: U64, end: U64,
                                      cb: (C, HookArgs) -> (C, Option<U32>), id: nat)
  {
    && id == h.nextId && g.nextId == h.nextId + 1
    && |HooksOf(g, t)| == |HooksOf(h, t)| + 1 && HooksOf(g, t)[..|HooksOf(h, t)|] == HooksOf(h, t)
    && (var last := HooksOf(g, t)[|HooksOf(h, t)|];
        last.id == id && last.begin == begin && last.end == end && last.cb == cb)
    && (forall u :: u != t ==> HooksOf(g, u) == HooksOf(h, u))
    && (forall a :: AddrHooksOf(g, a) == AddrHooksOf(h, a))
  }

  /** The same for an address. */
  ghost predicate RegisteredAt<C>(h: Table<C>, g: Table<C>, addr: U64, cb: C -> (C, Option<U32>), id: nat) {
    && id == h.nextId && g.nextId == h.nextId + 1
    && |AddrHooksOf(g, addr)| == |AddrHooksOf(h, addr)| + 1
    && AddrHooksOf(g, addr)[..|AddrHooksOf(h, addr)|] == AddrHooksOf(h, addr)
    && (var last := AddrHooksOf(g, addr)[|AddrHooksOf(h, addr)|];
        last.id == id && last.addr == addr && last.cb == cb)
    && (forall a :: a != addr ==> AddrHooksOf(g, a) == AddrHooksOf(h, a))
    && (forall u :: HooksOf(g, u) == HooksOf(h, u))
  }

  function HookId<C>(hook: Hook<C>): nat {
    hook.id
  }

  function AddrHookId<C>(hook: AddrHook<C>): nat {
    hook.id
  }

  /** `retain`, for hooks of either kind. */
  function Retain<H>(list: seq<H>, idOf: H -> nat, id: nat): seq<H> {
    if list == [] then [] else (if idOf(list[0]) != id then [list[0]] else []) + Retain(list[1..], idOf, id)
  }

  /** Deleting: the list loses the id; an emptied list goes, and its engine hook with it. */
  function Deleted<C>(h: Table<C>, kind: HookKind, id: nat): Table<C> {
    match kind
    case Common(t) =>
      if t !in h.hooks then h
      else
        var list := Retain(h.hooks[t], HookId, id);
        if list == [] then h.(hooks := h.hooks - {t}, hookFuc := h.hookFuc - {t}) else h.(hooks := h.hooks[t := list])
    case Address(a) =>
      if a !in h.addrHooks then h
      else
        var list := Retain(h.addrHooks[a], AddrHookId, id);
        if list == [] then h.(addrHooks := h.addrHooks - {a}, addrHookFuc := h.addrHookFuc - {a})
        else h.(addrHooks := h.addrHooks[a := list])
  }

  class VCoreHooks<!C> {
    var nextId: nat
    var hookFuc: map<HookType, nat>
    var addrHookFuc: map<U64, nat>
    var hooks: map<HookType, seq<Hook<C>>>
    var addrHooks: map<U64, seq<AddrHook<C>>>

    constructor ()
      ensures Value() == Table(1, map[], map[], map[], map[])
    {
      nextId := 1;
      hookFuc, addrHookFuc, hooks, addrHooks := map[], map[], map[], map[];
    }

    ghost function Value(): Table<C>
      reads this
    {
      Table(nextId, hookFuc, addrHookFuc, hooks, addrHooks)
    }

    /** The five `ensure_*_dispatcher` functions differ only in the engine call they make. */
    method EnsureDispatcher(uc: EngineHooks, t: HookType) returns (ok: bool, ghost handle: Option<nat>)
      modifies this`hookFuc, uc`live
      ensures ok == (t in old(hookFuc) || uc.accepts)
      ensures handle.Some? <==> ok && t !in old(hookFuc)
      ensures hookFuc == if handle.Some? then old(hookFuc)[t := handle.value] else old(hookFuc)
      ensures handle.Some? ==> handle.value !in old(uc.live)
      ensures uc.live == if handle.Some? then old(uc.live) + {handle.value} else old(uc.live)
    {
      handle := None;
      if t in hookFuc {
        return true, None;
      }
      var added := uc.Add();
      if added.None? {
        return false, None;
      }
      hookFuc := hookFuc[t := added.value];
      return true, added;
    }

    method EnsureAddrDispatcher(uc: EngineHooks, addr: U64) returns (ok: bool, ghost handle: Option<nat>)
      modifies this`addrHookFuc, uc`live
      ensures ok == (addr in old(addrHookFuc) || uc.accepts)
      ensures handle.Some? <==> ok && addr !in old(addrHookFuc)
      ensures addrHookFuc == if handle.Some? then old(addrHookFuc)[addr := handle.value] else old(addrHookFuc)
      ensures handle.Some? ==> handle.value !in old(uc.live)
      ensures uc.live == if handle.Some? then old(uc.live) + {handle.value} else old(uc.live)
    {
      handle := None;
      if addr in addrHookFuc {
        return true, None;
      }
      var added := uc.Add();
      if added.None? {
        return false, None;
      }
      addrHookFuc := addrHookFuc[addr := added.value];
      return true, added;
    }

    /** hook_code, hook_block, hook_mem; hook_intr and hook_insn_invalid with the full range (1, 0). */
    method AddHook(uc: EngineHooks, t: HookType, begin: U64, end: U64, cb: (C, HookArgs) -> (C, Option<U32>))
      returns (id: Option<nat>, ghost handle: Option<nat>)
      modifies this, uc`live
      ensures (Value(), id) == AddedHook(old(Value()), t, begin, end, cb, handle)
      ensures id.Some? == (t in old(hookFuc) || uc.accepts)
      ensures if id.Some? then Registered(old(Value()), Value(), t, begin, end, cb, id.value)
              else Value() == old(Value())
      ensures t !in old(hookFuc) ==> handle.Some? == uc.accepts
      ensures handle.Some? ==> handle.value !in old(uc.live)
      ensures uc.live == if t !in old(hookFuc) && handle.Some? then old(uc.live) + {handle.value} else old(uc.live)
    {
      var ok;
      ok, handle := EnsureDispatcher(uc, t);
      if !ok {
        return None, None;
      }
      var newId := nextId;
      nextId := nextId + 1;
      var list := if t in hooks then hooks[t] else [];
      hooks := hooks[t := list + [Hook(newId, begin, end, cb)]];
      return Some(newId), handle;
    }

    method AddAddress(uc: EngineHooks, addr: U64, cb: C -> (C, Option<U32>))
      returns (id: Option<nat>, ghost handle: Option<nat>)
      modifies this, uc`live
      ensures (Value(), id) == AddedAddr(old(Value()), addr, cb, handle)
      ensures id.Some? == (addr in old(addrHookFuc) || uc.accepts)
      ensures if id.Some? then RegisteredAt(old(Value()), Value(), addr, cb, id.value) else Value() == old(Value())
      ensures addr !in old(addrHookFuc) ==> handle.Some? == uc.accepts
      ensures handle.Some? ==> handle.value !in old(uc.live)
      ensures uc.live ==
        if addr !in old(addrHookFuc) && handle.Some? then old(uc.live) + {handle.value} else old(uc.live)
    {
      var ok;
      ok, handle := EnsureAddrDispatcher(uc, addr);
      if !ok {
        return None, None;
      }
      var newId := nextId;
      nextId := nextId + 1;
      var list := if addr in addrHooks then addrHooks[addr] else [];
      addrHooks := addrHooks[addr := list + [AddrHook(newId, addr, cb)]];
      return Some(newId), handle;
    }

    /** The table changes as Deleted says even when the engine will not let its hook go. */
    method Delete(uc: EngineHooks, kind: HookKind, id: nat) returns (ok: bool)
      modifies this, uc`live
      ensures Value() == Deleted(old(Value()), kind, id)
      ensures ok == match Dropped(old(Value()), kind, id)
                    case None => true
                    case Some(handle) => handle in old(uc.live) && handle !in uc.stuck
      ensures uc.live == match Dropped(old(Value()), kind, id)
                         case None => old(uc.live)
                         case Some(handle) => if ok then old(uc.live) - {handle} else old(uc.live)
    {
      ok := true;
      match kind
      case Common(t) =>
        if t in hooks {
          var list := Retain(hooks[t], HookId, id);
          hooks := hooks[t := list];
          if |list| == 0 {
            hooks := hooks - {t};
            if t in hookFuc {
              var handle := hookFuc[t];
              hookFuc := hookFuc - {t};
              ok := uc.Remove(handle);
            }
          }
        }
      case Address(a) =>
        if a in addrHooks {
          var list := Retain(addrHooks[a], AddrHookId, id);
          addrHooks := addrHooks[a := list];
          if |list| == 0 {
            addrHooks := addrHooks - {a};
            if a in addrHookFuc {
              var handle := addrHookFuc[a];
              addrHookFuc := addrHookFuc - {a};
              ok := uc.Remove(handle);
            }
          }
        }
    }

    /** The first refusal ends the call, with the map being drained empty all the same. */
    method Clear(uc: EngineHooks) returns (ok: bool)
      modifies this, uc`live
      ensures Inv(old(Value()), old(uc.live)) ==> (ok <==> Handles(old(Value())) !! uc.stuck)
      ensures Inv(old(Value()), old(uc.live)) && ok ==> uc.live == old(uc.live) - Handles(old(Value()))
      ensures ok ==> Value() == Emptied(old(Value()))
      ensures Inv(old(Value()), old(uc.live)) ==> (Inv(Value(), uc.live) <==> ok)
    {
      ghost var was, live := Value(), uc.live;
      if Inv(was, live) {
        HandlesAreDistinct(was, live);
      }
      var drained := hookFuc;
      hookFuc := map[];
      ok := Drain(uc, drained);
      if !ok {
        if Inv(was, live) {
          HalfCleared(was, Value(), live, uc.live);
        }
        return;
      }
      var addrDrained := addrHookFuc;
      addrHookFuc := map[];
      ok := Drain(uc, addrDrained);
      if !ok {
        if Inv(was, live) {
          HalfCleared(was, Value(), live, uc.live);
        }
        return;
      }
      hooks := map[];
      addrHooks := map[];
      EmptiedIsInv(was, uc.live);
    }
  }

  ghost predicate Injective<K>(m: map<K, nat>) {
    forall k, l :: k in m && l in m && k != l ==> m[k] != m[l]
  }

  /** Letting go of every engine hook of a map, in no particular order. */
  method Drain<K>(uc: EngineHooks, m: map<K, nat>) returns (ok: bool)
    modifies uc`live
    ensures Injective(m) && m.Values <= old(uc.live) ==> (ok <==> m.Values !! uc.stuck)
    ensures Injective(m) && m.Values <= old(uc.live) && ok ==> uc.live == old(uc.live) - m.Values
    ensures !ok ==> m != map[]
  {
    ghost var good, live := Injective(m) && m.Values <= uc.live, uc.live;
    var todo := m.Keys;
    while todo != {}
      invariant todo <= m.Keys
      invariant good ==> uc.live == live - (set k | k in m && k !in todo :: m[k])
      invariant good ==> forall k :: k in m && k !in todo ==> m[k] !in uc.stuck
      decreases todo
    {
      var k :| k in todo;
      assert m[k] in m.Values;
      ok := uc.Remove(m[k]);
      if !ok {
        return;
      }
      todo := todo - {k};
    }
    assert m.Values == set k | k in m && k !in todo :: m[k];
    ok := true;
  }

  /** The engine hooks on record. */
  ghost function Handles<C>(h: Table<C>): set<nat> {
    h.hookFuc.Values + h.addrHookFuc.Values
  }

  function Emptied<C>(h: Table<C>): Table<C> {
    Table(h.nextId, map[], map[], map[], map[])
  }

  /** The engine hook a deletion gives up, if it empties a list. */
  function Dropped<C>(h: Table<C>, kind: HookKind, id: nat): Option<nat> {
    match kind
    case Common(t) =>
      if t in h.hooks && |Retain(h.hooks[t], HookId, id)| == 0 && t in h.hookFuc then Some(h.hookFuc[t]) else None
    case Address(a) =>
      if a in h.addrHooks && |Retain(h.addrHooks[a], AddrHookId, id)| == 0 && a in h.addrHookFuc
      then Some(h.addrHookFuc[a])
      else None
  }

  // ---- what every run keeps

  function IdsOf<H>(list: seq<H>, idOf: H -> nat): (ids: seq<nat>)
    ensures |ids| == |list|
  {
    if list == [] then [] else [idOf(list[0])] + IdsOf(list[1..], idOf)
  }

  /** The ids behind a hook type or address, in registration order. */
  function Ids<C>(h: Table<C>, kind: HookKind): seq<nat> {
    match kind
    case Common(t) => if t in h.hooks then IdsOf(h.hooks[t], HookId) else []
    case Address(a) => if a in h.addrHooks then IdsOf(h.addrHooks[a], AddrHookId) else []
  }

  function HandleOf<C>(h: Table<C>, kind: HookKind): Option<nat> {
    match kind
    case Common(t) => if t in h.hookFuc then Some(h.hookFuc[t]) else None
    case Address(a) => if a in h.addrHookFuc then Some(h.addrHookFuc[a]) else None
  }

  ghost predicate Ascending(ids: seq<nat>) {
    forall i, j :: 0 <= i < j < |ids| ==> ids[i] < ids[j]
  }

  /** A list is on record only while it has a hook, and has an engine hook exactly then. */
  ghost predicate Dispatched<C>(h: Table<C>) {
    && (forall t :: t in h.hooks ==> h.hooks[t] != [])
    && (forall a :: a in h.addrHooks ==> h.addrHooks[a] != [])
    && (forall kind :: HandleOf(h, kind).Some? <==> Ids(h, kind) != [])
  }

  /** Ids are below the next one, ascend in each list, and occur once. */
  ghost predicate UniqueIds<C>(h: Table<C>) {
    && (forall kind :: Ascending(Ids(h, kind)))
    && (forall kind, id :: id in Ids(h, kind) ==> id < h.nextId)
    && (forall k, l, id :: k != l && id in Ids(h, k) ==> id !in Ids(h, l))
  }

  /** The engine hooks on record are alive and belong to one list each. */
  ghost predicate OwnHandles<C>(h: Table<C>, live: set<nat>) {
    && (forall kind :: HandleOf(h, kind).Some? ==> HandleOf(h, kind).value in live)
    && (forall k, l :: k != l && HandleOf(h, k).Some? ==> HandleOf(h, k) != HandleOf(h, l))
  }

  ghost predicate Inv<C>(h: Table<C>, live: set<nat>) {
    Dispatched(h) && UniqueIds(h) && OwnHandles(h, live)
  }

  lemma EmptiedIsInv<C>(h: Table<C>, live: set<nat>)
    ensures Inv(Emptied(h), live)
  {
  }

  lemma HandlesAreDistinct<C>(h: Table<C>, live: set<nat>)
    requires OwnHandles(h, live)
    ensures Injective(h.hookFuc) && Injective(h.addrHookFuc)
    ensures h.hookFuc.Values <= live && h.addrHookFuc.Values <= live
    ensures h.hookFuc.Values !! h.addrHookFuc.Values
  {
    forall t | t in h.hookFuc ensures h.hookFuc[t] in live {
      assert HandleOf(h, Common(t)) == Some(h.hookFuc[t]);
    }
    forall a | a in h.addrHookFuc ensures h.addrHookFuc[a] in live {
      assert HandleOf(h, Address(a)) == Some(h.addrHookFuc[a]);
    }
    forall t, u | t in h.hookFuc && u in h.hookFuc && t != u ensures h.hookFuc[t] != h.hookFuc[u] {
      assert Common(t) != Common(u) && HandleOf(h, Common(t)) != HandleOf(h, Common(u));
    }
    forall a, b | a in h.addrHookFuc && b in h.addrHookFuc && a != b ensures h.addrHookFuc[a] != h.addrHookFuc[b] {
      assert Address(a) != Address(b) && HandleOf(h, Address(a)) != HandleOf(h, Address(b));
    }
    forall t, a | t in h.hookFuc && a in h.addrHookFuc ensures h.hookFuc[t] != h.addrHookFuc[a] {
      assert HandleOf(h, Common(t)) != HandleOf(h, Address(a));
    }
  }

  /** A clear that fails leaves hooks with no engine hook behind. */
  lemma HalfCleared<C>(was: Table<C>, now: Table<C>, live: set<nat>, live': set<nat>)
    requires Inv(was, live) && now.hooks == was.hooks && now.addrHooks == was.addrHooks
    requires (now.hookFuc == map[] && was.hookFuc != map[]) || (now.addrHookFuc == map[] && was.addrHookFuc != map[])
    ensures !Inv(now, live')
  {
    if now.hookFuc == map[] && was.hookFuc != map[] {
      var t :| t in was.hookFuc;
      assert HandleOf(was, Common(t)).Some? && Ids(was, Common(t)) == Ids(now, Common(t)) != [];
      assert HandleOf(now, Common(t)).None?;
    } else {
      var a :| a in was.addrHookFuc;
      assert HandleOf(was, Address(a)).Some? && Ids(was, Address(a)) == Ids(now, Address(a)) != [];
      assert HandleOf(now, Address(a)).None?;
    }
  }

  /** One use of the table that went well, with what the engine answered. */
  datatype Op<!C> =
    | Add(t: HookType, begin: U64, end: U64, cb: (C, HookArgs) -> (C, Option<U32>), handle: Option<nat>)
    | AddAt(addr: U64, addrCb: C -> (C, Option<U32>), handle: Option<nat>)
    | Del(kind: HookKind, id: nat)
    | ClearAll

  ghost function Step<C>(h: Table<C>, live: set<nat>, op: Op<C>): (Table<C>, set<nat>) {
    match op
    case Add(t, begin, end, cb, handle) =>
      (AddedHook(h, t, begin, end, cb, handle).0,
       if t !in h.hookFuc && handle.Some? then live + {handle.value} else live)
    case AddAt(addr, cb, handle) =>
      (AddedAddr(h, addr, cb, handle).0,
       if addr !in h.addrHookFuc && handle.Some? then live + {handle.value} else live)
    case Del(kind, id) =>
      (Deleted(h, kind, id), match Dropped(h, kind, id) case None => live case Some(x) => live - {x})
    case ClearAll => (Emptied(h), live - Handles(h))
  }

  /** The engine never hands out a handle that is in use. */
  predicate FreshHandle<C>(live: set<nat>, op: Op<C>) {
    match op
    case Add(_, _, _, _, handle) => handle.Some? ==> handle.value !in live
    case AddAt(_, _, handle) => handle.Some? ==> handle.value !in live
    case _ => true
  }

  function Filtered(ids: seq<nat>, id: nat): (out: seq<nat>)
    ensures forall x :: x in out <==> x in ids && x != id
  {
    if ids == [] then []
    else
      assert forall x :: x in ids <==> x == ids[0] || x in ids[1..];
      (if ids[0] != id then [ids[0]] else []) + Filtered(ids[1..], id)
  }

  lemma {:induction false} FilteredAscending(ids: seq<nat>, id: nat)
    requires Ascending(ids)
    ensures Ascending(Filtered(ids, id))
  {
    if ids != [] {
      var rest := Filtered(ids[1..], id);
      FilteredAscending(ids[1..], id);
      forall x | x in rest ensures ids[0] < x {
        var k :| 0 <= k < |ids[1..]| && ids[1..][k] == x;
        assert ids[0] < ids[k + 1];
      }
      var out := Filtered(ids, id);
      forall i, j | 0 <= i < j < |out| ensures out[i] < out[j] {
        if out != rest && i == 0 {
          assert out[j] == rest[j - 1] && rest[j - 1] in rest;
        }
      }
    }
  }

  lemma {:induction false} RetainIds<H>(list: seq<H>, idOf: H -> nat, id: nat)
    ensures IdsOf(Retain(list, idOf, id), idOf) == Filtered(IdsOf(list, idOf), id)
  {
    if list != [] {
      RetainIds(list[1..], idOf, id);
      var rest := Retain(list[1..], idOf, id);
      assert ([list[0]] + rest)[1..] == rest && [] + rest == rest;
      assert IdsOf(list, idOf)[1..] == IdsOf(list[1..], idOf);
      assert [] + IdsOf(rest, idOf) == IdsOf(rest, idOf);
    }
  }

  lemma DeletedCommonIds<C>(h: Table<C>, t: HookType, id: nat, k: HookKind)
    requires Dispatched(h)
    ensures var g := Deleted(h, Common(t), id);
      && Ids(g, k) == (if k == Common(t) then Filtered(Ids(h, k), id) else Ids(h, k))
      && HandleOf(g, k) == (if k == Common(t) && Ids(g, k) == [] then None else HandleOf(h, k))
  {
    if t in h.hooks {
      RetainIds(h.hooks[t], HookId, id);
    } else {
      assert HandleOf(h, Common(t)).None? by { assert Ids(h, Common(t)) == []; }
    }
  }

  lemma DeletedAddrIds<C>(h: Table<C>, a: U64, id: nat, k: HookKind)
    requires Dispatched(h)
    ensures var g := Deleted(h, Address(a), id);
      && Ids(g, k) == (if k == Address(a) then Filtered(Ids(h, k), id) else Ids(h, k))
      && HandleOf(g, k) == (if k == Address(a) && Ids(g, k) == [] then None else HandleOf(h, k))
  {
    if a in h.addrHooks {
      RetainIds(h.addrHooks[a], AddrHookId, id);
    } else {
      assert HandleOf(h, Address(a)).None? by { assert Ids(h, Address(a)) == []; }
    }
  }

  /** A deletion takes the id out of its own list and out of no other; the rest keep their order. */
  lemma DeletedIds<C>(h: Table<C>, kind: HookKind, id: nat, k: HookKind)
    requires Dispatched(h)
    ensures Ids(Deleted(h, kind, id), k) == if k == kind then Filtered(Ids(h, k), id) else Ids(h, k)
    ensures HandleOf(Deleted(h, kind, id), k) ==
      if k == kind && Ids(Deleted(h, kind, id), k) == [] then None else HandleOf(h, k)
  {
    match kind
    case Common(t) => DeletedCommonIds(h, t, id, k);
    case Address(a) => DeletedAddrIds(h, a, id, k);
  }

  lemma DroppedIs<C>(h: Table<C>, kind: HookKind, id: nat)
    requires Dispatched(h)
    ensures Dropped(h, kind, id) ==
      if Ids(h, kind) != [] && Ids(Deleted(h, kind, id), kind) == [] then HandleOf(h, kind) else None
  {
    match kind
    case Common(t) =>
      if t in h.hooks {
        RetainIds(h.hooks[t], HookId, id);
      }
    case Address(a) =>
      if a in h.addrHooks {
        RetainIds(h.addrHooks[a], AddrHookId, id);
      }
  }

  /** What deleting does to ids and engine hooks. */
  ghost predicate OneFewer<C>(h: Table<C>, g: Table<C>, kind: HookKind, id: nat) {
    && g.nextId == h.nextId
    && (forall k :: Ids(g, k) == if k == kind then Filtered(Ids(h, k), id) else Ids(h, k))
    && (forall k :: HandleOf(g, k) == if k == kind && Ids(g, k) == [] then None else HandleOf(h, k))
  }

  lemma OneFewerUnique<C>(h: Table<C>, g: Table<C>, kind: HookKind, id: nat)
    requires UniqueIds(h) && OneFewer(h, g, kind, id)
    ensures UniqueIds(g)
  {
    forall k ensures Ascending(Ids(g, k)) {
      FilteredAscending(Ids(h, k), id);
    }
    assert forall k, x :: x in Ids(g, k) ==> x in Ids(h, k);
  }

  lemma OneFewerHandles<C>(h: Table<C>, g: Table<C>, kind: HookKind, id: nat, live: set<nat>, live': set<nat>)
    requires OwnHandles(h, live) && Dispatched(h) && OneFewer(h, g, kind, id)
    requires live' == if Ids(h, kind) != [] && Ids(g, kind) == [] then live - {HandleOf(h, kind).value} else live
    ensures OwnHandles(g, live')
  {
    forall k | HandleOf(g, k).Some? ensures HandleOf(g, k).value in live' {
      assert HandleOf(h, k).value in live;
      if k != kind {
        assert HandleOf(h, k) != HandleOf(h, kind);
      }
    }
  }

  lemma DelKeeps<C>(h: Table<C>, live: set<nat>, kind: HookKind, id: nat)
    requires Inv(h, live)
    ensures var r := Step(h, live, Del(kind, id)); Inv(r.0, r.1)
  {
    var g := Deleted(h, kind, id);
    DroppedIs(h, kind, id);
    forall k ensures Ids(g, k) == (if k == kind then Filtered(Ids(h, k), id) else Ids(h, k))
      && HandleOf(g, k) == (if k == kind && Ids(g, k) == [] then None else HandleOf(h, k))
    {
      DeletedIds(h, kind, id, k);
    }
    OneFewerUnique(h, g, kind, id);
    OneFewerHandles(h, g, kind, id, live, Step(h, live, Del(kind, id)).1);
    NoEmptyLists(h, kind, id);
  }

  lemma NoEmptyLists<C>(h: Table<C>, kind: HookKind, id: nat)
    requires Dispatched(h)
    ensures forall t :: t in Deleted(h, kind, id).hooks ==> Deleted(h, kind, id).hooks[t] != []
    ensures forall a :: a in Deleted(h, kind, id).addrHooks ==> Deleted(h, kind, id).addrHooks[a] != []
  {
  }

  lemma {:induction false} IdsAppend<H>(list: seq<H>, idOf: H -> nat, x: H)
    ensures IdsOf(list + [x], idOf) == IdsOf(list, idOf) + [idOf(x)]
  {
    if list == [] {
      assert list + [x] == [x];
    } else {
      assert (list + [x])[1..] == list[1..] + [x];
      IdsAppend(list[1..], idOf, x);
    }
  }

  /** What registering a hook does to the ids: one new one, at the end of its list. */
  ghost predicate OneMore<C>(h: Table<C>, g: Table<C>, kind: HookKind, handle: Option<nat>) {
    && g.nextId == h.nextId + 1
    && (forall k :: Ids(g, k) == if k == kind then Ids(h, k) + [h.nextId] else Ids(h, k))
    && (forall k :: HandleOf(g, k) == if k == kind && HandleOf(h, k).None? then handle else HandleOf(h, k))
    && (forall t :: t in g.hooks ==> g.hooks[t] != [])
    && (forall a :: a in g.addrHooks ==> g.addrHooks[a] != [])
  }

  lemma AddedIsOneMore<C>(h: Table<C>, t: HookType, begin: U64, end: U64, cb: (C, HookArgs) -> (C, Option<U32>),
        handle: Option<nat>)
    requires Dispatched(h) && (t in h.hookFuc || handle.Some?)
    ensures OneMore(h, AddedHook(h, t, begin, end, cb, handle).0, Common(t), handle)
  {
    var list := if t in h.hooks then h.hooks[t] else [];
    IdsAppend(list, HookId, Hook(h.nextId, begin, end, cb));
    assert t !in h.hooks ==> IdsOf(list, HookId) + [h.nextId] == Ids(h, Common(t)) + [h.nextId];
  }

  lemma AddedAddrIsOneMore<C>(h: Table<C>, addr: U64, cb: C -> (C, Option<U32>), handle: Option<nat>)
    requires Dispatched(h) && (addr in h.addrHookFuc || handle.Some?)
    ensures OneMore(h, AddedAddr(h, addr, cb, handle).0, Address(addr), handle)
  {
    var list := if addr in h.addrHooks then h.addrHooks[addr] else [];
    IdsAppend(list, AddrHookId, AddrHook(h.nextId, addr, cb));
    assert addr !in h.addrHooks ==> IdsOf(list, AddrHookId) + [h.nextId] == Ids(h, Address(addr)) + [h.nextId];
  }

  lemma OneMoreUnique<C>(h: Table<C>, g: Table<C>, kind: HookKind, handle: Option<nat>)
    requires UniqueIds(h) && OneMore(h, g, kind, handle)
    ensures UniqueIds(g)
  {
    forall k ensures Ascending(Ids(g, k)) {
      var ids := Ids(h, k);
      assert Ascending(ids) && forall i :: 0 <= i < |ids| ==> ids[i] in ids;
    }
    forall k, id | id in Ids(g, k) ensures id < g.nextId && (id in Ids(h, k) || (id == h.nextId && k == kind)) {
    }
  }

  lemma OneMoreDispatched<C>(h: Table<C>, g: Table<C>, kind: HookKind, handle: Option<nat>)
    requires Dispatched(h) && OneMore(h, g, kind, handle) && (HandleOf(h, kind).None? ==> handle.Some?)
    ensures Dispatched(g)
  {
    forall k ensures HandleOf(g, k).Some? <==> Ids(g, k) != [] {
      assert HandleOf(h, k).Some? <==> Ids(h, k) != [];
    }
  }

  lemma OneMoreKeeps<C>(h: Table<C>, g: Table<C>, kind: HookKind, handle: Option<nat>, live: set<nat>, live': set<nat>)
    requires Inv(h, live) && OneMore(h, g, kind, handle)
    requires HandleOf(h, kind).None? ==> handle.Some? && handle.value !in live && live' == live + {handle.value}
    requires HandleOf(h, kind).Some? ==> live' == live
    ensures Inv(g, live')
  {
    OneMoreUnique(h, g, kind, handle);
    OneMoreDispatched(h, g, kind, handle);
    OneMoreHandles(h, g, kind, handle, live, live');
  }

  lemma OneMoreHandles<C>(h: Table<C>, g: Table<C>, kind: HookKind, handle: Option<nat>, live: set<nat>,
        live': set<nat>)
    requires OwnHandles(h, live) && OneMore(h, g, kind, handle)
    requires HandleOf(h, kind).None? ==> handle.Some? && handle.value !in live && live' == live + {handle.value}
    requires HandleOf(h, kind).Some? ==> live' == live
    ensures OwnHandles(g, live')
  {
    forall k, l | k != l && HandleOf(g, k).Some? ensures HandleOf(g, k) != HandleOf(g, l) {
      assert HandleOf(h, k).Some? ==> HandleOf(h, k).value in live;
      assert HandleOf(h, l).Some? ==> HandleOf(h, l).value in live;
    }
  }

  /** Every operation that goes well keeps the table in order. */
  lemma StepKeeps<C>(h: Table<C>, live: set<nat>, op: Op<C>)
    requires Inv(h, live) && FreshHandle(live, op)
    ensures var r := Step(h, live, op); Inv(r.0, r.1)
  {
    match op
    case Add(t, begin, end, cb, handle) =>
      assert HandleOf(h, Common(t)).Some? <==> t in h.hookFuc;
      if t in h.hookFuc || handle.Some? {
        AddedIsOneMore(h, t, begin, end, cb, handle);
        OneMoreKeeps(h, Step(h, live, op).0, Common(t), handle, live, Step(h, live, op).1);
      }
    case AddAt(addr, cb, handle) =>
      assert HandleOf(h, Address(addr)).Some? <==> addr in h.addrHookFuc;
      if addr in h.addrHookFuc || handle.Some? {
        AddedAddrIsOneMore(h, addr, cb, handle);
        OneMoreKeeps(h, Step(h, live, op).0, Address(addr), handle, live, Step(h, live, op).1);
      }
    case Del(kind, id) => DelKeeps(h, live, kind, id);
    case ClearAll =>
  }

  ghost predicate FreshRun<C>(h: Table<C>, live: set<nat>, ops: seq<Op<C>>)
    decreases |ops|
  {
    ops == [] || (FreshHandle(live, ops[0]) && FreshRun(Step(h, live, ops[0]).0, Step(h, live, ops[0]).1, ops[1..]))
  }

  ghost function Run<C>(h: Table<C>, live: set<nat>, ops: seq<Op<C>>): (Table<C>, set<nat>)
    decreases |ops|
  {
    if ops == [] then (h, live) else Run(Step(h, live, ops[0]).0, Step(h, live, ops[0]).1, ops[1..])
  }

  lemma {:induction false} RunKeeps<C>(h: Table<C>, live: set<nat>, ops: seq<Op<C>>)
    requires Inv(h, live) && FreshRun(h, live, ops)
    ensures Inv(Run(h, live, ops).0, Run(h, live, ops).1)
    decreases |ops|
  {
    if ops != [] {
      StepKeeps(h, live, ops[0]);
      RunKeeps(Step(h, live, ops[0]).0, Step(h, live, ops[0]).1, ops[1..]);
    }
  }

  /** From a new table on: a hook type or address has an engine hook on record exactly while it has
      callbacks, and no id is ever live twice. */
  lemma NewTableRuns<C>(ops: seq<Op<C>>)
    requires FreshRun(Table(1, map[], map[], map[], map[]), {}, ops)
    ensures Inv(Run(Table(1, map[], map[], map[], map[]), {}, ops).0,
        Run(Table(1, map[], map[], map[], map[]), {}, ops).1)
  {
    var h: Table<C> := Table(1, map[], map[], map[], map[]);
    RunKeeps(h, {}, ops);
  }

  // ---- dispatch

  /** The range test: begin 1 with end 0 means every address. */
  predicate BoundCheck(begin: U64, end: U64, addr: U64) {
    if begin == 1 && end == 0 then true else addr >= begin && addr <= end
  }

  /** An event with an address concerns the hooks whose range has it, both ends included, and those of
      the range (1, 0); any other event concerns every hook. */
  predicate Concerns<C>(hook: Hook<C>, args: HookArgs) {
    args.Trace? || args.Mem? ==> hook.begin <= args.addr <= hook.end || (hook.begin == 1 && hook.end == 0)
  }

  /** HOOK_BLOCK in what a callback returns. */
  predicate Blocks(ret: Option<U32>) {
    ret.Some? && ret.value % 2 == 1
  }

  /** The hooks an event concerns, in registration order. */
  function Eligible<C>(list: seq<Hook<C>>, args: HookArgs): seq<Hook<C>> {
    if list == [] then []
    else if Concerns(list[|list| - 1], args) then Eligible(list[..|list| - 1], args) + [list[|list| - 1]]
    else Eligible(list[..|list| - 1], args)
  }

  /** The state after the first n hooks of a list, one after the other. */
  function After<C>(list: seq<Hook<C>>, n: nat, ctx: C, args: HookArgs): C
    requires n <= |list|
  {
    if n == 0 then ctx else list[n - 1].cb(After(list, n - 1, ctx, args), args).0
  }

  /** What hook n answers when the ones before it have run. */
  function Answer<C>(list: seq<Hook<C>>, n: nat, ctx: C, args: HookArgs): Option<U32>
    requires n < |list|
  {
    list[n].cb(After(list, n, ctx, args), args).1
  }

  /** n hooks have run: none before the last has blocked, and the last has, or it was the last. */
  ghost predicate RunsTo<C>(list: seq<Hook<C>>, n: nat, ctx: C, args: HookArgs) {
    && n <= |list|
    && (forall k :: 0 <= k < n - 1 ==> !IsOdd(Answer(list, k, ctx, args)))
    && (n < |list| ==> n > 0 && IsOdd(Answer(list, n - 1, ctx, args)))
  }

  /** An answer with bit 0 set: it stops the dispatch. */
  predicate IsOdd(ret: Option<U32>) {
    match ret
    case None => false
    case Some(v) => v % 2 == 1
  }

  /** An access to unmapped or protected memory, alone or with other flags, an interrupt, and an invalid
      instruction are errors when no hook takes them. */
  predicate MustBeHandled(t: HookType) {
    || MEM_READ_UNMAPPED in t || MEM_WRITE_UNMAPPED in t || MEM_FETCH_UNMAPPED in t
    || MEM_READ_PROT in t || MEM_WRITE_PROT in t || MEM_FETCH_PROT in t
    || t == {INTR} || t == {INSN_INVALID}
  }

  predicate NeedsHandled(t: HookType) {
    t * MEM_UNMAPPED != {} || t * MEM_PROT != {} || t == {INTR} || t == {INSN_INVALID}
  }

  lemma {:induction false} AfterPrefix<C>(xs: seq<Hook<C>>, ys: seq<Hook<C>>, n: nat, ctx: C, args: HookArgs)
    requires n <= |xs|
    ensures After(xs + ys, n, ctx, args) == After(xs, n, ctx, args)
  {
    if n != 0 {
      AfterPrefix(xs, ys, n - 1, ctx, args);
    }
  }

  lemma AnswersPrefix<C>(xs: seq<Hook<C>>, ys: seq<Hook<C>>, ctx: C, args: HookArgs)
    ensures forall n: nat :: n < |xs| ==> Answer(xs + ys, n, ctx, args) == Answer(xs, n, ctx, args)
  {
    forall n: nat | n < |xs| ensures Answer(xs + ys, n, ctx, args) == Answer(xs, n, ctx, args) {
      AfterPrefix(xs, ys, n, ctx, args);
    }
  }

  lemma {:induction false} EligiblePrefix<C>(list: seq<Hook<C>>, n: nat, args: HookArgs)
    requires n <= |list|
    ensures Eligible(list[..n], args) <= Eligible(list, args)
    decreases |list|
  {
    if n < |list| {
      assert list[..|list| - 1][..n] == list[..n];
      EligiblePrefix(list[..|list| - 1], n, args);
    } else {
      assert list[..n] == list;
    }
  }

  lemma DispatchEnds<C>(list: seq<Hook<C>>, i: nat, ran: nat, ctx: C, args: HookArgs)
    requires i <= |list| && ran == |Eligible(list[..i], args)|
    requires forall k :: 0 <= k < ran - 1 ==> !IsOdd(Answer(Eligible(list[..i], args), k, ctx, args))
    requires i < |list| ==> ran > 0 && IsOdd(Answer(Eligible(list[..i], args), ran - 1, ctx, args))
    ensures RunsTo(Eligible(list, args), ran, ctx, args)
    ensures After(Eligible(list, args), ran, ctx, args) == After(Eligible(list[..i], args), ran, ctx, args)
    ensures ran == 0 ==> Eligible(list, args) == []
  {
    var done, every := Eligible(list[..i], args), Eligible(list, args);
    if i == |list| {
      assert list[..i] == list;
    } else {
      EligiblePrefix(list, i, args);
      assert every == done + every[|done|..];
      AnswersPrefix(done, every[|done|..], ctx, args);
      AfterPrefix(done, every[|done|..], ran, ctx, args);
    }
  }

  /** The middle of the loop: of the first `i` hooks, `ran` were concerned and have run. */
  ghost predicate Dispatching<C>(list: seq<Hook<C>>, i: nat, ran: nat, ctx0: C, ctx: C, args: HookArgs, blocked: bool)
    requires i <= |list|
  {
    var done := Eligible(list[..i], args);
    && ran == |done| && ctx == After(done, ran, ctx0, args)
    && (forall k :: 0 <= k < ran - 1 ==> !IsOdd(Answer(done, k, ctx0, args)))
    && (blocked <==> ran > 0 && IsOdd(Answer(done, ran - 1, ctx0, args)))
  }

  lemma DispatchNext<C>(list: seq<Hook<C>>, i: nat, ran: nat, ctx0: C, ctx: C, args: HookArgs)
    requires i < |list| && Dispatching(list, i, ran, ctx0, ctx, args, false)
    ensures !Concerns(list[i], args) ==> Dispatching(list, i + 1, ran, ctx0, ctx, args, false)
    ensures Concerns(list[i], args) ==>
      Dispatching(list, i + 1, ran + 1, ctx0, list[i].cb(ctx, args).0, args, IsOdd(list[i].cb(ctx, args).1))
  {
    var done := Eligible(list[..i], args);
    assert list[..i + 1][..i] == list[..i];
    if Concerns(list[i], args) {
      assert Eligible(list[..i + 1], args) == done + [list[i]];
      AnswersPrefix(done, [list[i]], ctx0, args);
      AfterPrefix(done, [list[i]], ran, ctx0, args);
    } else {
      assert Eligible(list[..i + 1], args) == done;
    }
  }

  /** `dispatch_common`: the concerned hooks run in registration order up to the first that blocks;
      the event counts as handled when there was one, and only some events have to be. */
  method DispatchCommon<C>(h: VCoreHooks<C>, t: HookType, args: HookArgs, ctx0: C) returns (ctx: C, ok: bool)
    ensures var list := Eligible(if t in h.hooks then h.hooks[t] else [], args);
      && (exists n: nat :: RunsTo(list, n, ctx0, args) && ctx == After(list, n, ctx0, args))
      && (ok <==> !MustBeHandled(t) || list != [])
  {
    ctx := ctx0;
    var handled := false;
    if t in h.hooks {
      var list := h.hooks[t];
      var i := 0;
      var blocked := false;
      ghost var ran: nat := 0;
      while i < |list| && !blocked
        invariant 0 <= i <= |list| && (handled <==> ran > 0)
        invariant Dispatching(list, i, ran, ctx0, ctx, args, blocked)
      {
        var hook := list[i];
        DispatchNext(list, i, ran, ctx0, ctx, args);
        i := i + 1;
        var inRange := match args
          case Trace(addr, _) => BoundCheck(hook.begin, hook.end, addr)
          case Mem(_, addr, _, _) => BoundCheck(hook.begin, hook.end, addr)
          case _ => true;
        if inRange {
          handled := true;
          var (next, ret) := hook.cb(ctx, args);
          ctx := next;
          ran := ran + 1;
          blocked := Blocks(ret);
        }
      }
      DispatchEnds(list, i, ran, ctx0, args);
    } else {
      assert RunsTo(Eligible([], args), 0, ctx0, args);
    }
    NeedsHandledExactly(t);
    ok := !(NeedsHandled(t) && !handled);
  }

  lemma NeedsHandledExactly(t: HookType)
    ensures NeedsHandled(t) <==> MustBeHandled(t)
  {
    if f :| f in t * MEM_UNMAPPED {
    }
    if f :| f in t * MEM_PROT {
    }
    assert forall f :: f in t && f in MEM_UNMAPPED ==> f in t * MEM_UNMAPPED;
    assert forall f :: f in t && f in MEM_PROT ==> f in t * MEM_PROT;
  }

  // ---- registration and dispatch

  lemma EligibleOfAppend<C>(list: seq<Hook<C>>, hook: Hook<C>, args: HookArgs)
    ensures Eligible(list + [hook], args) == Eligible(list, args) + (if Concerns(hook, args) then [hook] else [])
  {
    assert (list + [hook])[..|list|] == list;
  }

  /** The hooks an event runs after a registration are those before it, followed by the new one exactly
      when the event is of its type and, if it has an address, the range has it or is (1, 0). */
  lemma RegisteredRuns<C>(h: Table<C>, t: HookType, begin: U64, end: U64, cb: (C, HookArgs) -> (C, Option<U32>),
                          handle: Option<nat>, u: HookType, args: HookArgs)
    requires t in h.hookFuc || handle.Some?
    ensures var g := AddedHook(h, t, begin, end, cb, handle).0;
      var reached := u == t && (args.Trace? || args.Mem? ==> begin <= args.addr <= end || (begin == 1 && end == 0));
      Eligible(HooksOf(g, u), args) ==
        Eligible(HooksOf(h, u), args) + (if reached then [Hook(h.nextId, begin, end, cb)] else [])
  {
    if u == t {
      EligibleOfAppend(HooksOf(h, t), Hook(h.nextId, begin, end, cb), args);
    }
  }

  /** And for an address: the new one runs last there, and nowhere else. */
  lemma RegisteredRunsAt<C>(h: Table<C>, addr: U64, cb: C -> (C, Option<U32>), handle: Option<nat>, a: U64)
    requires addr in h.addrHookFuc || handle.Some?
    ensures AddrHooksOf(AddedAddr(h, addr, cb, handle).0, a) ==
      AddrHooksOf(h, a) + (if a == addr then [AddrHook(h.nextId, addr, cb)] else [])
  {
  }

  lemma {:induction false} EligibleMembers<C>(list: seq<Hook<C>>, args: HookArgs, x: Hook<C>)
    ensures x in Eligible(list, args) <==> x in list && Concerns(x, args)
    decreases |list|
  {
    if list != [] {
      var init, last := list[..|list| - 1], list[|list| - 1];
      EligibleMembers(init, args, x);
      assert list == init + [last];
    }
  }

  lemma {:induction false} RetainMembers<H>(list: seq<H>, idOf: H -> nat, id: nat, x: H)
    ensures x in Retain(list, idOf, id) <==> x in list && idOf(x) != id
  {
    if list != [] {
      RetainMembers(list[1..], idOf, id, x);
      assert x in list <==> x == list[0] || x in list[1..];
    }
  }

  /** After a deletion an event runs the same hooks but for the deleted one. */
  lemma DeletedRuns<C>(h: Table<C>, kind: HookKind, id: nat, u: HookType, args: HookArgs, x: Hook<C>)
    ensures x in Eligible(HooksOf(Deleted(h, kind, id), u), args) <==>
            x in Eligible(HooksOf(h, u), args) && (kind == Common(u) ==> x.id != id)
  {
    EligibleMembers(HooksOf(h, u), args, x);
    EligibleMembers(HooksOf(Deleted(h, kind, id), u), args, x);
    RetainMembers(HooksOf(h, u), HookId, id, x);
  }

  lemma DeletedRunsAt<C>(h: Table<C>, kind: HookKind, id: nat, a: U64, x: AddrHook<C>)
    ensures x in AddrHooksOf(Deleted(h, kind, id), a) <==>
            x in AddrHooksOf(h, a) && (kind == Address(a) ==> x.id != id)
  {
    RetainMembers(AddrHooksOf(h, a), AddrHookId, id, x);
  }

  /** An address hook as a hook without a range or an event. */
  function AsHook<C>(hook: AddrHook<C>): Hook<C> {
    Hook(hook.id, 1, 0, (ctx: C, args: HookArgs) => hook.cb(ctx))
  }

  function AsHooks<C>(list: seq<AddrHook<C>>): (hooks: seq<Hook<C>>)
    ensures |hooks| == |list| && forall i :: 0 <= i < |list| ==> hooks[i] == AsHook(list[i])
  {
    seq(|list|, i requires 0 <= i < |list| => AsHook(list[i]))
  }

  /** `dispatch_addr`: the hooks of the address run in registration order up to the first that blocks,
      with no range test and no error. */
  method DispatchAddr<C>(h: VCoreHooks<C>, addr: U64, ctx0: C) returns (ctx: C)
    ensures var list := AsHooks(if addr in h.addrHooks then h.addrHooks[addr] else []);
      exists n: nat :: RunsTo(list, n, ctx0, InvalidInsn) && ctx == After(list, n, ctx0, InvalidInsn)
  {
    ctx := ctx0;
    ghost var hooks := AsHooks(if addr in h.addrHooks then h.addrHooks[addr] else []);
    var ran: nat := 0;
    if addr in h.addrHooks {
      var list := h.addrHooks[addr];
      var blocked := false;
      while ran < |list| && !blocked
        invariant ran <= |list| && ctx == After(hooks, ran, ctx0, InvalidInsn)
        invariant forall k :: 0 <= k < ran - 1 ==> !IsOdd(Answer(hooks, k, ctx0, InvalidInsn))
        invariant blocked <==> ran > 0 && IsOdd(Answer(hooks, ran - 1, ctx0, InvalidInsn))
      {
        var (next, ret) := list[ran].cb(ctx);
        ctx := next;
        ran := ran + 1;
        blocked := Blocks(ret);
      }
    }
    assert RunsTo(hooks, ran, ctx0, InvalidInsn);
  }
}
