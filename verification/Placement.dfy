/** Which slots are loaded where, on values: the meaning of Load, Unload, Ensure and
    ApplyProfile, and what every serialised run of them keeps. */
module Placement {
  import opened Wrappers
  import opened Text

  datatype Slot = Slot(
    model: string, alias: string, gpus: seq<int>, backend: string,
    kvCache: string, splitMode: string, port: int, external: string)

  function Name(s: Slot): string {
    if s.alias != "" then s.alias else s.model
  }

  function Key(s: Slot): string {
    Lower(Name(s))
  }

  datatype RunState = Starting | Healthy | Crashed | Stopped

  /** One registered slot as a status snapshot shows it. */
  datatype Entry = Entry(slot: Slot, modelId: string, port: int, state: RunState)

  /** What the machine answers: the model a handle finds, whether a backend resolves, the port
      of an upstream URL (None when it is not one). */
  datatype World = World(
    find: string -> Option<string>, backendOk: string -> bool, urlPort: string -> Option<int>)

  type Rack = seq<Entry>

  predicate HasKey(v: Rack, key: string) {
    exists i :: 0 <= i < |v| && Key(v[i].slot) == key
  }

  ghost predicate DistinctKeys(v: Rack) {
    forall i, j :: 0 <= i < j < |v| ==> Key(v[i].slot) != Key(v[j].slot)
  }

  // ---- ports -----------------------------------------------------------------------------

  function UsedPorts(v: Rack): set<int> {
    set i | 0 <= i < |v| :: v[i].port
  }

  /** The least port from p on that is not used. */
  function FirstFree(used: set<int>, p: int): int
    decreases |used|
  {
    if p in used then FirstFree(used - {p}, p + 1) else p
  }

  lemma {:induction false} FirstFreeIsLeast(used: set<int>, p: int)
    ensures p <= FirstFree(used, p) <= p + |used|
    ensures FirstFree(used, p) !in used
    ensures forall q :: p <= q < FirstFree(used, p) ==> q in used
    decreases |used|
  {
    if p in used {
      var rest := used - {p};
      FirstFreeIsLeast(rest, p + 1);
      forall q | p <= q < FirstFree(used, p) ensures q in used {
        assert q == p || q in rest;
      }
    }
  }

  lemma {:induction false} UsedPortsFew(v: Rack)
    ensures |UsedPorts(v)| <= |v|
  {
    if v != [] {
      var w := v[..|v| - 1];
      UsedPortsFew(w);
      assert UsedPorts(v) == UsedPorts(w) + {v[|v| - 1].port};
    } else {
      assert UsedPorts(v) == {};
    }
  }

  /** An auto-assigned port is the least one at or above the base that no slot holds, and it
      is never further from the base than there are slots. */
  lemma AutoPort(v: Rack, base: int)
    ensures var p := FirstFree(UsedPorts(v), base);
      base <= p <= base + |v| &&
      (forall i :: 0 <= i < |v| ==> v[i].port != p) &&
      (forall q :: base <= q < p ==> q in UsedPorts(v))
  {
    hide FirstFree;
    FirstFreeIsLeast(UsedPorts(v), base);
    UsedPortsFew(v);
  }

  // ---- Load and Unload -------------------------------------------------------------------

  function Defaults(s: Slot): Slot {
    s.(kvCache := if s.kvCache == "" then "q8_0" else s.kvCache,
       splitMode := if s.splitMode == "" then "layer" else s.splitMode)
  }

  /** The checks that do not depend on what is already loaded. */
  predicate Loadable(w: World, s: Slot) {
    if s.external != "" then s.alias != "" && w.urlPort(s.external).Some?
    else s.model != "" && w.find(s.model).Some? && (s.backend == "" || w.backendOk(s.backend))
  }

  /** The entry a loadable slot is registered as. */
  function Registered(w: World, base: int, v: Rack, s: Slot): Entry
    requires Loadable(w, s)
  {
    if s.external != "" then Entry(s, s.alias, w.urlPort(s.external).value, Starting)
    else
      var port := if s.port == 0 then FirstFree(UsedPorts(v), base) else s.port;
      Entry(Defaults(s).(port := port), w.find(s.model).value, port, Stopped)
  }

  function Load(w: World, base: int, v: Rack, s: Slot): Result<Rack> {
    if Loadable(w, s) && !HasKey(v, Key(s)) then Ok(v + [Registered(w, base, v, s)]) else Err
  }

  /** The slots that stay when those picked by `gone` leave. */
  function Without(v: Rack, gone: Entry -> bool): Rack {
    if v == [] then []
    else Without(v[..|v| - 1], gone) + (if gone(v[|v| - 1]) then [] else [v[|v| - 1]])
  }

  function ByKey(key: string): Entry -> bool {
    (e: Entry) => Key(e.slot) == key
  }

  function Unload(v: Rack, name: string): Result<Rack> {
    if HasKey(v, Lower(name)) then Ok(Without(v, ByKey(Lower(name)))) else Err
  }

  // ---- Resolve and Ensure ----------------------------------------------------------------

  predicate Matches(e: Entry, handle: string) {
    EqualFold(e.modelId, handle) || Contains(Lower(e.modelId), Lower(handle))
  }

  function FirstWhere(v: Rack, p: Entry -> bool, i: nat): (r: Option<nat>)
    requires i <= |v|
    ensures r.Some? ==> i <= r.value < |v| && p(v[r.value])
    ensures forall j :: i <= j < (if r.Some? then r.value else |v|) ==> !p(v[j])
    decreases |v| - i
  {
    if i == |v| then None else if p(v[i]) then Some(i) else FirstWhere(v, p, i + 1)
  }

  /** By slot name first, then the first slot whose model id matches. */
  function Resolve(v: Rack, handle: string): (r: Option<nat>)
    ensures r.Some? ==> r.value < |v|
  {
    var named := FirstWhere(v, ByKey(Lower(handle)), 0);
    if named.Some? then named else FirstWhere(v, (e: Entry) => Matches(e, handle), 0)
  }

  predicate Overlaps(a: seq<int>, b: seq<int>) {
    exists i :: 0 <= i < |a| && a[i] in b
  }

  function OnGpusOf(s: Slot): Entry -> bool {
    (e: Entry) => Overlaps(e.slot.gpus, s.gpus)
  }

  datatype Ensured = AlreadyLoaded(name: string) | Loaded(name: string) | NotLoaded

  function Ensure(w: World, base: int, v: Rack, s: Slot): (Rack, Ensured) {
    var r := Resolve(v, s.model);
    if r.Some? && v[r.value].state == Healthy then (v, AlreadyLoaded(Name(v[r.value].slot)))
    else
      var kept := Without(v, OnGpusOf(s));
      match Load(w, base, kept, s)
      case Err => (kept, NotLoaded)
      case Ok(v') => (v', Loaded(Name(s)))
  }

  // ---- ApplyProfile ----------------------------------------------------------------------

  function LoadAll(w: World, base: int, v: Rack, slots: seq<Slot>): Rack {
    if slots == [] then v else
      var before := LoadAll(w, base, v, slots[..|slots| - 1]);
      match Load(w, base, before, slots[|slots| - 1]) case Ok(after) => after case Err => before
  }

  // ---- what Without keeps ----------------------------------------------------------------

  lemma {:induction false} WithoutKeeps(v: Rack, gone: Entry -> bool)
    ensures forall e :: e in Without(v, gone) <==> e in v && !gone(e)
    ensures |Without(v, gone)| <= |v|
  {
    if v != [] {
      WithoutKeeps(v[..|v| - 1], gone);
      assert v == v[..|v| - 1] + [v[|v| - 1]];
    }
  }

  /** The positions of what stays: in order, and exactly those that are not picked. */
  ghost predicate StaysAt(v: Rack, kept: Rack, at: seq<nat>, stays: Entry -> bool) {
    |at| == |kept| && (forall k :: 0 <= k < |at| ==> at[k] < |v| && kept[k] == v[at[k]]) &&
    (forall k, l :: 0 <= k < l < |at| ==> at[k] < at[l]) &&
    forall i :: 0 <= i < |v| ==> (i in at <==> stays(v[i]))
  }

  lemma {:induction false} WithoutAt(v: Rack, gone: Entry -> bool, stays: Entry -> bool) returns (at: seq<nat>)
    requires forall e :: e in v ==> stays(e) == !gone(e)
    ensures StaysAt(v, Without(v, gone), at, stays)
  {
    hide StaysAt;
    at := [];
    if v != [] {
      var w, x := v[..|v| - 1], v[|v| - 1];
      assert forall e :: e in w ==> e in v;
      at := WithoutAt(w, gone, stays);
      assert x in v && v == w + [x];
      StaysOneMore(w, x, Without(w, gone), at, stays);
      if gone(x) {
        assert Without(v, gone) == Without(w, gone);
      } else {
        at := at + [|w|];
      }
    } else {
      NoneStays(stays);
    }
  }

  lemma NoneStays(stays: Entry -> bool)
    ensures StaysAt([], [], [], stays)
  {
  }

  lemma StaysOneMore(w: Rack, x: Entry, kept: Rack, at: seq<nat>, stays: Entry -> bool)
    requires StaysAt(w, kept, at, stays)
    ensures if stays(x) then StaysAt(w + [x], kept + [x], at + [|w|], stays) else StaysAt(w + [x], kept, at, stays)
  {
    var v := w + [x];
    assert forall i :: 0 <= i < |w| ==> v[i] == w[i];
    assert forall i :: i in at ==> i < |w|;
  }

  lemma {:induction false} WithoutDistinct(v: Rack, gone: Entry -> bool)
    requires DistinctKeys(v)
    ensures DistinctKeys(Without(v, gone))
  {
    hide Key;
    if v != [] {
      var w, x := v[..|v| - 1], v[|v| - 1];
      WithoutDistinct(w, gone);
      WithoutKeeps(w, gone);
      forall i | 0 <= i < |Without(w, gone)| ensures Key(Without(w, gone)[i].slot) != Key(x.slot) {
        assert Without(w, gone)[i] in w;
      }
    }
  }

  /** Unloading one by one the slots picked by `gone` is removing them at once. */
  lemma {:induction false} WithoutTwice(v: Rack, a: Entry -> bool, b: Entry -> bool, both: Entry -> bool)
    requires forall e :: e in v ==> (both(e) <==> a(e) || b(e))
    ensures Without(Without(v, a), b) == Without(v, both)
  {
    if v != [] {
      var w, x := v[..|v| - 1], v[|v| - 1];
      assert forall e :: e in w ==> e in v;
      WithoutTwice(w, a, b, both);
      assert x in v;
      if a(x) {
        assert Without(v, a) == Without(w, a);
      } else {
        WithoutSnoc(Without(w, a), x, b);
      }
    }
  }

  lemma WithoutSnoc(v: Rack, x: Entry, gone: Entry -> bool)
    ensures Without(v + [x], gone) == Without(v, gone) + (if gone(x) then [] else [x])
  {
    assert (v + [x])[..|v|] == v;
  }

  lemma {:induction false} WithoutNone(v: Rack, gone: Entry -> bool)
    requires forall e :: e in v ==> !gone(e)
    ensures Without(v, gone) == v
  {
    if v != [] {
      WithoutNone(v[..|v| - 1], gone);
      assert v == v[..|v| - 1] + [v[|v| - 1]];
    }
  }

  lemma {:induction false} WithoutAll(v: Rack, gone: Entry -> bool)
    requires forall e :: e in v ==> gone(e)
    ensures Without(v, gone) == []
  {
    if v != [] {
      WithoutAll(v[..|v| - 1], gone);
    }
  }

  lemma {:induction false} WithoutSame(v: Rack, a: Entry -> bool, b: Entry -> bool)
    requires forall e :: e in v ==> a(e) == b(e)
    ensures Without(v, a) == Without(v, b)
  {
    if v != [] {
      WithoutSame(v[..|v| - 1], a, b);
    }
  }

  // ---- disjoint GPUs over every run ------------------------------------------------------

  predicate Apart(a: Slot, b: Slot) {
    !Overlaps(a.gpus, b.gpus)
  }

  /** Overlapping is having a GPU in common. */
  lemma OverlapsIff(a: seq<int>, b: seq<int>)
    ensures Overlaps(a, b) <==> exists g :: g in a && g in b
  {
    if g :| g in a && g in b {
      var i :| 0 <= i < |a| && a[i] == g;
      assert a[i] in b;
    }
    if i :| 0 <= i < |a| && a[i] in b {
      var g := a[i];
      assert g in a && g in b;
    }
  }

  lemma DisjointIff(v: Rack)
    ensures Disjoint(v) <==>
      forall i, j, g :: 0 <= i < j < |v| && g in v[i].slot.gpus ==> g !in v[j].slot.gpus
  {
    hide Overlaps;
    forall i, j | 0 <= i < j < |v|
      ensures Apart(v[i].slot, v[j].slot) <==> forall g :: g in v[i].slot.gpus ==> g !in v[j].slot.gpus
    {
      OverlapsIff(v[i].slot.gpus, v[j].slot.gpus);
    }
  }

  ghost predicate Disjoint(v: Rack) {
    forall i, j :: 0 <= i < j < |v| ==> Apart(v[i].slot, v[j].slot)
  }

  lemma {:induction false} WithoutDisjoint(v: Rack, gone: Entry -> bool)
    requires Disjoint(v)
    ensures Disjoint(Without(v, gone))
  {
    hide Apart;
    if v != [] {
      var w, x := v[..|v| - 1], v[|v| - 1];
      WithoutDisjoint(w, gone);
      WithoutKeeps(w, gone);
      forall i | 0 <= i < |Without(w, gone)| ensures Apart(Without(w, gone)[i].slot, x.slot) {
        assert Without(w, gone)[i] in w;
      }
    }
  }

  /** One call, or one status change seen between calls. */
  datatype Op =
    | EnsureOp(w: World, s: Slot)
    | UnloadOp(name: string)
    | UnloadAllOp
    | LoadOp(w: World, s: Slot)
    | ProfileOp(w: World, slots: seq<Slot>)
    | Observe(i: nat, st: RunState)

  function Apply(base: int, v: Rack, op: Op): Rack {
    match op
    case EnsureOp(w, s) => Ensure(w, base, v, s).0
    case UnloadOp(name) => (match Unload(v, name) case Ok(v') => v' case Err => v)
    case UnloadAllOp => []
    case LoadOp(w, s) => (match Load(w, base, v, s) case Ok(v') => v' case Err => v)
    case ProfileOp(w, slots) => LoadAll(w, base, [], slots)
    case Observe(i, st) => if i < |v| then v[i := v[i].(state := st)] else v
  }

  /** The racks a serialised run goes through, one more than there are calls. */
  ghost predicate IsRun(base: int, racks: seq<Rack>, ops: seq<Op>) {
    |racks| == |ops| + 1 && forall i :: 0 <= i < |ops| ==> racks[i + 1] == Apply(base, racks[i], ops[i])
  }

  predicate Swaps(op: Op) {
    !op.LoadOp? && !op.ProfileOp?
  }

  lemma EnsureDisjoint(w: World, base: int, v: Rack, s: Slot)
    requires Disjoint(v)
    ensures Disjoint(Ensure(w, base, v, s).0)
  {
    var gone := OnGpusOf(s);
    WithoutDisjoint(v, gone);
    WithoutKeeps(v, gone);
    var kept := Without(v, gone);
    forall i | 0 <= i < |kept| ensures Apart(kept[i].slot, s) {
      assert kept[i] in kept;
    }
  }

  lemma ApplyDisjoint(base: int, v: Rack, op: Op)
    requires Disjoint(v) && Swaps(op)
    ensures Disjoint(Apply(base, v, op))
  {
    match op {
      case EnsureOp(w, s) => EnsureDisjoint(w, base, v, s);
      case UnloadOp(name) => WithoutDisjoint(v, ByKey(Lower(name)));
      case _ =>
    }
  }

  lemma {:induction false} RunDisjoint(base: int, racks: seq<Rack>, ops: seq<Op>, i: nat)
    requires IsRun(base, racks, ops) && i <= |ops|
    requires Disjoint(racks[0]) && forall j :: 0 <= j < |ops| ==> Swaps(ops[j])
    ensures Disjoint(racks[i])
  {
    hide Disjoint, Apply, Swaps;
    if i > 0 {
      RunDisjoint(base, racks, ops, i - 1);
      ApplyDisjoint(base, racks[i - 1], ops[i - 1]);
    }
  }

  /** Starting from slots no two of which share a GPU, no two share one at any point of any run of
      Ensure, Unload and UnloadAll, with slot states changing in between and loads failing at
      will. */
  lemma RunsStayDisjoint(base: int, racks: seq<Rack>, ops: seq<Op>, i: nat)
    requires IsRun(base, racks, ops) && i <= |ops|
    requires forall j :: 0 <= j < |ops| ==> !ops[j].LoadOp? && !ops[j].ProfileOp?
    requires forall a, b, g :: 0 <= a < b < |racks[0]| && g in racks[0][a].slot.gpus ==> g !in racks[0][b].slot.gpus
    ensures forall a, b, g :: 0 <= a < b < |racks[i]| && g in racks[i][a].slot.gpus ==> g !in racks[i][b].slot.gpus
  {
    hide Disjoint, Apply;
    DisjointIff(racks[0]);
    RunDisjoint(base, racks, ops, i);
    DisjointIff(racks[i]);
  }

  /** A call that reports "loaded" has kept the slots off the wanted GPUs, in order, and put
      the new one last; one that failed has kept the same slots and no other. */
  lemma EnsureKeepsInOrder(w: World, base: int, v: Rack, s: Slot)
    ensures var (after, what) := Ensure(w, base, v, s);
      (what.AlreadyLoaded? ==> after == v) &&
      (what.NotLoaded? ==> after == Without(v, OnGpusOf(s))) &&
      (what.Loaded? ==> |after| > 0 && after[..|after| - 1] == Without(v, OnGpusOf(s))) &&
      (what.Loaded? ==> Name(after[|after| - 1].slot) == Name(s) && after[|after| - 1].slot.gpus == s.gpus)
  {
    hide Without, Resolve;
    var (after, what) := Ensure(w, base, v, s);
    if what.Loaded? {
      assert after == Without(v, OnGpusOf(s)) + [after[|after| - 1]];
    }
  }

  /** Unless the model was already served: what was there before and shares no GPU with the new
      slot is there afterwards, in order, and nothing else but the new slot. */
  lemma EnsureEvictsExactly(w: World, base: int, v: Rack, s: Slot) returns (at: seq<nat>)
    requires !Ensure(w, base, v, s).1.AlreadyLoaded?
    ensures var (after, what) := Ensure(w, base, v, s);
      var kept := if what.Loaded? && after != [] then after[..|after| - 1] else after;
      |at| == |kept| && (forall k :: 0 <= k < |at| ==> at[k] < |v| && kept[k] == v[at[k]]) &&
      (forall k, l :: 0 <= k < l < |at| ==> at[k] < at[l]) &&
      (forall i :: 0 <= i < |v| ==> (i in at <==> forall g :: g in v[i].slot.gpus ==> g !in s.gpus)) &&
      forall e :: e in kept <==> e in v && forall g :: g in e.slot.gpus ==> g !in s.gpus
  {
    hide Ensure, Overlaps, Without;
    EnsureKeepsInOrder(w, base, v, s);
    WithoutKeeps(v, OnGpusOf(s));
    at := WithoutAt(v, OnGpusOf(s), (e: Entry) => !Overlaps(e.slot.gpus, s.gpus));
    forall e: Entry ensures Overlaps(e.slot.gpus, s.gpus) <==> exists g :: g in e.slot.gpus && g in s.gpus {
      OverlapsIff(e.slot.gpus, s.gpus);
    }
  }

  /** The name a slot is addressed by. */
  predicate IsNamed(s: Slot, name: string) {
    EqualFold(if s.alias == "" then s.model else s.alias, name)
  }

  lemma HasKeyIff(v: Rack, name: string)
    ensures HasKey(v, Lower(name)) <==> exists i :: 0 <= i < |v| && IsNamed(v[i].slot, name)
  {
    hide Lower;
  }

  /** Load, literally: when it succeeds, and every field of the one entry it adds. A port is
      chosen only where none was given: the least one from the base up that no slot holds. */
  lemma LoadMeaning(w: World, base: int, v: Rack, s: Slot)
    ensures Load(w, base, v, s).Ok? <==>
      (if s.external != "" then s.alias != "" && w.urlPort(s.external).Some?
       else s.model != "" && w.find(s.model).Some? && (s.backend == "" || w.backendOk(s.backend))) &&
      forall i :: 0 <= i < |v| ==> !IsNamed(v[i].slot, if s.alias == "" then s.model else s.alias)
    ensures Load(w, base, v, s).Ok? ==> var after := Load(w, base, v, s).value;
      |after| == |v| + 1 && after[..|v|] == v && var e := after[|v|];
      if s.external != "" then
        e.slot == s && e.modelId == s.alias && Some(e.port) == w.urlPort(s.external) && e.state == Starting
      else
        Some(e.modelId) == w.find(s.model) && e.state == Stopped &&
        e.slot == s.(kvCache := if s.kvCache == "" then "q8_0" else s.kvCache,
                     splitMode := if s.splitMode == "" then "layer" else s.splitMode, port := e.port) &&
        (s.port != 0 ==> e.port == s.port) &&
        (s.port == 0 ==>
          (base <= e.port <= base + |v| && !PortTaken(v, e.port) && forall q :: base <= q < e.port ==> PortTaken(v, q)))
  {
    hide Lower, FirstFree, UsedPorts;
    HasKeyIff(v, Name(s));
    AutoPort(v, base);
    UsedAreTaken(v);
  }

  predicate PortTaken(v: Rack, q: int) {
    exists i :: 0 <= i < |v| && v[i].port == q
  }

  lemma UsedAreTaken(v: Rack)
    ensures forall q :: q in UsedPorts(v) <==> PortTaken(v, q)
  {
  }

  /** Unload, literally: it fails exactly when no slot has the name, and else takes out exactly the
      slots of that name. */
  lemma UnloadMeaning(v: Rack, name: string) returns (at: seq<nat>)
    ensures Unload(v, name).Ok? <==> exists i :: 0 <= i < |v| && IsNamed(v[i].slot, name)
    ensures Unload(v, name).Ok? ==> StaysAt(v, Unload(v, name).value, at, (e: Entry) => !IsNamed(e.slot, name))
  {
    hide Lower, Without, HasKey;
    HasKeyIff(v, name);
    at := WithoutAt(v, ByKey(Lower(name)), (e: Entry) => !IsNamed(e.slot, name));
  }

  /** e answers to the handle, by slot name or by model id. */
  predicate AnswersTo(e: Entry, handle: string) {
    Key(e.slot) == Lower(handle) || Matches(e, handle)
  }

  /** Slot i is the one a handle means: the first of that name, or, when no slot has that name,
      the first whose model id contains the handle, case aside. */
  ghost predicate Preferred(v: Rack, handle: string, i: nat) {
    i < |v| &&
    if exists j :: 0 <= j < |v| && IsNamed(v[j].slot, handle)
    then IsNamed(v[i].slot, handle) && forall j :: 0 <= j < i ==> !IsNamed(v[j].slot, handle)
    else Contains(Lower(v[i].modelId), Lower(handle)) &&
         forall j :: 0 <= j < i ==> !Contains(Lower(v[j].modelId), Lower(handle))
  }

  lemma MatchesIff(e: Entry, handle: string)
    ensures Matches(e, handle) <==> Contains(Lower(e.modelId), Lower(handle))
  {
    hide Lower;
    if EqualFold(e.modelId, handle) {
      assert Lower(handle) <= Lower(e.modelId)[0..];
    }
  }

  lemma ResolveIsPreferred(v: Rack, handle: string, i: nat)
    ensures Resolve(v, handle) == Some(i) <==> Preferred(v, handle, i)
  {
    hide Lower, Matches, Contains;
    var named := FirstWhere(v, ByKey(Lower(handle)), 0);
    assert forall j :: 0 <= j < |v| ==> (ByKey(Lower(handle))(v[j]) <==> IsNamed(v[j].slot, handle));
    forall j | 0 <= j < |v| ensures Matches(v[j], handle) <==> Contains(Lower(v[j].modelId), Lower(handle)) {
      MatchesIff(v[j], handle);
    }
  }

  /** Ensure answers "already-loaded" exactly when the one slot the handle means is healthy, and
      then with that slot's name. */
  lemma AlreadyLoadedIff(w: World, base: int, v: Rack, s: Slot, name: string)
    ensures Ensure(w, base, v, s).1 == AlreadyLoaded(name) <==>
      exists i: nat :: Preferred(v, s.model, i) && v[i].state == Healthy &&
                        name == if v[i].slot.alias == "" then v[i].slot.model else v[i].slot.alias
  {
    hide Load, Resolve, Key, Lower, Matches, Without, HasKey, IsNamed, Contains;
    var r := Resolve(v, s.model);
    if r.Some? {
      ResolveIsPreferred(v, s.model, r.value);
    }
    if i: nat :| Preferred(v, s.model, i) && v[i].state == Healthy && Name(v[i].slot) == name {
      ResolveIsPreferred(v, s.model, i);
    }
  }

  /** So a healthy slot that serves the model does not always keep Ensure from swapping: here it
      stands behind a crashed one, and both are evicted. */
  lemma EnsureOverlooksHealthy(w: World, base: int) returns (v: Rack, s: Slot)
    ensures DistinctKeys(v) && exists e :: e in v && e.state == Healthy && AnswersTo(e, s.model)
    ensures !Ensure(w, base, v, s).1.AlreadyLoaded?
    ensures forall e :: e in v ==> e !in Ensure(w, base, v, s).0
  {
    hide Load, Resolve, Matches, Preferred, DistinctKeys, AnswersTo, Without, OnGpusOf;
    s := Slot("m", "", [0, 1], "", "", "", 0, "");
    var a := Entry(s.(alias := "a", gpus := [0]), "m", 1, Crashed);
    var b := Entry(s.(alias := "b", gpus := [1]), "m", 2, Healthy);
    v := [a, b];
    CrashedFirst(v, a, b, "m");
    ResolveIsPreferred(v, "m", 0);
    EnsureKeepsInOrder(w, base, v, s);
    BothOverlap(v, a, b, s);
    WithoutAll(v, OnGpusOf(s));
  }

  lemma BothOverlap(v: Rack, a: Entry, b: Entry, s: Slot)
    requires v == [a, b] && a.slot.gpus == [0] && b.slot.gpus == [1] && s.gpus == [0, 1]
    ensures forall e :: e in v ==> OnGpusOf(s)(e)
  {
    assert a.slot.gpus[0] in s.gpus && b.slot.gpus[0] in s.gpus;
  }

  lemma CrashedFirst(v: Rack, a: Entry, b: Entry, handle: string)
    requires v == [a, b] && Name(a.slot) == "a" && Name(b.slot) == "b"
    requires handle == "m" == a.modelId == b.modelId
    ensures DistinctKeys(v) && AnswersTo(b, handle) && b in v
    ensures Preferred(v, handle, 0)
  {
    assert Lower("a")[0] == 'a' && Lower("b")[0] == 'b' && Lower("m")[0] == 'm';
    assert Lower(handle) <= Lower(handle)[0..];
  }

  lemma ApplyDistinct(base: int, v: Rack, op: Op)
    requires DistinctKeys(v)
    ensures DistinctKeys(Apply(base, v, op))
  {
    hide Key, Load, LoadAll, Resolve;
    match op {
      case EnsureOp(w, s) =>
        WithoutDistinct(v, OnGpusOf(s));
        LoadDistinct(w, base, Without(v, OnGpusOf(s)), s);
      case LoadOp(w, s) => LoadDistinct(w, base, v, s);
      case UnloadOp(name) => WithoutDistinct(v, ByKey(Lower(name)));
      case ProfileOp(w, slots) => LoadAllDistinct(w, base, [], slots);
      case _ =>
    }
  }

  lemma {:induction false} RunDistinct(base: int, racks: seq<Rack>, ops: seq<Op>, i: nat)
    requires IsRun(base, racks, ops) && i <= |ops| && DistinctKeys(racks[0])
    ensures DistinctKeys(racks[i])
  {
    hide DistinctKeys, Apply;
    if i > 0 {
      RunDistinct(base, racks, ops, i - 1);
      ApplyDistinct(base, racks[i - 1], ops[i - 1]);
    }
  }

  lemma DistinctIff(v: Rack)
    ensures DistinctKeys(v) <==> forall a, b :: 0 <= a < b < |v| ==> !IsNamed(v[a].slot, Name(v[b].slot))
  {
    hide Lower;
  }

  /** No two slots have one name, case aside, at any point of any run of all operations. */
  lemma RunsStayDistinct(base: int, racks: seq<Rack>, ops: seq<Op>, i: nat)
    requires IsRun(base, racks, ops) && i <= |ops|
    requires forall a, b :: 0 <= a < b < |racks[0]| ==> !IsNamed(racks[0][a].slot, Name(racks[0][b].slot))
    ensures forall a, b :: 0 <= a < b < |racks[i]| ==> !IsNamed(racks[i][a].slot, Name(racks[i][b].slot))
  {
    hide DistinctKeys, Apply, IsNamed, Name;
    DistinctIff(racks[0]);
    RunDistinct(base, racks, ops, i);
    DistinctIff(racks[i]);
  }

  lemma LoadDistinct(w: World, base: int, v: Rack, s: Slot)
    requires DistinctKeys(v)
    ensures Load(w, base, v, s).Ok? ==> DistinctKeys(Load(w, base, v, s).value)
  {
  }

  lemma {:induction false} LoadAllDistinct(w: World, base: int, v: Rack, slots: seq<Slot>)
    requires DistinctKeys(v)
    ensures DistinctKeys(LoadAll(w, base, v, slots))
  {
    if slots != [] {
      LoadAllDistinct(w, base, v, slots[..|slots| - 1]);
    }
  }

  // ---- what a profile loads --------------------------------------------------------------

  /** Slot i of a profile makes it: it can be loaded and no earlier loadable slot has its name. */
  predicate Wins(w: World, slots: seq<Slot>, i: nat)
    requires i < |slots|
  {
    Loadable(w, slots[i]) && forall j :: 0 <= j < i && Loadable(w, slots[j]) ==> Key(slots[j]) != Key(slots[i])
  }

  function Winners(w: World, slots: seq<Slot>, n: nat): seq<Slot>
    requires n <= |slots|
  {
    if n == 0 then []
    else Winners(w, slots, n - 1) + (if Wins(w, slots, n - 1) then [slots[n - 1]] else [])
  }

  /** e is s as loaded: defaults filled in, a port chosen only where none was given. */
  predicate LoadedAs(s: Slot, e: Entry) {
    if s.external != "" then e.slot == s
    else e.slot == Defaults(s).(port := e.port) && (s.port != 0 ==> e.port == s.port)
  }

  /** A serialised ApplyProfile ends with exactly the profile's slots that could be loaded
      under a name not yet taken, in the profile's order. */
  lemma {:induction false} ProfileExact(w: World, base: int, slots: seq<Slot>, n: nat)
    requires n <= |slots|
    ensures var rack := LoadAll(w, base, [], slots[..n]);
      var won := Winners(w, slots, n);
      |rack| == |won| && (forall k :: 0 <= k < |won| ==> LoadedAs(won[k], rack[k])) &&
      (forall k :: 0 <= k < |won| ==> Load(w, base, rack[..k], won[k]) == Ok(rack[..k + 1])) &&
      forall key :: HasKey(rack, key) <==> exists i :: 0 <= i < n && Loadable(w, slots[i]) && Key(slots[i]) == key
  {
    hide Key, Loadable, HasKey, Load, LoadedAs;
    if n > 0 {
      ProfileExact(w, base, slots, n - 1);
      assert slots[..n][..n - 1] == slots[..n - 1];
      var before := LoadAll(w, base, [], slots[..n - 1]);
      ProfileStep(w, base, before, slots[n - 1]);
      var rack := LoadAll(w, base, [], slots[..n]);
      assert |rack| > |before| ==> rack[..|before| + 1] == rack;
      assert forall k :: 0 <= k <= |before| ==> rack[..k] == before[..k];
      forall key
        ensures HasKey(rack, key) <==> exists i :: 0 <= i < n && Loadable(w, slots[i]) && Key(slots[i]) == key
      {
        if exists i :: 0 <= i < n && Loadable(w, slots[i]) && Key(slots[i]) == key {
          var i :| 0 <= i < n && Loadable(w, slots[i]) && Key(slots[i]) == key;
          assert i < n - 1 ==> HasKey(before, key);
        }
        if HasKey(before, key) {
          var i :| 0 <= i < n - 1 && Loadable(w, slots[i]) && Key(slots[i]) == key;
          assert i < n;
        }
      }
    } else {
      NoKeys();
    }
  }

  lemma NoKeys()
    ensures forall key :: !HasKey([], key)
  {
  }

  lemma ProfileStep(w: World, base: int, v: Rack, s: Slot)
    ensures var after := match Load(w, base, v, s) case Ok(x) => x case Err => v;
      (Load(w, base, v, s).Ok? <==> Loadable(w, s) && !HasKey(v, Key(s))) &&
      (Load(w, base, v, s).Ok? ==> |after| == |v| + 1 && after[..|v|] == v && LoadedAs(s, after[|v|])) &&
      forall key :: HasKey(after, key) <==> HasKey(v, key) || (Loadable(w, s) && Key(s) == key)
  {
    if Load(w, base, v, s).Ok? {
      var after := v + [Registered(w, base, v, s)];
      forall key ensures HasKey(after, key) <==> HasKey(v, key) || Key(s) == key {
        if HasKey(v, key) {
          var i :| 0 <= i < |v| && Key(v[i].slot) == key;
          assert Key(after[i].slot) == key;
        }
        assert Key(after[|v|].slot) == Key(s);
      }
    }
  }
}
