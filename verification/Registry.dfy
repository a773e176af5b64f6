/** The rig's slot registry: the ordered list of instances and the by-name table, changed in
    place under one lock. Each method below is one critical section or a sequence of them. */
module Registry {
  import opened Wrappers
  import opened Text
  import opened Placement

  class Instance {
    const slot: Slot
    const modelId: string
    const port: int
    var state: RunState
    var stopping: bool

    constructor (slot: Slot, modelId: string, port: int, state: RunState)
      ensures this.slot == slot && this.modelId == modelId && this.port == port
      ensures this.state == state && !stopping
    {
      this.slot, this.modelId, this.port := slot, modelId, port;
      this.state, stopping := state, false;
    }
  }

  function EntryOf(x: Instance): Entry
    reads x
  {
    Entry(x.slot, x.modelId, x.port, x.state)
  }

  function KeyOf(x: Instance): string {
    Key(x.slot)
  }

  function Snapshot(xs: seq<Instance>): (v: Rack)
    reads xs
    ensures |v| == |xs| && forall i :: 0 <= i < |xs| ==> v[i] == EntryOf(xs[i])
  {
    if xs == [] then [] else Snapshot(xs[..|xs| - 1]) + [EntryOf(xs[|xs| - 1])]
  }

  lemma SnapshotSnoc(xs: seq<Instance>, x: Instance)
    ensures Snapshot(xs + [x]) == Snapshot(xs) + [EntryOf(x)]
  {
    assert (xs + [x])[..|xs|] == xs;
  }

  ghost predicate DistinctNames(xs: seq<Instance>) {
    forall i, j :: 0 <= i < j < |xs| ==> KeyOf(xs[i]) != KeyOf(xs[j])
  }

  function Cut(xs: seq<Instance>, i: nat): seq<Instance>
    requires i < |xs|
  {
    xs[..i] + xs[i + 1..]
  }

  /** Taking out position i takes out exactly the entries of its name. */
  lemma {:induction false} CutOut(xs: seq<Instance>, i: nat)
    requires i < |xs| && DistinctNames(xs)
    ensures Snapshot(Cut(xs, i)) == Without(Snapshot(xs), ByKey(KeyOf(xs[i])))
  {
    hide KeyOf, Key, Snapshot, Without, DistinctNames;
    var init, last := xs[..|xs| - 1], xs[|xs| - 1];
    var gone := ByKey(KeyOf(xs[i]));
    assert xs == init + [last];
    SnapshotSnoc(init, last);
    NamesApart(xs, i);
    WithoutSnoc(Snapshot(init), EntryOf(last), gone);
    SameKey(xs[i]);
    SameKey(last);
    if i == |xs| - 1 {
      assert Cut(xs, i) == init;
      forall e | e in Snapshot(init) ensures !gone(e) {
        var j :| 0 <= j < |init| && Snapshot(init)[j] == e;
        SameKey(init[j]);
      }
      WithoutNone(Snapshot(init), gone);
    } else {
      CutOut(init, i);
      CutLast(xs, i);
      SnapshotSnoc(Cut(init, i), last);
    }
  }

  lemma CutLast<T>(xs: seq<T>, i: nat)
    requires i < |xs| - 1
    ensures var init := xs[..|xs| - 1];
      xs[..i] + xs[i + 1..] == (init[..i] + init[i + 1..]) + [xs[|xs| - 1]]
  {
    var init := xs[..|xs| - 1];
    assert xs[..i] == init[..i];
    assert xs[i + 1..] == init[i + 1..] + [xs[|xs| - 1]];
  }

  lemma NamesApart(xs: seq<Instance>, i: nat)
    requires i < |xs| && DistinctNames(xs)
    ensures DistinctNames(xs[..|xs| - 1])
    ensures forall j :: 0 <= j < |xs| && j != i ==> KeyOf(xs[j]) != KeyOf(xs[i])
  {
    hide KeyOf;
  }

  lemma SameKey(x: Instance)
    ensures Key(EntryOf(x).slot) == KeyOf(x)
  {
  }

  lemma CutDistinct(xs: seq<Instance>, i: nat)
    requires i < |xs| && DistinctNames(xs)
    ensures DistinctNames(Cut(xs, i)) && xs[i] !in Cut(xs, i)
    ensures forall x :: x in Cut(xs, i) <==> x in xs && x != xs[i]
    ensures forall x :: x in Cut(xs, i) ==> KeyOf(x) != KeyOf(xs[i])
  {
    hide KeyOf;
    var ys := Cut(xs, i);
    assert forall j :: 0 <= j < |ys| ==> ys[j] == if j < i then xs[j] else xs[j + 1];
    forall x | x in xs && x != xs[i] ensures x in ys {
      var j :| 0 <= j < |xs| && xs[j] == x;
      assert j < i ==> ys[j] == x;
      assert j > i ==> ys[j - 1] == x;
    }
  }

  lemma FreeStep(left: set<int>, p: int)
    ensures FirstFree(left, p) == if p in left then FirstFree(left - {p}, p + 1) else p
  {
  }

  /** The list and the table are in bijection under the folded slot name. */
  ghost predicate Agree(xs: seq<Instance>, m: map<string, Instance>) {
    DistinctNames(xs) &&
    (forall i :: 0 <= i < |xs| ==> KeyOf(xs[i]) in m && m[KeyOf(xs[i])] == xs[i]) &&
    (forall key :: key in m ==> m[key] in xs && KeyOf(m[key]) == key)
  }

  lemma AgreeCut(xs: seq<Instance>, m: map<string, Instance>, i: nat)
    requires i < |xs| && Agree(xs, m)
    ensures Agree(Cut(xs, i), m - {KeyOf(xs[i])})
  {
    hide KeyOf;
    CutDistinct(xs, i);
    var ys, n := Cut(xs, i), m - {KeyOf(xs[i])};
    forall j | 0 <= j < |ys| ensures KeyOf(ys[j]) in n && n[KeyOf(ys[j])] == ys[j] {
      var y := ys[j];
      assert y in Cut(xs, i) && y in xs;
      var k :| 0 <= k < |xs| && xs[k] == y;
    }
  }

  lemma AgreeAdd(xs: seq<Instance>, m: map<string, Instance>, x: Instance)
    requires Agree(xs, m) && KeyOf(x) !in m
    ensures Agree(xs + [x], m[KeyOf(x) := x])
  {
    hide KeyOf;
    var ys := xs + [x];
    forall i | 0 <= i < |xs| ensures KeyOf(xs[i]) != KeyOf(x) {
    }
  }

  /** The supervisor of x has been told to stop, and x shows as stopped. */
  predicate Gone(x: Instance)
    reads x
  {
    x.stopping && x.state == Stopped
  }

  class Rig {
    const basePort: int
    const profiles: map<string, seq<Slot>>
    var instances: seq<Instance>
    var byName: map<string, Instance>

    /** byName and instances are in bijection under the folded slot name. */
    ghost predicate Valid()
      reads this
    {
      Agree(instances, byName)
    }

    ghost function View(): Rack
      reads this, instances
    {
      Snapshot(instances)
    }

    constructor (basePort: int, profiles: map<string, seq<Slot>>)
      ensures Valid() && View() == [] && this.basePort == basePort && this.profiles == profiles
      ensures instances == [] && byName == map[]
    {
      this.basePort, this.profiles := basePort, profiles;
      instances, byName := [], map[];
    }

    /** The table answers exactly for the names on the list. */
    lemma NamesAgree(key: string)
      requires Valid()
      ensures key in byName <==> HasKey(View(), key)
    {
      var v := View();
      if key in byName {
        var i :| 0 <= i < |instances| && instances[i] == byName[key];
        assert Key(v[i].slot) == key;
      }
      if HasKey(v, key) {
        var i :| 0 <= i < |v| && Key(v[i].slot) == key;
        assert KeyOf(instances[i]) == key;
      }
    }

    /** nextPortLocked. */
    method NextPort() returns (p: int)
      ensures p == FirstFree(UsedPorts(View()), basePort)
    {
      hide FirstFree;
      var used := set x | x in instances :: x.port;
      UsedAgree(used);
      p := basePort;
      ghost var left := used;
      while p in used
        invariant left <= used && forall q :: q in used && q >= p ==> q in left
        invariant FirstFree(used, basePort) == FirstFree(left, p)
        decreases left
      {
        FreeStep(left, p);
        left := left - {p};
        p := p + 1;
      }
      FreeStep(left, p);
    }

    lemma UsedAgree(used: set<int>)
      requires used == set x | x in instances :: x.port
      ensures used == UsedPorts(View())
    {
      var v := View();
      forall p | p in used ensures p in UsedPorts(v) {
        var x :| x in instances && x.port == p;
        var i :| 0 <= i < |instances| && instances[i] == x;
        assert v[i].port == p;
      }
      forall p | p in UsedPorts(v) ensures p in used {
        var i :| 0 <= i < |v| && v[i].port == p;
        assert instances[i].port == p;
      }
    }

    /** The critical section that registers a new instance. */
    method Add(x: Instance) returns (ok: bool)
      requires Valid()
      modifies this
      ensures Valid() && ok == !HasKey(old(View()), KeyOf(x))
      ensures instances == if ok then old(instances) + [x] else old(instances)
      ensures View() == if ok then old(View()) + [EntryOf(x)] else old(View())
    {
      hide Key, Snapshot, Agree;
      var key := KeyOf(x);
      NamesAgree(key);
      if key in byName {
        return false;
      }
      SnapshotSnoc(instances, x);
      AgreeAdd(instances, byName, x);
      instances := instances + [x];
      byName := byName[key := x];
      ok := true;
    }

    method Load(w: World, s: Slot) returns (ok: bool)
      requires Valid()
      modifies this
      ensures Valid()
      ensures ok == Placement.Load(w, basePort, old(View()), s).Ok?
      ensures View() == if ok then Placement.Load(w, basePort, old(View()), s).value else old(View())
      ensures forall x :: x in instances ==> x in old(instances) || (fresh(x) && !x.stopping)
      ensures forall x :: x in old(instances) ==> x in instances
    {
      hide FirstFree, UsedPorts, Lower, Snapshot, HasKey, Valid;
      ghost var v := View();
      var x: Instance;
      if s.external != "" {
        if s.alias == "" || w.urlPort(s.external).None? {
          return false;
        }
        x := new Instance(s, s.alias, w.urlPort(s.external).value, Starting);
      } else {
        if s.model == "" {
          return false;
        }
        var found := w.find(s.model);
        if found.None? || (s.backend != "" && !w.backendOk(s.backend)) {
          return false;
        }
        var port := s.port;
        if port == 0 {
          port := NextPort();
        }
        x := new Instance(Defaults(s).(port := port), found.value, port, Stopped);
      }
      assert View() == v && EntryOf(x) == Registered(w, basePort, v, s) && KeyOf(x) == Key(s);
      ok := Add(x);
    }

    /** The critical section that takes a slot out of list and table, in place. */
    method Remove(name: string) returns (r: Option<Instance>)
      requires Valid()
      modifies this
      ensures Valid() && (r.Some? <==> Placement.Unload(old(View()), name).Ok?)
      ensures r.Some? ==> Lower(name) in old(byName) && r.value == old(byName)[Lower(name)]
      ensures r.Some? ==> r.value in old(instances) && r.value !in instances
      ensures forall x :: x in old(instances) ==> x in instances || Some(x) == r
      ensures View() == if r.Some? then Placement.Unload(old(View()), name).value else old(View())
      ensures forall x :: x in instances ==> x in old(instances)
    {
      hide Lower, Snapshot, Key, Without, HasKey, Cut, DistinctNames;
      var key := Lower(name);
      NamesAgree(key);
      if key !in byName {
        return None;
      }
      var x := byName[key];
      var i := 0;
      while instances[i] != x
        invariant 0 <= i < |instances| && x in instances[i..]
        invariant forall j :: 0 <= j < i ==> instances[j] != x
        decreases |instances| - i
      {
        i := i + 1;
      }
      CutOut(instances, i);
      CutDistinct(instances, i);
      AgreeCut(instances, byName, i);
      byName := byName - {key};
      instances := Cut(instances, i);
      return Some(x);
    }

    /** Two critical sections: unregister, then stop the instance. */
    method Unload(name: string) returns (ok: bool)
      requires Valid()
      modifies this, instances
      ensures Valid()
      ensures ok == Placement.Unload(old(View()), name).Ok?
      ensures View() == if ok then Placement.Unload(old(View()), name).value else old(View())
      ensures ok ==> var x := old(byName)[Lower(name)];
        x in old(instances) && x !in instances && Gone(x)
      ensures forall x :: x in instances ==> x in old(instances) && x.stopping == old(x.stopping)
      ensures forall x :: x in old(instances) ==> x in instances || Gone(x)
    {
      hide Lower, Snapshot, Key, Placement.Unload, Agree;
      var x := Remove(name);
      if x.None? {
        return false;
      }
      ghost var rest := View();
      x.value.stopping := true;
      x.value.state := Stopped;
      assert View() == rest;
      ok := true;
    }

    /** `for _, n := range names { _ = r.Unload(n) }` */
    method UnloadEach(names: seq<string>)
      requires Valid()
      modifies this, instances
      ensures Valid()
      ensures View() == Without(old(View()), Named(names))
      ensures forall x :: x in instances ==> x in old(instances)
      ensures forall x :: x in old(instances) ==> x in instances || Gone(x)
    {
      hide Lower, Key, Snapshot, Without, HasKey, Agree;
      ghost var v := View();
      NamedNone(v);
      for i := 0 to |names|
        invariant Valid() && View() == Without(v, Named(names[..i]))
        invariant forall x :: x in instances ==> x in old(instances)
        invariant forall x :: x in old(instances) ==> x in instances || Gone(x)
        invariant forall k :: 0 <= k < |instances| ==> instances[k] in old(instances)
      {
        ghost var before := View();
        var ok := Unload(names[i]);
        UnloadOneMore(v, names, i);
      }
      assert names[..|names|] == names;
    }

    /** Names are read in one critical section, unloaded one by one after it. */
    method UnloadAll() returns (names: seq<string>)
      requires Valid()
      modifies this, instances
      ensures Valid() && View() == []
      ensures |names| == |old(View())| && forall i :: 0 <= i < |names| ==> names[i] == Name(old(View())[i].slot)
      ensures instances == [] && forall x :: x in old(instances) ==> Gone(x)
    {
      hide Lower, Key, Agree, Without, Named;
      names := [];
      for i := 0 to |instances|
        invariant |names| == i && forall j :: 0 <= j < i ==> names[j] == Name(View()[j].slot)
      {
        names := names + [Name(instances[i].slot)];
      }
      AllNamed(View(), names);
      UnloadEach(names);
    }

    /** StopAll: the list stays, every supervisor is told to stop. */
    method StopAll()
      requires Valid()
      modifies instances
      ensures forall i :: 0 <= i < |instances| ==> Gone(instances[i])
    {
      hide Agree, Key;
      for i := 0 to |instances|
        invariant forall j :: 0 <= j < i ==> Gone(instances[j])
      {
        instances[i].stopping := true;
        instances[i].state := Stopped;
      }
    }

    /** By name, else the first instance whose model id matches. */
    method Resolve(handle: string) returns (r: Option<Instance>)
      requires Valid()
      ensures r.Some? <==> Placement.Resolve(View(), handle).Some?
      ensures r.Some? ==> r.value == instances[Placement.Resolve(View(), handle).value]
    {
      hide Lower, Key, Matches;
      ghost var v := View();
      var key := Lower(handle);
      if key in byName {
        ghost var i :| 0 <= i < |instances| && instances[i] == byName[key];
        NamedFirst(v, key, i);
        return Some(byName[key]);
      }
      NoneNamed(v, key);
      var i := 0;
      while i < |instances|
        invariant i <= |instances|
        invariant FirstWhere(v, (e: Entry) => Matches(e, handle), 0) == FirstWhere(v, (e: Entry) => Matches(e, handle), i)
      {
        if Matches(EntryOf(instances[i]), handle) {
          return Some(instances[i]);
        }
        i := i + 1;
      }
      return None;
    }

    /** The names of the slots pinned to a GPU the new slot wants. */
    method Overlapping(s: Slot) returns (evict: seq<string>)
      requires Valid()
      ensures Without(View(), Named(evict)) == Without(View(), OnGpusOf(s))
    {
      hide Lower, Key, Agree, Without, Named, DistinctKeys;
      var want := set g | g in s.gpus;
      evict := [];
      ghost var v := View();
      ghost var picked: seq<nat> := [];
      for i := 0 to |instances|
        invariant |picked| == |evict|
        invariant forall k :: 0 <= k < |picked| ==> picked[k] < i && evict[k] == Name(v[picked[k]].slot)
        invariant forall k :: 0 <= k < |picked| ==> Overlaps(v[picked[k]].slot.gpus, s.gpus)
        invariant forall j :: 0 <= j < i && Overlaps(v[j].slot.gpus, s.gpus) ==> j in picked
      {
        var gpus := instances[i].slot.gpus;
        var hit, g := false, 0;
        while g < |gpus| && !hit
          invariant g <= |gpus| && (hit ==> Overlaps(gpus, s.gpus))
          invariant !hit ==> forall h :: 0 <= h < g ==> gpus[h] !in s.gpus
        {
          hit := gpus[g] in want;
          g := g + 1;
        }
        if hit {
          evict := evict + [Name(instances[i].slot)];
          picked := picked + [i];
          assert picked[|picked| - 1] == i;
        }
      }
      ViewDistinct();
      PickedNamed(v, s, evict, picked);
    }

    lemma ViewDistinct()
      requires Valid()
      ensures DistinctKeys(View())
    {
      hide Key;
      var v := View();
      forall i, j | 0 <= i < j < |v| ensures Key(v[i].slot) != Key(v[j].slot) {
        assert KeyOf(instances[i]) != KeyOf(instances[j]);
      }
    }

    /** Load-by-need: nothing to do when a healthy slot serves the model, else evict whatever
        overlaps and load. */
    method Ensure(w: World, s: Slot) returns (what: Ensured)
      requires Valid()
      modifies this, instances
      ensures Valid() && (View(), what) == Placement.Ensure(w, basePort, old(View()), s)
      ensures forall x :: x in old(instances) ==> x in instances || Gone(x)
    {
      hide Lower, Key, Agree, Without, Named, Placement.Load, Placement.Resolve;
      var r := Resolve(s.model);
      if r.Some? && r.value.state == Healthy {
        return AlreadyLoaded(Name(r.value.slot));
      }
      var evict := Overlapping(s);
      UnloadEach(evict);
      var ok := Load(w, s);
      what := if ok then Loaded(Name(s)) else NotLoaded;
    }

    /** Switch the whole layout; `failed` counts the slots that did not load. */
    method ApplyProfile(w: World, name: string) returns (known: bool, failed: nat)
      requires Valid()
      modifies this, instances
      ensures Valid() && known == (name in profiles)
      ensures !known ==> View() == old(View())
      ensures known ==> View() == LoadAll(w, basePort, [], profiles[name])
      ensures known ==> |View()| + failed == |profiles[name]|
      ensures known ==> forall x :: x in old(instances) ==> Gone(x)
    {
      hide Lower, Key, Agree, Placement.Load, Snapshot;
      if name !in profiles {
        return false, 0;
      }
      var slots := profiles[name];
      var current := UnloadAll();
      failed := 0;
      for i := 0 to |slots|
        invariant Valid() && View() == LoadAll(w, basePort, [], slots[..i])
        invariant |View()| + failed == i
        invariant forall x :: x in instances ==> fresh(x)
        invariant forall x :: x in old(instances) ==> Gone(x)
      {
        assert slots[..i + 1][..i] == slots[..i];
        LoadLength(w, basePort, View(), slots[i]);
        var ok := Load(w, slots[i]);
        if !ok {
          failed := failed + 1;
        }
      }
      assert slots[..|slots|] == slots;
      known := true;
    }
  }

  // ---- start-up --------------------------------------------------------------------------

  ghost predicate DistinctSlots(slots: seq<Slot>) {
    forall i, j :: 0 <= i < j < |slots| ==> Key(slots[i]) != Key(slots[j])
  }

  lemma SlotsIff(slots: seq<Slot>)
    ensures DistinctSlots(slots) <==> forall a, b :: 0 <= a < b < |slots| ==> !IsNamed(slots[a], Name(slots[b]))
  {
    hide Lower;
  }

  predicate Complete(s: Slot) {
    if s.external != "" then s.alias != "" else s.model != ""
  }

  /** config.validate. */
  method Validate(slots: seq<Slot>) returns (ok: bool)
    ensures ok <==>
      (forall i :: 0 <= i < |slots| ==> if slots[i].external != "" then slots[i].alias != "" else slots[i].model != "") &&
      forall a, b :: 0 <= a < b < |slots| ==> !IsNamed(slots[a], Name(slots[b]))
  {
    hide Key, IsNamed, Name;
    SlotsIff(slots);
    var names := {};
    for i := 0 to |slots|
      invariant names == set j | 0 <= j < i :: Key(slots[j])
      invariant DistinctSlots(slots[..i]) && forall j :: 0 <= j < i ==> Complete(slots[j])
    {
      var key := Key(slots[i]);
      if !Complete(slots[i]) {
        return false;
      }
      if key in names {
        return false;
      }
      names := names + {key};
    }
    assert slots[..|slots|] == slots;
    ok := true;
  }

  /** The checks New makes on one slot alone. */
  predicate Preparable(w: World, s: Slot) {
    if s.external != "" then s.alias != "" && w.urlPort(s.external).Some?
    else w.find(s.model).Some? && (s.backend == "" || w.backendOk(s.backend))
  }

  /** x is s as New registers it: ports as configured, nothing running. */
  ghost predicate PreparedAs(w: World, s: Slot, x: Instance)
    reads x
  {
    Preparable(w, s) && EntryOf(x) ==
      if s.external != "" then Entry(s, s.alias, w.urlPort(s.external).value, Stopped)
      else Entry(s, w.find(s.model).value, s.port, Stopped)
  }

  /** Slot i gets through: it can be prepared and, if external, finds its name free. */
  ghost predicate Accepted(w: World, slots: seq<Slot>, i: nat)
    requires i < |slots|
  {
    Preparable(w, slots[i]) && (slots[i].external != "" ==> Key(slots[i]) !in SlotKeys(slots[..i]))
  }

  method Prepare(w: World, s: Slot) returns (x: Option<Instance>)
    ensures x.Some? <==> Preparable(w, s)
    ensures x.Some? ==> fresh(x.value) && PreparedAs(w, s, x.value)
  {
    if s.external != "" {
      var port := w.urlPort(s.external);
      if s.alias == "" || port.None? {
        return None;
      }
      var y := new Instance(s, s.alias, port.value, Stopped);
      return Some(y);
    }
    var found := w.find(s.model);
    if found.None? || (s.backend != "" && !w.backendOk(s.backend)) {
      return None;
    }
    var y := new Instance(s, found.value, s.port, Stopped);
    return Some(y);
  }

  lemma PreparedKey(w: World, s: Slot, x: Instance)
    requires PreparedAs(w, s, x)
    ensures KeyOf(x) == Key(s)
  {
  }

  /** What New registers, field by field: the slot as configured, its port included, stopped. */
  lemma PreparedIs(w: World, s: Slot, x: Instance)
    requires PreparedAs(w, s, x)
    ensures x.slot == s && x.state == Stopped
    ensures if s.external != "" then s.alias != "" && x.modelId == s.alias && Some(x.port) == w.urlPort(s.external)
            else Some(x.modelId) == w.find(s.model) && x.port == s.port && (s.backend == "" || w.backendOk(s.backend))
  {
  }

  /** When a configured slot gets through. */
  lemma AcceptedIff(w: World, slots: seq<Slot>, i: nat)
    requires i < |slots|
    ensures Accepted(w, slots, i) <==>
      var s := slots[i];
      if s.external != "" then
        s.alias != "" && w.urlPort(s.external).Some? && forall j :: 0 <= j < i ==> !IsNamed(slots[j], s.alias)
      else w.find(s.model).Some? && (s.backend == "" || w.backendOk(s.backend))
  {
    hide Lower;
    var s := slots[i];
    if j :| 0 <= j < i && IsNamed(slots[j], s.alias) {
      assert Key(slots[..i][j]) == Lower(s.alias);
    }
  }

  /** rig.New: slots are prepared in order, nothing is started; only an external slot is checked
      for a name that is taken. It succeeds exactly when every slot gets through, and then the
      registry is consistent exactly when no two slots share a name. */
  method New(w: World, basePort: int, profiles: map<string, seq<Slot>>, slots: seq<Slot>) returns (r: Option<Rig>)
    ensures r.Some? <==> forall i :: 0 <= i < |slots| ==> Accepted(w, slots, i)
    ensures r.Some? ==> fresh(r.value) && |r.value.instances| == |slots|
    ensures r.Some? ==> forall i :: 0 <= i < |slots| ==> PreparedAs(w, slots[i], r.value.instances[i])
    ensures r.Some? ==> (r.value.Valid() <==> DistinctSlots(slots))
  {
    hide Key, Snapshot, Agree, DistinctSlots, SlotKeys, Preparable, PreparedAs, KeyOf;
    NoSlots();
    var rig := new Rig(basePort, profiles);
    assert slots[..0] == [];
    for i := 0 to |slots|
      invariant |rig.instances| == i
      invariant forall j :: 0 <= j < i ==> Accepted(w, slots, j)
      invariant forall j :: 0 <= j < i ==> PreparedAs(w, slots[j], rig.instances[j])
      invariant forall j :: 0 <= j < i ==> KeyOf(rig.instances[j]) == Key(slots[j])
      invariant rig.Valid() <==> DistinctSlots(slots[..i])
      invariant rig.byName.Keys == SlotKeys(slots[..i])
    {
      var s := slots[i];
      var prepared := Prepare(w, s);
      if prepared.None? || (s.external != "" && Key(s) in rig.byName) {
        assert !Accepted(w, slots, i);
        return None;
      }
      var x := prepared.value;
      PreparedKey(w, s, x);
      AgreeGrows(rig.instances, rig.byName, x, slots[..i], s);
      SlotKeysSnoc(slots, i);
      rig.instances := rig.instances + [x];
      rig.byName := rig.byName[Key(s) := x];
    }
    assert slots[..|slots|] == slots;
    return Some(rig);
  }

  function SlotKeys(slots: seq<Slot>): set<string> {
    set j | 0 <= j < |slots| :: Key(slots[j])
  }

  lemma NoSlots()
    ensures DistinctSlots([]) && SlotKeys([]) == {}
  {
  }

  lemma SlotKeysSnoc(slots: seq<Slot>, i: nat)
    requires i < |slots|
    ensures slots[..i + 1] == slots[..i] + [slots[i]]
    ensures SlotKeys(slots[..i + 1]) == SlotKeys(slots[..i]) + {Key(slots[i])}
  {
    hide Key;
    assert forall j :: 0 <= j < i ==> slots[..i + 1][j] == slots[..i][j];
    assert slots[..i + 1][i] == slots[i];
    forall key | key in SlotKeys(slots[..i]) ensures key in SlotKeys(slots[..i + 1]) {
      var j :| 0 <= j < i && Key(slots[..i][j]) == key;
      assert Key(slots[..i + 1][j]) == key;
    }
  }

  lemma AgreeGrows(xs: seq<Instance>, m: map<string, Instance>, x: Instance, slots: seq<Slot>, s: Slot)
    requires |xs| == |slots| && (forall j :: 0 <= j < |xs| ==> KeyOf(xs[j]) == Key(slots[j]))
    requires Agree(xs, m) <==> DistinctSlots(slots)
    requires m.Keys == SlotKeys(slots)
    requires KeyOf(x) == Key(s)
    ensures Agree(xs + [x], m[Key(s) := x]) <==> DistinctSlots(slots + [s])
  {
    hide Key, KeyOf;
    var more := slots + [s];
    if DistinctSlots(more) {
      assert forall j :: 0 <= j < |slots| ==> more[j] == slots[j];
      forall j | 0 <= j < |slots| ensures Key(slots[j]) != Key(s) {
        assert Key(more[j]) != Key(more[|slots|]);
      }
      AgreeAdd(xs, m, x);
    } else {
      var i, j :| 0 <= i < j < |more| && Key(more[i]) == Key(more[j]);
      assert KeyOf((xs + [x])[i]) == KeyOf((xs + [x])[j]);
    }
  }

  // ---- facts about names -----------------------------------------------------------------

  function Named(names: seq<string>): Entry -> bool {
    (e: Entry) => exists k :: 0 <= k < |names| && Lower(names[k]) == Key(e.slot)
  }

  lemma NamedNone(v: Rack)
    ensures Without(v, Named([])) == v
  {
    WithoutNone(v, Named([]));
  }

  lemma UnloadOneMore(v: Rack, names: seq<string>, i: nat)
    requires i < |names|
    ensures var before := Without(v, Named(names[..i]));
      Without(v, Named(names[..i + 1])) ==
        match Placement.Unload(before, names[i]) case Ok(after) => after case Err => before
  {
    hide Lower, Key, Without;
    var before, key := Without(v, Named(names[..i])), Lower(names[i]);
    forall e | e in v ensures Named(names[..i + 1])(e) <==> Named(names[..i])(e) || ByKey(key)(e) {
      NamedOneMore(names, i, e);
    }
    WithoutTwice(v, Named(names[..i]), ByKey(key), Named(names[..i + 1]));
    if !HasKey(before, key) {
      WithoutNone(before, ByKey(key));
    }
  }

  lemma NamedOneMore(names: seq<string>, i: nat, e: Entry)
    requires i < |names|
    ensures Named(names[..i + 1])(e) <==> Named(names[..i])(e) || ByKey(Lower(names[i]))(e)
  {
    hide Lower, Key;
    if Named(names[..i])(e) {
      var k :| 0 <= k < i && Lower(names[..i][k]) == Key(e.slot);
      assert names[..i + 1][k] == names[k];
    }
    if ByKey(Lower(names[i]))(e) {
      assert names[..i + 1][i] == names[i];
    }
  }

  lemma AllNamed(v: Rack, names: seq<string>)
    requires |names| == |v| && forall i :: 0 <= i < |v| ==> names[i] == Name(v[i].slot)
    ensures Without(v, Named(names)) == []
  {
    hide Lower, Without;
    WithoutAll(v, Named(names));
  }

  lemma PickedNamed(v: Rack, s: Slot, names: seq<string>, picked: seq<nat>)
    requires DistinctKeys(v) && |picked| == |names|
    requires forall k :: 0 <= k < |picked| ==> picked[k] < |v| && names[k] == Name(v[picked[k]].slot)
    requires forall k :: 0 <= k < |picked| ==> Overlaps(v[picked[k]].slot.gpus, s.gpus)
    requires forall j :: 0 <= j < |v| && Overlaps(v[j].slot.gpus, s.gpus) ==> j in picked
    ensures Without(v, Named(names)) == Without(v, OnGpusOf(s))
  {
    hide Lower, Without, Overlaps;
    forall e | e in v ensures Named(names)(e) == OnGpusOf(s)(e) {
      var j :| 0 <= j < |v| && v[j] == e;
      if OnGpusOf(s)(e) {
        var k :| 0 <= k < |picked| && picked[k] == j;
        assert Lower(names[k]) == Key(e.slot);
      }
      if Named(names)(e) {
        var k :| 0 <= k < |names| && Lower(names[k]) == Key(e.slot);
        assert Key(v[picked[k]].slot) == Key(v[j].slot);
      }
    }
    WithoutSame(v, Named(names), OnGpusOf(s));
  }

  lemma NamedFirst(v: Rack, key: string, i: nat)
    requires i < |v| && Key(v[i].slot) == key && forall j :: 0 <= j < |v| && j != i ==> Key(v[j].slot) != key
    ensures FirstWhere(v, ByKey(key), 0) == Some(i)
  {
    hide Key;
  }

  lemma NoneNamed(v: Rack, key: string)
    requires !HasKey(v, key)
    ensures FirstWhere(v, ByKey(key), 0) == None
  {
    hide Key;
  }

  lemma LoadLength(w: World, base: int, v: Rack, s: Slot)
    ensures Placement.Load(w, base, v, s).Ok? ==> |Placement.Load(w, base, v, s).value| == |v| + 1
  {
  }
}
