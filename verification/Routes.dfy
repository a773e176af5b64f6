/** Federation routing: the first-wins route map, rebuilt from a hub roster or from a round of
    peer polls, and the lookups on it. */
module Routes {
  import opened Wrappers
  import opened Text

  datatype Route = Route(model: string, peerUrl: string, peerName: string)

  /** One peer that may be routed to, with what it serves. */
  datatype Offer = Offer(name: string, url: string, models: seq<string>)

  datatype RosterEntry = RosterEntry(name: string, meshAddr: string, models: seq<string>)

  datatype PeerHealth = PeerHealth(name: string, url: string, online: bool, models: seq<string>)

  type Table = map<string, Route>

  function RouteKey(model: string): string {
    Lower(Trim(model))
  }

  /** A route key is the name without the blanks around it, in lower case. */
  lemma RouteKeyIs(model: string) returns (before: string, core: string, after: string)
    ensures model == before + core + after && AllBlank(before) && AllBlank(after)
    ensures core != [] ==> !BlankChar(core[0]) && !BlankChar(core[|core| - 1])
    ensures |RouteKey(model)| == |core|
    ensures forall i :: 0 <= i < |core| ==>
      SameLetter(core[i], RouteKey(model)[i]) && !(65 <= RouteKey(model)[i] as int <= 90)
  {
    hide Lower, Trim, BlankChar;
    before, after := TrimIs(model);
    core := Trim(model);
    LowerIs(core);
  }

  lemma SameFoldSameKey(a: string, b: string)
    requires Lower(a) == Lower(b)
    ensures RouteKey(a) == RouteKey(b)
  {
    LowerTrim(a);
    LowerTrim(b);
  }

  // ---- the meaning: first offer, first model ---------------------------------------------

  function FirstModel(models: seq<string>, key: string): (r: Option<string>)
    ensures r.Some? ==> r.value in models && RouteKey(r.value) == key
    ensures r.None? ==> forall m :: m in models ==> RouteKey(m) != key
  {
    if models == [] then None
    else if RouteKey(models[0]) == key then Some(models[0])
    else FirstModel(models[1..], key)
  }

  /** And it is the first such model of the list. */
  lemma {:induction false} FirstModelIsFirst(models: seq<string>, key: string) returns (i: nat)
    requires FirstModel(models, key).Some?
    ensures i < |models| && models[i] == FirstModel(models, key).value && RouteKey(models[i]) == key
    ensures forall j :: 0 <= j < i ==> RouteKey(models[j]) != key
  {
    hide RouteKey;
    i := 0;
    if RouteKey(models[0]) != key {
      i := FirstModelIsFirst(models[1..], key);
      i := i + 1;
    }
  }

  predicate Serves(o: Offer, key: string) {
    key != "" && FirstModel(o.models, key).Some?
  }

  function RouteTo(o: Offer, key: string): Route
    requires Serves(o, key)
  {
    Route(FirstModel(o.models, key).value, o.url, o.name)
  }

  function FirstOffer(offers: seq<Offer>, key: string): (r: Option<nat>)
    ensures r.Some? ==> r.value < |offers| && Serves(offers[r.value], key)
    ensures forall i :: 0 <= i < (if r.Some? then r.value else |offers|) ==> !Serves(offers[i], key)
  {
    if offers == [] then None
    else if Serves(offers[0], key) then Some(0)
    else match FirstOffer(offers[1..], key) case None => None case Some(i) => Some(i + 1)
  }

  /** The table routes a key exactly when some offer serves it, and to the first that does. */
  ghost predicate IsTable(t: Table, offers: seq<Offer>) {
    forall key ::
      (key in t <==> FirstOffer(offers, key).Some?) &&
      (key in t ==> t[key] == RouteTo(offers[FirstOffer(offers, key).value], key))
  }

  lemma TableUnique(s: Table, t: Table, offers: seq<Offer>)
    requires IsTable(s, offers) && IsTable(t, offers)
    ensures s == t
  {
    hide FirstOffer;
    assert forall key :: key in s <==> key in t;
  }

  /** A table files every route under its model's own key. */
  ghost predicate WellKeyed(t: Table) {
    forall key :: key in t ==> key != "" && RouteKey(t[key].model) == key
  }

  lemma TablesAreWellKeyed(t: Table, offers: seq<Offer>)
    requires IsTable(t, offers)
    ensures WellKeyed(t)
  {
    hide RouteKey, FirstOffer;
  }

  // ---- building it -----------------------------------------------------------------------

  /** The offers of a roster: never this node itself, never a node without an address. */
  function RosterOffers(entries: seq<RosterEntry>, selfName: string): seq<Offer> {
    if entries == [] then []
    else
      var e := entries[|entries| - 1];
      RosterOffers(entries[..|entries| - 1], selfName) +
        (if Usable(e, selfName) then [Offer(e.name, TrimSlashes(e.meshAddr), e.models)] else [])
  }

  /** What IsSelf answers for a node that is called `self`. */
  predicate NamesSelf(name: string, self: string) {
    self != "" && EqualFold(Trim(name), self)
  }

  predicate Usable(e: RosterEntry, selfName: string) {
    !EqualFold(e.name, selfName) && TrimSlashes(e.meshAddr) != ""
  }

  function PollOffers(results: seq<PeerHealth>): seq<Offer> {
    if results == [] then []
    else
      var h := results[|results| - 1];
      PollOffers(results[..|results| - 1]) + (if h.online then [Offer(h.name, h.url, h.models)] else [])
  }

  /** The health observed last for every URL. */
  function HealthMap(results: seq<PeerHealth>): map<string, PeerHealth> {
    if results == [] then map[]
    else HealthMap(results[..|results| - 1])[results[|results| - 1].url := results[|results| - 1]]
  }

  /** A roster read as a round of polls in which every usable node answered. */
  function RosterHealth(entries: seq<RosterEntry>, selfName: string): seq<PeerHealth> {
    if entries == [] then []
    else
      var e := entries[|entries| - 1];
      RosterHealth(entries[..|entries| - 1], selfName) +
        (if Usable(e, selfName) then [PeerHealth(e.name, TrimSlashes(e.meshAddr), true, e.models)] else [])
  }

  /** r leads to the first result that is online and lists the key, under the first spelling it
      lists. */
  ghost predicate RoutedToFirst(r: Route, results: seq<PeerHealth>, key: string) {
    exists i, m ::
      0 <= i < |results| && Lists(results[i], key, m) && (forall j, n :: 0 <= j < i ==> !Lists(results[j], key, n)) &&
      r == Route(results[i].models[m], results[i].url, results[i].name) &&
      forall n :: 0 <= n < m ==> !Lists(results[i], key, n)
  }

  /** Model number m of an online result has this key. */
  predicate Lists(h: PeerHealth, key: string, m: int) {
    h.online && key != "" && 0 <= m < |h.models| && RouteKey(h.models[m]) == key
  }

  ghost predicate SomeLists(results: seq<PeerHealth>, key: string) {
    exists i, m :: 0 <= i < |results| && Lists(results[i], key, m)
  }

  lemma ServesIff(h: PeerHealth, key: string) returns (m: nat)
    requires h.online
    ensures Serves(Offer(h.name, h.url, h.models), key) <==> exists n :: Lists(h, key, n)
    ensures Serves(Offer(h.name, h.url, h.models), key) ==>
      (Lists(h, key, m) && (forall n :: 0 <= n < m ==> !Lists(h, key, n)) &&
       RouteTo(Offer(h.name, h.url, h.models), key) == Route(h.models[m], h.url, h.name))
  {
    hide RouteKey, FirstModel;
    m := 0;
    if Serves(Offer(h.name, h.url, h.models), key) {
      m := FirstModelIsFirst(h.models, key);
      assert Lists(h, key, m);
    }
    if n :| Lists(h, key, n) {
      assert h.models[n] in h.models;
    }
  }

  /** A round of polls routes a key exactly when some online result lists it, and to the first that
      does, in configuration order. */
  lemma {:induction false} PollRoutesFirst(results: seq<PeerHealth>, key: string)
    ensures var offers := PollOffers(results); var first := FirstOffer(offers, key);
      (first.Some? <==> SomeLists(results, key)) &&
      (first.Some? ==> RoutedToFirst(RouteTo(offers[first.value], key), results, key))
  {
    hide FirstOffer, Serves, RouteTo, SomeLists, RoutedToFirst;
    if results == [] {
      NoOffers(key);
    } else {
      var init, h := results[..|results| - 1], results[|results| - 1];
      var o := Offer(h.name, h.url, h.models);
      PollRoutesFirst(init, key);
      FirstOfferSnoc(PollOffers(init), o, key);
      if h.online {
        var m := ServesIff(h, key);
        OneMoreLists(results, key, m);
      } else {
        assert PollOffers(results) == PollOffers(init);
        OneMoreLists(results, key, 0);
      }
    }
  }

  lemma NoOffers(key: string)
    ensures FirstOffer([], key).None? && !SomeLists([], key)
  {
  }

  lemma OneMoreLists(results: seq<PeerHealth>, key: string, m: nat)
    requires results != []
    ensures var init, h := results[..|results| - 1], results[|results| - 1];
      (SomeLists(results, key) <==> SomeLists(init, key) || exists n :: Lists(h, key, n)) &&
      (forall r :: RoutedToFirst(r, init, key) ==> RoutedToFirst(r, results, key)) &&
      (!SomeLists(init, key) && Lists(h, key, m) && (forall n :: 0 <= n < m ==> !Lists(h, key, n)) ==>
        RoutedToFirst(Route(h.models[m], h.url, h.name), results, key))
  {
    hide RouteKey;
    var n := |results| - 1;
    assert forall i :: 0 <= i < n ==> results[..n][i] == results[i];
    if SomeLists(results[..n], key) {
      var i, k :| 0 <= i < n && Lists(results[..n][i], key, k);
      assert Lists(results[i], key, k);
    }
    if k :| Lists(results[n], key, k) {
      assert SomeLists(results, key);
    }
  }

  lemma PollTable(t: Table, results: seq<PeerHealth>, key: string)
    requires IsTable(t, PollOffers(results))
    ensures key in t <==> SomeLists(results, key)
    ensures key in t ==> RoutedToFirst(t[key], results, key)
  {
    hide FirstOffer, RoutedToFirst, SomeLists, RouteTo;
    PollRoutesFirst(results, key);
  }

  lemma NoHealth()
    ensures HealthMap([]) == map[]
  {
  }

  lemma HealthSnoc(results: seq<PeerHealth>, h: PeerHealth)
    ensures HealthMap(results + [h]) == HealthMap(results)[h.url := h]
  {
    assert (results + [h])[..|results|] == results;
  }

  /** Both discovery modes are one: a roster's offers are the offers of that round. */
  lemma {:induction false} RosterAsPoll(entries: seq<RosterEntry>, selfName: string)
    ensures PollOffers(RosterHealth(entries, selfName)) == RosterOffers(entries, selfName)
  {
    hide EqualFold, TrimSlashes;
    if entries != [] {
      var init, e := entries[..|entries| - 1], entries[|entries| - 1];
      RosterAsPoll(init, selfName);
      var before := RosterHealth(init, selfName);
      if Usable(e, selfName) {
        var h := PeerHealth(e.name, TrimSlashes(e.meshAddr), true, e.models);
        assert (before + [h])[..|before|] == before;
      } else {
        assert before + [] == before;
      }
    }
  }

  /** A table for the offers so far and the first j models of one more. */
  ghost predicate IsTableUpTo(t: Table, offers: seq<Offer>, o: Offer, j: nat)
    requires j <= |o.models|
  {
    IsTable(t, offers + [o.(models := o.models[..j])])
  }

  lemma FirstModelSnoc(models: seq<string>, m: string, key: string)
    ensures FirstModel(models + [m], key) ==
      if FirstModel(models, key).Some? then FirstModel(models, key)
      else if RouteKey(m) == key then Some(m) else None
  {
    hide RouteKey;
    if models != [] {
      assert (models + [m])[1..] == models[1..] + [m];
      FirstModelSnoc(models[1..], m, key);
    }
  }

  lemma {:induction false} FirstOfferSnoc(offers: seq<Offer>, o: Offer, key: string)
    ensures FirstOffer(offers + [o], key) ==
      if FirstOffer(offers, key).Some? then FirstOffer(offers, key)
      else if Serves(o, key) then Some(|offers|) else None
  {
    hide Serves;
    if offers == [] {
      assert (offers + [o])[1..] == [];
    } else {
      assert (offers + [o])[1..] == offers[1..] + [o];
      FirstOfferSnoc(offers[1..], o, key);
    }
  }

  /** A model-less offer routes nothing. */
  lemma TableStart(t: Table, offers: seq<Offer>, o: Offer)
    requires IsTable(t, offers)
    ensures IsTableUpTo(t, offers, o, 0)
  {
    hide RouteKey, FirstOffer;
    var none := o.(models := o.models[..0]);
    forall key ensures FirstOffer(offers + [none], key) == FirstOffer(offers, key) {
      FirstOfferSnoc(offers, none, key);
    }
  }

  /** One model more: it takes its key unless the key is empty or taken. */
  lemma TableGrows(t: Table, offers: seq<Offer>, o: Offer, j: nat)
    requires j < |o.models| && IsTableUpTo(t, offers, o, j)
    ensures var m := o.models[j];
      IsTableUpTo(if RouteKey(m) == "" || RouteKey(m) in t then t else t[RouteKey(m) := Route(m, o.url, o.name)],
        offers, o, j + 1)
  {
    hide RouteKey, FirstOffer, FirstModel;
    var m := o.models[j];
    var a, b := o.(models := o.models[..j]), o.(models := o.models[..j + 1]);
    assert o.models[..j + 1] == o.models[..j] + [m];
    forall key
      ensures FirstOffer(offers + [a], key) ==
        if FirstOffer(offers, key).Some? then FirstOffer(offers, key) else if Serves(a, key) then Some(|offers|) else None
      ensures FirstOffer(offers + [b], key) ==
        if FirstOffer(offers, key).Some? then FirstOffer(offers, key) else if Serves(b, key) then Some(|offers|) else None
      ensures FirstModel(b.models, key) ==
        if FirstModel(a.models, key).Some? then FirstModel(a.models, key) else if RouteKey(m) == key then Some(m) else None
    {
      FirstOfferSnoc(offers, a, key);
      FirstOfferSnoc(offers, b, key);
      FirstModelSnoc(a.models, m, key);
    }
  }

  lemma EmptyTable()
    ensures IsTable(map[], [])
  {
  }

  class Federation {
    const nodeName: string
    const enabled: bool
    var routes: Table
    var health: map<string, PeerHealth>
    var roster: seq<RosterEntry>
    var selfName: string

    ghost predicate Valid()
      reads this
    {
      WellKeyed(routes)
    }

    constructor (nodeName: string, enabled: bool)
      ensures Valid()
      ensures this.nodeName == nodeName && this.enabled == enabled
      ensures routes == map[] && health == map[] && roster == [] && selfName == ""
    {
      this.nodeName, this.enabled := nodeName, enabled;
      routes, health, roster, selfName := map[], map[], [], "";
    }

    /** The inner loop shared by both discovery modes. */
    method AddOffer(routes: Table, ghost offers: seq<Offer>, o: Offer) returns (t: Table)
      requires IsTable(routes, offers)
      ensures IsTable(t, offers + [o])
    {
      hide IsTable, RouteKey;
      t := routes;
      TableStart(t, offers, o);
      for j := 0 to |o.models|
        invariant IsTableUpTo(t, offers, o, j)
      {
        TableGrows(t, offers, o, j);
        var m := o.models[j];
        var key := RouteKey(m);
        if key == "" {
          continue;
        }
        if key in t {
          continue;
        }
        t := t[key := Route(m, o.url, o.name)];
      }
      assert o.(models := o.models[..|o.models|]) == o;
    }

    method ApplyRoster(entries: seq<RosterEntry>, self: string)
      modifies this
      ensures Valid() && IsTable(routes, RosterOffers(entries, self))
      ensures roster == entries && selfName == self
      ensures health == HealthMap(RosterHealth(entries, self))
    {
      hide IsTable, EqualFold, TrimSlashes, HealthMap, WellKeyed;
      NoHealth();
      var t: Table, h: map<string, PeerHealth> := map[], map[];
      EmptyTable();
      for i := 0 to |entries|
        invariant IsTable(t, RosterOffers(entries[..i], self))
        invariant h == HealthMap(RosterHealth(entries[..i], self))
      {
        var e := entries[i];
        assert entries[..i + 1][..i] == entries[..i];
        ghost var offers, before := RosterOffers(entries[..i], self), RosterHealth(entries[..i], self);
        assert offers + [] == offers && before + [] == before;
        if EqualFold(e.name, self) {
          continue;
        }
        var url := TrimSlashes(e.meshAddr);
        if url == "" {
          continue;
        }
        HealthSnoc(before, PeerHealth(e.name, url, true, e.models));
        h := h[url := PeerHealth(e.name, url, true, e.models)];
        t := AddOffer(t, offers, Offer(e.name, url, e.models));
      }
      assert entries[..|entries|] == entries;
      TablesAreWellKeyed(t, RosterOffers(entries, self));
      routes, health, roster, selfName := t, h, entries, self;
    }

    /** The rebuild half of pollAll, after every peer has answered or failed. */
    method ApplyPoll(results: seq<PeerHealth>)
      modifies this
      ensures Valid() && IsTable(routes, PollOffers(results))
      ensures roster == old(roster) && selfName == old(selfName)
      ensures health == HealthMap(results)
    {
      hide IsTable, HealthMap, WellKeyed;
      NoHealth();
      var t: Table, h: map<string, PeerHealth> := map[], map[];
      EmptyTable();
      for i := 0 to |results|
        invariant IsTable(t, PollOffers(results[..i])) && roster == old(roster) && selfName == old(selfName)
        invariant h == HealthMap(results[..i])
      {
        var r := results[i];
        assert results[..i + 1][..i] == results[..i];
        ghost var offers := PollOffers(results[..i]);
        assert offers + [] == offers;
        HealthSnoc(results[..i], r);
        assert results[..i + 1] == results[..i] + [r];
        h := h[r.url := r];
        if !r.online {
          continue;
        }
        t := AddOffer(t, offers, Offer(r.name, r.url, r.models));
      }
      assert results[..|results|] == results;
      TablesAreWellKeyed(t, PollOffers(results));
      routes, health := t, h;
    }

    /** A remote route for a handle: the exact key, else any key that contains it. */
    method Resolve(model: string) returns (r: Option<Route>)
      ensures r.Some? ==> enabled && Resolves(routes, model, r.value)
      ensures r.None? ==> !enabled || forall route :: !Resolves(routes, model, route)
      ensures enabled && RouteKey(model) in routes ==> r == Some(routes[RouteKey(model)])
      ensures r.Some? && RouteKey(model) !in routes ==>
        exists k :: k in routes && routes[k] == r.value && Contains(k, RouteKey(model))
      ensures r.None? <==> !enabled || (RouteKey(model) !in routes && forall k :: k in routes ==> !Contains(k, RouteKey(model)))
    {
      hide RouteKey;
      if !enabled {
        return None;
      }
      var key := RouteKey(model);
      if key in routes {
        return Some(routes[key]);
      }
      var left := routes.Keys;
      while left != {}
        invariant left <= routes.Keys
        invariant forall k :: k in routes && k !in left ==> !Contains(k, key)
        decreases left
      {
        var k :| k in left;
        if Contains(k, key) {
          return Some(routes[k]);
        }
        left := left - {k};
      }
      return None;
    }

    method IsSelf(name: string) returns (b: bool)
      ensures b <==> NamesSelf(name, SelfOf())
    {
      var self := selfName;
      if self == "" {
        self := nodeName;
      }
      b := self != "" && EqualFold(Trim(name), self);
    }

    function SelfOf(): string
      reads this
    {
      if selfName == "" then nodeName else selfName
    }

    /** The address of a named node: the first roster entry of that name decides, even when it
        has no address; only without one is a polled peer looked up. */
    method NodeAddr(name: string) returns (addr: string, ok: bool)
      ensures ok ==> addr != ""
      ensures forall i :: FirstNamed(roster, Trim(name)) == Some(i) ==>
        addr == TrimSlashes(roster[i].meshAddr) && ok == (addr != "")
      ensures FirstNamed(roster, Trim(name)).None? && ok ==>
        exists u :: u in health && EqualFold(health[u].name, Trim(name)) && addr == TrimSlashes(health[u].url)
      ensures FirstNamed(roster, Trim(name)).None? && !ok ==> forall u :: u in health && EqualFold(health[u].name, Trim(name)) ==>
        exists v :: v in health && EqualFold(health[v].name, Trim(name)) && TrimSlashes(health[v].url) == ""
    {
      hide EqualFold, Trim, TrimSlashes;
      var key := Trim(name);
      for i := 0 to |roster|
        invariant FirstNamed(roster, key) == FirstNamedFrom(roster, key, i)
      {
        if EqualFold(roster[i].name, key) {
          addr := TrimSlashes(roster[i].meshAddr);
          return addr, addr != "";
        }
      }
      var left := health.Keys;
      while left != {}
        invariant left <= health.Keys
        invariant forall u :: u in health && u !in left ==> !EqualFold(health[u].name, key)
        decreases left
      {
        var u :| u in left;
        if EqualFold(health[u].name, key) {
          addr := TrimSlashes(health[u].url);
          return addr, addr != "";
        }
        left := left - {u};
      }
      return "", false;
    }
  }

  /** A node never routes to itself: a route in a table built from a roster leads to a name that
      IsSelf would answer for only if that name was registered with whitespace around it. */
  lemma NoRouteToSelf(t: Table, entries: seq<RosterEntry>, self: string, key: string)
    requires IsTable(t, RosterOffers(entries, self)) && key in t
    ensures !EqualFold(t[key].peerName, self)
    ensures NamesSelf(t[key].peerName, self) ==> !Unpadded(t[key].peerName)
  {
    hide EqualFold, Trim, TrimSlashes, FirstOffer, FirstModel, Unpadded;
    OffersAreOthers(entries, self);
    assert RosterOffers(entries, self)[FirstOffer(RosterOffers(entries, self), key).value] in RosterOffers(entries, self);
    TrimUnpadded(t[key].peerName);
  }

  lemma {:induction false} OffersAreOthers(entries: seq<RosterEntry>, self: string)
    ensures forall o :: o in RosterOffers(entries, self) ==> !EqualFold(o.name, self)
  {
    hide EqualFold, TrimSlashes;
    if entries != [] {
      OffersAreOthers(entries[..|entries| - 1], self);
    }
  }

  predicate Resolves(t: Table, model: string, r: Route) {
    var key := RouteKey(model);
    if key in t then r == t[key] else exists k :: k in t && Contains(k, key) && t[k] == r
  }

  function FirstNamed(roster: seq<RosterEntry>, key: string): Option<nat> {
    FirstNamedFrom(roster, key, 0)
  }

  function FirstNamedFrom(roster: seq<RosterEntry>, key: string, i: nat): (r: Option<nat>)
    requires i <= |roster|
    ensures r.Some? ==> i <= r.value < |roster| && EqualFold(roster[r.value].name, key)
    ensures forall j :: i <= j < (if r.Some? then r.value else |roster|) ==> !EqualFold(roster[j].name, key)
    decreases |roster| - i
  {
    if i == |roster| then None
    else if EqualFold(roster[i].name, key) then Some(i)
    else FirstNamedFrom(roster, key, i + 1)
  }
}
