/** Where a request goes: pinned node, local slot, or peer; and the model list clients see. */
module Dispatch {
  import opened Wrappers
  import opened Text
  import opened Sorting
  import opened Placement
  import opened Registry
  import opened Routes

  datatype Target =
    | Pinned(addr: string)
    | External(slot: string)
    | Local(port: int)
    | Peer(route: Route)
    | NotFound
    | NoModel

  /** The target of a request that is not pinned: local first, then a peer, else nothing. */
  ghost predicate Dispatched(v: Rack, enabled: bool, table: Table, model: string, t: Target) {
    var at := Placement.Resolve(v, model);
    if at.Some? then
      var e := v[at.value];
      t == if e.slot.external != "" then External(Name(e.slot)) else Local(e.port)
    else if enabled && exists r :: Resolves(table, model, r)
    then t.Peer? && Resolves(table, model, t.route)
    else t == NotFound
  }

  /** A pin goes to the named node's address: the first roster entry of the name decides; without
      one, a polled peer of that name does. No address, no target. */
  ghost predicate PinnedTo(fed: Federation, node: string, t: Target)
    reads fed
  {
    var at := FirstNamed(fed.roster, node);
    if at.Some? then
      var addr := TrimSlashes(fed.roster[at.value].meshAddr);
      t == if addr == "" then NotFound else Pinned(addr)
    else if t.Pinned? then
      t.addr != "" &&
      exists u :: u in fed.health && EqualFold(fed.health[u].name, node) && TrimSlashes(fed.health[u].url) == t.addr
    else
      t == NotFound &&
      ((exists u :: u in fed.health && EqualFold(fed.health[u].name, node)) ==>
        exists u :: u in fed.health && EqualFold(fed.health[u].name, node) && TrimSlashes(fed.health[u].url) == "")
  }

  /** proxyByModel's choice. An empty `pin` is no pin; a pin to this node falls through. */
  method Choose(rig: Rig, fed: Federation, model: string, pin: string) returns (t: Target)
    requires rig.Valid()
    ensures model == "" ==> t == NoModel
    ensures model != "" && (pin == "" || !fed.enabled || IsSelf(fed, pin)) ==>
      Dispatched(rig.View(), fed.enabled, fed.routes, model, t)
    ensures model != "" && pin != "" && fed.enabled && !IsSelf(fed, pin) ==> PinnedTo(fed, Trim(pin), t)
  {
    hide Placement.Resolve, Resolves, EqualFold, Trim, TrimSlashes, RouteKey;
    if model == "" {
      return NoModel;
    }
    if pin != "" && fed.enabled {
      var self := fed.IsSelf(pin);
      if !self {
        var base, ok := fed.NodeAddr(pin);
        return if ok then Pinned(base) else NotFound;
      }
    }
    var here := rig.Resolve(model);
    if here.Some? {
      return if here.value.slot.external != "" then External(Name(here.value.slot)) else Local(here.value.port);
    }
    var away := fed.Resolve(model);
    t := if away.Some? then Peer(away.value) else NotFound;
  }

  ghost predicate IsSelf(fed: Federation, name: string)
    reads fed
  {
    NamesSelf(name, fed.SelfOf())
  }

  /** Where a request that is not pinned goes, literally: to the slot the handle means, by its own
      port or by its name when external; without one and with a federation, along the route of
      the handle's key, or else along some route whose key contains it; and nowhere otherwise. */
  lemma DispatchedIff(v: Rack, enabled: bool, table: Table, model: string, t: Target)
    ensures Dispatched(v, enabled, table, model, t) <==>
      if exists i: nat :: Preferred(v, model, i) then
        exists i: nat :: Preferred(v, model, i) &&
          t == if v[i].slot.external == "" then Local(v[i].port)
               else External(if v[i].slot.alias == "" then v[i].slot.model else v[i].slot.alias)
      else if enabled && RouteKey(model) in table then t == Peer(table[RouteKey(model)])
      else if enabled && exists k :: k in table && Contains(k, RouteKey(model)) then
        t.Peer? && exists k :: k in table && Contains(k, RouteKey(model)) && table[k] == t.route
      else t == NotFound
  {
    hide Placement.Resolve, Preferred, Contains, RouteKey;
    forall i: nat ensures Placement.Resolve(v, model) == Some(i) <==> Preferred(v, model, i) {
      ResolveIsPreferred(v, model, i);
    }
    if k :| k in table && Contains(k, RouteKey(model)) {
      assert RouteKey(model) !in table ==> Resolves(table, model, table[k]);
    }
    if RouteKey(model) in table {
      assert Resolves(table, model, table[RouteKey(model)]);
    }
  }

  function SlotNames(v: Rack): (names: seq<string>)
    ensures |names| == |v| && forall i :: 0 <= i < |v| ==> names[i] == Name(v[i].slot)
    ensures forall i :: 0 <= i < |v| ==> names[i] == if v[i].slot.alias == "" then v[i].slot.model else v[i].slot.alias
  {
    seq(|v|, i requires 0 <= i < |v| => Name(v[i].slot))
  }

  // ---- the model list --------------------------------------------------------------------

  function ModelOf(): Route -> string {
    (r: Route) => r.model
  }

  /** RemoteModels: every route once, sorted by model. */
  method RemoteModels(fed: Federation) returns (rs: seq<Route>)
    requires fed.Valid()
    ensures !fed.enabled ==> rs == []
    ensures fed.enabled ==> Sorted(rs, ModelOf()) && forall r :: r in rs <==> r in fed.routes.Values
  {
    hide RouteKey, Sorted, SortBy, DistinctBy;
    rs := [];
    if !fed.enabled {
      return;
    }
    NoneDistinct();
    var left := fed.routes.Keys;
    while left != {}
      invariant left <= fed.routes.Keys
      invariant DistinctBy(rs, ModelOf())
      invariant forall r :: r in rs <==> exists key :: key in fed.routes && key !in left && fed.routes[key] == r
      decreases left
    {
      var key :| key in left;
      ghost var before := left;
      left := left - {key};
      DistinctSnoc(rs, fed.routes[key], ModelOf());
      rs := rs + [fed.routes[key]];
      forall r | exists k :: k in fed.routes && k !in left && fed.routes[k] == r ensures r in rs {
        var k :| k in fed.routes && k !in left && fed.routes[k] == r;
        assert k == key || k !in before;
      }
    }
    SortSorts(rs, ModelOf());
    rs := SortBy(rs, ModelOf());
  }

  lemma NoneDistinct()
    ensures DistinctBy<Route>([], ModelOf())
  {
  }

  /** The names listed so far, folded. */
  ghost function Folded(ids: seq<string>): set<string> {
    set i | 0 <= i < |ids| :: Lower(ids[i])
  }

  ghost predicate AllApart(ids: seq<string>) {
    forall i, j :: 0 <= i < j < |ids| ==> Lower(ids[i]) != Lower(ids[j])
  }

  ghost predicate Routed(table: Table, id: string) {
    exists key :: key in table && table[key].model == id
  }

  /** The ids of /v1/models: the local slots in order, then the remote models whose folded name
      is not listed yet. Every slot and every routed model is named, none twice. */
  method ListModels(rig: Rig, fed: Federation) returns (ids: seq<string>)
    requires rig.Valid() && fed.Valid()
    ensures SlotNames(rig.View()) <= ids && AllApart(ids)
    ensures forall i :: |rig.instances| <= i < |ids| ==> Routed(fed.routes, ids[i])
    ensures !fed.enabled ==> ids == SlotNames(rig.View())
    ensures forall i, j :: |rig.instances| <= i < j < |ids| ==> Less(ids[i], ids[j])
    ensures fed.enabled ==> forall key :: key in fed.routes ==> Lower(fed.routes[key].model) in Folded(ids)
  {
    hide RouteKey, Lower, Sorted, Agree, AllApart, Folded, Routed, Less;
    ids := [];
    var seen := {};
    NothingListed();
    ghost var names := SlotNames(rig.View());
    SlotNamesApart(rig);
    for i := 0 to |rig.instances|
      invariant |ids| == i && ids == names[..i] && seen == Folded(ids) && AllApart(ids)
    {
      var name := Name(rig.instances[i].slot);
      ApartPrefix(names, i + 1);
      assert names[..i + 1] == ids + [name];
      FoldedSnoc(ids, name);
      seen := seen + {Lower(name)};
      ids := ids + [name];
    }
    assert |names| == |rig.instances| && names[..|names|] == names;
    var rs := RemoteModels(fed);
    for i := 0 to |rs|
      invariant names <= ids && seen == Folded(ids) && AllApart(ids)
      invariant forall j :: |names| <= j < |ids| ==> Routed(fed.routes, ids[j])
      invariant !fed.enabled ==> ids == names
      invariant forall j, k :: |names| <= j < k < |ids| ==> Less(ids[j], ids[k])
      invariant forall j, k :: |names| <= j < |ids| && i <= k < |rs| ==> Less(ids[j], rs[k].model)
      invariant forall k :: 0 <= k < i ==> Lower(rs[k].model) in seen
    {
      var r := rs[i];
      if Lower(r.model) in seen {
        continue;
      }
      assert fed.enabled && r in fed.routes.Values;
      RemoteSorted(rs, i);
      RoutedValue(fed.routes, r);
      ApartSnoc(ids, r.model);
      FoldedSnoc(ids, r.model);
      seen := seen + {Lower(r.model)};
      ids := ids + [r.model];
    }
    if fed.enabled {
      forall key | key in fed.routes ensures Lower(fed.routes[key].model) in Folded(ids) {
        assert fed.routes[key] in fed.routes.Values;
        var k :| 0 <= k < |rs| && rs[k] == fed.routes[key];
      }
    }
  }

  lemma RemoteSorted(rs: seq<Route>, i: nat)
    requires Sorted(rs, ModelOf()) && i < |rs|
    ensures forall k :: i < k < |rs| ==> Less(rs[i].model, rs[k].model)
  {
    hide Less;
    assert forall k :: i < k < |rs| ==> Less(ModelOf()(rs[i]), ModelOf()(rs[k]));
  }

  lemma NothingListed()
    ensures Folded([]) == {} && AllApart([])
  {
  }

  lemma RoutedValue(table: Table, r: Route)
    requires r in table.Values
    ensures Routed(table, r.model)
  {
  }

  lemma SlotNamesApart(rig: Rig)
    requires rig.Valid()
    ensures AllApart(SlotNames(rig.View()))
  {
    hide Lower, Agree;
    rig.ViewDistinct();
    var v := rig.View();
    forall i, j | 0 <= i < j < |v| ensures Lower(SlotNames(v)[i]) != Lower(SlotNames(v)[j]) {
      assert Key(v[i].slot) != Key(v[j].slot);
    }
  }

  lemma ApartPrefix(ids: seq<string>, n: nat)
    requires n <= |ids| && AllApart(ids)
    ensures AllApart(ids[..n])
  {
    hide Lower;
  }

  lemma ApartSnoc(ids: seq<string>, id: string)
    requires AllApart(ids) && Lower(id) !in Folded(ids)
    ensures AllApart(ids + [id])
  {
    hide Lower;
    assert forall i :: 0 <= i < |ids| ==> Lower(ids[i]) in Folded(ids);
  }

  lemma FoldedSnoc(ids: seq<string>, id: string)
    ensures Folded(ids + [id]) == Folded(ids) + {Lower(id)}
  {
    hide Lower;
    var more := ids + [id];
    assert more[|ids|] == id;
    forall x | x in Folded(ids) ensures x in Folded(more) {
      var i :| 0 <= i < |ids| && Lower(ids[i]) == x;
      assert more[i] == ids[i];
    }
  }

  // ---- every listed id is routable -------------------------------------------------------

  /** A slot answers to its own name. */
  lemma OwnNameResolves(v: Rack, i: nat)
    requires i < |v|
    ensures Placement.Resolve(v, Name(v[i].slot)).Some?
    ensures Key(v[Placement.Resolve(v, Name(v[i].slot)).value].slot) == Key(v[i].slot)
  {
    hide Lower;
  }

  /** Whatever id the list shows, a request for it gets a target. */
  lemma ListedIdHasTarget(v: Rack, enabled: bool, table: Table, id: string, t: Target)
    requires WellKeyed(table)
    requires (exists i :: 0 <= i < |v| && Name(v[i].slot) == id) || (enabled && exists key :: key in table && table[key].model == id)
    requires Dispatched(v, enabled, table, id, t)
    ensures t.Local? || t.External? || t.Peer?
  {
    hide Placement.Resolve, Lower, RouteKey;
    if i :| 0 <= i < |v| && Name(v[i].slot) == id {
      OwnNameResolves(v, i);
    } else {
      var key :| key in table && table[key].model == id;
      assert Resolves(table, id, table[key]);
    }
  }

  // ---- one hop is enough -----------------------------------------------------------------

  /** A node as its peers see it: what it has loaded and what it routes. */
  datatype Site = Site(rack: Rack, enabled: bool, table: Table)

  /** The offers of a round in which every peer answered with its current slots. */
  function CurrentOffers(world: map<string, Site>, peers: seq<string>): (os: seq<Offer>)
    requires forall p :: p in peers ==> p in world
    ensures |os| == |peers|
    ensures forall i :: 0 <= i < |peers| ==> os[i] == Offer(peers[i], peers[i], SlotNames(world[peers[i]].rack))
  {
    seq(|peers|, i requires 0 <= i < |peers| => Offer(peers[i], peers[i], SlotNames(world[peers[i]].rack)))
  }

  /** The slots that a route key can lead to have names without surrounding whitespace. */
  ghost predicate PlainFor(v: Rack, key: string) {
    forall i :: 0 <= i < |v| && RouteKey(Name(v[i].slot)) == key ==> Unpadded(Name(v[i].slot))
  }

  lemma LowerKeepsPadding(s: string)
    ensures Unpadded(Lower(s)) <==> Unpadded(s)
  {
  }

  lemma ResolvesIff(v: Rack, h: string)
    ensures Placement.Resolve(v, h).Some? <==> HasKey(v, Lower(h)) || exists e :: e in v && Matches(e, h)
  {
    hide Lower, Key, Matches;
  }

  /** A forwarded handle goes to a peer that has a slot under the handle's route key. */
  lemma ForwardedToServer(world: map<string, Site>, here: Site, peers: seq<string>, h: string, t: Target)
      returns (i: nat)
    requires forall p :: p in peers ==> p in world
    requires IsTable(here.table, CurrentOffers(world, peers)) && RouteKey(h) in here.table
    requires t.Peer? && Resolves(here.table, h, t.route)
    ensures t.route.peerUrl in peers && i < |world[t.route.peerUrl].rack|
    ensures RouteKey(Name(world[t.route.peerUrl].rack[i].slot)) == RouteKey(h)
  {
    hide RouteKey, FirstOffer, FirstModel;
    var offers := CurrentOffers(world, peers);
    var o := offers[FirstOffer(offers, RouteKey(h)).value];
    var m := FirstModel(o.models, RouteKey(h)).value;
    i :| 0 <= i < |o.models| && o.models[i] == m;
  }

  /** A handle that is not served here, and whose key is routed, is served by the peer it is
      forwarded to exactly when it has no surrounding whitespace or happens to match one of that
      peer's model ids: the route is found with the trimmed handle, but the request travels on
      untrimmed. */
  lemma ForwardedServedIff(world: map<string, Site>, here: Site, peers: seq<string>, h: string, t: Target)
    requires forall p :: p in peers ==> p in world && PlainFor(world[p].rack, RouteKey(h))
    requires here.enabled && IsTable(here.table, CurrentOffers(world, peers))
    requires Placement.Resolve(here.rack, h).None? && RouteKey(h) in here.table
    requires Dispatched(here.rack, here.enabled, here.table, h, t)
    ensures t.Peer? && t.route.peerUrl in peers
    ensures var there := world[t.route.peerUrl].rack;
      Placement.Resolve(there, h).Some? <==> Unpadded(h) || exists e :: e in there && Matches(e, h)
    ensures Unpadded(h) ==> HasKey(world[t.route.peerUrl].rack, Lower(h))
  {
    hide Lower, RouteKey, Unpadded, Placement.Resolve, Matches, IsTable;
    assert Resolves(here.table, h, here.table[RouteKey(h)]);
    var i := ForwardedToServer(world, here, peers, h, t);
    var there := world[t.route.peerUrl].rack;
    assert Unpadded(Name(there[i].slot));
    PaddedHandleIff(Name(there[i].slot), h);
    ResolvesIff(there, h);
    if HasKey(there, Lower(h)) {
      var j :| 0 <= j < |there| && Key(there[j].slot) == Lower(h);
      SameFoldSameKey(Name(there[j].slot), h);
      PaddedHandleIff(Name(there[j].slot), h);
    }
  }

  /** Slot i of v goes by the handle's route key and has no whitespace around its name. */
  ghost predicate PlainSlot(v: Rack, i: nat, h: string) {
    i < |v| && RouteKey(Name(v[i].slot)) == RouteKey(h) && Unpadded(Name(v[i].slot))
  }

  /** Whatever the slots are called: a handle without surrounding whitespace that folds to the name
      of a slot loaded somewhere among this node and its peers gets a target, and a peer it is
      forwarded to serves it exactly when that peer has a slot of that name without whitespace
      around it, or a model id that matches. */
  lemma OneHopIff(world: map<string, Site>, here: Site, peers: seq<string>, h: string, t: Target)
    requires forall p :: p in peers ==> p in world
    requires here.enabled && IsTable(here.table, CurrentOffers(world, peers))
    requires h != "" && Unpadded(h)
    requires HasKey(here.rack, Lower(h)) || exists p :: p in peers && HasKey(world[p].rack, Lower(h))
    requires Dispatched(here.rack, here.enabled, here.table, h, t)
    ensures t.Local? || t.External? || (t.Peer? && t.route.peerUrl in peers)
    ensures t.Peer? ==> var there := world[t.route.peerUrl].rack;
      (exists i: nat :: i < |there| && RouteKey(Name(there[i].slot)) == RouteKey(h)) &&
      (HasKey(there, Lower(h)) <==> exists i: nat :: PlainSlot(there, i, h)) &&
      (Placement.Resolve(there, h).Some? <==> (exists i: nat :: PlainSlot(there, i, h)) || exists e :: e in there && Matches(e, h))
  {
    hide Lower, RouteKey, FirstOffer, Unpadded, Serves, HasKey, Placement.Resolve, Matches, PlainSlot;
    var key := Lower(h);
    HandleKey(h);
    if HasKey(here.rack, key) {
      KeyResolves(here.rack, h);
    } else if Placement.Resolve(here.rack, h).None? {
      var offers := CurrentOffers(world, peers);
      var p :| p in peers && HasKey(world[p].rack, key);
      var i :| 0 <= i < |peers| && peers[i] == p;
      PeerServes(world[p].rack, offers[i], h);
      assert FirstOffer(offers, key).Some?;
      assert Resolves(here.table, h, here.table[key]);
      var j := ForwardedToServer(world, here, peers, h, t);
      var there := world[t.route.peerUrl].rack;
      PlainSlotIff(there, h);
      ResolvesIff(there, h);
    }
  }

  lemma PlainSlotIff(v: Rack, h: string)
    requires Unpadded(h)
    ensures HasKey(v, Lower(h)) <==> exists i: nat :: PlainSlot(v, i, h)
  {
    hide Lower, RouteKey, Unpadded;
    if HasKey(v, Lower(h)) {
      var i :| 0 <= i < |v| && Key(v[i].slot) == Lower(h);
      SameFoldSameKey(Name(v[i].slot), h);
      PaddedHandleIff(h, Name(v[i].slot));
      assert PlainSlot(v, i, h);
    }
    if i: nat :| PlainSlot(v, i, h) {
      PaddedHandleIff(Name(v[i].slot), h);
    }
  }

  /** So one hop suffices when the slots meant have names without surrounding whitespace: the
      handle is served here, or the very peer it is forwarded to resolves it to one of its own
      slots, by name. */
  lemma OneHop(world: map<string, Site>, here: Site, peers: seq<string>, h: string, t: Target)
    requires forall p :: p in peers ==> p in world && PlainFor(world[p].rack, RouteKey(h))
    requires here.enabled && IsTable(here.table, CurrentOffers(world, peers))
    requires h != "" && Unpadded(h)
    requires HasKey(here.rack, Lower(h)) || exists p :: p in peers && HasKey(world[p].rack, Lower(h))
    requires Dispatched(here.rack, here.enabled, here.table, h, t)
    ensures t.Local? || t.External? ||
      (t.Peer? && t.route.peerUrl in peers && HasKey(world[t.route.peerUrl].rack, Lower(h)) &&
        Placement.Resolve(world[t.route.peerUrl].rack, h).Some?)
  {
    hide Lower, RouteKey, Unpadded, HasKey, Placement.Resolve, Matches, Dispatched, IsTable;
    OneHopIff(world, here, peers, h, t);
    if t.Peer? {
      var there := world[t.route.peerUrl].rack;
      var i: nat :| i < |there| && RouteKey(Name(there[i].slot)) == RouteKey(h);
      assert PlainSlot(there, i, h);
    }
  }

  lemma HandleKey(h: string)
    requires h != "" && Unpadded(h)
    ensures RouteKey(h) == Lower(h) != ""
  {
    TrimUnpadded(h);
  }

  lemma KeyResolves(v: Rack, h: string)
    requires HasKey(v, Lower(h))
    ensures Placement.Resolve(v, h).Some? && Key(v[Placement.Resolve(v, h).value].slot) == Lower(h)
  {
    hide Lower;
  }

  lemma PeerServes(v: Rack, o: Offer, h: string)
    requires o.models == SlotNames(v) && RouteKey(h) == Lower(h) != "" && HasKey(v, Lower(h))
    ensures Serves(o, Lower(h))
  {
    hide Lower, RouteKey;
    var i :| 0 <= i < |v| && Key(v[i].slot) == Lower(h);
    SameFoldSameKey(Name(v[i].slot), h);
    assert o.models[i] in o.models;
  }

  /** Of two strings with one route key, the first without surrounding whitespace, the second
      folds to the first exactly when it has none either. */
  lemma PaddedHandleIff(name: string, h: string)
    requires Unpadded(name) && RouteKey(h) == RouteKey(name)
    ensures Lower(h) == Lower(name) <==> Unpadded(h)
  {
    hide Lower, Unpadded, Trim;
    TrimUnpadded(name);
    TrimUnpadded(h);
    LowerKeepsPadding(name);
    LowerKeepsPadding(h);
  }

  // ---- a request that is never served ----------------------------------------------------

  /** A node with one slot, "m", and one route for it. */
  function Pair(peer: string): Site {
    Site([Entry(Slot("x", "m", [], "", "", "", 0, ""), "x", 9100, Healthy)], true,
         map["m" := Route("m", peer, peer)])
  }

  /** Two peered nodes, each with a slot that serves "m" and an up-to-date table: the handle " m"
      is forwarded by each to the other, and to nothing else, without end. */
  lemma PaddedHandleLoops(a: string, b: string)
    requires a != b
    ensures var world := map[a := Pair(b), b := Pair(a)];
      IsTable(world[a].table, CurrentOffers(world, [b])) && IsTable(world[b].table, CurrentOffers(world, [a])) &&
      RouteKey(" m") == "m" && HasKey(world[a].rack, "m") && HasKey(world[b].rack, "m") &&
      (forall t :: Dispatched(world[a].rack, world[a].enabled, world[a].table, " m", t)
                   <==> t == Peer(Route("m", b, b))) &&
      (forall t :: Dispatched(world[b].rack, world[b].enabled, world[b].table, " m", t)
                   <==> t == Peer(Route("m", a, a)))
  {
    hide RouteKey, IsTable, Dispatched, Pair, HasKey;
    var world := map[a := Pair(b), b := Pair(a)];
    PairSends(a);
    PairSends(b);
    assert CurrentOffers(world, [b]) == [Offer(b, b, ["m"])];
    assert CurrentOffers(world, [a]) == [Offer(a, a, ["m"])];
  }

  lemma PairSends(peer: string)
    ensures RouteKey(" m") == "m" && HasKey(Pair(peer).rack, "m") && SlotNames(Pair(peer).rack) == ["m"]
    ensures IsTable(Pair(peer).table, [Offer(peer, peer, ["m"])])
    ensures forall t :: Dispatched(Pair(peer).rack, Pair(peer).enabled, Pair(peer).table, " m", t)
                        <==> t == Peer(Route("m", peer, peer))
  {
    hide Placement.Resolve, IsTable, RouteKey;
    PaddedKey();
    var site := Pair(peer);
    ResolvesIff(site.rack, " m");
    assert Key(site.rack[0].slot) == "m";
    SingleTable(peer);
    assert Resolves(site.table, " m", Route("m", peer, peer));
    forall t ensures Dispatched(site.rack, site.enabled, site.table, " m", t) <==> t == Peer(Route("m", peer, peer)) {
    }
  }

  lemma PaddedKey()
    ensures RouteKey(" m") == RouteKey("m") == Lower("m") == "m" && |Lower(" m")| == 2 && |Lower("x")| == 1
  {
    assert " m"[1..] == "m";
    assert Trim(" m") == "m" == Trim("m");
  }

  lemma SingleTable(peer: string)
    requires RouteKey("m") == "m"
    ensures IsTable(map["m" := Route("m", peer, peer)], [Offer(peer, peer, ["m"])])
  {
    hide RouteKey;
    assert [Offer(peer, peer, ["m"])][1..] == [] && ["m"][1..] == [];
  }
}
