/** Static peers: every node polls the peers it lists, in rounds whose answers arrive one by
    one, while slots are loaded and unloaded everywhere. */
module Gossip {
  import opened Wrappers
  import opened Text
  import opened Routes
  import opened HubSystem
  import Dispatch

  /** A round in progress: the answers in so far, by peer position. */
  datatype Round = Round(answers: map<nat, PeerHealth>)

  /** A node, named by its URL. */
  datatype Node = Node(slots: seq<string>, peers: seq<string>, table: Table, round: Option<Round>)

  type Mesh = map<string, Node>

  datatype Source =
    | FedLocal                         // /api/fed/local: slot names only
    | Aggregate(models: seq<string>)   // /v1/models: slots and remote models
    | Down

  datatype Event =
    | Load(node: string, slot: string)
    | Unload(node: string, slot: string)
    | Begin(node: string)
    | Fetch(node: string, peer: nat, source: Source)
    | End(node: string)

  /** What a peer's /v1/models lists: its slots, and the routed models no slot's name hides. */
  ghost predicate IsAggregate(models: seq<string>, n: Node) {
    forall m :: m in models <==> m in n.slots || Remote(n, m)
  }

  ghost predicate Remote(n: Node, m: string) {
    (exists key :: key in n.table && n.table[key].model == m) && forall x :: x in n.slots ==> Lower(x) != Lower(m)
  }

  /** That is the list the router hands out: ids as ListModels promises them. */
  lemma ListIsAggregate(ids: seq<string>, n: Node)
    requires n.slots <= ids && Dispatch.AllApart(ids) && WellKeyed(n.table)
    requires forall i :: |n.slots| <= i < |ids| ==> Dispatch.Routed(n.table, ids[i])
    requires forall key :: key in n.table ==> Lower(n.table[key].model) in Dispatch.Folded(ids)
    ensures IsAggregate(ids, n)
  {
    hide Lower, RouteKey;
    forall m ensures m in ids <==> m in n.slots || Remote(n, m) {
      if i :| 0 <= i < |ids| && ids[i] == m {
        assert i < |n.slots| || Dispatch.Routed(n.table, ids[i]);
      }
      if Remote(n, m) {
        var key :| key in n.table && n.table[key].model == m;
        assert Lower(m) in Dispatch.Folded(ids);
        var j :| 0 <= j < |ids| && Lower(ids[j]) == Lower(m);
        assert j >= |n.slots|;
        SameFoldSameKey(ids[j], m);
      }
    }
  }

  function Without(slots: seq<string>, slot: string): (r: seq<string>)
    ensures forall x :: x in r <==> x in slots && x != slot
  {
    if slots == [] then []
    else (if slots[0] == slot then [] else [slots[0]]) + Without(slots[1..], slot)
  }

  /** The answers in the order of the peer list. */
  function Results(r: Round, n: nat): (hs: seq<PeerHealth>)
    requires forall i :: 0 <= i < n ==> i in r.answers
    ensures |hs| == n && forall i :: 0 <= i < n ==> hs[i] == r.answers[i]
  {
    seq(n, i requires 0 <= i < n => r.answers[i])
  }

  ghost predicate Enabled(s: Mesh, e: Event) {
    e.node in s &&
    var n := s[e.node];
    match e
    case Load(_, _) => true
    case Unload(_, _) => true
    case Begin(_) => n.round.None?
    case Fetch(_, i, source) =>
      n.round.Some? && i < |n.peers| &&
      (source.Down? || (n.peers[i] in s && (source.Aggregate? ==> IsAggregate(source.models, s[n.peers[i]]))))
    case End(_) => n.round.Some? && forall i :: 0 <= i < |n.peers| ==> i in n.round.value.answers
  }

  /** The answer to one request of a round, as the peer stands when it answers. */
  function AnswerTo(s: Mesh, e: Event): PeerHealth
    requires e.Fetch? && e.node in s && e.peer < |s[e.node].peers|
    requires e.source.FedLocal? ==> s[e.node].peers[e.peer] in s
  {
    var url := s[e.node].peers[e.peer];
    match e.source
    case FedLocal => PeerHealth(url, url, true, s[url].slots)
    case Aggregate(models) => PeerHealth(url, url, true, models)
    case Down => PeerHealth(url, url, false, [])
  }

  ghost function Step(s: Mesh, e: Event): Mesh
    requires Enabled(s, e)
  {
    var n := s[e.node];
    match e
    case Load(x, slot) => s[x := n.(slots := n.slots + [slot])]
    case Unload(x, slot) => s[x := n.(slots := Without(n.slots, slot))]
    case Begin(x) => s[x := n.(round := Some(Round(map[])))]
    case Fetch(x, i, _) => s[x := n.(round := Some(Round(n.round.value.answers[i := AnswerTo(s, e)])))]
    case End(x) =>
      s[x := n.(round := None, table := TableOf(PollOffers(Results(n.round.value, |n.peers|))))]
  }

  /** The states a mesh goes through, one more than there are events. */
  ghost predicate IsRun(states: seq<Mesh>, es: seq<Event>) {
    |states| == |es| + 1 &&
    forall i :: 0 <= i < |es| ==> Enabled(states[i], es[i]) && states[i + 1] == Step(states[i], es[i])
  }

  /** One run after another. */
  lemma RunsJoin(a: seq<Mesh>, ea: seq<Event>, b: seq<Mesh>, eb: seq<Event>)
    requires IsRun(a, ea) && IsRun(b, eb) && a[|ea|] == b[0]
    ensures IsRun(a + b[1..], ea + eb)
    ensures (a + b[1..])[0] == a[0] && (a + b[1..])[|ea + eb|] == b[|eb|]
  {
    hide Enabled, Step;
    var states, es := a + b[1..], ea + eb;
    forall i | 0 <= i < |es| ensures Enabled(states[i], es[i]) && states[i + 1] == Step(states[i], es[i]) {
      if i >= |ea| {
        assert states[i] == b[i - |ea|] && es[i] == eb[i - |ea|] && states[i + 1] == b[i - |ea| + 1];
      }
    }
  }

  // ---- a model nobody serves -------------------------------------------------------------

  predicate Mentions(models: seq<string>, key: string) {
    exists m :: m in models && RouteKey(m) == key
  }

  /** No node has a slot for the key. */
  ghost predicate Unserved(s: Mesh, key: string) {
    forall x :: x in s ==> !Mentions(s[x].slots, key)
  }

  /** No step from p to before q brings a slot for the key. */
  predicate NoneLoaded(es: seq<Event>, p: nat, q: nat, key: string)
    requires p <= q <= |es|
  {
    forall i :: p <= i < q ==> !(es[i].Load? && RouteKey(es[i].slot) == key)
  }

  /** No step from p to before q falls back to /v1/models. */
  predicate NoFallback(es: seq<Event>, p: nat, q: nat)
    requires p <= q <= |es|
  {
    forall i :: p <= i < q ==> !(es[i].Fetch? && es[i].source.Aggregate?)
  }

  lemma UnservedStays(s: Mesh, e: Event, key: string)
    requires Enabled(s, e) && Unserved(s, key) && !(e.Load? && RouteKey(e.slot) == key)
    ensures Unserved(Step(s, e), key)
  {
    hide RouteKey, TableOf, PollOffers;
    var t := Step(s, e);
    assert !Mentions(s[e.node].slots, key);
    forall m | m in t[e.node].slots ensures RouteKey(m) != key {
      assert m in s[e.node].slots || (e.Load? && m == e.slot);
    }
  }

  lemma {:induction false} UnservedRun(states: seq<Mesh>, es: seq<Event>, p: nat, q: nat, key: string)
    requires IsRun(states, es) && p <= q <= |es| && Unserved(states[p], key) && NoneLoaded(es, p, q, key)
    ensures Unserved(states[q], key)
  {
    hide RouteKey, Unserved, Enabled, Step;
    if p < q {
      UnservedRun(states, es, p, q - 1, key);
      UnservedStays(states[q - 1], es[q - 1], key);
    }
  }

  // ---- tables ----------------------------------------------------------------------------

  ghost predicate AllWellKeyed(s: Mesh) {
    forall x :: x in s ==> WellKeyed(s[x].table)
  }

  lemma WellKeyedStays(s: Mesh, e: Event)
    requires Enabled(s, e) && AllWellKeyed(s)
    ensures AllWellKeyed(Step(s, e))
  {
    hide WellKeyed, TableOf, PollOffers;
    if e.End? {
      var offers := PollOffers(Results(s[e.node].round.value, |s[e.node].peers|));
      TableOfIs(offers);
      TablesAreWellKeyed(TableOf(offers), offers);
    }
  }

  lemma {:induction false} WellKeyedRun(states: seq<Mesh>, es: seq<Event>, n: nat)
    requires IsRun(states, es) && n <= |es| && AllWellKeyed(states[0])
    ensures AllWellKeyed(states[n])
  {
    hide AllWellKeyed, Enabled, Step;
    if n > 0 {
      WellKeyedRun(states, es, n - 1);
      WellKeyedStays(states[n - 1], es[n - 1]);
    }
  }

  /** An answer that makes a route for the key. */
  predicate Carries(h: PeerHealth, key: string) {
    h.online && key != "" && Mentions(h.models, key)
  }

  /** After a round, a key is routed exactly when one of its answers carries it. */
  lemma EndRoutesIff(s: Mesh, x: string, key: string)
    requires Enabled(s, End(x))
    ensures key in Step(s, End(x))[x].table <==>
      exists i :: 0 <= i < |s[x].peers| && Carries(s[x].round.value.answers[i], key)
  {
    hide RouteKey, TableOf, FirstOffer, Carries;
    var results := Results(s[x].round.value, |s[x].peers|);
    var offers := PollOffers(results);
    TableOfIs(offers);
    OffersCarry(results, key);
    if o :| o in offers && Serves(o, key) {
      assert FirstOffer(offers, key).Some?;
    }
    if FirstOffer(offers, key).Some? {
      assert offers[FirstOffer(offers, key).value] in offers;
    }
  }

  lemma {:induction false} OffersCarry(results: seq<PeerHealth>, key: string)
    ensures (exists o :: o in PollOffers(results) && Serves(o, key))
       <==> exists i :: 0 <= i < |results| && Carries(results[i], key)
  {
    hide RouteKey, FirstModel, Serves;
    if results != [] {
      var init, h := results[..|results| - 1], results[|results| - 1];
      OffersCarry(init, key);
      ServesModel(Offer(h.name, h.url, h.models), key);
    }
  }

  /** An aggregated answer of a peer without a slot for the key mentions it exactly when that
      peer's own table routes it. */
  lemma AggregateMentionsIff(models: seq<string>, n: Node, key: string)
    requires IsAggregate(models, n) && WellKeyed(n.table) && !Mentions(n.slots, key)
    ensures key != "" && Mentions(models, key) <==> key in n.table
  {
    hide RouteKey, Lower;
    if key in n.table {
      var m := n.table[key].model;
      forall x | x in n.slots ensures Lower(x) != Lower(m) {
        if Lower(x) == Lower(m) {
          SameFoldSameKey(x, m);
        }
      }
      assert Remote(n, m);
    }
  }

  // ---- what a round has heard ------------------------------------------------------------

  /** Of the requests from p to before q, k is x's last one to its peer number i. */
  ghost predicate LastAsked(es: seq<Event>, x: string, p: nat, q: nat, i: nat, k: nat) {
    p <= k < q <= |es| && es[k].Fetch? && es[k].node == x && es[k].peer == i &&
    forall j :: k < j < q ==> !(es[j].Fetch? && es[j].node == x && es[j].peer == i)
  }

  /** Begun at p - 1 and not ended before q: x's round from p to q. */
  ghost predicate RoundOf(states: seq<Mesh>, es: seq<Event>, x: string, p: nat, q: nat) {
    IsRun(states, es) && 1 <= p <= q <= |es| && es[p - 1] == Begin(x) && forall j :: p <= j < q ==> es[j] != End(x)
  }

  ghost predicate Asked(es: seq<Event>, x: string, p: nat, q: nat, i: nat) {
    exists k: nat :: LastAsked(es, x, p, q, i, k)
  }

  /** The answers x holds at q are the answers to the last request made to each peer. */
  ghost predicate Heard(states: seq<Mesh>, es: seq<Event>, x: string, p: nat, q: nat)
    requires |states| == |es| + 1 && q <= |es|
  {
    x in states[q] && states[q][x].round.Some? &&
    (forall i: nat, k: nat :: LastAsked(es, x, p, q, i, k) ==>
      Enabled(states[k], es[k]) && (i, AnswerTo(states[k], es[k])) in states[q][x].round.value.answers.Items) &&
    forall i: nat :: i in states[q][x].round.value.answers ==> Asked(es, x, p, q, i)
  }

  lemma {:induction false} RoundHeard(states: seq<Mesh>, es: seq<Event>, x: string, p: nat, q: nat)
    requires RoundOf(states, es, x, p, q)
    ensures Heard(states, es, x, p, q)
  {
    hide RouteKey, TableOf, PollOffers, AnswerTo, IsAggregate, Heard;
    if p == q {
      NothingHeard(states, es, x, p);
    } else {
      RoundHeard(states, es, x, p, q - 1);
      RoundHearsOn(states, es, x, p, q - 1);
    }
  }

  lemma NothingHeard(states: seq<Mesh>, es: seq<Event>, x: string, p: nat)
    requires RoundOf(states, es, x, p, p)
    ensures Heard(states, es, x, p, p)
  {
    hide AnswerTo, IsAggregate, TableOf, PollOffers;
    assert states[p] == Step(states[p - 1], es[p - 1]);
  }

  lemma AskedBefore(es: seq<Event>, x: string, p: nat, q: nat, i: nat, k: nat)
    requires q < |es|
    ensures LastAsked(es, x, p, q + 1, i, k) && k < q ==> LastAsked(es, x, p, q, i, k)
    ensures LastAsked(es, x, p, q, i, k) && !(es[q].Fetch? && es[q].node == x && es[q].peer == i) ==>
      LastAsked(es, x, p, q + 1, i, k)
  {
  }

  lemma RoundHearsOn(states: seq<Mesh>, es: seq<Event>, x: string, p: nat, q: nat)
    requires RoundOf(states, es, x, p, q + 1) && Heard(states, es, x, p, q)
    ensures Heard(states, es, x, p, q + 1)
  {
    hide RouteKey, TableOf, PollOffers, AnswerTo, IsAggregate;
    var s, e, t := states[q], es[q], states[q + 1];
    assert Enabled(s, e) && t == Step(s, e);
    assert !(e.Fetch? && e.node == x) ==> t[x].round == s[x].round;
    var before, after := s[x].round.value.answers, t[x].round.value.answers;
    forall i: nat, k: nat | LastAsked(es, x, p, q + 1, i, k)
      ensures Enabled(states[k], es[k]) && (i, AnswerTo(states[k], es[k])) in after.Items
    {
      AskedBefore(es, x, p, q, i, k);
      if k < q {
        assert (i, AnswerTo(states[k], es[k])) in before.Items;
        assert after[i] == before[i];
      }
    }
    forall i: nat | i in after ensures Asked(es, x, p, q + 1, i) {
      if e.Fetch? && e.node == x && e.peer == i {
        assert LastAsked(es, x, p, q + 1, i, q);
      } else {
        assert Asked(es, x, p, q, i);
        var k: nat :| LastAsked(es, x, p, q, i, k);
        AskedBefore(es, x, p, q, i, k);
      }
    }
  }

  /** An answer that keeps a dead key alive: it came from /v1/models, and the peer that gave it
      routed the key at that moment. */
  ghost predicate Echoes(s: Mesh, e: Event, key: string) {
    e.Fetch? && e.source.Aggregate? && e.node in s && e.peer < |s[e.node].peers| && s[e.node].peers[e.peer] in s &&
    key in s[s[e.node].peers[e.peer]].table
  }

  lemma AnswerCarriesIff(s: Mesh, e: Event, key: string)
    requires Enabled(s, e) && e.Fetch? && Unserved(s, key) && AllWellKeyed(s)
    ensures Carries(AnswerTo(s, e), key) <==> Echoes(s, e, key)
  {
    hide RouteKey, WellKeyed, IsAggregate, Mentions;
    var url := s[e.node].peers[e.peer];
    if e.source.Aggregate? {
      AggregateMentionsIff(e.source.models, s[url], key);
    }
  }

  /** The exact condition, under any peering graph and any interleaving: a round begun while
      nobody serves the key leaves a route for it exactly when the last answer of some peer came
      from /v1/models while that peer still routed the key. */
  lemma KeptAliveIff(states: seq<Mesh>, es: seq<Event>, x: string, p: nat, q: nat, key: string)
    requires RoundOf(states, es, x, p, q) && q < |es| && es[q] == End(x)
    requires AllWellKeyed(states[0]) && Unserved(states[p], key) && NoneLoaded(es, p, q, key)
    ensures key in states[q + 1][x].table <==>
      exists i: nat, k: nat :: LastAsked(es, x, p, q, i, k) && Echoes(states[k], es[k], key)
  {
    hide RouteKey, Carries, Echoes, Unserved, AllWellKeyed, AnswerTo, TableOf, PollOffers, IsAggregate;
    RoundHeard(states, es, x, p, q);
    EndRoutesIff(states[q], x, key);
    var answers := states[q][x].round.value.answers;
    forall i: nat, k: nat | LastAsked(es, x, p, q, i, k)
      ensures i in answers && k < |es| && (Carries(answers[i], key) <==> Echoes(states[k], es[k], key))
    {
      assert (i, AnswerTo(states[k], es[k])) in answers.Items;
      UnservedRun(states, es, p, k, key);
      WellKeyedRun(states, es, k);
      AnswerCarriesIff(states[k], es[k], key);
    }
    if i: nat, k: nat :| LastAsked(es, x, p, q, i, k) && Echoes(states[k], es[k], key) {
      assert Enabled(states[k], es[k]) && i < |states[k][x].peers|;
      PeersFixed(states, es, x, k, q);
    }
    if i: nat :| i < |states[q][x].peers| && Carries(answers[i], key) {
      assert Asked(es, x, p, q, i);
      var k: nat :| LastAsked(es, x, p, q, i, k);
    }
  }

  lemma {:induction false} PeersFixed(states: seq<Mesh>, es: seq<Event>, x: string, p: nat, q: nat)
    requires IsRun(states, es) && p <= q <= |es| && x in states[p]
    ensures x in states[q] && states[q][x].peers == states[p][x].peers
  {
    hide RouteKey, TableOf, PollOffers, AnswerTo, IsAggregate;
    if p < q {
      PeersFixed(states, es, x, p, q - 1);
      assert states[q] == Step(states[q - 1], es[q - 1]);
    }
  }

  // ---- without the fallback --------------------------------------------------------------

  ghost predicate RoundFree(s: Mesh, x: string, key: string) {
    x in s &&
    (s[x].round.Some? ==> forall i :: i in s[x].round.value.answers ==> !Mentions(s[x].round.value.answers[i].models, key))
  }

  /** No answer of a round begun while nobody serves the key names it. */
  lemma RoundStaysFree(s: Mesh, e: Event, x: string, key: string)
    requires Enabled(s, e) && Unserved(s, key) && !(e.Fetch? && e.source.Aggregate?)
    requires RoundFree(s, x, key)
    ensures RoundFree(Step(s, e), x, key)
  {
    hide RouteKey, TableOf, PollOffers;
  }

  /** A finished round that never heard the key leaves no route for it. */
  lemma FreeRoundFreeTable(s: Mesh, x: string, key: string)
    requires Enabled(s, End(x)) && RoundFree(s, x, key)
    ensures key !in Step(s, End(x))[x].table
  {
    hide RouteKey, Step, Mentions;
    EndRoutesIff(s, x, key);
  }

  /** Once a clean round is under way, whatever x hears stays clean. */
  lemma {:induction false} CleanRound(states: seq<Mesh>, es: seq<Event>, x: string, p: nat, q: nat, key: string)
    requires IsRun(states, es) && p <= q <= |es| && Unserved(states[p], key)
    requires NoneLoaded(es, p, q, key) && NoFallback(es, p, q) && RoundFree(states[p], x, key)
    ensures RoundFree(states[q], x, key)
    ensures key !in states[p][x].table ==> key !in states[q][x].table
  {
    hide RouteKey, TableOf, PollOffers, Unserved, RoundFree, Mentions, AnswerTo;
    if p < q {
      assert Enabled(states[q - 1], es[q - 1]) && states[q] == Step(states[q - 1], es[q - 1]);
      RoundFreeHas(states[p], x, key);
      CleanRound(states, es, x, p, q - 1, key);
      UnservedRun(states, es, p, q - 1, key);
      RoundStaysFree(states[q - 1], es[q - 1], x, key);
      RoundFreeHas(states[q - 1], x, key);
      if es[q - 1] == End(x) {
        FreeRoundFreeTable(states[q - 1], x, key);
      }
    }
    RoundFreeHas(states[q], x, key);
  }

  lemma RoundFreeHas(s: Mesh, x: string, key: string)
    ensures RoundFree(s, x, key) ==> x in s
  {
  }

  /** Gossip over /api/fed/local does not keep a dead model alive: from any mesh state in which
      nobody serves the key, once a node has begun (p) and finished (q) a round, it holds no
      route for the key and never gets one again, under any peering graph and any
      interleaving. */
  lemma GossipForgets(states: seq<Mesh>, es: seq<Event>, x: string, p: nat, q: nat, n: nat, key: string)
    requires IsRun(states, es) && p < q < n <= |es| && es[p] == Begin(x) && es[q] == End(x)
    requires Unserved(states[p], key) && NoneLoaded(es, p, n, key) && NoFallback(es, p, n)
    ensures x in states[n] && key !in states[n][x].table && Unserved(states[n], key)
  {
    hide RouteKey, Unserved, Mentions, AnswerTo, TableOf, PollOffers, IsAggregate;
    assert states[p + 1] == Step(states[p], Begin(x)) && states[q + 1] == Step(states[q], End(x));
    UnservedRun(states, es, p, p + 1, key);
    UnservedRun(states, es, p, q + 1, key);
    UnservedRun(states, es, p, n, key);
    CleanRound(states, es, x, p + 1, q, key);
    FreeRoundFreeTable(states[q], x, key);
    CleanRound(states, es, x, q + 1, n, key);
  }

  // ---- why peers must not poll the aggregated list ---------------------------------------

  /** Two nodes that list each other and each route a model through the other. */
  ghost predicate Echo(s: Mesh, a: string, b: string, m: string) {
    a in s && b in s && a != b &&
    s[a].slots == [] && s[b].slots == [] && s[a].peers == [b] && s[b].peers == [a] &&
    s[a].round.None? && s[b].round.None? &&
    s[a].table == map[RouteKey(m) := Route(m, b, b)] && s[b].table == map[RouteKey(m) := Route(m, a, a)]
  }

  /** A whole round of a node that has one peer. */
  function RoundEvents(x: string, source: Source): seq<Event> {
    [Begin(x), Fetch(x, 0, source), End(x)]
  }

  /** A round whose one answer is just the model m ends with the route to it. */
  lemma OneRound(s: Mesh, x: string, peer: string, m: string, source: Source) returns (states: seq<Mesh>)
    requires x != peer && x in s && peer in s && s[x].peers == [peer] && s[x].round.None? && RouteKey(m) != ""
    requires match source case FedLocal => s[peer].slots == [m]
                           case Aggregate(models) => models == [m] && IsAggregate(models, s[peer])
                           case Down => false
    ensures IsRun(states, RoundEvents(x, source)) && states[0] == s
    ensures states[3] == s[x := s[x].(table := map[RouteKey(m) := Route(m, peer, peer)])]
  {
    hide RouteKey, TableOf, PollOffers, Lower;
    var n, answer := s[x], PeerHealth(peer, peer, true, [m]);
    var s1 := s[x := n.(round := Some(Round(map[])))];
    var s2 := s[x := n.(round := Some(Round(map[0 := answer])))];
    assert Step(s, Begin(x)) == s1;
    assert Step(s1, Fetch(x, 0, source)) == s2;
    assert Results(Round(map[0 := answer]), 1) == [answer];
    SingleOffer(answer, m);
    states := [s, s1, s2, s[x := n.(table := map[RouteKey(m) := Route(m, peer, peer)])]];
  }

  /** What Echo shows keeps itself up: nobody serves the model, yet a round over the fallback
      leaves the mesh as it was. */
  lemma EchoStays(s: Mesh, a: string, b: string, m: string) returns (states: seq<Mesh>)
    requires Echo(s, a, b, m) && RouteKey(m) != "" && s.Keys == {a, b}
    ensures Unserved(s, RouteKey(m))
    ensures IsRun(states, RoundEvents(a, Aggregate([m]))) && states[0] == s == states[3]
  {
    hide RouteKey, Lower, Enabled, Step;
    assert s[b].table[RouteKey(m)].model == m;
    assert IsAggregate([m], s[b]);
    states := OneRound(s, a, b, m, Aggregate([m]));
    assert s[a := s[a]] == s;
  }

  /** Two nodes that list each other, fresh from start-up. */
  function Peered(a: string, b: string): Mesh {
    map[a := Node([], [b], map[], None), b := Node([], [a], map[], None)]
  }

  function EchoRun(a: string, b: string, m: string): seq<Event> {
    [Load(a, m)] + RoundEvents(b, FedLocal) + RoundEvents(a, Aggregate([m])) + [Unload(a, m)]
  }

  /** With the /v1/models fallback the promise is false: a model is loaded at one of two peered
      nodes, heard of, echoed back through the aggregated list and unloaded; from then on nobody
      serves it, and both nodes go on routing it to each other. */
  lemma AggregateKeepsAlive(a: string, b: string, m: string) returns (states: seq<Mesh>)
    requires a != b && RouteKey(m) != ""
    ensures IsRun(states, EchoRun(a, b, m)) && states[0] == Peered(a, b)
    ensures var s := states[8]; Echo(s, a, b, m) && s.Keys == {a, b} && Unserved(s, RouteKey(m))
  {
    hide RouteKey, Lower, Enabled, Step, IsRun, Peered, Echo, Unserved;
    var first := LoadsFirst(a, b, m);
    var heard := PeerHears(first[1], a, b, m);
    RunsJoin(first, [Load(a, m)], heard, RoundEvents(b, FedLocal));
    var so := first + heard[1..];
    var echoed := EchoHeard(so[4], a, b, m);
    RunsJoin(so, [Load(a, m)] + RoundEvents(b, FedLocal), echoed, RoundEvents(a, Aggregate([m])));
    var far := so + echoed[1..];
    var last := UnloadsLast(far[7], a, b, m);
    RunsJoin(far, [Load(a, m)] + RoundEvents(b, FedLocal) + RoundEvents(a, Aggregate([m])), last, [Unload(a, m)]);
    states := far + last[1..];
  }

  lemma LoadsFirst(a: string, b: string, m: string) returns (states: seq<Mesh>)
    requires a != b
    ensures IsRun(states, [Load(a, m)]) && |states| == 2 && states[0] == Peered(a, b)
    ensures states[1] == map[a := Node([m], [b], map[], None), b := Node([], [a], map[], None)]
  {
    var s, t := Peered(a, b), map[a := Node([m], [b], map[], None), b := Node([], [a], map[], None)];
    assert [] + [m] == [m];
    assert Step(s, Load(a, m)) == t;
    states := [s, t];
  }

  lemma PeerHears(s: Mesh, a: string, b: string, m: string) returns (states: seq<Mesh>)
    requires a != b && RouteKey(m) != ""
    requires s == map[a := Node([m], [b], map[], None), b := Node([], [a], map[], None)]
    ensures IsRun(states, RoundEvents(b, FedLocal)) && |states| == 4 && states[0] == s
    ensures states[3] == map[a := Node([m], [b], map[], None), b := Node([], [a], map[RouteKey(m) := Route(m, a, a)], None)]
  {
    hide RouteKey, Lower, Enabled, Step;
    states := OneRound(s, b, a, m, FedLocal);
    assert states[3] == map[a := s[a], b := s[b].(table := map[RouteKey(m) := Route(m, a, a)])];
  }

  lemma EchoHeard(s: Mesh, a: string, b: string, m: string) returns (states: seq<Mesh>)
    requires a != b && RouteKey(m) != ""
    requires s == map[a := Node([m], [b], map[], None), b := Node([], [a], map[RouteKey(m) := Route(m, a, a)], None)]
    ensures IsRun(states, RoundEvents(a, Aggregate([m]))) && |states| == 4 && states[0] == s
    ensures states[3] == map[a := Node([m], [b], map[RouteKey(m) := Route(m, b, b)], None),
                             b := Node([], [a], map[RouteKey(m) := Route(m, a, a)], None)]
  {
    hide RouteKey, Lower, Enabled, Step;
    assert s[b].table[RouteKey(m)].model == m;
    assert IsAggregate([m], s[b]);
    states := OneRound(s, a, b, m, Aggregate([m]));
    assert states[3] == map[a := s[a].(table := map[RouteKey(m) := Route(m, b, b)]), b := s[b]];
  }

  lemma UnloadsLast(s: Mesh, a: string, b: string, m: string) returns (states: seq<Mesh>)
    requires a != b
    requires s == map[a := Node([m], [b], map[RouteKey(m) := Route(m, b, b)], None),
                      b := Node([], [a], map[RouteKey(m) := Route(m, a, a)], None)]
    ensures IsRun(states, [Unload(a, m)]) && |states| == 2 && states[0] == s
    ensures Echo(states[1], a, b, m) && states[1].Keys == {a, b} && Unserved(states[1], RouteKey(m))
  {
    hide RouteKey, Lower;
    assert Without([m], m) == [];
    var t := map[a := Node([], [b], map[RouteKey(m) := Route(m, b, b)], None), b := s[b]];
    assert Step(s, Unload(a, m)) == t;
    assert t[a].slots == [] && t[b].slots == [];
    states := [s, t];
  }

  lemma SingleOffer(h: PeerHealth, m: string)
    requires h.online && h.models == [m] && RouteKey(m) != ""
    ensures TableOf(PollOffers([h])) == map[RouteKey(m) := Route(m, h.url, h.name)]
  {
    hide RouteKey;
    var o := Offer(h.name, h.url, [m]);
    assert [h][..0] == [];
    assert PollOffers([h]) == [o];
    assert AllKeys([o]) == {RouteKey(m)} by {
      assert o in [o] && m in o.models;
    }
    assert FirstModel([m], RouteKey(m)) == Some(m);
    assert FirstOffer([o], RouteKey(m)) == Some(0);
  }
}
