/** Hub mode end to end: nodes heartbeat, the hub prunes and answers, nodes rebuild their route
    tables from the answers that arrive. */
module HubSystem {
  import opened Wrappers
  import opened Text
  import opened Routes
  import opened Hub
  import opened Sorting

  /** A node's federation state; `seen` records its last successful poll. */
  datatype Client = Client(table: Table, seen: Option<Poll>)

  datatype Poll = Poll(at: int, beats: seq<Node>)

  datatype System = System(
    now: int, ttl: int, roster: RosterMap, clients: map<string, Client>,
    beats: seq<Node>, floor: int)

  datatype Event =
    | Tick(d: nat)
    // POST /api/register; the answer may be lost on the way back
    | Beat(self: string, addr: string, models: seq<string>, owner: string, arrives: bool)
    // GET /api/roster, by a node that may not register
    | Look(self: string, arrives: bool)
    // the request never reached the hub, or was refused
    | Miss(self: string)

  ghost function ListingOf(m: RosterMap): seq<Node>
    decreases |m|
  {
    if m == map[] then []
    else
      var name :| name in m;
      Insert(ListingOf(m - {name}), m[name], NameOf())
  }

  lemma {:induction false} ListingOfLists(m: RosterMap)
    requires KeysAgree(m)
    ensures IsListing(ListingOf(m), m)
    decreases |m|
  {
    hide Less, Insert;
    if m != map[] {
      var name :| name in m && ListingOf(m) == Insert(ListingOf(m - {name}), m[name], NameOf());
      ListingOfLists(m - {name});
      InsertLists(ListingOf(m - {name}), m, name);
    }
  }

  lemma InsertLists(ns: seq<Node>, m: RosterMap, name: string)
    requires KeysAgree(m) && name in m && IsListing(ns, m - {name})
    ensures IsListing(Insert(ns, m[name], NameOf()), m)
  {
    hide Less, Insert;
    InsertSorted(ns, m[name], NameOf());
    forall other | other in m ensures m[other] in Insert(ns, m[name], NameOf()) {
      assert other != name ==> (m - {name})[other] == m[other];
    }
  }

  function EntryFor(n: Node): RosterEntry {
    RosterEntry(n.name, n.meshAddr, n.models)
  }

  function Entries(ns: seq<Node>): (es: seq<RosterEntry>)
    ensures |es| == |ns|
    ensures forall i :: 0 <= i < |ns| ==> es[i] == EntryFor(ns[i])
  {
    seq(|ns|, i requires 0 <= i < |ns| => EntryFor(ns[i]))
  }

  function AllKeys(offers: seq<Offer>): set<string> {
    set o, m | o in offers && m in o.models :: RouteKey(m)
  }

  function TableOf(offers: seq<Offer>): Table {
    map key | key in AllKeys(offers) && FirstOffer(offers, key).Some? ::
      RouteTo(offers[FirstOffer(offers, key).value], key)
  }

  lemma TableOfIs(offers: seq<Offer>)
    ensures IsTable(TableOf(offers), offers)
  {
    hide RouteKey, FirstModel;
    forall key | FirstOffer(offers, key).Some? ensures key in AllKeys(offers) {
      var o := offers[FirstOffer(offers, key).value];
      assert o in offers && FirstModel(o.models, key).value in o.models;
    }
  }

  /** What ApplyRoster and ApplyPoll leave in `routes` is this table and no other. */
  lemma TableIs(t: Table, offers: seq<Offer>)
    requires IsTable(t, offers)
    ensures t == TableOf(offers)
  {
    hide IsTable, TableOf;
    TableOfIs(offers);
    TableUnique(t, TableOf(offers), offers);
  }

  /** A roster as Roster.Listing returns it, turned into routes as ApplyRoster does, is the table
      the steps below speak of: neither map's iteration order is left in it. */
  lemma AnswerRealised(m: RosterMap, ns: seq<Node>, t: Table, self: string)
    requires KeysAgree(m) && IsListing(ns, m) && IsTable(t, RosterOffers(Entries(ns), self))
    ensures t == TableOf(RosterOffers(Entries(ListingOf(m)), self))
  {
    hide IsTable, TableOf, IsListing, Less, RosterOffers;
    ListingOfLists(m);
    ListingUnique(ns, ListingOf(m), m);
    TableIs(t, RosterOffers(Entries(ns), self));
  }

  // ---- steps -----------------------------------------------------------------------------

  ghost function TableAt(beats: seq<Node>, cutoff: int, self: string): Table {
    TableOf(RosterOffers(Entries(ListingOf(Pruned(Latest(beats), cutoff))), self))
  }

  /** The hub reads its roster for a node: it prunes, and the node applies what it gets. */
  ghost function Answer(s: System, self: string, arrives: bool): System {
    var kept := Pruned(s.roster, s.now - s.ttl);
    var table := TableOf(RosterOffers(Entries(ListingOf(kept)), self));
    s.(roster := kept, floor := s.now - s.ttl,
       clients := if arrives then s.clients[self := Client(table, Some(Poll(s.now, s.beats)))] else s.clients)
  }

  ghost function Step(s: System, e: Event): System {
    match e
    case Tick(d) => s.(now := s.now + d)
    case Beat(self, addr, models, owner, arrives) =>
      if Trim(self) == "" || Trim(addr) == "" then s
      else
        var n := Node(self, TrimSlashes(addr), models, owner, s.now);
        Answer(s.(roster := s.roster[self := n], beats := s.beats + [n]), self, arrives)
    case Look(self, arrives) => Answer(s, self, arrives)
    case Miss(_) => s
  }

  ghost function Run(s: System, es: seq<Event>): System
    decreases es
  {
    if es == [] then s else Run(Step(s, es[0]), es[1..])
  }

  function Fresh(start: int, ttl: nat): System {
    System(start, ttl, map[], map[], [], start - ttl)
  }

  ghost predicate ClientOk(s: System, self: string)
    requires self in s.clients
  {
    var c := s.clients[self];
    c.seen.Some? && c.seen.value.at <= s.now && c.seen.value.beats <= s.beats &&
    c.table == TableAt(c.seen.value.beats, c.seen.value.at - s.ttl, self)
  }

  ghost predicate Inv(s: System) {
    Faithful(s.roster, s.beats, s.floor) && s.floor <= s.now - s.ttl &&
    forall self :: self in s.clients ==> ClientOk(s, self)
  }

  lemma AnswerInv(s: System, self: string, arrives: bool)
    requires Inv(s)
    ensures Inv(Answer(s, self, arrives))
  {
    hide Pruned, Latest, ListingOf, Entries, RosterOffers, TableOf;
    FaithfulPrune(s.roster, s.beats, s.floor, s.now - s.ttl);
    var t := Answer(s, self, arrives);
    forall who | who in t.clients ensures ClientOk(t, who) {
      assert who != self ==> who in s.clients && ClientOk(s, who);
      assert who == self && !arrives ==> ClientOk(s, who);
    }
  }

  lemma StepInv(s: System, e: Event)
    requires Inv(s)
    ensures Inv(Step(s, e))
  {
    hide Answer, TableAt, Faithful;
    match e {
      case Tick(d) =>
        assert forall who :: who in s.clients ==> ClientOk(s, who) ==> ClientOk(Step(s, e), who);
      case Beat(self, addr, models, owner, arrives) =>
        if Trim(self) != "" && Trim(addr) != "" {
          var n := Node(self, TrimSlashes(addr), models, owner, s.now);
          FaithfulBeat(s.roster, s.beats, s.floor, n);
          var mid := s.(roster := s.roster[self := n], beats := s.beats + [n]);
          assert forall who :: who in s.clients ==> ClientOk(s, who) ==> ClientOk(mid, who);
          AnswerInv(mid, self, arrives);
        }
      case Look(self, arrives) => AnswerInv(s, self, arrives);
      case Miss(_) =>
    }
  }

  lemma {:induction false} RunInv(s: System, es: seq<Event>)
    requires Inv(s)
    ensures Inv(Run(s, es))
    decreases es
  {
    hide Inv, Step;
    if es != [] {
      StepInv(s, es[0]);
      RunInv(Step(s, es[0]), es[1..]);
    }
  }

  /** A poll that does not come back changes nothing at the node that made it; nobody's poll
      ever changes another node. */
  lemma FailedPollKeepsRoutes(s: System, e: Event, who: string)
    requires who in s.clients
    requires match e case Beat(self, _, _, _, arrives) => self == who ==> !arrives
                    case Look(self, arrives) => self == who ==> !arrives
                    case _ => true
    ensures who in Step(s, e).clients && Step(s, e).clients[who] == s.clients[who]
  {
  }

  // ---- the routes themselves -------------------------------------------------------------

  /** n may be routed to for `key` by `self`, given the heartbeats up to a poll at time `at`. */
  ghost predicate Candidate(n: Node, poll: Poll, ttl: int, self: string, key: string) {
    n.name in Latest(poll.beats) && Latest(poll.beats)[n.name] == n && n.lastSeen >= poll.at - ttl &&
    !EqualFold(n.name, self) && TrimSlashes(n.meshAddr) != "" &&
    key != "" && exists m :: m in n.models && RouteKey(m) == key
  }

  ghost predicate RoutedTo(r: Route, n: Node, key: string) {
    r.peerName == n.name && r.peerUrl == TrimSlashes(n.meshAddr) && r.model in n.models && RouteKey(r.model) == key &&
    exists i :: 0 <= i < |n.models| && n.models[i] == r.model && forall j :: 0 <= j < i ==> RouteKey(n.models[j]) != key
  }

  /** r is where `key` must go: the candidate of least name. */
  ghost predicate RoutedToLeast(r: Route, poll: Poll, ttl: int, self: string, key: string) {
    exists n ::
      Candidate(n, poll, ttl, self, key) && RoutedTo(r, n, key) && LeastCandidate(n, poll, ttl, self, key)
  }

  ghost predicate LeastCandidate(n: Node, poll: Poll, ttl: int, self: string, key: string) {
    forall c :: Candidate(c, poll, ttl, self, key) ==> c == n || Less(n.name, c.name)
  }

  function OfferFor(n: Node): Offer {
    Offer(n.name, TrimSlashes(n.meshAddr), n.models)
  }

  ghost predicate Offered(o: Offer, ns: seq<Node>, self: string) {
    exists n :: n in ns && Usable(EntryFor(n), self) && o == OfferFor(n)
  }

  ghost predicate OffersSorted(offers: seq<Offer>) {
    forall i, j :: 0 <= i < j < |offers| ==> Less(offers[i].name, offers[j].name)
  }

  /** Roster offers are the usable nodes of the listing, in the listing's order. */
  lemma {:induction false} OffersOfListing(ns: seq<Node>, self: string)
    requires Sorted(ns, NameOf())
    ensures var offers := RosterOffers(Entries(ns), self);
      OffersSorted(offers) && forall o :: o in offers <==> Offered(o, ns, self)
  {
    hide Less, Usable, TrimSlashes;
    if ns != [] {
      var init, last := ns[..|ns| - 1], ns[|ns| - 1];
      OffersOfListing(init, self);
      assert Entries(ns)[..|ns| - 1] == Entries(init);
      assert forall n :: n in ns <==> n in init || n == last;
      var before, offers := RosterOffers(Entries(init), self), RosterOffers(Entries(ns), self);
      forall o | o in before ensures Less(o.name, last.name) {
        var n :| n in init && Usable(EntryFor(n), self) && o == OfferFor(n);
      }
      forall o ensures o in offers <==> Offered(o, ns, self) {
        assert o in before <==> Offered(o, init, self);
      }
    }
  }

  lemma CandidateOffered(c: Node, poll: Poll, ttl: int, self: string, key: string)
    ensures var m := Pruned(Latest(poll.beats), poll.at - ttl);
      Candidate(c, poll, ttl, self, key) <==>
        c.name in m && m[c.name] == c && Usable(EntryFor(c), self) && Serves(OfferFor(c), key)
  {
    hide Latest, TrimSlashes, EqualFold, RouteKey, FirstModel, Serves;
    ServesModel(OfferFor(c), key);
  }

  /** The route for a key exists exactly when some candidate does, and points to the candidate
      of least name. */
  lemma RouteIsLeastCandidate(poll: Poll, ttl: int, self: string, key: string)
    ensures var t := TableAt(poll.beats, poll.at - ttl, self);
      (key in t <==> exists n :: Candidate(n, poll, ttl, self, key)) &&
      (key in t ==> RoutedToLeast(t[key], poll, ttl, self, key))
  {
    hide Latest, Pruned, Less, Usable, TrimSlashes, RouteKey, FirstModel, RosterOffers, TableOf, Serves, Entries,
         Candidate;
    var m := Pruned(Latest(poll.beats), poll.at - ttl);
    PrunedLatest(poll.beats, poll.at - ttl);
    ListingOfLists(m);
    var ns := ListingOf(m);
    var offers := RosterOffers(Entries(ns), self);
    OffersOfListing(ns, self);
    TableOfIs(offers);
    forall c | Candidate(c, poll, ttl, self, key) ensures OfferFor(c) in offers && Serves(OfferFor(c), key) {
      CandidateOffered(c, poll, ttl, self, key);
      assert m[c.name] in ns;
      assert Offered(OfferFor(c), ns, self);
    }
    var first := FirstOffer(offers, key);
    if first.Some? {
      var o := offers[first.value];
      assert Offered(o, ns, self);
      var n :| n in ns && Usable(EntryFor(n), self) && o == OfferFor(n);
      CandidateOffered(n, poll, ttl, self, key);
      ServesModel(o, key);
      FirstIsLeast(offers, first.value, key, ns, n, poll, ttl, self);
      var m := FirstModelIsFirst(n.models, key);
      assert RoutedTo(RouteTo(o, key), n, key);
    }
  }

  lemma FirstIsLeast(offers: seq<Offer>, i: nat, key: string, ns: seq<Node>, n: Node, poll: Poll, ttl: int, self: string)
    requires FirstOffer(offers, key) == Some(i) && offers[i] == OfferFor(n) && OffersSorted(offers)
    requires IsListing(ns, Pruned(Latest(poll.beats), poll.at - ttl)) && n in ns
    requires forall c :: Candidate(c, poll, ttl, self, key) ==> OfferFor(c) in offers && Serves(OfferFor(c), key)
    ensures LeastCandidate(n, poll, ttl, self, key)
  {
    hide Latest, Pruned, Less, Usable, TrimSlashes, Serves, Candidate;
    forall c | Candidate(c, poll, ttl, self, key) ensures c == n || Less(n.name, c.name) {
      CandidateOffered(c, poll, ttl, self, key);
      var j :| 0 <= j < |offers| && offers[j] == OfferFor(c);
      assert j >= i;
    }
  }

  lemma ServesModel(o: Offer, key: string)
    ensures Serves(o, key) <==> key != "" && exists m :: m in o.models && RouteKey(m) == key
    ensures Serves(o, key) ==> RouteTo(o, key).model in o.models && RouteKey(RouteTo(o, key).model) == key
  {
    hide RouteKey;
  }

  lemma PrunedLatest(beats: seq<Node>, cutoff: int)
    ensures KeysAgree(Pruned(Latest(beats), cutoff))
  {
    hide Latest;
    forall name | name in Latest(beats) ensures Latest(beats)[name].name == name {
      LatestHasBeat(beats, name);
    }
  }

  /** After any run, in every node's table: a key is routed exactly when, at this node's last
      successful poll, some other node with a usable address served it and had been heard from
      within the TTL, and then to the least-named one. */
  lemma HubEndToEnd(start: int, ttl: nat, es: seq<Event>, self: string, key: string)
    requires self in Run(Fresh(start, ttl), es).clients
    ensures var c := Run(Fresh(start, ttl), es).clients[self];
      c.seen.Some? &&
      (key in c.table <==> exists n :: Candidate(n, c.seen.value, ttl, self, key)) &&
      (key in c.table ==> RoutedToLeast(c.table[key], c.seen.value, ttl, self, key))
  {
    hide Step, Candidate, RoutedToLeast, TableAt;
    var s := Fresh(start, ttl);
    FreshInv(start, ttl);
    RunInv(s, es);
    RunTtl(s, es);
    var t := Run(s, es);
    assert ClientOk(t, self);
    RouteIsLeastCandidate(t.clients[self].seen.value, ttl, self, key);
  }

  lemma FreshInv(start: int, ttl: nat)
    ensures Inv(Fresh(start, ttl))
  {
    assert Latest([]) == map[];
  }

  lemma {:induction false} RunTtl(s: System, es: seq<Event>)
    ensures Run(s, es).ttl == s.ttl
    decreases es
  {
    if es != [] {
      RunTtl(Step(s, es[0]), es[1..]);
    }
  }

  // ---- in terms of the events alone ------------------------------------------------------

  /** The clock after a run: it moves by ticks only. */
  function TimeAt(start: int, es: seq<Event>): int {
    if es == [] then start
    else
      var e := es[|es| - 1];
      TimeAt(start, es[..|es| - 1]) + if e.Tick? then e.d else 0
  }

  /** A heartbeat that names a node and an address. */
  predicate Counts(e: Event) {
    e.Beat? && Trim(e.self) != "" && Trim(e.addr) != ""
  }

  /** The heartbeats of a run, each with the time it arrived. */
  function BeatsOf(start: int, es: seq<Event>): seq<Node> {
    if es == [] then []
    else
      var init, e := es[..|es| - 1], es[|es| - 1];
      BeatsOf(start, init) +
        if Counts(e) then [Node(e.self, TrimSlashes(e.addr), e.models, e.owner, TimeAt(start, init))] else []
  }

  /** The event brings this node an answer. */
  predicate Answers(e: Event, self: string) {
    (Counts(e) && e.self == self && e.arrives) || (e.Look? && e.self == self && e.arrives)
  }

  lemma {:induction false} RunSnoc(s: System, es: seq<Event>, e: Event)
    ensures Run(s, es + [e]) == Step(Run(s, es), e)
    decreases es
  {
    hide Step;
    if es == [] {
      assert [e][1..] == [];
    } else {
      assert (es + [e])[1..] == es[1..] + [e];
      RunSnoc(Step(s, es[0]), es[1..], e);
    }
  }

  lemma StepRecords(s: System, e: Event)
    ensures Step(s, e).now == s.now + (if e.Tick? then e.d else 0)
    ensures Step(s, e).beats == s.beats +
      (if Counts(e) then [Node(e.self, TrimSlashes(e.addr), e.models, e.owner, s.now)] else [])
  {
    hide Trim, TrimSlashes, Entries, ListingOf, Pruned, RosterOffers, TableOf;
    assert s.beats + [] == s.beats;
  }

  lemma StepSeen(s: System, e: Event, who: string)
    ensures var t := Step(s, e);
      if Answers(e, who) then who in t.clients && t.clients[who].seen == Some(Poll(s.now, t.beats))
      else (who in t.clients <==> who in s.clients) && (who in s.clients ==> t.clients[who] == s.clients[who])
  {
    hide Trim, TrimSlashes, Entries, ListingOf, Pruned, RosterOffers, TableOf;
  }

  /** The recorded clock and heartbeats are those of the events. */
  lemma {:induction false} RunRecords(start: int, ttl: nat, es: seq<Event>)
    ensures Run(Fresh(start, ttl), es).now == TimeAt(start, es)
    ensures Run(Fresh(start, ttl), es).beats == BeatsOf(start, es)
  {
    hide Step, Counts, Run, TrimSlashes;
    if es == [] {
      NoSteps(Fresh(start, ttl));
    } else {
      var init, e := es[..|es| - 1], es[|es| - 1];
      RunRecords(start, ttl, init);
      assert es == init + [e];
      RunSnoc(Fresh(start, ttl), init, e);
      StepRecords(Run(Fresh(start, ttl), init), e);
    }
  }

  lemma NoSteps(s: System)
    ensures Run(s, []) == s
  {
  }

  /** Event k is the last one that brought this node an answer. */
  ghost predicate LastAnswer(es: seq<Event>, self: string, k: nat) {
    k < |es| && Answers(es[k], self) && forall j :: k < j < |es| ==> !Answers(es[j], self)
  }

  lemma {:induction false} RunSeen(start: int, ttl: nat, es: seq<Event>, self: string, k: nat)
    requires LastAnswer(es, self, k)
    ensures var t := Run(Fresh(start, ttl), es);
      self in t.clients && t.clients[self].seen == Some(Poll(TimeAt(start, es[..k]), BeatsOf(start, es[..k + 1])))
  {
    hide Step, Answers, Run, BeatsOf, TimeAt;
    var n := |es| - 1;
    var init, e := es[..n], es[n];
    var s := Run(Fresh(start, ttl), init);
    assert es == init + [e];
    RunSnoc(Fresh(start, ttl), init, e);
    StepSeen(s, e, self);
    if k == n {
      RunRecords(start, ttl, init);
      RunRecords(start, ttl, es);
      assert es[..k] == init && es[..k + 1] == es;
    } else {
      RunSeen(start, ttl, init, self, k);
      assert init[..k] == es[..k] && init[..k + 1] == es[..k + 1];
    }
  }

  /** End to end over the events: when event k is the last that brought a node the hub's answer,
      the node routes a key exactly when, among the heartbeats that had arrived by then, another
      node's last one carries a usable address and the key and is not older than the TTL; and
      then to the least-named such node. */
  lemma HubFromEvents(start: int, ttl: nat, es: seq<Event>, self: string, k: nat, key: string)
    requires LastAnswer(es, self, k)
    ensures var poll := Poll(TimeAt(start, es[..k]), BeatsOf(start, es[..k + 1]));
      var clients := Run(Fresh(start, ttl), es).clients;
      self in clients &&
      (key in clients[self].table <==> exists n :: Candidate(n, poll, ttl, self, key)) &&
      (key in clients[self].table ==> RoutedToLeast(clients[self].table[key], poll, ttl, self, key))
  {
    hide Run, Candidate, RoutedToLeast, LastAnswer, TimeAt, BeatsOf;
    RunSeen(start, ttl, es, self, k);
    HubEndToEnd(start, ttl, es, self, key);
  }

  /** A node that never got an answer routes nothing. */
  lemma {:induction false} NeverAnswered(start: int, ttl: nat, es: seq<Event>, self: string)
    requires forall j :: 0 <= j < |es| ==> !Answers(es[j], self)
    ensures self !in Run(Fresh(start, ttl), es).clients
  {
    hide Step, Answers, Run;
    if es == [] {
      NoSteps(Fresh(start, ttl));
    } else {
      var init, e := es[..|es| - 1], es[|es| - 1];
      NeverAnswered(start, ttl, init, self);
      assert es == init + [e];
      RunSnoc(Fresh(start, ttl), init, e);
      StepSeen(Run(Fresh(start, ttl), init), e, self);
    }
  }
}
