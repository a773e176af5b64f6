/** The hub's roster: kept alive by heartbeats, pruned destructively whenever it is read. */
module Hub {
  import opened Wrappers
  import opened Text
  import opened Sorting

  datatype Node = Node(name: string, meshAddr: string, models: seq<string>, owner: string, lastSeen: int)

  type RosterMap = map<string, Node>

  // ---- listings --------------------------------------------------------------------------

  function NameOf(): Node -> string {
    (n: Node) => n.name
  }

  /** The values of the roster, strictly sorted by name. */
  ghost predicate IsListing(ns: seq<Node>, m: RosterMap) {
    Sorted(ns, NameOf()) &&
    (forall n :: n in ns ==> n.name in m && m[n.name] == n) &&
    (forall name :: name in m ==> m[name].name == name && m[name] in ns)
  }

  /** There is only one listing: sorting leaves nothing of the map's iteration order. */
  lemma {:induction false} ListingUnique(a: seq<Node>, b: seq<Node>, m: RosterMap)
    requires IsListing(a, m) && IsListing(b, m)
    ensures a == b
    decreases |a|
  {
    hide Less;
    ListingEmpty(a, m);
    ListingEmpty(b, m);
    if a != [] {
      HeadsAgree(a, b, m);
      var rest := m - {a[0].name};
      ListingTail(a, m);
      ListingTail(b, m);
      ListingUnique(a[1..], b[1..], rest);
      assert a == [a[0]] + a[1..] && b == [b[0]] + b[1..];
    }
  }

  lemma ListingEmpty(a: seq<Node>, m: RosterMap)
    requires IsListing(a, m)
    ensures a == [] <==> m == map[]
  {
    hide Less;
    if a != [] {
      assert a[0] in a;
    }
  }

  lemma HeadsAgree(a: seq<Node>, b: seq<Node>, m: RosterMap)
    requires IsListing(a, m) && IsListing(b, m) && a != [] && b != []
    ensures a[0] == b[0]
  {
    hide Less;
    var i :| 0 <= i < |b| && b[i] == m[a[0].name];
    assert b[0] in b && m[b[0].name] in a;
    var j :| 0 <= j < |a| && a[j] == m[b[0].name];
    if i > 0 && j > 0 {
      LessTransitive(a[0].name, b[0].name, a[0].name);
      LessIrreflexive(a[0].name);
      assert false;
    }
  }

  lemma ListingTail(a: seq<Node>, m: RosterMap)
    requires IsListing(a, m) && a != []
    ensures IsListing(a[1..], m - {a[0].name})
  {
    hide Less;
    var rest := m - {a[0].name};
    forall n | n in a[1..] ensures n.name in rest && rest[n.name] == n {
      assert n in a;
      var i :| 1 <= i < |a| && a[i] == n;
      LessIrreflexive(a[0].name);
    }
    forall name | name in rest ensures rest[name] in a[1..] {
      assert m[name] in a;
      var i :| 0 <= i < |a| && a[i] == m[name];
      assert i > 0 ==> a[1..][i - 1] == a[i];
    }
  }

  // ---- heartbeats and pruning ------------------------------------------------------------

  /** The last heartbeat of every name, however old. */
  function Latest(beats: seq<Node>): RosterMap {
    if beats == [] then map[] else Latest(beats[..|beats| - 1])[beats[|beats| - 1].name := beats[|beats| - 1]]
  }

  function Pruned(m: RosterMap, cutoff: int): RosterMap {
    map name | name in m && m[name].lastSeen >= cutoff :: m[name]
  }

  ghost predicate KeysAgree(m: RosterMap) {
    forall name :: name in m ==> m[name].name == name
  }

  /** A roster that was pruned at cutoffs up to `floor` is as good as the full history for
      every later cutoff. */
  ghost predicate Faithful(m: RosterMap, beats: seq<Node>, floor: int) {
    KeysAgree(m) && Pruned(m, floor) == Pruned(Latest(beats), floor)
  }

  /** The last heartbeat of a name is the one with no later heartbeat of that name. */
  lemma {:induction false} LatestIsLast(beats: seq<Node>, i: nat)
    requires i < |beats| && forall j :: i < j < |beats| ==> beats[j].name != beats[i].name
    ensures beats[i].name in Latest(beats) && Latest(beats)[beats[i].name] == beats[i]
  {
    if i < |beats| - 1 {
      LatestIsLast(beats[..|beats| - 1], i);
    }
  }

  lemma {:induction false} LatestHasBeat(beats: seq<Node>, name: string)
    requires name in Latest(beats)
    ensures Latest(beats)[name].name == name && Latest(beats)[name] in beats
  {
    if beats[|beats| - 1].name != name {
      LatestHasBeat(beats[..|beats| - 1], name);
    }
  }

  /** Heartbeat i is n, and no later one has its name. */
  ghost predicate IsLastBeat(beats: seq<Node>, i: int, n: Node) {
    0 <= i < |beats| && beats[i] == n && forall j :: i < j < |beats| ==> beats[j].name != n.name
  }

  /** A listing, by the heartbeats: the last one of each name, if it is not older than the cutoff. */
  lemma ListingHas(out: seq<Node>, beats: seq<Node>, cutoff: int, n: Node)
    requires IsListing(out, Pruned(Latest(beats), cutoff))
    ensures n in out <==> n.lastSeen >= cutoff && exists i :: IsLastBeat(beats, i, n)
  {
    hide Latest, Less;
    if i :| IsLastBeat(beats, i, n) {
      LatestIsLast(beats, i);
      assert n.lastSeen >= cutoff ==> n.name in Pruned(Latest(beats), cutoff);
    }
    if n in out {
      assert n.name in Latest(beats) && Latest(beats)[n.name] == n;
      LastBeatOf(beats, n.name);
    }
  }

  lemma {:induction false} LastBeatOf(beats: seq<Node>, name: string)
    requires name in Latest(beats)
    ensures Latest(beats)[name].name == name && exists i :: IsLastBeat(beats, i, Latest(beats)[name])
  {
    var init, last := beats[..|beats| - 1], beats[|beats| - 1];
    if last.name == name {
      assert IsLastBeat(beats, |beats| - 1, last);
    } else {
      LastBeatOf(init, name);
      var i :| IsLastBeat(init, i, Latest(init)[name]);
      assert IsLastBeat(beats, i, Latest(init)[name]);
    }
  }

  lemma PruneAgain(m: RosterMap, low: int, high: int)
    requires low <= high
    ensures Pruned(Pruned(m, low), high) == Pruned(m, high)
  {
  }

  lemma FaithfulBeat(m: RosterMap, beats: seq<Node>, floor: int, n: Node)
    requires Faithful(m, beats, floor)
    ensures Faithful(m[n.name := n], beats + [n], floor)
  {
    hide Latest;
    LatestSnoc(beats, n);
    var a, b := Pruned(m, floor), Pruned(Latest(beats), floor);
    var a', b' := Pruned(m[n.name := n], floor), Pruned(Latest(beats + [n]), floor);
    forall name ensures name in a' <==> name in b' {
      assert name in a <==> name in b;
    }
    forall name | name in a' ensures a'[name] == b'[name] {
      assert name != n.name ==> a[name] == b[name];
    }
  }

  lemma LatestSnoc(beats: seq<Node>, n: Node)
    ensures Latest(beats + [n]) == Latest(beats)[n.name := n]
  {
    assert (beats + [n])[..|beats|] == beats;
  }

  lemma FaithfulPrune(m: RosterMap, beats: seq<Node>, floor: int, cutoff: int)
    requires Faithful(m, beats, floor) && floor <= cutoff
    ensures Faithful(Pruned(m, cutoff), beats, cutoff)
    ensures Pruned(m, cutoff) == Pruned(Latest(beats), cutoff)
  {
    hide Pruned;
    PruneAgain(m, floor, cutoff);
    PruneAgain(Latest(beats), floor, cutoff);
    PruneAgain(m, cutoff, cutoff);
    PrunedKeys(m, cutoff);
  }

  lemma PrunedKeys(m: RosterMap, cutoff: int)
    requires KeysAgree(m)
    ensures KeysAgree(Pruned(m, cutoff))
  {
  }

  /** The roster half of the hub's store. */
  class Roster {
    const ttl: int
    var roster: RosterMap
    ghost var beats: seq<Node>  // every heartbeat ever registered
    ghost var floor: int        // the latest cutoff pruned at

    ghost predicate Valid()
      reads this
    {
      Faithful(roster, beats, floor)
    }

    constructor (ttl: int, start: int)
      ensures Valid() && this.ttl == ttl && beats == [] && roster == map[] && floor == start
    {
      this.ttl, roster, beats, floor := ttl, map[], [], start;
      new;
      assert Latest([]) == map[];
    }

    method Register(n: Node, owner: string, now: int)
      requires Valid()
      modifies this
      ensures Valid() && floor == old(floor)
      ensures beats == old(beats) + [n.(owner := owner, lastSeen := now)]
      ensures roster == old(roster)[n.name := n.(owner := owner, lastSeen := now)]
    {
      var cp := n.(owner := owner, lastSeen := now);
      FaithfulBeat(roster, beats, floor, cp);
      roster := roster[n.name := cp];
      beats := beats + [cp];
    }

    /** Roster(): whatever was pruned before, the answer is the last heartbeat of every name
        not older than the TTL, sorted by name. */
    method Listing(now: int) returns (out: seq<Node>)
      requires Valid() && floor <= now - ttl
      modifies this
      ensures Valid() && beats == old(beats) && floor == now - ttl
      ensures IsListing(out, Pruned(Latest(beats), now - ttl))
      ensures roster == Pruned(old(roster), now - ttl)
    {
      hide Less, Latest, SortBy, Pruned, Sorted, DistinctBy;
      NoTwins();
      var cutoff := now - ttl;
      ghost var m := roster;
      FaithfulPrune(m, beats, floor, cutoff);
      var names := roster.Keys;
      while names != {}
        invariant names <= m.Keys && beats == old(beats) && floor == old(floor)
        invariant forall name :: name in roster <==> name in m && (name in names || m[name].lastSeen >= cutoff)
        invariant forall name :: name in roster ==> roster[name] == m[name]
        decreases names
      {
        var name :| name in names;
        if roster[name].lastSeen < cutoff {
          roster := roster - {name};
        }
        names := names - {name};
      }
      PrunedBy(roster, m, cutoff);
      out := [];
      names := roster.Keys;
      while names != {}
        invariant names <= roster.Keys && beats == old(beats) && floor == old(floor) && roster == Pruned(m, cutoff)
        invariant forall n :: n in out <==> n.name in roster && n.name !in names && roster[n.name] == n
        invariant DistinctBy(out, NameOf())
        decreases names
      {
        var name :| name in names;
        names := names - {name};
        DistinctSnoc(out, roster[name], NameOf());
        out := out + [roster[name]];
      }
      floor := cutoff;
      SortSorts(out, NameOf());
      out := SortBy(out, NameOf());
    }
  }

  lemma NoTwins()
    ensures DistinctBy([], NameOf())
  {
  }

  lemma PrunedBy(r: RosterMap, m: RosterMap, cutoff: int)
    requires forall name :: name in r <==> name in m && m[name].lastSeen >= cutoff
    requires forall name :: name in r ==> r[name] == m[name]
    ensures r == Pruned(m, cutoff)
  {
  }
}
