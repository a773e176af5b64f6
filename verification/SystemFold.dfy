/** foldSystemTurns on the message list: where each system turn belongs, and the one-pass
    rewrite that puts it there. */
module SystemFold {
  import opened Wrappers
  import opened JsonTokens
  import opened OrderedObject

  // ---- reading one message ---------------------------------------------------------------

  function RoleOf(m: Obj): string {
    match Get(m, "role")
    case None => ""
    case Some(raw) => match ReadString(raw) case None => "" case Some(s) => s
  }

  predicate IsSystem(m: Obj) { RoleOf(m) == "system" }

  predicate IsUser(m: Obj) { RoleOf(m) == "user" }

  /** A bare string as a content block, keys in the order json.Marshal sorts them. */
  function TextBlock(s: string): Value {
    Marshal([Field("text", [Str(s, Canonical)]), Field("type", [Str("text", Canonical)])])
  }

  function BlocksOf(m: Obj): Result<seq<Value>> {
    match Get(m, "content")
    case None => Ok([])
    case Some(raw) =>
      match ReadArray(raw)
      case Some(blocks) => Ok(blocks)
      case None => match ReadString(raw) case Some(s) => Ok([TextBlock(s)]) case None => Err
  }

  /** The blocks a turn contributes, none when its content cannot be read. */
  function Blocks(m: Obj): seq<Value> {
    if BlocksOf(m).Ok? then BlocksOf(m).value else []
  }

  function WithBlocks(m: Obj, blocks: seq<Value>): Obj {
    Set(m, "content", Pack(blocks))
  }

  function NewUser(blocks: seq<Value>): Obj {
    [Field("role", [Str("user", Canonical)]), Field("content", Pack(blocks))]
  }

  // ---- the intended meaning --------------------------------------------------------------

  function LastUserBefore(ms: seq<Obj>, j: nat): (r: Option<nat>)
    requires j <= |ms|
    ensures r.Some? ==> r.value < j && IsUser(ms[r.value])
    ensures forall i :: (if r.Some? then r.value + 1 else 0) <= i < j ==> !IsUser(ms[i])
  {
    if j == 0 then None else if IsUser(ms[j - 1]) then Some(j - 1) else LastUserBefore(ms, j - 1)
  }

  function FirstUserFrom(ms: seq<Obj>, j: nat): (r: Option<nat>)
    requires j <= |ms|
    ensures r.Some? ==> j <= r.value < |ms| && IsUser(ms[r.value])
    ensures forall i :: j <= i < (if r.Some? then r.value else |ms|) ==> !IsUser(ms[i])
    decreases |ms| - j
  {
    if j == |ms| then None else if IsUser(ms[j]) then Some(j) else FirstUserFrom(ms, j + 1)
  }

  /** The user turn a system turn at j belongs to: the nearest preceding one, else the next
      one, else none. */
  function Target(ms: seq<Obj>, j: nat): Option<nat>
    requires j <= |ms|
  {
    if LastUserBefore(ms, j).Some? then LastUserBefore(ms, j) else FirstUserFrom(ms, j)
  }

  /** The blocks of the system turns in [lo, hi) that belong to t, in order. */
  function Gathered(ms: seq<Obj>, t: Option<nat>, lo: nat, hi: nat): seq<Value>
    requires lo <= hi <= |ms|
    decreases hi - lo
  {
    if lo == hi then [] else
      var own := if IsSystem(ms[hi - 1]) && Target(ms, hi - 1) == t then Blocks(ms[hi - 1]) else [];
      Gathered(ms, t, lo, hi - 1) + own
  }

  /** Does user turn i receive anything from the first k turns? */
  predicate Touched(ms: seq<Obj>, i: nat, k: nat)
    requires i < |ms| && k <= |ms|
  {
    IsUser(ms[i]) && i < k &&
    (Gathered(ms, Some(i), 0, i) != [] || exists j | i < j < k :: IsSystem(ms[j]) && Target(ms, j) == Some(i))
  }

  /** What turn i has become once the first k turns are folded: what came before it, its own
      blocks, what came after it. */
  function Expected(ms: seq<Obj>, i: nat, k: nat): Obj
    requires i < k <= |ms|
  {
    if Touched(ms, i, k)
    then WithBlocks(ms[i], Gathered(ms, Some(i), 0, i) + Blocks(ms[i]) + Gathered(ms, Some(i), i, k))
    else ms[i]
  }

  /** The turns before n that are not system turns, as they stand after k. */
  function Kept(ms: seq<Obj>, n: nat, k: nat): seq<Obj>
    requires n <= k <= |ms|
  {
    if n == 0 then []
    else if IsSystem(ms[n - 1]) then Kept(ms, n - 1, k)
    else Kept(ms, n - 1, k) + [Expected(ms, n - 1, k)]
  }

  /** The place of turn n among the turns that are kept. */
  function Rank(ms: seq<Obj>, n: nat): (r: nat)
    requires n <= |ms|
    ensures r <= n
  {
    if n == 0 then 0 else Rank(ms, n - 1) + (if IsSystem(ms[n - 1]) then 0 else 1)
  }

  function CountSystem(ms: seq<Obj>): nat {
    |ms| - Rank(ms, |ms|)
  }

  /** Blocks with no user turn to go to. */
  function Orphans(ms: seq<Obj>): seq<Value> {
    Gathered(ms, None, 0, |ms|)
  }

  function Folded(ms: seq<Obj>): seq<Obj> {
    Kept(ms, |ms|, |ms|) + (if Orphans(ms) == [] then [] else [NewUser(Orphans(ms))])
  }

  /** Every content that has to be read can be read. */
  predicate Foldable(ms: seq<Obj>) {
    forall i | 0 <= i < |ms| :: IsSystem(ms[i]) || Touched(ms, i, |ms|) ==> BlocksOf(ms[i]).Ok?
  }

  ghost function Fold(ms: seq<Obj>): Result<seq<Obj>> {
    if Foldable(ms) then Ok(Folded(ms)) else Err
  }

  // ---- roles -----------------------------------------------------------------------------

  lemma WithBlocksRole(m: Obj, blocks: seq<Value>)
    ensures RoleOf(WithBlocks(m, blocks)) == RoleOf(m)
  {
    SetLaws(m, "content", Pack(blocks), "role");
  }

  lemma WithBlocksBlocks(m: Obj, blocks: seq<Value>)
    ensures BlocksOf(WithBlocks(m, blocks)) == Ok(blocks)
  {
    SetLaws(m, "content", Pack(blocks), "content");
    ReadPack(blocks);
  }

  lemma NewUserFacts(blocks: seq<Value>)
    ensures RoleOf(NewUser(blocks)) == "user" && BlocksOf(NewUser(blocks)) == Ok(blocks)
    ensures |NewUser(blocks)| == 2 && NewUser(blocks)[0] == Field("role", [Str("user", Canonical)])
    ensures NewUser(blocks)[1] == Field("content", Pack(blocks))
  {
    var m := NewUser(blocks);
    GetAt(m, "role", 0);
    GetAt(m, "content", 1);
    assert Skip([Str("user", Canonical)], 0) == 0;
    ReadPack(blocks);
  }

  /** A bare string is read as one text block: an object of exactly two keys that says so. */
  lemma StringContent(m: Obj, raw: Value, s: string)
    requires Get(m, "content") == Some(raw) && ReadArray(raw).None? && ReadString(raw) == Some(s)
    ensures var read := BlocksOf(m);
      read.Ok? && |read.value| == 1 && var block := Parse(read.value[0]);
      block.Ok? && |block.value| == 2 &&
      SaysString(block.value, "type", "text") && SaysString(block.value, "text", s)
  {
    var o := [Field("text", [Str(s, Canonical)]), Field("type", [Str("text", Canonical)])];
    ParseMarshal(o);
    GetAt(o, "text", 0);
    GetAt(o, "type", 1);
    PlainString(s);
    PlainString("text");
  }

  predicate SaysString(o: Obj, key: string, s: string) {
    Get(o, key).Some? && ReadString(Get(o, key).value) == Some(s)
  }

  lemma PlainString(s: string)
    ensures ReadString([Str(s, Canonical)]) == Some(s)
  {
  }

  lemma ExpectedRole(ms: seq<Obj>, i: nat, k: nat)
    requires i < k <= |ms|
    ensures RoleOf(Expected(ms, i, k)) == RoleOf(ms[i])
  {
    hide RoleOf, WithBlocks, Gathered;
    var blocks := Gathered(ms, Some(i), 0, i) + Blocks(ms[i]) + Gathered(ms, Some(i), i, k);
    WithBlocksRole(ms[i], blocks);
  }

  // ---- kept turns by position ------------------------------------------------------------

  lemma {:induction false} KeptAt(ms: seq<Obj>, n: nat, k: nat, i: nat)
    requires i < n <= k <= |ms| && !IsSystem(ms[i])
    ensures Rank(ms, i) < Rank(ms, n) == |Kept(ms, n, k)|
    ensures Kept(ms, n, k)[Rank(ms, i)] == Expected(ms, i, k)
  {
    hide Expected, IsSystem;
    KeptLength(ms, n - 1, k);
    if i < n - 1 {
      KeptAt(ms, n - 1, k, i);
    }
  }

  lemma {:induction false} KeptLength(ms: seq<Obj>, n: nat, k: nat)
    requires n <= k <= |ms|
    ensures |Kept(ms, n, k)| == Rank(ms, n)
  {
    hide Expected, IsSystem;
    if n > 0 {
      KeptLength(ms, n - 1, k);
    }
  }

  lemma RankStep(ms: seq<Obj>, n: nat)
    requires n <= |ms|
    ensures n > 0 ==> Rank(ms, n) == Rank(ms, n - 1) + if IsSystem(ms[n - 1]) then 0 else 1
  {
  }

  /** The users among the kept turns stand where they stood: the last one has the rank of the
      last user turn read. */
  lemma {:induction false} KeptUsers(ms: seq<Obj>, n: nat, k: nat)
    requires n <= k <= |ms|
    ensures var u, kept := LastUserBefore(ms, n), Kept(ms, n, k);
      (u.Some? ==> Rank(ms, u.value) < |kept| && IsUser(kept[Rank(ms, u.value)])) &&
      forall i :: (if u.Some? then Rank(ms, u.value) + 1 else 0) <= i < |kept| ==> !IsUser(kept[i])
  {
    hide Expected, RoleOf, Rank;
    RankStep(ms, n);
    if n > 0 {
      KeptUsers(ms, n - 1, k);
      KeptLength(ms, n - 1, k);
      ExpectedRole(ms, n - 1, k);
    }
  }

  // ---- one turn more ---------------------------------------------------------------------

  /** The blocks read so far that still wait for a user turn. */
  function Pending(ms: seq<Obj>, k: nat): seq<Value>
    requires k <= |ms|
  {
    if LastUserBefore(ms, k).Some? then [] else Gathered(ms, FirstUserFrom(ms, k), 0, k)
  }

  /** Nothing waits for a user turn that is not the first. */
  lemma {:induction false} OnlyFirstUserWaits(ms: seq<Obj>, k: nat, hi: nat)
    requires hi <= k < |ms| && LastUserBefore(ms, k).Some?
    ensures Gathered(ms, Some(k), 0, hi) == []
  {
    hide IsUser, IsSystem, Blocks;
    if hi > 0 {
      OnlyFirstUserWaits(ms, k, hi - 1);
      assert Target(ms, hi - 1) != Some(k);
    }
  }

  lemma {:induction false} NoOrphans(ms: seq<Obj>, hi: nat)
    requires hi <= |ms| && LastUserBefore(ms, |ms|).Some?
    ensures Gathered(ms, None, 0, hi) == []
  {
    hide IsUser, IsSystem, Blocks;
    if hi > 0 {
      NoOrphans(ms, hi - 1);
      assert Target(ms, hi - 1) != None;
    }
  }

  lemma PendingIsOrphans(ms: seq<Obj>)
    ensures Pending(ms, |ms|) == Orphans(ms)
  {
    hide IsUser, IsSystem, Blocks, Gathered, Target;
    if LastUserBefore(ms, |ms|).Some? {
      NoOrphans(ms, |ms|);
    }
  }

  lemma PendingReachesUser(ms: seq<Obj>, k: nat)
    requires k < |ms| && IsUser(ms[k])
    ensures Pending(ms, k) == Gathered(ms, Some(k), 0, k)
    ensures Pending(ms, k + 1) == []
  {
    hide IsUser, IsSystem, Blocks, Gathered;
    if LastUserBefore(ms, k).Some? {
      OnlyFirstUserWaits(ms, k, k);
    }
  }

  lemma PendingPassesBy(ms: seq<Obj>, k: nat)
    requires k < |ms| && !IsUser(ms[k])
    ensures Pending(ms, k + 1) == Pending(ms, k) +
      (if IsSystem(ms[k]) && LastUserBefore(ms, k).None? then Blocks(ms[k]) else [])
  {
    hide IsUser, IsSystem, Blocks;
    assert LastUserBefore(ms, k + 1) == LastUserBefore(ms, k);
    assert FirstUserFrom(ms, k + 1) == FirstUserFrom(ms, k);
  }

  /** A turn that is not folded into i leaves i as it was. */
  lemma ExpectedSame(ms: seq<Obj>, i: nat, k: nat)
    requires i < k < |ms| && !(IsSystem(ms[k]) && Target(ms, k) == Some(i))
    ensures Touched(ms, i, k + 1) == Touched(ms, i, k)
    ensures Expected(ms, i, k + 1) == Expected(ms, i, k)
  {
    hide IsUser, IsSystem, Blocks, BlocksOf, Target, WithBlocks;
    assert Gathered(ms, Some(i), i, k + 1) == Gathered(ms, Some(i), i, k);
  }

  lemma {:induction false} KeptSame(ms: seq<Obj>, n: nat, k: nat)
    requires n <= k < |ms|
    requires forall i | 0 <= i < n && !IsSystem(ms[i]) :: Expected(ms, i, k + 1) == Expected(ms, i, k)
    ensures Kept(ms, n, k + 1) == Kept(ms, n, k)
  {
    hide Expected, IsSystem;
    if n > 0 {
      KeptSame(ms, n - 1, k);
    }
  }

  lemma {:induction false} KeptUpdated(ms: seq<Obj>, n: nat, k: nat, u: nat)
    requires u < n <= k < |ms| && !IsSystem(ms[u])
    requires forall i | 0 <= i < n && i != u :: Expected(ms, i, k + 1) == Expected(ms, i, k)
    ensures Rank(ms, u) < |Kept(ms, n, k)|
    ensures Kept(ms, n, k + 1) == Kept(ms, n, k)[Rank(ms, u) := Expected(ms, u, k + 1)]
  {
    hide Expected, IsSystem;
    KeptLength(ms, n - 1, k);
    if u == n - 1 {
      KeptSame(ms, n - 1, k);
    } else {
      KeptUpdated(ms, n - 1, k, u);
    }
  }

  /** What the turn at u holds after one more system turn is folded into it. */
  lemma ExpectedGrows(ms: seq<Obj>, k: nat, u: nat)
    requires k < |ms| && IsSystem(ms[k]) && LastUserBefore(ms, k) == Some(u)
    ensures Touched(ms, u, k + 1)
    ensures BlocksOf(Expected(ms, u, k)).Err? <==> !Touched(ms, u, k) && BlocksOf(ms[u]).Err?
    ensures BlocksOf(Expected(ms, u, k)).Ok? && (BlocksOf(ms[u]).Ok? || Touched(ms, u, k)) ==>
      Expected(ms, u, k + 1) == WithBlocks(Expected(ms, u, k), Blocks(Expected(ms, u, k)) + Blocks(ms[k]))
  {
    hide RoleOf, BlocksOf, WithBlocks, LastUserBefore, FirstUserFrom, Gathered;
    assert Target(ms, k) == Some(u);
    if Touched(ms, u, k) {
      TouchedGrows(ms, k, u);
    } else {
      UntouchedGrows(ms, k, u);
    }
  }

  lemma TouchedGrows(ms: seq<Obj>, k: nat, u: nat)
    requires u < k < |ms| && IsSystem(ms[k]) && Target(ms, k) == Some(u)
    requires Touched(ms, u, k) && Touched(ms, u, k + 1)
    ensures BlocksOf(Expected(ms, u, k)).Ok?
    ensures Expected(ms, u, k + 1) == WithBlocks(Expected(ms, u, k), Blocks(Expected(ms, u, k)) + Blocks(ms[k]))
  {
    hide IsSystem, Touched, BlocksOf, WithBlocks, Target;
    var before := Gathered(ms, Some(u), 0, u) + Blocks(ms[u]);
    var got := Gathered(ms, Some(u), u, k);
    WithBlocksBlocks(ms[u], before + got);
    WithBlocksTwice(ms[u], before + got, before + got + Blocks(ms[k]));
    assert before + got + Blocks(ms[k]) == before + (got + Blocks(ms[k]));
  }

  lemma UntouchedGrows(ms: seq<Obj>, k: nat, u: nat)
    requires u < k < |ms| && IsSystem(ms[k]) && Target(ms, k) == Some(u)
    requires IsUser(ms[u]) && !Touched(ms, u, k) && Touched(ms, u, k + 1)
    ensures Expected(ms, u, k) == ms[u]
    ensures Expected(ms, u, k + 1) == WithBlocks(ms[u], Blocks(ms[u]) + Blocks(ms[k]))
  {
    hide IsUser, IsSystem, Touched, Blocks, WithBlocks, Target;
    UntouchedGotNothing(ms, u, k, k);
    assert [] + Blocks(ms[u]) + ([] + Blocks(ms[k])) == Blocks(ms[u]) + Blocks(ms[k]);
  }

  lemma WithBlocksTwice(m: Obj, first: seq<Value>, second: seq<Value>)
    ensures WithBlocks(WithBlocks(m, first), second) == WithBlocks(m, second)
  {
    hide Pack;
    SetTwice(m, "content", Pack(first), Pack(second));
  }

  lemma {:induction false} SetTwice(o: Obj, key: string, a: Value, b: Value)
    ensures Set(Set(o, key, a), key, b) == Set(o, key, b)
  {
    if o != [] && o[0].key != key {
      SetTwice(o[1..], key, a, b);
    }
  }

  lemma UntouchedGotNothing(ms: seq<Obj>, u: nat, hi: nat, k: nat)
    requires u <= hi <= k <= |ms| && u < k && IsUser(ms[u]) && !Touched(ms, u, k)
    ensures Gathered(ms, Some(u), u, hi) == [] && Gathered(ms, Some(u), 0, u) == []
  {
    hide Blocks, Target, Gathered;
    assert !IsSystem(ms[u]);
    GatheredNone(ms, Some(u), u, hi);
  }

  lemma {:induction false} GatheredNone(ms: seq<Obj>, t: Option<nat>, lo: nat, hi: nat)
    requires lo <= hi <= |ms|
    requires forall j :: lo <= j < hi && IsSystem(ms[j]) ==> Target(ms, j) != t
    ensures Gathered(ms, t, lo, hi) == []
  {
    hide RoleOf, Blocks, Target;
    if lo < hi {
      GatheredNone(ms, t, lo, hi - 1);
    }
  }

  // ---- the one-pass rewrite --------------------------------------------------------------

  /** The backward search over the turns already written. */
  method NearestPrecedingUser(out: seq<Obj>) returns (tgt: int)
    ensures -1 <= tgt < |out|
    ensures tgt >= 0 ==> IsUser(out[tgt])
    ensures forall i :: tgt < i < |out| ==> !IsUser(out[i])
  {
    tgt := |out| - 1;
    while tgt >= 0 && !IsUser(out[tgt])
      invariant -1 <= tgt < |out|
      invariant forall i :: tgt < i < |out| ==> !IsUser(out[i])
    {
      tgt := tgt - 1;
    }
  }

  /** Everything that has to be read among the first k turns can be read. */
  ghost predicate FoldableTo(ms: seq<Obj>, k: nat)
    requires k <= |ms|
  {
    forall i | 0 <= i < k :: IsSystem(ms[i]) || Touched(ms, i, k) ==> BlocksOf(ms[i]).Ok?
  }

  lemma StepSystemBack(ms: seq<Obj>, k: nat, u: nat)
    requires k < |ms| && IsSystem(ms[k]) && LastUserBefore(ms, k) == Some(u)
    requires FoldableTo(ms, k) && BlocksOf(ms[k]).Ok? && BlocksOf(Expected(ms, u, k)).Ok?
    ensures FoldableTo(ms, k + 1) && Rank(ms, u) < |Kept(ms, k, k)|
    ensures Kept(ms, k + 1, k + 1) == Kept(ms, k, k)[Rank(ms, u) :=
      WithBlocks(Expected(ms, u, k), Blocks(Expected(ms, u, k)) + Blocks(ms[k]))]
    ensures Pending(ms, k + 1) == Pending(ms, k) == []
  {
    hide RoleOf, BlocksOf, Expected, Touched, WithBlocks, LastUserBefore, FirstUserFrom, Gathered;
    ExpectedGrows(ms, k, u);
    forall i | 0 <= i < k && i != u
      ensures Expected(ms, i, k + 1) == Expected(ms, i, k) && Touched(ms, i, k + 1) == Touched(ms, i, k)
    {
      ExpectedSame(ms, i, k);
    }
    KeptUpdated(ms, k, k, u);
    PendingPassesBy(ms, k);
  }

  lemma StepSystemWaits(ms: seq<Obj>, k: nat)
    requires k < |ms| && IsSystem(ms[k]) && LastUserBefore(ms, k).None?
    requires FoldableTo(ms, k) && BlocksOf(ms[k]).Ok?
    ensures FoldableTo(ms, k + 1)
    ensures Kept(ms, k + 1, k + 1) == Kept(ms, k, k)
    ensures Pending(ms, k + 1) == Pending(ms, k) + Blocks(ms[k])
  {
    hide RoleOf, BlocksOf, Expected, Touched, FirstUserFrom, Gathered;
    forall i | 0 <= i < k
      ensures Expected(ms, i, k + 1) == Expected(ms, i, k) && Touched(ms, i, k + 1) == Touched(ms, i, k)
    {
      ExpectedSame(ms, i, k);
    }
    KeptSame(ms, k, k);
    PendingPassesBy(ms, k);
  }

  lemma StepKept(ms: seq<Obj>, k: nat)
    requires k < |ms| && !IsSystem(ms[k]) && FoldableTo(ms, k)
    requires IsUser(ms[k]) && Pending(ms, k) != [] ==> BlocksOf(ms[k]).Ok?
    ensures FoldableTo(ms, k + 1)
    ensures Kept(ms, k + 1, k + 1) == Kept(ms, k, k) +
      [if IsUser(ms[k]) && Pending(ms, k) != [] then WithBlocks(ms[k], Pending(ms, k) + Blocks(ms[k])) else ms[k]]
    ensures Pending(ms, k + 1) == if IsUser(ms[k]) then [] else Pending(ms, k)
  {
    hide RoleOf, BlocksOf, WithBlocks, LastUserBefore, FirstUserFrom, Gathered, Expected, Touched;
    forall i | 0 <= i < k
      ensures Expected(ms, i, k + 1) == Expected(ms, i, k) && Touched(ms, i, k + 1) == Touched(ms, i, k)
    {
      ExpectedSame(ms, i, k);
    }
    KeptSame(ms, k, k);
    ExpectedFresh(ms, k);
    if IsUser(ms[k]) {
      PendingReachesUser(ms, k);
    } else {
      PendingPassesBy(ms, k);
    }
  }

  /** A turn just reached holds only what was waiting for it. */
  lemma ExpectedFresh(ms: seq<Obj>, k: nat)
    requires k < |ms| && !IsSystem(ms[k])
    ensures Touched(ms, k, k + 1) <==> IsUser(ms[k]) && Pending(ms, k) != []
    ensures Expected(ms, k, k + 1) ==
      if IsUser(ms[k]) && Pending(ms, k) != [] then WithBlocks(ms[k], Pending(ms, k) + Blocks(ms[k])) else ms[k]
  {
    hide RoleOf, BlocksOf, WithBlocks, LastUserBefore, FirstUserFrom, Pending, Target;
    if IsUser(ms[k]) {
      PendingReachesUser(ms, k);
      assert Gathered(ms, Some(k), k, k + 1) == [];
      assert Pending(ms, k) + Blocks(ms[k]) + [] == Pending(ms, k) + Blocks(ms[k]);
    }
  }

  /** foldSystemTurns between parsing and printing: backward search, pending buffer and
      in-place updates, proved equal to the declarative fold. */
  method FoldTurns(ms: seq<Obj>) returns (r: Result<seq<Obj>>, folded: nat)
    ensures r == Fold(ms)
    ensures r.Ok? ==> folded == CountSystem(ms)
  {
    hide RoleOf, BlocksOf, WithBlocks, Expected, Touched, Gathered, FirstUserFrom, LastUserBefore, Pending, Kept;
    var out: seq<Obj>, pending: seq<Value>, k := [], [], 0;
    folded := 0;
    FoldStart(ms);
    while k < |ms|
      invariant k <= |ms| && FoldableTo(ms, k)
      invariant out == Kept(ms, k, k) && pending == Pending(ms, k)
      invariant folded == k - Rank(ms, k)
    {
      var m := ms[k];
      if IsSystem(m) {
        folded := folded + 1;
        var blks := BlocksOf(m);
        if blks.Err? {
          return Err, 0;
        }
        var tgt := NearestPrecedingUser(out);
        TargetFound(ms, k, tgt);
        if tgt >= 0 {
          ghost var u := LastUserBefore(ms, k).value;
          var cur := BlocksOf(out[tgt]);
          ExpectedGrows(ms, k, u);
          if cur.Err? {
            TouchedLater(ms, u, k + 1);
            return Err, 0;
          }
          StepSystemBack(ms, k, u);
          var packed := PackLoop(cur.value + blks.value);
          var set' := SetInPlace(out[tgt], "content", packed);
          WithBlocksIsSet(out[tgt], cur.value + blks.value);
          out := out[tgt := set'];
        } else {
          StepSystemWaits(ms, k);
          pending := pending + blks.value;
        }
      } else {
        if |pending| > 0 && IsUser(m) {
          var cur := BlocksOf(m);
          if cur.Err? {
            ExpectedFresh(ms, k);
            TouchedLater(ms, k, k + 1);
            return Err, 0;
          }
          StepKept(ms, k);
          var packed := PackLoop(pending + cur.value);
          WithBlocksIsSet(m, pending + cur.value);
          m := SetInPlace(m, "content", packed);
          pending := [];
        } else {
          StepKept(ms, k);
        }
        out := out + [m];
      }
      k := k + 1;
    }
    PendingIsOrphans(ms);
    if |pending| > 0 {
      var packed := PackLoop(pending);
      out := out + [[Field("role", [Str("user", Canonical)]), Field("content", packed)]];
    } else {
      assert out + [] == out;
    }
    return Ok(out), folded;
  }

  lemma FoldStart(ms: seq<Obj>)
    ensures Kept(ms, 0, 0) == [] && Pending(ms, 0) == []
  {
  }

  lemma WithBlocksIsSet(m: Obj, blocks: seq<Value>)
    ensures WithBlocks(m, blocks) == Set(m, "content", Pack(blocks))
  {
  }

  lemma TouchedLater(ms: seq<Obj>, i: nat, k: nat)
    requires i < k <= |ms| && Touched(ms, i, k)
    ensures Touched(ms, i, |ms|)
  {
  }

  /** The search over the output finds the turn that the meaning names. */
  lemma TargetFound(ms: seq<Obj>, k: nat, tgt: int)
    requires k <= |ms| && -1 <= tgt < |Kept(ms, k, k)|
    requires tgt >= 0 ==> IsUser(Kept(ms, k, k)[tgt])
    requires forall i :: tgt < i < |Kept(ms, k, k)| ==> !IsUser(Kept(ms, k, k)[i])
    ensures LastUserBefore(ms, k).Some? <==> tgt >= 0
    ensures tgt >= 0 ==> var u := LastUserBefore(ms, k).value;
      tgt == Rank(ms, u) && Kept(ms, k, k)[tgt] == Expected(ms, u, k)
  {
    hide RoleOf, Expected, Kept, Rank;
    KeptUsers(ms, k, k);
    if LastUserBefore(ms, k).Some? {
      KeptAt(ms, k, k, LastUserBefore(ms, k).value);
    }
  }
}
