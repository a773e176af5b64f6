/** What the fold promises: nothing is lost or reordered, no system turn survives, and a
    folded request is left alone by a second fold. */
module FoldLaws {
  import opened Wrappers
  import opened JsonTokens
  import opened OrderedObject
  import opened SystemFold

  // ---- content and order -----------------------------------------------------------------

  /** The blocks of the user and system turns, in conversation order. */
  function Spoken(ms: seq<Obj>): seq<Value> {
    if ms == [] then []
    else
      var m := ms[|ms| - 1];
      Spoken(ms[..|ms| - 1]) + (if IsUser(m) || IsSystem(m) then Blocks(m) else [])
  }

  /** The turns that are neither: assistant turns, tool results, anything else. */
  function Bystanders(ms: seq<Obj>): seq<Obj> {
    if ms == [] then []
    else
      var m := ms[|ms| - 1];
      Bystanders(ms[..|ms| - 1]) + (if IsUser(m) || IsSystem(m) then [] else [m])
  }

  lemma SpokenSnoc(ms: seq<Obj>, m: Obj)
    ensures Spoken(ms + [m]) == Spoken(ms) + (if IsUser(m) || IsSystem(m) then Blocks(m) else [])
    ensures Bystanders(ms + [m]) == Bystanders(ms) + (if IsUser(m) || IsSystem(m) then [] else [m])
  {
    hide RoleOf, Blocks;
    assert (ms + [m])[..|ms|] == ms;
  }

  /** Rewriting the last speaking turn changes only the end of what is spoken. */
  lemma {:induction false} SpokenUpdate(out: seq<Obj>, t: nat, m: Obj, more: seq<Value>)
    requires t < |out| && IsUser(out[t]) && IsUser(m) && Blocks(m) == Blocks(out[t]) + more
    requires forall i :: t < i < |out| ==> !IsUser(out[i]) && !IsSystem(out[i])
    ensures Spoken(out[t := m]) == Spoken(out) + more
    ensures Bystanders(out[t := m]) == Bystanders(out)
  {
    hide RoleOf, Blocks;
    var rest := out[..|out| - 1];
    if t == |out| - 1 {
      assert out[t := m][..t] == rest;
      assert Spoken(rest) + (Blocks(out[t]) + more) == Spoken(rest) + Blocks(out[t]) + more;
    } else {
      SpokenUpdate(rest, t, m, more);
      assert out[t := m][..|out| - 1] == rest[t := m];
      assert Spoken(rest) + more + [] == Spoken(rest) + [] + more;
    }
  }

  lemma {:induction false} KeptHasNoSystem(ms: seq<Obj>, n: nat, k: nat)
    requires n <= k <= |ms|
    ensures forall i :: 0 <= i < |Kept(ms, n, k)| ==> !IsSystem(Kept(ms, n, k)[i])
  {
    hide RoleOf, Expected;
    if n > 0 {
      KeptHasNoSystem(ms, n - 1, k);
      ExpectedRole(ms, n - 1, k);
    }
  }

  lemma {:induction false} ConservedTo(ms: seq<Obj>, k: nat)
    requires k <= |ms| && FoldableTo(ms, k)
    ensures Spoken(ms[..k]) == Spoken(Kept(ms, k, k)) + Pending(ms, k)
    ensures Bystanders(ms[..k]) == Bystanders(Kept(ms, k, k))
  {
    hide RoleOf, Blocks, BlocksOf, Expected, Touched, Gathered, Pending, Kept, Spoken, Bystanders,
         LastUserBefore, WithBlocks;
    if k == 0 {
      ConservedStart(ms);
    } else {
      FoldableEarlier(ms, k - 1);
      ConservedTo(ms, k - 1);
      ConservedStep(ms, k - 1);
    }
  }

  lemma ConservedStart(ms: seq<Obj>)
    ensures Spoken(ms[..0]) == Spoken(Kept(ms, 0, 0)) + Pending(ms, 0)
    ensures Bystanders(ms[..0]) == Bystanders(Kept(ms, 0, 0))
  {
  }

  lemma FoldableEarlier(ms: seq<Obj>, k: nat)
    requires k < |ms| && FoldableTo(ms, k + 1)
    ensures FoldableTo(ms, k)
  {
    hide RoleOf, BlocksOf, Gathered, Target;
    assert forall i :: 0 <= i < k && Touched(ms, i, k) ==> Touched(ms, i, k + 1);
  }

  lemma ConservedStep(ms: seq<Obj>, k: nat)
    requires k < |ms| && FoldableTo(ms, k) && FoldableTo(ms, k + 1)
    requires Spoken(ms[..k]) == Spoken(Kept(ms, k, k)) + Pending(ms, k)
    requires Bystanders(ms[..k]) == Bystanders(Kept(ms, k, k))
    ensures Spoken(ms[..k + 1]) == Spoken(Kept(ms, k + 1, k + 1)) + Pending(ms, k + 1)
    ensures Bystanders(ms[..k + 1]) == Bystanders(Kept(ms, k + 1, k + 1))
  {
    hide RoleOf, BlocksOf, Expected, Touched, Gathered, Pending, Kept, Spoken, Bystanders,
         LastUserBefore, WithBlocks, Rank, Blocks;
    var out, m := Kept(ms, k, k), ms[k];
    assert ms[..k + 1] == ms[..k] + [m];
    SpokenSnoc(ms[..k], m);
    if !IsSystem(m) {
      ConservedKept(ms, k);
    } else if LastUserBefore(ms, k).None? {
      ConservedReadable(ms, k);
      StepSystemWaits(ms, k);
    } else {
      ConservedBack(ms, k);
    }
  }

  lemma ConservedReadable(ms: seq<Obj>, k: nat)
    requires k < |ms| && FoldableTo(ms, k + 1) && IsSystem(ms[k])
    ensures BlocksOf(ms[k]).Ok?
  {
  }

  lemma ConservedKept(ms: seq<Obj>, k: nat)
    requires k < |ms| && FoldableTo(ms, k) && FoldableTo(ms, k + 1) && !IsSystem(ms[k])
    ensures Spoken(Kept(ms, k + 1, k + 1)) + Pending(ms, k + 1)
         == Spoken(Kept(ms, k, k)) + Pending(ms, k) + (if IsUser(ms[k]) then Blocks(ms[k]) else [])
    ensures Bystanders(Kept(ms, k + 1, k + 1))
         == Bystanders(Kept(ms, k, k)) + (if IsUser(ms[k]) then [] else [ms[k]])
  {
    hide RoleOf, BlocksOf, Expected, Touched, Gathered, Pending, Kept, Spoken, Bystanders,
         LastUserBefore, WithBlocks;
    var m := ms[k];
    ExpectedFresh(ms, k);
    StepKept(ms, k);
    var pend := Pending(ms, k);
    if IsUser(m) && pend != [] {
      WithBlocksBlocks(m, pend + Blocks(m));
      WithBlocksRole(m, pend + Blocks(m));
      SpokenSnoc(Kept(ms, k, k), WithBlocks(m, pend + Blocks(m)));
      assert Spoken(Kept(ms, k, k)) + (pend + Blocks(m)) + [] == Spoken(Kept(ms, k, k)) + pend + Blocks(m);
    } else {
      SpokenSnoc(Kept(ms, k, k), m);
      if IsUser(m) {
        assert Spoken(Kept(ms, k, k)) + Blocks(m) + [] == Spoken(Kept(ms, k, k)) + [] + Blocks(m);
      } else {
        assert Spoken(Kept(ms, k, k)) + [] + pend == Spoken(Kept(ms, k, k)) + pend + [];
      }
    }
  }

  lemma ConservedBack(ms: seq<Obj>, k: nat)
    requires k < |ms| && FoldableTo(ms, k) && FoldableTo(ms, k + 1)
    requires IsSystem(ms[k]) && LastUserBefore(ms, k).Some?
    ensures Spoken(Kept(ms, k + 1, k + 1)) + Pending(ms, k + 1)
         == Spoken(Kept(ms, k, k)) + Pending(ms, k) + Blocks(ms[k])
    ensures Bystanders(Kept(ms, k + 1, k + 1)) == Bystanders(Kept(ms, k, k))
  {
    hide RoleOf, BlocksOf, Expected, Touched, Gathered, Pending, Kept, Spoken, Bystanders,
         LastUserBefore, WithBlocks, Rank;
    var u, out := LastUserBefore(ms, k).value, Kept(ms, k, k);
    ConservedReadable(ms, k);
    ExpectedGrows(ms, k, u);
    assert BlocksOf(ms[u]).Ok?;
    var e := Expected(ms, u, k);
    StepSystemBack(ms, k, u);
    ExpectedRole(ms, u, k);
    ExpectedRole(ms, u, k + 1);
    WithBlocksBlocks(e, Blocks(e) + Blocks(ms[k]));
    WithBlocksRole(e, Blocks(e) + Blocks(ms[k]));
    KeptAt(ms, k, k, u);
    KeptUsers(ms, k, k);
    KeptHasNoSystem(ms, k, k);
    SpokenUpdate(out, Rank(ms, u), WithBlocks(e, Blocks(e) + Blocks(ms[k])), Blocks(ms[k]));
    assert Spoken(out) + Blocks(ms[k]) + [] == Spoken(out) + [] + Blocks(ms[k]);
  }

  /** Content and order: the blocks spoken by user and system turns are, in order, the blocks
      spoken by the user turns of the result, and every other turn is there, unchanged and in
      order. */
  lemma FoldConserves(ms: seq<Obj>)
    requires Fold(ms).Ok?
    ensures Spoken(Fold(ms).value) == Spoken(ms)
    ensures Bystanders(Fold(ms).value) == Bystanders(ms)
  {
    hide RoleOf, BlocksOf, Expected, Gathered, Kept, Spoken, Bystanders, Pending, Target;
    ConservedTo(ms, |ms|);
    assert ms[..|ms|] == ms;
    PendingIsOrphans(ms);
    if Orphans(ms) == [] {
      assert Spoken(Kept(ms, |ms|, |ms|)) + [] == Spoken(Kept(ms, |ms|, |ms|));
      assert Kept(ms, |ms|, |ms|) + [] == Kept(ms, |ms|, |ms|);
    } else {
      NewUserFacts(Orphans(ms));
      SpokenSnoc(Kept(ms, |ms|, |ms|), NewUser(Orphans(ms)));
      assert Bystanders(Kept(ms, |ms|, |ms|)) + [] == Bystanders(Kept(ms, |ms|, |ms|));
    }
  }

  // ---- no system turn survives -----------------------------------------------------------

  /** No system turn is left, and exactly the system turns are gone. */
  lemma FoldRemovesSystem(ms: seq<Obj>)
    ensures forall i :: 0 <= i < |Folded(ms)| ==> !IsSystem(Folded(ms)[i])
    ensures |Folded(ms)| == |ms| - CountSystem(ms) + (if Orphans(ms) == [] then 0 else 1)
  {
    hide RoleOf, Expected, Gathered, Kept, NewUser;
    KeptHasNoSystem(ms, |ms|, |ms|);
    KeptLength(ms, |ms|, |ms|);
    NewUserFacts(Orphans(ms));
  }

  /** A kept turn has all its fields but content, and a turn that is no user turn is kept as
      it was. */
  lemma FoldKeepsFields(ms: seq<Obj>, i: nat, key: string)
    requires i < |ms| && !IsSystem(ms[i]) && key != "content"
    ensures Rank(ms, i) < |Folded(ms)|
    ensures Get(Folded(ms)[Rank(ms, i)], key) == Get(ms[i], key)
    ensures !IsUser(ms[i]) ==> Folded(ms)[Rank(ms, i)] == ms[i]
  {
    hide RoleOf, Gathered, Kept, NewUser, Pack, Rank;
    KeptAt(ms, |ms|, |ms|, i);
    var blocks := Gathered(ms, Some(i), 0, i) + Blocks(ms[i]) + Gathered(ms, Some(i), i, |ms|);
    SetLaws(ms[i], "content", Pack(blocks), key);
  }

  /** A user turn's blocks after the fold: what was addressed to it from before, its own,
      what was addressed to it from after. */
  lemma FoldedByTarget(ms: seq<Obj>, i: nat)
    requires i < |ms| && IsUser(ms[i]) && Fold(ms).Ok?
    ensures Rank(ms, i) < |Folded(ms)|
    ensures Blocks(Folded(ms)[Rank(ms, i)])
         == Gathered(ms, Some(i), 0, i) + Blocks(ms[i]) + Gathered(ms, Some(i), i, |ms|)
  {
    hide RoleOf, Gathered, Kept, NewUser, Rank, WithBlocks, Touched, BlocksOf;
    KeptAt(ms, |ms|, |ms|, i);
    var blocks := Gathered(ms, Some(i), 0, i) + Blocks(ms[i]) + Gathered(ms, Some(i), i, |ms|);
    if Touched(ms, i, |ms|) {
      WithBlocksBlocks(ms[i], blocks);
    } else {
      UntouchedGotNothing(ms, i, |ms|, |ms|);
    }
  }

  lemma {:induction false} GatheredAhead(ms: seq<Obj>, i: nat, hi: nat)
    requires i < hi <= |ms| && IsUser(ms[i]) && forall j :: i < j < hi ==> !IsUser(ms[j])
    ensures Gathered(ms, Some(i), i, hi) == Spoken(ms[i + 1..hi])
    decreases hi
  {
    hide RoleOf, Blocks, Spoken, Bystanders, Target, Gathered;
    GatheredLast(ms, Some(i), i, hi);
    if hi == i + 1 {
      SpokenNothing();
    } else {
      GatheredAhead(ms, i, hi - 1);
      assert ms[i + 1..hi] == ms[i + 1..hi - 1] + [ms[hi - 1]];
      SpokenSnoc(ms[i + 1..hi - 1], ms[hi - 1]);
      TargetIsLast(ms, i, hi - 1);
    }
  }

  lemma GatheredLast(ms: seq<Obj>, t: Option<nat>, lo: nat, hi: nat)
    requires lo < hi <= |ms|
    ensures Gathered(ms, t, lo, lo) == []
    ensures Gathered(ms, t, lo, hi) == Gathered(ms, t, lo, hi - 1) +
      (if IsSystem(ms[hi - 1]) && Target(ms, hi - 1) == t then Blocks(ms[hi - 1]) else [])
  {
    hide RoleOf, Blocks, Target;
  }

  lemma SpokenNothing()
    ensures Spoken([]) == []
  {
  }

  lemma TargetIsLast(ms: seq<Obj>, i: nat, j: nat)
    requires i < j <= |ms| && IsUser(ms[i]) && forall l :: i < l < j ==> !IsUser(ms[l])
    ensures Target(ms, j) == Some(i)
  {
    hide RoleOf;
    assert LastUserBefore(ms, j) == Some(i);
  }

  lemma {:induction false} GatheredNoMore(ms: seq<Obj>, i: nat, next: nat, hi: nat)
    requires i < next <= hi <= |ms| && next < |ms| && IsUser(ms[next])
    ensures Gathered(ms, Some(i), i, hi) == Gathered(ms, Some(i), i, next)
    decreases hi
  {
    hide RoleOf, Blocks, Target;
    if next < hi {
      GatheredNoMore(ms, i, next, hi - 1);
      TargetMovedOn(ms, i, next, hi - 1);
    }
  }

  lemma TargetMovedOn(ms: seq<Obj>, i: nat, next: nat, j: nat)
    requires i < next <= j < |ms| && IsUser(ms[next])
    ensures IsSystem(ms[j]) ==> Target(ms, j) != Some(i)
  {
    hide RoleOf;
    if j > next {
      assert LastUserBefore(ms, j).Some? && LastUserBefore(ms, j).value >= next;
    }
  }

  lemma {:induction false} GatheredBehind(ms: seq<Obj>, i: nat, hi: nat)
    requires hi <= i < |ms| && IsUser(ms[i]) && LastUserBefore(ms, i).None?
    ensures Gathered(ms, Some(i), 0, hi) == Spoken(ms[..hi])
  {
    hide RoleOf, Blocks;
    if hi > 0 {
      GatheredBehind(ms, i, hi - 1);
      assert ms[..hi] == ms[..hi - 1] + [ms[hi - 1]];
      SpokenSnoc(ms[..hi - 1], ms[hi - 1]);
      assert FirstUserFrom(ms, hi - 1) == Some(i);
    }
  }

  /** Each user turn ends up with (when it is the first) everything the system turns before it
      said, then its own blocks, then what the system turns up to the next user turn said. */
  lemma FoldedUserTurn(ms: seq<Obj>, i: nat, next: nat)
    requires i < next <= |ms| && IsUser(ms[i]) && forall j :: i < j < next ==> !IsUser(ms[j])
    requires next < |ms| ==> IsUser(ms[next])
    requires Fold(ms).Ok?
    ensures Rank(ms, i) < |Fold(ms).value|
    ensures Blocks(Fold(ms).value[Rank(ms, i)])
         == (if forall j :: 0 <= j < i ==> !IsUser(ms[j]) then Spoken(ms[..i]) else [])
          + Blocks(ms[i]) + Spoken(ms[i + 1..next])
  {
    hide RoleOf, Gathered, Folded, Rank, Foldable, Blocks, Spoken;
    FoldedByTarget(ms, i);
    GatheredAhead(ms, i, next);
    if next < |ms| {
      GatheredNoMore(ms, i, next, |ms|);
    }
    if LastUserBefore(ms, i).None? {
      GatheredBehind(ms, i, i);
    } else {
      OnlyFirstUserWaits(ms, i, i);
    }
  }

  /** With no user turn at all, one is appended with everything the system turns said, if they
      said anything. */
  lemma FoldedWithoutUser(ms: seq<Obj>)
    requires forall j :: 0 <= j < |ms| ==> !IsUser(ms[j])
    requires Fold(ms).Ok?
    ensures Fold(ms).value == Bystanders(ms) + (if Spoken(ms) == [] then [] else [NewUser(Spoken(ms))])
  {
    hide RoleOf, NewUser, Blocks, Gathered, Expected;
    KeptBystanders(ms, |ms|);
    OrphansSpoken(ms, |ms|);
    assert ms[..|ms|] == ms;
  }

  lemma {:induction false} KeptBystanders(ms: seq<Obj>, n: nat)
    requires n <= |ms| && forall j :: 0 <= j < |ms| ==> !IsUser(ms[j])
    ensures Kept(ms, n, |ms|) == Bystanders(ms[..n])
  {
    hide RoleOf, WithBlocks, Gathered;
    if n > 0 {
      KeptBystanders(ms, n - 1);
      assert ms[..n] == ms[..n - 1] + [ms[n - 1]];
      SpokenSnoc(ms[..n - 1], ms[n - 1]);
    }
  }

  lemma {:induction false} OrphansSpoken(ms: seq<Obj>, n: nat)
    requires n <= |ms| && forall j :: 0 <= j < |ms| ==> !IsUser(ms[j])
    ensures Gathered(ms, None, 0, n) == Spoken(ms[..n])
  {
    hide RoleOf, Blocks;
    if n > 0 {
      OrphansSpoken(ms, n - 1);
      assert ms[..n] == ms[..n - 1] + [ms[n - 1]];
      SpokenSnoc(ms[..n - 1], ms[n - 1]);
      assert Target(ms, n - 1) == None;
    }
  }
}
