/** What the fold reads, by layout: which turns are system or user turns, which blocks a content
    holds, which conversation a body carries, which content makes the fold give up. */
module FoldReading {
  import opened Wrappers
  import opened JsonTokens
  import opened OrderedObject
  import opened JsonLayout
  import opened SystemFold
  import opened FoldLaws
  import opened FoldBody

  /** raw is the value of the first field of that key. */
  ghost predicate HasFirst(o: Obj, key: string, raw: Raw) {
    exists i :: 0 <= i < |o| && o[i].key == key && o[i].val == raw && forall j :: 0 <= j < i ==> o[j].key != key
  }

  ghost predicate HasKey(o: Obj, key: string) {
    exists i :: 0 <= i < |o| && o[i].key == key
  }

  lemma {:induction false} GetIff(o: Obj, key: string)
    ensures Get(o, key).Some? <==> HasKey(o, key)
    ensures Get(o, key).Some? ==> HasFirst(o, key, Get(o, key).value)
    ensures forall raw: Raw :: HasFirst(o, key, raw) ==> Get(o, key).Some? && Get(o, key).value == raw
  {
    hide IsValue;
    if n: nat :| n < |o| && o[n].key == key {
      var i := FirstAt(o, key, n);
      GetAt(o, key, i);
    } else {
      GetAbsent(o, key);
    }
    forall raw: Raw | HasFirst(o, key, raw) ensures Get(o, key).Some? && Get(o, key).value == raw {
      var i :| 0 <= i < |o| && o[i].key == key && o[i].val == raw && forall j :: 0 <= j < i ==> o[j].key != key;
      GetAt(o, key, i);
    }
  }

  lemma {:induction false} FirstAt(o: Obj, key: string, n: nat) returns (i: nat)
    requires n < |o| && o[n].key == key
    ensures i <= n && o[i].key == key && forall j :: 0 <= j < i ==> o[j].key != key
  {
    i := n;
    if k: nat :| k < n && o[k].key == key {
      i := FirstAt(o, key, k);
    }
  }

  /** The first field of that key is this string, in any spelling. */
  ghost predicate SaysFirst(o: Obj, key: string, s: string) {
    exists raw: Raw, spelling :: HasFirst(o, key, raw) && IsToken(raw, Str(s, spelling))
  }

  lemma SaysIff(o: Obj, key: string, s: string)
    requires s != ""
    ensures SaysFirst(o, key, s) <==> Get(o, key).Some? && ReadString(Get(o, key).value) == Some(s)
  {
    hide Get, ReadString, HasFirst, IsToken, IsValue;
    GetIff(o, key);
    if Get(o, key).Some? {
      ReadStringIff(Get(o, key).value, s);
    }
    if raw: Raw, spelling :| HasFirst(o, key, raw) && IsToken(raw, Str(s, spelling)) {
      assert Get(o, key).value == raw;
    }
  }

  /** A turn is a system or a user turn by the string its first role field holds. */
  lemma TurnRoles(m: Obj)
    ensures IsSystem(m) <==> SaysFirst(m, "role", "system")
    ensures IsUser(m) <==> SaysFirst(m, "role", "user")
  {
    hide Get, ReadString, SaysFirst;
    SaysIff(m, "role", "system");
    SaysIff(m, "role", "user");
  }

  /** The block a bare string becomes, token by token. */
  function BlockTokens(s: string): Raw {
    [LBrace,
     Str("text", Canonical), Colon, Str(s, Canonical), Comma,
     Str("type", Canonical), Colon, Str("text", Canonical),
     RBrace]
  }

  lemma TextBlockTokens(s: string)
    ensures TextBlock(s) == BlockTokens(s)
  {
    var o := [Field("text", [Str(s, Canonical)]), Field("type", [Str("text", Canonical)])];
    var parts := FieldTexts(o);
    assert parts[1..] == [FieldText(o[1])] && parts[1..][1..] == [];
    assert Join(parts[1..], false) == [Comma] + FieldText(o[1]);
  }

  /** The blocks a turn's content holds: none without content or for null, an array's values, or
      one text block for a string. */
  ghost predicate Holds(m: Obj, bs: seq<Value>) {
    if HasKey(m, "content") then
      exists raw: Raw :: HasFirst(m, "content", raw) && HoldsRaw(raw, bs)
    else bs == []
  }

  ghost predicate HoldsRaw(raw: Raw, bs: seq<Value>) {
    IsArrayOf(raw, bs) || (bs == [] && IsToken(raw, Lit("null"))) ||
    exists s, spelling :: IsToken(raw, Str(s, spelling)) && |bs| == 1 && bs[0] == BlockTokens(s)
  }

  lemma RawHolds(m: Obj, raw: Value, bs: seq<Value>)
    requires Get(m, "content") == Some(raw)
    ensures BlocksOf(m) == Ok(bs) <==> HoldsRaw(raw, bs)
  {
    hide Get, ReadArray, ReadString, IsToken, IsArrayOf, TextBlock, BlockTokens, IsValue;
    ReadArrayIff(raw, bs);
    if ReadArray(raw).Some? {
      ReadArrayIff(raw, ReadArray(raw).value);
      ArrayIsNoString(raw, ReadArray(raw).value);
    } else {
      ReadArrayIff(raw, []);
      StringHolds(raw, bs);
    }
  }

  lemma StringHolds(raw: Raw, bs: seq<Value>)
    requires !IsToken(raw, Lit("null"))
    ensures (ReadString(raw).Some? && bs == [TextBlock(ReadString(raw).value)]) <==>
      exists s, spelling :: IsToken(raw, Str(s, spelling)) && |bs| == 1 && bs[0] == BlockTokens(s)
  {
    hide ReadString, IsToken, TextBlock, BlockTokens, IsValue;
    if ReadString(raw).Some? {
      ReadStringIff(raw, ReadString(raw).value);
      TextBlockTokens(ReadString(raw).value);
    }
    if s, spelling :| IsToken(raw, Str(s, spelling)) && |bs| == 1 && bs[0] == BlockTokens(s) {
      ReadStringIff(raw, s);
      TextBlockTokens(s);
    }
  }

  lemma ArrayIsNoString(raw: Raw, vs: seq<Value>)
    requires IsArrayOf(raw, vs) || IsToken(raw, Lit("null"))
    ensures forall s, spelling :: !IsToken(raw, Str(s, spelling))
  {
    hide Skip, IsToken, IsArrayOf, Elements, IsValue;
    ReadArrayIff(raw, vs);
    TokenIsRead(raw, Lit("null"));
    forall s, spelling ensures !IsToken(raw, Str(s, spelling)) {
      TokenIsRead(raw, Str(s, spelling));
    }
  }

  /** What the fold takes for a turn's blocks is exactly what its content holds; it fails on a
      content that holds none of these. */
  lemma BlocksIff(m: Obj, bs: seq<Value>)
    ensures BlocksOf(m) == Ok(bs) <==> Holds(m, bs)
    ensures BlocksOf(m) == Ok(bs) ==> Blocks(m) == bs
    ensures BlocksOf(m).Err? ==> Blocks(m) == []
  {
    hide Get, ReadArray, ReadString, HasFirst, HasKey, HoldsRaw, IsValue;
    GetIff(m, "content");
    if Get(m, "content").Some? {
      RawHolds(m, Get(m, "content").value, bs);
    }
  }

  lemma BlocksFail(m: Obj)
    ensures BlocksOf(m).Err? <==> forall bs: seq<Value> :: !Holds(m, bs)
  {
    hide BlocksOf, Holds;
    forall bs: seq<Value> ensures BlocksOf(m) == Ok(bs) <==> Holds(m, bs) {
      BlocksIff(m, bs);
    }
  }

  /** raw is one object with distinct keys, these fields. */
  ghost predicate IsDoc(raw: Raw, o: Obj) {
    IsObjectOf(raw, o) && forall i, j :: 0 <= i < j < |o| ==> o[i].key != o[j].key
  }

  /** The body is an object whose messages are an array of objects, these in order. */
  ghost predicate Carries(body: Raw, ms: seq<Obj>) {
    exists doc: Obj, raw: Raw, raws: seq<Value> ::
      IsDoc(body, doc) && HasFirst(doc, "messages", raw) &&
      (IsArrayOf(raw, raws) || (raws == [] && IsToken(raw, Lit("null")))) && AreDocs(raws, ms)
  }

  ghost predicate AreDocs(raws: seq<Value>, ms: seq<Obj>) {
    |ms| == |raws| && forall i :: 0 <= i < |raws| ==> IsDoc(raws[i], ms[i])
  }

  lemma DocIff(raw: Raw, o: Obj)
    ensures Parse(raw) == Ok(o) <==> IsDoc(raw, o)
  {
    hide Parse, IsObjectOf;
    ParseIff(raw, o);
  }

  lemma DocsIff(raws: seq<Value>, ms: seq<Obj>)
    ensures AreDocs(raws, ms) <==> AllParse(raws) && ms == ParseAll(raws)
  {
    hide Parse, IsDoc;
    forall i | 0 <= i < |raws| && i < |ms| ensures Parse(raws[i]) == Ok(ms[i]) <==> IsDoc(raws[i], ms[i]) {
      DocIff(raws[i], ms[i]);
    }
    if AreDocs(raws, ms) {
      forall i | 0 <= i < |raws| ensures Parse(raws[i]).Ok? {
        assert Parse(raws[i]) == Ok(ms[i]);
      }
      assert ms == ParseAll(raws);
    }
  }

  /** The conversation the fold works on is exactly the one the body carries. */
  lemma MessagesIff(body: Raw, ms: seq<Obj>)
    ensures Messages(body) == Some(ms) <==> Carries(body, ms)
  {
    hide Parse, Get, ReadArray, IsDoc, HasFirst, IsArrayOf, IsToken, AreDocs, AllParse, ParseAll;
    if Messages(body) == Some(ms) {
      var doc := Parse(body).value;
      var raw := Get(doc, "messages").value;
      DocIff(body, doc);
      GetIff(doc, "messages");
      ReadArrayIff(raw, ReadArray(raw).value);
      DocsIff(ReadArray(raw).value, ms);
    }
    if Carries(body, ms) {
      CarriedIsRead(body, ms);
    }
  }

  lemma CarriedIsRead(body: Raw, ms: seq<Obj>)
    requires Carries(body, ms)
    ensures Messages(body) == Some(ms)
  {
    hide Parse, Get, ReadArray, IsDoc, HasFirst, IsArrayOf, IsToken, AreDocs, AllParse, ParseAll;
    var doc: Obj, raw: Raw, raws: seq<Value> :|
      IsDoc(body, doc) && HasFirst(doc, "messages", raw) &&
      (IsArrayOf(raw, raws) || (raws == [] && IsToken(raw, Lit("null")))) && AreDocs(raws, ms);
    DocIff(body, doc);
    GetIff(doc, "messages");
    ReadArrayIff(raw, raws);
    DocsIff(raws, ms);
  }

  // ---- when the fold gives up ------------------------------------------------------------

  /** Some system turn's blocks are put into user turn i: one that follows it with no user turn in
      between, or, for the first user turn, any that said something before it. */
  ghost predicate Receives(ms: seq<Obj>, i: nat)
    requires i < |ms|
  {
    IsUser(ms[i]) &&
    ((exists j :: i < j < |ms| && IsSystem(ms[j]) && forall l :: i < l < j ==> !IsUser(ms[l])) ||
     ((forall l :: 0 <= l < i ==> !IsUser(ms[l])) && exists j :: 0 <= j < i && IsSystem(ms[j]) && Blocks(ms[j]) != []))
  }

  lemma {:induction false} GatheredSays(ms: seq<Obj>, i: nat, hi: nat)
    requires hi <= i < |ms| && IsUser(ms[i]) && forall l :: 0 <= l < i ==> !IsUser(ms[l])
    ensures Gathered(ms, Some(i), 0, hi) != [] <==> exists j :: 0 <= j < hi && IsSystem(ms[j]) && Blocks(ms[j]) != []
  {
    hide RoleOf, Blocks, Target;
    if hi > 0 {
      GatheredSays(ms, i, hi - 1);
      TargetIsNext(ms, i, hi - 1);
    }
  }

  lemma TargetIsNext(ms: seq<Obj>, i: nat, j: nat)
    requires j <= i < |ms| && IsUser(ms[i]) && forall l :: 0 <= l < i ==> !IsUser(ms[l])
    ensures Target(ms, j) == Some(i)
  {
    hide RoleOf;
    assert FirstUserFrom(ms, j) == Some(i);
  }

  lemma TouchedIff(ms: seq<Obj>, i: nat)
    requires i < |ms|
    ensures Touched(ms, i, |ms|) <==> Receives(ms, i)
  {
    hide RoleOf, Blocks, Target, Gathered;
    if IsUser(ms[i]) {
      if forall l :: 0 <= l < i ==> !IsUser(ms[l]) {
        GatheredSays(ms, i, i);
      } else {
        LaterUser(ms, i);
        OnlyFirstUserWaits(ms, i, i);
      }
      forall j | i < j < |ms| ensures Target(ms, j) == Some(i) <==> forall l :: i < l < j ==> !IsUser(ms[l]) {
        TargetAhead(ms, i, j);
      }
    }
  }

  lemma LaterUser(ms: seq<Obj>, i: nat)
    requires i < |ms| && !(forall l :: 0 <= l < i ==> !IsUser(ms[l]))
    ensures LastUserBefore(ms, i).Some?
  {
    hide RoleOf;
  }

  lemma TargetAhead(ms: seq<Obj>, i: nat, j: nat)
    requires i < j < |ms| && IsUser(ms[i])
    ensures Target(ms, j) == Some(i) <==> forall l :: i < l < j ==> !IsUser(ms[l])
  {
    hide RoleOf;
    assert LastUserBefore(ms, j).Some?;
  }

  /** The fold gives up exactly when a system turn, or a user turn that receives something, has a
      content that holds no blocks at all. */
  lemma FoldFailsIff(ms: seq<Obj>)
    ensures Fold(ms).Err? <==> exists i :: 0 <= i < |ms| && (IsSystem(ms[i]) || Receives(ms, i)) && BlocksOf(ms[i]).Err?
  {
    hide RoleOf, BlocksOf, Touched, Folded, Receives;
    forall i | 0 <= i < |ms| ensures Touched(ms, i, |ms|) <==> Receives(ms, i) {
      TouchedIff(ms, i);
    }
  }

  /** A user turn that receives nothing is kept whole, whatever its content. */
  lemma FoldLeavesOthersAlone(ms: seq<Obj>, i: nat)
    requires i < |ms| && IsUser(ms[i]) && !Receives(ms, i)
    ensures Rank(ms, i) < |Folded(ms)| && Folded(ms)[Rank(ms, i)] == ms[i]
  {
    hide RoleOf, Gathered, Kept, NewUser, Rank, Touched, Receives, BlocksOf;
    TouchedIff(ms, i);
    KeptAt(ms, |ms|, |ms|, i);
  }

  /** A body the fold gives up on, or passes on untouched: no object, messages that are no list
      of objects, or an unreadable content, against no messages or no system turn. */
  lemma OutcomeFails(body: Raw)
    ensures FoldOutcome(body).failed <==>
      (forall o: Obj :: !IsDoc(body, o)) ||
      ((forall o: Obj | IsDoc(body, o) :: HasKey(o, "messages")) && forall ms: seq<Obj> :: !Carries(body, ms)) ||
      (exists ms: seq<Obj> :: Carries(body, ms) && AnySystem(ms) && Fold(ms).Err?)
  {
    hide Parse, Get, Messages, IsDoc, HasKey, Carries, Foldable, Folded, AnySystem, Rewrite;
    forall o: Obj ensures Parse(body) == Ok(o) <==> IsDoc(body, o) {
      DocIff(body, o);
    }
    forall ms: seq<Obj> ensures Messages(body) == Some(ms) <==> Carries(body, ms) {
      MessagesIff(body, ms);
    }
    if Parse(body).Ok? {
      GetIff(Parse(body).value, "messages");
      if Get(Parse(body).value, "messages").None? {
        NoMessagesNone(body);
      }
    }
    if Parse(body).Err? {
      NoDocNone(body);
    }
  }

  lemma NoMessagesNone(body: Raw)
    requires Parse(body).Ok? && Get(Parse(body).value, "messages").None?
    ensures Messages(body).None?
  {
    hide Parse, Get;
  }

  lemma NoDocNone(body: Raw)
    requires Parse(body).Err?
    ensures Messages(body).None?
  {
    hide Parse, Get;
  }
}
