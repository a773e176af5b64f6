/** foldSystemTurns on a request body: parse, fold the messages, print. */
module FoldBody {
  import opened Wrappers
  import opened JsonTokens
  import opened OrderedObject
  import opened SystemFold
  import opened FoldLaws

  /** What the router gets back: the body to forward, how many turns were folded, whether the
      fold gave up. */
  datatype Outcome = Outcome(body: Raw, folded: nat, failed: bool)

  ghost predicate AllParse(raws: seq<Value>) {
    forall i :: 0 <= i < |raws| ==> Parse(raws[i]).Ok?
  }

  ghost function ParseAll(raws: seq<Value>): seq<Obj>
    requires AllParse(raws)
  {
    seq(|raws|, i requires 0 <= i < |raws| => Parse(raws[i]).value)
  }

  function MarshalAll(ms: seq<Obj>): (r: seq<Value>)
    ensures |r| == |ms| && forall i :: 0 <= i < |ms| ==> r[i] == Marshal(ms[i])
  {
    seq(|ms|, i requires 0 <= i < |ms| => Marshal(ms[i]))
  }

  /** The conversation inside a body, where every reader agrees there is one. */
  ghost function Messages(body: Raw): Option<seq<Obj>> {
    match Parse(body)
    case Err => None
    case Ok(doc) =>
      match Get(doc, "messages")
      case None => None
      case Some(raw) =>
        match ReadArray(raw)
        case None => None
        case Some(raws) => if AllParse(raws) then Some(ParseAll(raws)) else None
  }

  predicate AnySystem(ms: seq<Obj>) {
    exists i :: 0 <= i < |ms| && IsSystem(ms[i])
  }

  /** A body without `messages` is not an error; one whose messages cannot be read is. */
  ghost predicate HasNoMessages(body: Raw) {
    Parse(body).Ok? && Get(Parse(body).value, "messages").None?
  }

  ghost predicate Rewritten(body: Raw) {
    Messages(body).Some? && AnySystem(Messages(body).value) && Foldable(Messages(body).value)
  }

  ghost function Rewrite(body: Raw): Raw
    requires Rewritten(body)
  {
    Marshal(Set(Parse(body).value, "messages", Pack(MarshalAll(Folded(Messages(body).value)))))
  }

  ghost function FoldOutcome(body: Raw): Outcome {
    if Rewritten(body) then Outcome(Rewrite(body), CountSystem(Messages(body).value), false)
    else Outcome(body, 0,
      !HasNoMessages(body) && !(Messages(body).Some? && !AnySystem(Messages(body).value)))
  }

  method MarshalMessages(ms: seq<Obj>) returns (buf: Raw)
    ensures buf == Pack(MarshalAll(ms))
  {
    hide Marshal;
    buf := [LBrack];
    for i := 0 to |ms|
      invariant buf == [LBrack] + Join(MarshalAll(ms)[..i], true)
    {
      JoinSnoc(MarshalAll(ms)[..i], true, Marshal(ms[i]));
      assert MarshalAll(ms)[..i + 1] == MarshalAll(ms)[..i] + [Marshal(ms[i])];
      if i > 0 {
        buf := buf + [Comma];
      }
      var b := MarshalLoop(ms[i]);
      buf := buf + b;
    }
    assert MarshalAll(ms)[..|ms|] == MarshalAll(ms);
    buf := buf + [RBrack];
  }

  method FoldSystemTurns(body: Raw) returns (r: Outcome)
    ensures r == FoldOutcome(body)
  {
    hide ReadArray, Get, RoleOf, Foldable, Folded, Marshal, Pack, Parse, Set, CountSystem, Rank;
    var parsed := ParseOrdered(body);
    if parsed.Err? {
      return Outcome(body, 0, true);
    }
    var doc := parsed.value;
    var rawMsgs := Get(doc, "messages");
    if rawMsgs.None? {
      return Outcome(body, 0, false);
    }
    var msgRaw := ReadArray(rawMsgs.value);
    if msgRaw.None? {
      return Outcome(body, 0, true);
    }
    var msgs: seq<Obj>, anySystem := [], false;
    for i := 0 to |msgRaw.value|
      invariant |msgs| == i
      invariant forall j :: 0 <= j < i ==> Parse(msgRaw.value[j]) == Ok(msgs[j])
      invariant anySystem == AnySystem(msgs)
    {
      var m := ParseOrdered(msgRaw.value[i]);
      if m.Err? {
        assert !AllParse(msgRaw.value);
        return Outcome(body, 0, true);
      }
      AnySystemSnoc(msgs, m.value);
      if IsSystem(m.value) {
        anySystem := true;
      }
      msgs := msgs + [m.value];
    }
    assert msgs == ParseAll(msgRaw.value);
    assert Messages(body) == Some(msgs);
    if !anySystem {
      return Outcome(body, 0, false);
    }
    var out, folded := FoldTurns(msgs);
    if out.Err? {
      return Outcome(body, 0, true);
    }
    var buf := MarshalMessages(out.value);
    var newDoc := SetInPlace(doc, "messages", buf);
    var newBody := MarshalLoop(newDoc);
    return Outcome(newBody, folded, false);
  }

  lemma AnySystemSnoc(ms: seq<Obj>, m: Obj)
    ensures AnySystem(ms + [m]) == (AnySystem(ms) || IsSystem(m))
  {
    hide RoleOf;
    if AnySystem(ms) {
      var i :| 0 <= i < |ms| && IsSystem(ms[i]);
      assert IsSystem((ms + [m])[i]);
    }
    if IsSystem(m) {
      assert IsSystem((ms + [m])[|ms|]);
    }
  }

  // ---- the rewritten body reads back -----------------------------------------------------

  ghost predicate AllDistinct(ms: seq<Obj>) {
    forall i :: 0 <= i < |ms| ==> Distinct(ms[i])
  }

  lemma {:induction false} KeptDistinct(ms: seq<Obj>, n: nat, k: nat)
    requires n <= k <= |ms| && AllDistinct(ms)
    ensures AllDistinct(Kept(ms, n, k))
  {
    hide RoleOf, Gathered, Blocks, Touched, Set, Distinct, Pack;
    if n > 0 {
      KeptDistinct(ms, n - 1, k);
      var i := n - 1;
      SetDistinct(ms[i], "content", Pack(Gathered(ms, Some(i), 0, i) + Blocks(ms[i]) + Gathered(ms, Some(i), i, k)));
    }
  }

  lemma FoldedDistinct(ms: seq<Obj>)
    requires AllDistinct(ms)
    ensures AllDistinct(Folded(ms))
  {
    hide Gathered, Kept, Pack;
    KeptDistinct(ms, |ms|, |ms|);
  }

  lemma MessagesDistinct(body: Raw)
    requires Messages(body).Some?
    ensures AllDistinct(Messages(body).value)
  {
    hide Parse, Distinct, Get, ReadArray;
    var raws := ReadArray(Get(Parse(body).value, "messages").value).value;
    forall i | 0 <= i < |raws| ensures Distinct(Messages(body).value[i]) {
      ParsedIsDistinct(raws[i]);
    }
  }

  /** A list of messages, printed inside a body, is read back as that list. */
  lemma PrintedMessages(doc: Obj, ms: seq<Obj>)
    requires Distinct(doc) && AllDistinct(ms)
    ensures var o := Set(doc, "messages", Pack(MarshalAll(ms)));
      Parse(Marshal(o)) == Ok(o) && Messages(Marshal(o)) == Some(ms)
  {
    hide Parse, ReadArray, Marshal, Pack, Set, Get, Distinct, IsValue;
    var raws := MarshalAll(ms);
    forall i | 0 <= i < |ms| ensures Parse(raws[i]) == Ok(ms[i]) {
      ParseMarshal(ms[i]);
    }
    ReadPack(raws);
    SetDistinct(doc, "messages", Pack(raws));
    ParseMarshal(Set(doc, "messages", Pack(raws)));
    SetLaws(doc, "messages", Pack(raws), "messages");
    assert ParseAll(raws) == ms;
  }

  /** A rewritten body is a readable body whose conversation is exactly the folded one. */
  lemma RewriteReads(body: Raw)
    requires Rewritten(body)
    ensures Parse(Rewrite(body)) ==
      Ok(Set(Parse(body).value, "messages", Pack(MarshalAll(Folded(Messages(body).value)))))
    ensures Messages(Rewrite(body)) == Some(Folded(Messages(body).value))
  {
    hide Parse, Marshal, Pack, Set, Folded, AllDistinct, Distinct, Foldable;
    MessagesDistinct(body);
    FoldedDistinct(Messages(body).value);
    ParsedIsDistinct(body);
    PrintedMessages(Parse(body).value, Folded(Messages(body).value));
  }

  /** Every other top-level value is untouched and the key order is kept; in particular the
      body is still routed by the same model. */
  lemma RewriteKeepsTheRest(body: Raw, key: string)
    requires Rewritten(body)
    ensures var before, after := Parse(body), Parse(Rewrite(body));
      after.Ok? && |after.value| == |before.value| &&
      (forall i :: 0 <= i < |before.value| ==> after.value[i].key == before.value[i].key) &&
      (forall i :: 0 <= i < |before.value| && before.value[i].key != "messages" ==> after.value[i] == before.value[i]) &&
      (key != "messages" ==> Get(after.value, key) == Get(before.value, key))
  {
    hide Parse, Marshal, Pack, Folded, Foldable, Rewrite, ReadArray, Set, Get;
    RewriteReads(body);
    SetLaws(Parse(body).value, "messages", Pack(MarshalAll(Folded(Messages(body).value))), key);
  }

  /** Folding once is enough: the forwarded body, folded again, comes back as the same bytes
      with nothing folded, whatever the first call did. */
  lemma FoldIdempotent(body: Raw)
    ensures FoldOutcome(FoldOutcome(body).body) == FoldOutcome(body).(folded := 0)
  {
    hide Parse, Rewrite, Folded, Foldable, RoleOf, Messages;
    if Rewritten(body) {
      var ms := Messages(body).value;
      RewriteReads(body);
      MessagesDistinct(body);
      FoldRemovesSystem(ms);
      assert !AnySystem(Folded(ms));
    }
  }

  /** Nothing counted, nothing changed; something counted, and the new conversation has no
      system turn, loses no content and loses exactly the counted turns. */
  lemma FoldOutcomeMeaning(body: Raw)
    ensures FoldOutcome(body).folded == 0 ==> FoldOutcome(body).body == body
    ensures FoldOutcome(body).folded > 0 ==>
      !FoldOutcome(body).failed && Messages(body).Some? && Messages(FoldOutcome(body).body).Some? &&
      var before, after := Messages(body).value, Messages(FoldOutcome(body).body).value;
      !AnySystem(after) && Spoken(after) == Spoken(before) && Bystanders(after) == Bystanders(before)
      && FoldOutcome(body).folded == |set i | 0 <= i < |before| && IsSystem(before[i])|
  {
    hide Parse, Rewrite, Foldable, RoleOf, Messages, Folded, Spoken, Bystanders, Rank;
    if Rewritten(body) {
      var ms := Messages(body).value;
      CountIsCardinality(ms, |ms|);
      RewriteReads(body);
      MessagesDistinct(body);
      FoldRemovesSystem(ms);
      FoldConserves(ms);
      var i :| 0 <= i < |ms| && IsSystem(ms[i]);
      var counted := set j | 0 <= j < |ms| && IsSystem(ms[j]);
      assert i in counted;
      assert |counted| > 0;
    }
  }

  lemma {:induction false} CountIsCardinality(ms: seq<Obj>, n: nat)
    requires n <= |ms|
    ensures |set i | 0 <= i < n && IsSystem(ms[i])| == n - Rank(ms, n)
  {
    hide RoleOf;
    var s := set i | 0 <= i < n && IsSystem(ms[i]);
    if n > 0 {
      CountIsCardinality(ms, n - 1);
      var t := set i | 0 <= i < n - 1 && IsSystem(ms[i]);
      assert s == if IsSystem(ms[n - 1]) then t + {n - 1} else t;
    } else {
      assert s == {};
    }
  }
}
