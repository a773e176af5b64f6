/** proxyByModel from body to target: one reading of the body decides the route, and the body
    that is forwarded still asks for the model it was routed by. */
module Proxy {
  import opened Wrappers
  import opened JsonTokens
  import opened OrderedObject
  import opened FoldBody
  import opened Registry
  import opened Routes
  import opened Dispatch
  import JsonLayout
  import FoldReading
  import Text

  datatype Reply =
    | BadRequest
    | NoServer
    | Forwarded(target: Target, body: Raw)

  /** The model a body asks for, "" when there is none or it is no string; None when the body
      does not have exactly one reading. */
  ghost function RequestedModel(body: Raw): Option<string> {
    match Parse(body)
    case Err => None
    case Ok(doc) =>
      match Get(doc, "model")
      case None => Some("")
      case Some(raw) => if ReadString(raw).Some? then ReadString(raw) else Some("")
  }

  method ProxyByModel(rig: Rig, fed: Federation, body: Raw, pin: string, messagesPath: bool) returns (r: Reply)
    requires rig.Valid()
    ensures r.BadRequest? <==> RequestedModel(body) in {None, Some("")}
    ensures r.Forwarded? ==> r.target != NotFound && r.target != NoModel
    ensures r.Forwarded? ==> r.body == if messagesPath then FoldOutcome(body).body else body
    ensures r.Forwarded? ==> RequestedModel(r.body) == RequestedModel(body)
    ensures !r.BadRequest? && (pin == "" || !fed.enabled || Dispatch.IsSelf(fed, pin)) ==>
      Dispatched(rig.View(), fed.enabled, fed.routes, RequestedModel(body).value,
        if r.Forwarded? then r.target else NotFound)
    ensures !r.BadRequest? && pin != "" && fed.enabled && !Dispatch.IsSelf(fed, pin) ==>
      PinnedTo(fed, Text.Trim(pin), if r.Forwarded? then r.target else NotFound)
  {
    hide Parse, Get, ReadString, FoldOutcome, Dispatched, Resolves, Dispatch.IsSelf, PinnedTo;
    var parsed := ParseOrdered(body);
    if parsed.Err? {
      return BadRequest;
    }
    var model := "";
    var raw := Get(parsed.value, "model");
    if raw.Some? {
      var s := ReadString(raw.value);
      if s.Some? {
        model := s.value;
      }
    }
    assert RequestedModel(body) == Some(model);
    if model == "" {
      return BadRequest;
    }
    var t := Choose(rig, fed, model, pin);
    NeverNoModel(rig, fed, model, pin, t);
    if t == NotFound {
      return NoServer;
    }
    if !messagesPath {
      return Forwarded(t, body);
    }
    var folded := FoldSystemTurns(body);
    FoldOutcomeMeaning(body);
    ModelSurvivesFold(body);
    r := Forwarded(t, if !folded.failed && folded.folded > 0 then folded.body else body);
  }

  lemma NeverNoModel(rig: Rig, fed: Federation, model: string, pin: string, t: Target)
    requires (pin == "" || !fed.enabled || Dispatch.IsSelf(fed, pin)) ==>
      Dispatched(rig.View(), fed.enabled, fed.routes, model, t)
    requires pin != "" && fed.enabled && !Dispatch.IsSelf(fed, pin) ==> PinnedTo(fed, Text.Trim(pin), t)
    ensures t != NoModel
  {
    hide Resolves, Dispatch.IsSelf;
  }

  /** Folding never changes which model a body asks for, under either reading of its keys. */
  lemma ModelSurvivesFold(body: Raw)
    ensures RequestedModel(FoldOutcome(body).body) == RequestedModel(body)
  {
    hide Parse, Get, ReadString, ReadArray, Rewrite, AllParse, SystemFold.Foldable, SystemFold.CountSystem;
    if Rewritten(body) {
      RewriteKeepsTheRest(body, "model");
    }
  }

  /** The model a request is routed by, from the text: there is one reading exactly when the body is
      one object with distinct keys, and it asks for m exactly when its model field is that
      string, in any spelling. */
  lemma RequestedModelIff(body: Raw, m: string)
    requires m != ""
    ensures RequestedModel(body) == Some(m) <==>
      exists doc: Obj :: FoldReading.IsDoc(body, doc) && FoldReading.SaysFirst(doc, "model", m)
    ensures RequestedModel(body).None? <==> forall doc: Obj :: !FoldReading.IsDoc(body, doc)
  {
    hide Parse, Get, ReadString, FoldReading.IsDoc, FoldReading.SaysFirst;
    forall doc: Obj
      ensures Parse(body) == Ok(doc) <==> FoldReading.IsDoc(body, doc)
      ensures FoldReading.SaysFirst(doc, "model", m) <==> Get(doc, "model").Some? && ReadString(Get(doc, "model").value) == Some(m)
    {
      FoldReading.DocIff(body, doc);
      FoldReading.SaysIff(doc, "model", m);
    }
  }
}
