/** The key-ordered JSON object of anthropic.go: its strict parser, its printer, and the
    content-block list kept inside it. */
module OrderedObject {
  import opened Wrappers
  import opened JsonTokens

  datatype Field = Field(key: string, val: Value)

  type Obj = seq<Field>

  ghost predicate Distinct(o: Obj) {
    forall i, j :: 0 <= i < j < |o| ==> o[i].key != o[j].key
  }

  // ---- reading, duplicates allowed -------------------------------------------------------

  /** The members from i up to and past the closing brace, in the order written. `first` says
      whether a comma must come before the next member. */
  function Fields(ts: Raw, i: nat, first: bool): (r: Option<(Obj, nat)>)
    requires i <= |ts|
    ensures r.Some? ==> i < r.value.1 <= |ts|
    decreases |ts| - i
  {
    var j := Skip(ts, i);
    if At(ts, j, RBrace) then Some(([], j + 1))
    else if !first && !At(ts, j, Comma) then None
    else
      var k := if first then j else Skip(ts, j + 1);
      match MemberEnd(ts, k)
      case None => None
      case Some(e) =>
        match Fields(ts, e, false)
        case None => None
        case Some((rest, end)) =>
          Some(([MemberAt(ts, k)] + rest, end))
  }

  lemma MemberCut(ts: Raw, k: nat)
    requires k <= |ts| && MemberEnd(ts, k).Some?
    ensures IsValue(ts[MemberValueAt(ts, k)..MemberEnd(ts, k).value])
  {
    hide ValueEnd, Skip;
    CutIsValue(ts, MemberValueAt(ts, k));
  }

  /** The member whose key stands at k. */
  function MemberAt(ts: Raw, k: nat): Field
    requires k <= |ts| && MemberEnd(ts, k).Some?
  {
    MemberCut(ts, k);
    Field(ts[k].text, ts[MemberValueAt(ts, k)..MemberEnd(ts, k).value])
  }

  /** The value that starts at k. */
  function ElementAt(ts: Raw, k: nat): Value
    requires k <= |ts| && ValueEnd(ts, k).Some?
  {
    CutIsValue(ts, k);
    ts[k..ValueEnd(ts, k).value]
  }

  /** The elements from i up to and past the closing bracket. */
  function Elements(ts: Raw, i: nat, first: bool): (r: Option<(seq<Value>, nat)>)
    requires i <= |ts|
    ensures r.Some? ==> i < r.value.1 <= |ts|
    decreases |ts| - i
  {
    var j := Skip(ts, i);
    if At(ts, j, RBrack) then Some(([], j + 1))
    else if !first && !At(ts, j, Comma) then None
    else
      var k := if first then j else Skip(ts, j + 1);
      match ValueEnd(ts, k)
      case None => None
      case Some(e) =>
        match Elements(ts, e, false)
        case None => None
        case Some((rest, end)) =>
          Some(([ElementAt(ts, k)] + rest, end))
  }

  /** The text as one JSON object followed by blanks only, duplicate keys and all: what any
      reader of the same bytes starts from. */
  function ReadObject(raw: Raw): Option<Obj> {
    var i := Skip(raw, 0);
    if !At(raw, i, LBrace) then None
    else match Fields(raw, i + 1, true)
      case None => None
      case Some((o, e)) => if Skip(raw, e) == |raw| then Some(o) else None
  }

  /** json.Unmarshal into []json.RawMessage: an array, or null for the nil slice. */
  function ReadArray(raw: Raw): Option<seq<Value>> {
    var i := Skip(raw, 0);
    if At(raw, i, Lit("null")) && Skip(raw, i + 1) == |raw| then Some([])
    else if !At(raw, i, LBrack) then None
    else match Elements(raw, i + 1, true)
      case None => None
      case Some((es, e)) => if Skip(raw, e) == |raw| then Some(es) else None
  }

  /** json.Unmarshal into string: a string, or null for "". */
  function ReadString(raw: Raw): Option<string> {
    var i := Skip(raw, 0);
    if i == |raw| || Skip(raw, i + 1) != |raw| then None
    else if raw[i].Str? then Some(raw[i].text)
    else if raw[i] == Lit("null") then Some("")
    else None
  }

  // ---- parseOrdered ----------------------------------------------------------------------

  /** parseOrdered accepts exactly the readable objects whose keys are distinct. */
  ghost function Parse(raw: Raw): Result<Obj> {
    match ReadObject(raw)
    case Some(o) => if Distinct(o) then Ok(o) else Err
    case None => Err
  }

  /** Decoder.More: something other than a closing delimiter is next. */
  predicate More(ts: Raw, i: nat)
    requires i <= |ts|
  {
    var j := Skip(ts, i);
    j < |ts| && ts[j] != RBrace && ts[j] != RBrack
  }

  ghost function Keys(o: Obj): set<string> {
    set i | 0 <= i < |o| :: o[i].key
  }

  /** After reading `out`, with i next: what remains decides the outcome of the whole. */
  ghost predicate Progress(ts: Raw, start: nat, out: Obj, i: nat, first: bool) {
    start <= |ts| && i <= |ts| &&
    Fields(ts, start, true) ==
      match Fields(ts, i, first)
      case None => None
      case Some((rest, e)) => Some((out + rest, e))
  }

  /** Where the next member's key must stand; the end of the text if a comma is missing. */
  function KeyAt(ts: Raw, i: nat, first: bool): (k: nat)
    requires i <= |ts|
    ensures i <= k <= |ts|
  {
    var j := Skip(ts, i);
    if first then j else if At(ts, j, Comma) then Skip(ts, j + 1) else |ts|
  }

  lemma FieldsTurn(ts: Raw, i: nat, first: bool)
    requires i <= |ts| && !At(ts, Skip(ts, i), RBrace)
    ensures Fields(ts, i, first).Some? ==> MemberEnd(ts, KeyAt(ts, i, first)).Some?
    ensures MemberEnd(ts, KeyAt(ts, i, first)).Some? ==>
      Fields(ts, i, first) ==
        match Fields(ts, MemberEnd(ts, KeyAt(ts, i, first)).value, false)
        case None => None
        case Some((rest, end)) => Some(([MemberAt(ts, KeyAt(ts, i, first))] + rest, end))
  {
    hide ValueEnd, MemberValueAt, Skip;
  }

  lemma ProgressStuck(ts: Raw, start: nat, out: Obj, i: nat, first: bool)
    requires Progress(ts, start, out, i, first)
    requires !At(ts, Skip(ts, i), RBrace) && MemberEnd(ts, KeyAt(ts, i, first)).None?
    ensures Fields(ts, start, true).None?
  {
    hide Fields, MemberEnd, KeyAt, Skip;
    FieldsTurn(ts, i, first);
  }

  lemma ProgressTurn(ts: Raw, start: nat, out: Obj, i: nat, first: bool, f: Field)
    requires Progress(ts, start, out, i, first)
    requires !At(ts, Skip(ts, i), RBrace) && MemberEnd(ts, KeyAt(ts, i, first)).Some?
    requires f == MemberAt(ts, KeyAt(ts, i, first))
    ensures Progress(ts, start, out + [f], MemberEnd(ts, KeyAt(ts, i, first)).value, false)
  {
    hide Fields, MemberEnd, KeyAt, Skip, MemberValueAt;
    FieldsTurn(ts, i, first);
    var e := MemberEnd(ts, KeyAt(ts, i, first)).value;
    if Fields(ts, e, false).Some? {
      var rest := Fields(ts, e, false).value.0;
      assert out + ([f] + rest) == (out + [f]) + rest;
    }
  }

  /** Once a repeated key is in, no continuation can make the object distinct. */
  lemma ProgressRepeat(ts: Raw, start: nat, out: Obj, i: nat, first: bool, n: nat)
    requires Progress(ts, start, out, i, first)
    requires !At(ts, Skip(ts, i), RBrace) && n < |out|
    requires KeyAt(ts, i, first) < |ts| && ts[KeyAt(ts, i, first)].Str?
    requires ts[KeyAt(ts, i, first)].text == out[n].key
    ensures Fields(ts, start, true).Some? ==> !Distinct(Fields(ts, start, true).value.0)
  {
    hide Fields, MemberEnd, KeyAt, Skip, MemberValueAt;
    FieldsTurn(ts, i, first);
    if Fields(ts, start, true).Some? {
      var o, rest := Fields(ts, start, true).value.0, Fields(ts, i, first).value.0;
      assert o == out + rest;
      assert o[n].key == o[|out|].key;
    }
  }

  /** The token-by-token parser: one pass, refusing a repeated key the moment it is read. */
  method ParseOrdered(raw: Raw) returns (r: Result<Obj>)
    ensures r == Parse(raw)
  {
    hide Fields, ValueEnd, Skip, Progress, Keys, Distinct;
    NothingRead();
    var start := Skip(raw, 0);
    if !At(raw, start, LBrace) {
      return Err;
    }
    start := start + 1;
    var i := start;
    var out: Obj, seen: set<string>, first := [], {}, true;
    assert Progress(raw, start, out, i, first) by { ProgressStart(raw, start); }
    while More(raw, i)
      invariant start <= i <= |raw| && Distinct(out) && seen == Keys(out)
      invariant Progress(raw, start, out, i, first)
      decreases |raw| - i
    {
      var k := Skip(raw, i);
      if !first {
        if raw[k] != Comma {
          assert KeyAt(raw, i, first) == |raw|;
          ProgressStuck(raw, start, out, i, first);
          return Err;
        }
        k := Skip(raw, k + 1);
      }
      assert k == KeyAt(raw, i, first);
      if k == |raw| || !raw[k].Str? {
        ProgressStuck(raw, start, out, i, first);
        return Err;
      }
      var key := raw[k].text;
      if key in seen {
        ghost var n := SeenAt(out, key);
        ProgressRepeat(raw, start, out, i, first, n);
        return Err;
      }
      seen := seen + {key};
      var c := Skip(raw, k + 1);
      if !At(raw, c, Colon) {
        ProgressStuck(raw, start, out, i, first);
        return Err;
      }
      var v := Skip(raw, c + 1);
      var end := ValueEnd(raw, v);
      if end.None? {
        ProgressStuck(raw, start, out, i, first);
        return Err;
      }
      CutIsValue(raw, v);
      var f := Field(key, raw[v..end.value]);
      ProgressTurn(raw, start, out, i, first, f);
      KeysSnoc(out, f);
      out, i, first := out + [f], end.value, false;
    }
    var j := Skip(raw, i);
    if !At(raw, j, RBrace) {
      ProgressStuckAtClose(raw, start, out, i, first);
      return Err;
    }
    ProgressClose(raw, start, out, i, first);
    if Skip(raw, j + 1) != |raw| {
      return Err;
    }
    return Ok(out);
  }

  lemma NothingRead()
    ensures Distinct([]) && Keys([]) == {}
  {
  }

  lemma SeenAt(o: Obj, key: string) returns (n: nat)
    requires key in Keys(o)
    ensures n < |o| && o[n].key == key
  {
    n :| 0 <= n < |o| && o[n].key == key;
  }

  lemma ProgressStart(ts: Raw, start: nat)
    requires start <= |ts|
    ensures Progress(ts, start, [], start, true)
  {
    hide Fields;
    if Fields(ts, start, true).Some? {
      assert [] + Fields(ts, start, true).value.0 == Fields(ts, start, true).value.0;
    }
  }

  lemma ProgressStuckAtClose(ts: Raw, start: nat, out: Obj, i: nat, first: bool)
    requires Progress(ts, start, out, i, first) && !More(ts, i) && !At(ts, Skip(ts, i), RBrace)
    ensures Fields(ts, start, true).None?
  {
    hide Fields, ValueEnd;
    ProgressStuck(ts, start, out, i, first);
  }

  lemma ProgressClose(ts: Raw, start: nat, out: Obj, i: nat, first: bool)
    requires Progress(ts, start, out, i, first) && At(ts, Skip(ts, i), RBrace)
    ensures Fields(ts, start, true) == Some((out, Skip(ts, i) + 1))
  {
    hide MemberEnd, MemberValueAt, Skip;
    assert out + [] == out;
  }

  lemma KeysSnoc(o: Obj, f: Field)
    requires Distinct(o) && f.key !in Keys(o)
    ensures Distinct(o + [f]) && Keys(o + [f]) == Keys(o) + {f.key}
  {
    var p := o + [f];
    assert forall n :: 0 <= n < |o| ==> p[n] == o[n] && o[n].key in Keys(o);
    assert p[|o|] == f;
    assert forall key :: key in Keys(o) ==> key in Keys(p) by {
      forall key | key in Keys(o) ensures key in Keys(p) {
        var n :| 0 <= n < |o| && o[n].key == key;
        assert p[n].key == key;
      }
    }
  }

  lemma ParsedIsDistinct(raw: Raw)
    requires Parse(raw).Ok?
    ensures Distinct(Parse(raw).value)
  {
  }

  // ---- get and set -----------------------------------------------------------------------

  function Get(o: Obj, key: string): Option<Value> {
    if o == [] then None else if o[0].key == key then Some(o[0].val) else Get(o[1..], key)
  }

  /** What json.Unmarshal into a struct or map would see: the last duplicate. */
  function GetLast(o: Obj, key: string): Option<Value> {
    if o == [] then None
    else if o[|o| - 1].key == key then Some(o[|o| - 1].val)
    else GetLast(o[..|o| - 1], key)
  }

  lemma {:induction false} GetAt(o: Obj, key: string, i: nat)
    requires i < |o| && o[i].key == key && forall j :: 0 <= j < i ==> o[j].key != key
    ensures Get(o, key) == Some(o[i].val)
  {
    if i > 0 {
      GetAt(o[1..], key, i - 1);
    }
  }

  lemma {:induction false} GetAbsent(o: Obj, key: string)
    requires forall j :: 0 <= j < |o| ==> o[j].key != key
    ensures Get(o, key) == None && GetLast(o, key) == None
  {
    if o != [] {
      GetAbsent(o[1..], key);
      GetAbsent(o[..|o| - 1], key);
    }
  }

  lemma {:induction false} GetLastAt(o: Obj, key: string, i: nat)
    requires i < |o| && o[i].key == key && forall j :: i < j < |o| ==> o[j].key != key
    ensures GetLast(o, key) == Some(o[i].val)
  {
    if i < |o| - 1 {
      GetLastAt(o[..|o| - 1], key, i);
    }
  }

  /** On every accepted body the first-key reading (get) and the last-key reading
      (json.Unmarshal) are the same reading. */
  lemma OneReading(raw: Raw, key: string)
    requires Parse(raw).Ok?
    ensures Get(Parse(raw).value, key) == GetLast(Parse(raw).value, key)
  {
    var o := Parse(raw).value;
    if i :| 0 <= i < |o| && o[i].key == key {
      GetAt(o, key, i);
      GetLastAt(o, key, i);
    } else {
      GetAbsent(o, key);
    }
  }

  /** The object set leaves behind: the key keeps its place, a new key goes last. */
  function Set(o: Obj, key: string, val: Value): Obj {
    if o == [] then [Field(key, val)]
    else if o[0].key == key then [Field(key, val)] + o[1..]
    else [o[0]] + Set(o[1..], key, val)
  }

  method SetInPlace(o: Obj, key: string, val: Value) returns (r: Obj)
    ensures r == Set(o, key, val)
  {
    for i := 0 to |o|
      invariant forall j :: 0 <= j < i ==> o[j].key != key
    {
      if o[i].key == key {
        SetSplit(o, key, val, i);
        return o[i := Field(key, val)];
      }
    }
    SetSplit(o, key, val, |o|);
    return o + [Field(key, val)];
  }

  lemma {:induction false} SetSplit(o: Obj, key: string, val: Value, i: nat)
    requires i <= |o| && forall j :: 0 <= j < i ==> o[j].key != key
    requires i < |o| ==> o[i].key == key
    ensures Set(o, key, val) == if i < |o| then o[i := Field(key, val)] else o + [Field(key, val)]
  {
    if i > 0 {
      var rest := o[1..];
      SetSplit(rest, key, val, i - 1);
      assert Set(o, key, val) == [o[0]] + Set(rest, key, val);
    }
  }

  /** Set changes one value and nothing else: the other lookups and the key order survive, and
      only a key that was not there comes last. */
  lemma {:induction false} SetLaws(o: Obj, key: string, val: Value, other: string)
    ensures Get(Set(o, key, val), other) == if other == key then Some(val) else Get(o, other)
    ensures |Set(o, key, val)| == |o| + (if Get(o, key).Some? then 0 else 1)
    ensures forall i :: 0 <= i < |o| ==>
      Set(o, key, val)[i].key == o[i].key && (o[i].key != key ==> Set(o, key, val)[i] == o[i])
    ensures |Set(o, key, val)| > |o| ==>
      Set(o, key, val)[|o|] == Field(key, val) && forall i :: 0 <= i < |o| ==> o[i].key != key
  {
    if o != [] && o[0].key != key {
      SetLaws(o[1..], key, val, other);
    }
    assert forall i :: 1 <= i < |o| ==> o[i] == o[1..][i - 1];
  }

  lemma SetDistinct(o: Obj, key: string, val: Value)
    requires Distinct(o)
    ensures Distinct(Set(o, key, val))
  {
    SetLaws(o, key, val, key);
    if i :| 0 <= i < |o| && o[i].key == key {
      SetSplit(o, key, val, i);
    } else {
      SetSplit(o, key, val, |o|);
    }
  }

  // ---- printing --------------------------------------------------------------------------

  /** The parts in order, a comma before every part but the first. */
  function Join(parts: seq<Raw>, first: bool): Raw {
    if parts == [] then []
    else (if first then [] else [Comma]) + parts[0] + Join(parts[1..], false)
  }

  function FieldText(f: Field): Raw {
    [Str(f.key, Canonical), Colon] + f.val
  }

  function FieldTexts(o: Obj): (r: seq<Raw>)
    ensures |r| == |o|
    ensures forall i :: 0 <= i < |o| ==> r[i] == FieldText(o[i])
  {
    seq(|o|, i requires 0 <= i < |o| => FieldText(o[i]))
  }

  function ObjectText(o: Obj): Raw {
    [LBrace] + Join(FieldTexts(o), true) + [RBrace]
  }

  function ArrayText(blocks: seq<Value>): Raw {
    [LBrack] + Join(blocks, true) + [RBrack]
  }

  function Marshal(o: Obj): Value {
    ObjectTextIsValue(o);
    ObjectText(o)
  }

  function Pack(blocks: seq<Value>): Value {
    ArrayTextIsValue(blocks);
    ArrayText(blocks)
  }

  lemma {:induction false} JoinSnoc(parts: seq<Raw>, first: bool, p: Raw)
    ensures Join(parts + [p], first)
         == Join(parts, first) + (if first && parts == [] then [] else [Comma]) + p
  {
    if parts == [] {
      assert parts + [p] == [p];
      assert Join([p][1..], false) == [];
    } else {
      assert (parts + [p])[1..] == parts[1..] + [p];
      JoinSnoc(parts[1..], false, p);
    }
  }

  method MarshalLoop(o: Obj) returns (b: Raw)
    ensures b == Marshal(o)
  {
    b := [LBrace];
    for i := 0 to |o|
      invariant b == [LBrace] + Join(FieldTexts(o)[..i], true)
    {
      JoinSnoc(FieldTexts(o)[..i], true, FieldText(o[i]));
      assert FieldTexts(o)[..i + 1] == FieldTexts(o)[..i] + [FieldText(o[i])];
      if i > 0 {
        b := b + [Comma];
      }
      b := b + [Str(o[i].key, Canonical)];
      b := b + [Colon];
      b := b + o[i].val;
    }
    assert FieldTexts(o)[..|o|] == FieldTexts(o);
    b := b + [RBrace];
  }

  method PackLoop(blocks: seq<Value>) returns (b: Raw)
    ensures b == Pack(blocks)
  {
    b := [LBrack];
    for i := 0 to |blocks|
      invariant b == [LBrack] + Join(blocks[..i], true)
    {
      JoinSnoc(blocks[..i], true, blocks[i]);
      assert blocks[..i + 1] == blocks[..i] + [blocks[i]];
      if i > 0 {
        b := b + [Comma];
      }
      b := b + blocks[i];
    }
    assert blocks[..|blocks|] == blocks;
    b := b + [RBrack];
  }

  // ---- printer and parser undo each other ------------------------------------------------

  /** Reading on past a known prefix. */
  lemma Peel(ts: Raw, i: nat, a: Raw, b: Raw)
    requires i <= |ts| && ts[i..] == a + b
    ensures i + |a| <= |ts| && ts[i..i + |a|] == a && ts[i + |a|..] == b
    ensures a != [] ==> i < |ts| && ts[i] == a[0]
    ensures |a| > 1 ==> ts[i + 1] == a[1]
  {
    assert |ts[i..]| == |ts| - i;
    assert ts[i..i + |a|] == ts[i..][..|a|];
    assert ts[i + |a|..] == ts[i..][|a|..];
    if a != [] {
      assert ts[i] == ts[i..][0];
    }
    if |a| > 1 {
      assert ts[i + 1] == ts[i..][1];
    }
  }

  /** One printed member is read back as itself. */
  lemma MemberOfText(ts: Raw, k: nat, f: Field, rest: Raw)
    requires k <= |ts| && ts[k..] == FieldText(f) + rest
    ensures MemberEnd(ts, k) == Some(k + 2 + |f.val|) && MemberValueAt(ts, k) == k + 2
    ensures k < |ts| && MemberAt(ts, k) == f
    ensures ts[k + 2 + |f.val|..] == rest
  {
    hide ElementsEnd, MembersEnd, ValueEnd;
    var head: Raw := [Str(f.key, Canonical), Colon];
    assert FieldText(f) + rest == head + (f.val + rest);
    Peel(ts, k, head, f.val + rest);
    Peel(ts, k + 2, f.val, rest);
    PasteIsValue(f.val, ts, k + 2);
  }

  function Sep(first: bool): Raw {
    if first then [] else [Comma]
  }

  lemma JoinCons(parts: seq<Raw>, first: bool, end: Raw)
    requires parts != []
    ensures Join(parts, first) + end == Sep(first) + (parts[0] + (Join(parts[1..], false) + end))
  {
  }

  lemma FieldsOfNone(ts: Raw, i: nat, first: bool, post: Raw)
    requires i <= |ts| && ts[i..] == Join([], first) + ([RBrace] + post)
    ensures Fields(ts, i, first) == Some(([], |ts| - |post|))
  {
    assert ts[i..] == [RBrace] + post;
    Peel(ts, i, [RBrace], post);
  }

  lemma {:induction false} FieldsOfJoin(ts: Raw, i: nat, o: Obj, first: bool, post: Raw)
    requires i <= |ts|
    requires ts[i..] == Join(FieldTexts(o), first) + ([RBrace] + post)
    ensures Fields(ts, i, first) == Some((o, |ts| - |post|))
    decreases |o|
  {
    hide Fields, Join, FieldText, Skip, MemberEnd, MemberValueAt, IsValue;
    if o == [] {
      assert FieldTexts(o) == [];
      FieldsOfNone(ts, i, first, post);
      return;
    }
    var tail := Join(FieldTexts(o[1..]), false) + ([RBrace] + post);
    assert FieldTexts(o)[1..] == FieldTexts(o[1..]);
    JoinCons(FieldTexts(o), first, [RBrace] + post);
    Peel(ts, i, Sep(first), FieldText(o[0]) + tail);
    var k := i + |Sep(first)|;
    MemberOfText(ts, k, o[0], tail);
    var e := k + 2 + |o[0].val|;
    FieldsOfJoin(ts, e, o[1..], false, post);
    FieldsStep(ts, i, first, k, e);
    assert [o[0]] + o[1..] == o;
  }

  /** One turn of the member loop, when no blanks intervene. */
  lemma FieldsStep(ts: Raw, i: nat, first: bool, k: nat, e: nat)
    requires i < |ts| && k < |ts| && e <= |ts| && ts[k].Str?
    requires k == i + |Sep(first)| && (!first ==> ts[i] == Comma)
    requires MemberEnd(ts, k) == Some(e) && Fields(ts, e, false).Some?
    ensures Fields(ts, i, first) == Some(([MemberAt(ts, k)] + Fields(ts, e, false).value.0, Fields(ts, e, false).value.1))
  {
    hide MemberEnd, MemberValueAt, Fields, IsValue, MemberAt;
    assert Skip(ts, i) == i && Skip(ts, k) == k;
    FieldsTurn(ts, i, first);
  }

  lemma ElementsOfNone(ts: Raw, i: nat, first: bool, post: Raw)
    requires i <= |ts| && ts[i..] == Join([], first) + ([RBrack] + post)
    ensures Elements(ts, i, first) == Some(([], |ts| - |post|))
  {
    assert ts[i..] == [RBrack] + post;
    Peel(ts, i, [RBrack], post);
  }

  lemma {:induction false} ElementsOfJoin(ts: Raw, i: nat, blocks: seq<Value>, first: bool, post: Raw)
    requires i <= |ts|
    requires ts[i..] == Join(blocks, first) + ([RBrack] + post)
    ensures Elements(ts, i, first) == Some((blocks, |ts| - |post|))
    decreases |blocks|
  {
    hide ValueEnd, Elements, Join, Skip;
    if blocks == [] {
      ElementsOfNone(ts, i, first, post);
      return;
    }
    var tail := Join(blocks[1..], false) + ([RBrack] + post);
    JoinCons(blocks, first, [RBrack] + post);
    Peel(ts, i, Sep(first), blocks[0] + tail);
    var k := i + |Sep(first)|;
    Peel(ts, k, blocks[0], tail);
    var e := k + |blocks[0]|;
    PasteIsValue(blocks[0], ts, k);
    LeadIsNotClose(blocks[0]);
    ElementsOfJoin(ts, e, blocks[1..], false, post);
    ElementsStep(ts, i, first, k, e);
    assert [blocks[0]] + blocks[1..] == blocks;
  }

  lemma ElementsStep(ts: Raw, i: nat, first: bool, k: nat, e: nat)
    requires i < |ts| && k < |ts| && e <= |ts| && !ts[k].Ws? && ts[k] != RBrack
    requires k == i + |Sep(first)| && (!first ==> ts[i] == Comma)
    requires ValueEnd(ts, k) == Some(e) && Elements(ts, e, false).Some?
    ensures Elements(ts, i, first)
         == Some(([ElementAt(ts, k)] + Elements(ts, e, false).value.0, Elements(ts, e, false).value.1))
  {
    hide ValueEnd, Elements, ElementAt;
    assert Skip(ts, i) == i && Skip(ts, k) == k;
    ElementsTurn(ts, i, first);
  }

  lemma LeadIsNotClose(raw: Raw)
    requires IsValue(raw)
    ensures raw[0] != RBrack && raw[0] != RBrace && raw[0] != Comma
  {
  }

  /** parseOrdered(marshal(o)) is o, for every object with distinct keys. */
  lemma ParseMarshal(o: Obj)
    requires Distinct(o)
    ensures Parse(Marshal(o)) == Ok(o)
  {
    var ts := Marshal(o);
    assert ts[1..] == Join(FieldTexts(o), true) + ([RBrace] + []);
    FieldsOfJoin(ts, 1, o, true, []);
  }

  /** Re-reading what was re-written loses nothing: printing any accepted body and parsing
      it again yields the same keys, in the same order, over the same raw values. */
  lemma ReprintIsStable(raw: Raw)
    requires Parse(raw).Ok?
    ensures Parse(Marshal(Parse(raw).value)) == Parse(raw)
  {
    ParsedIsDistinct(raw);
    ParseMarshal(Parse(raw).value);
  }

  /** A block list comes back from the array packBlocks wrote it into. */
  lemma ReadPack(blocks: seq<Value>)
    ensures ReadArray(Pack(blocks)) == Some(blocks)
  {
    var ts := Pack(blocks);
    assert ts[1..] == Join(blocks, true) + ([RBrack] + []);
    ElementsOfJoin(ts, 1, blocks, true, []);
  }

  /** The member list and the value scanner agree on where an object ends. */
  lemma {:induction false} FieldsScan(ts: Raw, i: nat, first: bool)
    requires i <= |ts| && Fields(ts, i, first).Some?
    ensures var j, e := Skip(ts, i), Fields(ts, i, first).value.1;
      if At(ts, j, RBrace) then e == j + 1
      else (first || At(ts, j, Comma)) && MembersEnd(ts, KeyAt(ts, i, first)) == Some(e)
    decreases |ts| - i
  {
    hide ValueEnd, ElementsEnd, MemberEnd, MemberValueAt, Skip, Fields, KeyAt;
    if At(ts, Skip(ts, i), RBrace) {
      FieldsClose(ts, i, first);
    } else {
      FieldsComma(ts, i, first);
      FieldsTurn(ts, i, first);
      var e := MemberEnd(ts, KeyAt(ts, i, first)).value;
      FieldsScan(ts, e, false);
      if !At(ts, Skip(ts, e), RBrace) {
        KeyAfterComma(ts, e);
      }
    }
  }

  lemma FieldsClose(ts: Raw, i: nat, first: bool)
    requires i <= |ts| && At(ts, Skip(ts, i), RBrace)
    ensures Fields(ts, i, first) == Some(([], Skip(ts, i) + 1))
  {
    hide ValueEnd, MemberEnd, MemberValueAt, Skip;
  }

  lemma FieldsComma(ts: Raw, i: nat, first: bool)
    requires i <= |ts| && Fields(ts, i, first).Some? && !At(ts, Skip(ts, i), RBrace)
    ensures first || At(ts, Skip(ts, i), Comma)
  {
    hide ValueEnd, MemberEnd, MemberValueAt, Skip;
  }

  lemma KeyAfterComma(ts: Raw, e: nat)
    requires e <= |ts| && At(ts, Skip(ts, e), Comma)
    ensures KeyAt(ts, e, false) == Skip(ts, Skip(ts, e) + 1)
  {
    hide Skip;
  }

  lemma {:induction false} ElementsScan(ts: Raw, i: nat, first: bool)
    requires i <= |ts| && Elements(ts, i, first).Some?
    ensures var j, e := Skip(ts, i), Elements(ts, i, first).value.1;
      if At(ts, j, RBrack) then e == j + 1
      else (first || At(ts, j, Comma)) && ElementsEnd(ts, KeyAt(ts, i, first)) == Some(e)
    decreases |ts| - i
  {
    hide ValueEnd, MembersEnd, MemberEnd, Skip, Elements, KeyAt;
    if At(ts, Skip(ts, i), RBrack) {
      ElementsClose(ts, i, first);
    } else {
      ElementsTurn(ts, i, first);
      var e := ValueEnd(ts, KeyAt(ts, i, first)).value;
      ElementsScan(ts, e, false);
      if !At(ts, Skip(ts, e), RBrack) {
        KeyAfterComma(ts, e);
      }
    }
  }

  lemma ElementsClose(ts: Raw, i: nat, first: bool)
    requires i <= |ts| && At(ts, Skip(ts, i), RBrack)
    ensures Elements(ts, i, first) == Some(([], Skip(ts, i) + 1))
  {
    hide ValueEnd, Skip;
  }

  lemma ElementsTurn(ts: Raw, i: nat, first: bool)
    requires i <= |ts| && !At(ts, Skip(ts, i), RBrack)
    ensures Elements(ts, i, first).Some? ==>
      (first || At(ts, Skip(ts, i), Comma)) && ValueEnd(ts, KeyAt(ts, i, first)).Some?
    ensures (first || At(ts, Skip(ts, i), Comma)) && ValueEnd(ts, KeyAt(ts, i, first)).Some? ==>
      Elements(ts, i, first) ==
        match Elements(ts, ValueEnd(ts, KeyAt(ts, i, first)).value, false)
        case None => None
        case Some((rest, end)) => Some(([ElementAt(ts, KeyAt(ts, i, first))] + rest, end))
  {
    hide ValueEnd, Skip, ElementAt;
  }

  lemma ObjectTextIsValue(o: Obj)
    ensures IsValue(ObjectText(o))
  {
    hide MemberEnd, ElementsEnd, MembersEnd, Fields, Join;
    var ts := ObjectText(o);
    assert ts[1..] == Join(FieldTexts(o), true) + ([RBrace] + []);
    FieldsOfJoin(ts, 1, o, true, []);
    FieldsScan(ts, 1, true);
  }

  lemma ArrayTextIsValue(blocks: seq<Value>)
    ensures IsValue(ArrayText(blocks))
  {
    hide MemberEnd, ElementsEnd, MembersEnd, Elements, Join;
    var ts := ArrayText(blocks);
    assert ts[1..] == Join(blocks, true) + ([RBrack] + []);
    ElementsOfJoin(ts, 1, blocks, true, []);
    ElementsScan(ts, 1, true);
  }
}
