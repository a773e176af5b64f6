/** JSON text as a token sequence (RFC 8259), keeping everything that a byte-exactness claim
    needs: whitespace is a token of its own and a string remembers how it was spelled.
    A raw message (json.RawMessage) is a slice of such a sequence. */
module JsonTokens {
  import opened Wrappers

  /** json.Marshal writes every string in one canonical spelling; an input may use another. */
  datatype Spelling = Canonical | Other(lexeme: string)

  datatype Tok =
    | LBrace | RBrace | LBrack | RBrack | Comma | Colon
    | Str(text: string, spelling: Spelling)
    | Lit(lexeme: string)  // number, true, false, null
    | Ws(blank: string)

  type Raw = seq<Tok>

  /** Index of the first non-blank token at or after i. */
  function Skip(ts: Raw, i: nat): (j: nat)
    requires i <= |ts|
    ensures i <= j <= |ts|
    decreases |ts| - i
  {
    if i < |ts| && ts[i].Ws? then Skip(ts, i + 1) else i
  }

  predicate At(ts: Raw, i: nat, t: Tok) {
    i < |ts| && ts[i] == t
  }

  /** The end of the value that starts exactly at i, if there is one (section 3). */
  function ValueEnd(ts: Raw, i: nat): (r: Option<nat>)
    requires i <= |ts|
    ensures r.Some? ==> i < r.value <= |ts|
    decreases |ts| - i, 0
  {
    if i == |ts| then None
    else match ts[i]
      case Str(_, _) => Some(i + 1)
      case Lit(_) => Some(i + 1)
      case LBrack =>
        var j := Skip(ts, i + 1);
        if At(ts, j, RBrack) then Some(j + 1) else ElementsEnd(ts, j)
      case LBrace =>
        var j := Skip(ts, i + 1);
        if At(ts, j, RBrace) then Some(j + 1) else MembersEnd(ts, j)
      case _ => None
  }

  /** The end of `value *( , value ) ]` starting at a non-blank i (section 5). */
  function ElementsEnd(ts: Raw, i: nat): (r: Option<nat>)
    requires i <= |ts|
    ensures r.Some? ==> i < r.value <= |ts|
    decreases |ts| - i, 1
  {
    match ValueEnd(ts, i)
    case None => None
    case Some(e) =>
      var j := Skip(ts, e);
      if At(ts, j, RBrack) then Some(j + 1)
      else if At(ts, j, Comma) then ElementsEnd(ts, Skip(ts, j + 1))
      else None
  }

  /** The end of one `"key" : value` member starting at a non-blank i (section 4). */
  function MemberEnd(ts: Raw, i: nat): (r: Option<nat>)
    requires i <= |ts|
    ensures r.Some? ==> i + 2 < r.value <= |ts| && ts[i].Str? && MemberValueAt(ts, i) < r.value
    decreases |ts| - i, 1
  {
    if i < |ts| && ts[i].Str? && At(ts, Skip(ts, i + 1), Colon)
    then ValueEnd(ts, MemberValueAt(ts, i))
    else None
  }

  /** Where the value of the member whose key is at i would start. */
  function MemberValueAt(ts: Raw, i: nat): (v: nat)
    requires i <= |ts|
    ensures i <= v <= |ts|
    ensures i < |ts| && At(ts, Skip(ts, i + 1), Colon) ==> i + 2 <= v
  {
    if i < |ts| && At(ts, Skip(ts, i + 1), Colon) then Skip(ts, Skip(ts, i + 1) + 1) else i
  }

  /** The end of `member *( , member ) }` starting at a non-blank i. */
  function MembersEnd(ts: Raw, i: nat): (r: Option<nat>)
    requires i <= |ts|
    ensures r.Some? ==> i < r.value <= |ts|
    decreases |ts| - i, 2
  {
    match MemberEnd(ts, i)
    case None => None
    case Some(e) =>
      var j := Skip(ts, e);
      if At(ts, j, RBrace) then Some(j + 1)
      else if At(ts, j, Comma) then MembersEnd(ts, Skip(ts, j + 1))
      else None
  }

  /** A raw message holds one value and nothing around it. */
  predicate IsValue(raw: Raw) {
    ValueEnd(raw, 0) == Some(|raw|)
  }

  /** A raw message as the decoder hands it out (json.RawMessage). */
  type Value = raw: Raw | IsValue(raw) witness [Lit("null")]

  /** The tokens of ts in [i, j) reappear in us, d places further on. */
  ghost predicate Shifted(ts: Raw, i: nat, j: nat, us: Raw, d: int) {
    i <= j <= |ts| && 0 <= i + d && j + d <= |us| && forall k :: i <= k < j ==> ts[k] == us[k + d]
  }

  /** A blank run ended by a token is skipped the same way wherever it stands. */
  lemma {:induction false} SkipLocal(ts: Raw, i: nat, us: Raw, d: int)
    requires i <= |ts| && Skip(ts, i) < |ts|
    requires Shifted(ts, i, Skip(ts, i) + 1, us, d)
    ensures Skip(us, i + d) == Skip(ts, i) + d
    decreases |ts| - i
  {
    assert ts[i] == us[i + d];
    if ts[i].Ws? {
      SkipLocal(ts, i + 1, us, d);
    }
  }

  /** Scanning a value depends only on the value's own tokens: it ends at the same distance
      in every text that repeats them. Framing (append anything) and cutting (drop what
      surrounds it) are both instances. */
  lemma {:induction false} ValueLocal(ts: Raw, i: nat, us: Raw, d: int)
    requires i <= |ts| && ValueEnd(ts, i).Some?
    requires Shifted(ts, i, ValueEnd(ts, i).value, us, d)
    ensures ValueEnd(us, i + d) == Some(ValueEnd(ts, i).value + d)
    decreases |ts| - i, 0
  {
    hide ElementsEnd, MembersEnd, MemberEnd, Skip;
    assert ts[i] == us[i + d];
    if ts[i].LBrack? || ts[i].LBrace? {
      var j := Skip(ts, i + 1);
      SkipLocal(ts, i + 1, us, d);
      assert ts[j] == us[j + d];
      if ts[i].LBrack? && ts[j] != RBrack {
        ElementsLocal(ts, j, us, d);
      } else if ts[i].LBrace? && ts[j] != RBrace {
        MembersLocal(ts, j, us, d);
      }
    }
  }

  lemma {:induction false} ElementsLocal(ts: Raw, i: nat, us: Raw, d: int)
    requires i <= |ts| && ElementsEnd(ts, i).Some?
    requires Shifted(ts, i, ElementsEnd(ts, i).value, us, d)
    ensures ElementsEnd(us, i + d) == Some(ElementsEnd(ts, i).value + d)
    decreases |ts| - i, 1
  {
    hide ValueEnd, MembersEnd, MemberEnd, Skip;
    var v := ValueEnd(ts, i).value;
    var j := Skip(ts, v);
    ValueLocal(ts, i, us, d);
    SkipLocal(ts, v, us, d);
    assert ts[j] == us[j + d];
    if ts[j] == Comma {
      SkipLocal(ts, j + 1, us, d);
      ElementsLocal(ts, Skip(ts, j + 1), us, d);
    }
  }

  lemma {:induction false} MemberLocal(ts: Raw, i: nat, us: Raw, d: int)
    requires i <= |ts| && MemberEnd(ts, i).Some?
    requires Shifted(ts, i, MemberEnd(ts, i).value, us, d)
    ensures MemberEnd(us, i + d) == Some(MemberEnd(ts, i).value + d)
    ensures MemberValueAt(us, i + d) == MemberValueAt(ts, i) + d && us[i + d] == ts[i]
    decreases |ts| - i, 1
  {
    hide ValueEnd, ElementsEnd, MembersEnd, Skip;
    var c := Skip(ts, i + 1);
    assert ts[i] == us[i + d];
    SkipLocal(ts, i + 1, us, d);
    assert ts[c] == us[c + d];
    SkipLocal(ts, c + 1, us, d);
    ValueLocal(ts, MemberValueAt(ts, i), us, d);
  }

  lemma {:induction false} MembersLocal(ts: Raw, i: nat, us: Raw, d: int)
    requires i <= |ts| && MembersEnd(ts, i).Some?
    requires Shifted(ts, i, MembersEnd(ts, i).value, us, d)
    ensures MembersEnd(us, i + d) == Some(MembersEnd(ts, i).value + d)
    decreases |ts| - i, 2
  {
    hide ValueEnd, ElementsEnd, MemberEnd, MemberValueAt, Skip;
    var v := MemberEnd(ts, i).value;
    var j := Skip(ts, v);
    MemberLocal(ts, i, us, d);
    SkipLocal(ts, v, us, d);
    assert ts[j] == us[j + d];
    if ts[j] == Comma {
      SkipLocal(ts, j + 1, us, d);
      MembersLocal(ts, Skip(ts, j + 1), us, d);
    }
  }

  /** What a decoder cuts out as a raw message is again exactly one value. */
  lemma CutIsValue(ts: Raw, i: nat)
    requires i <= |ts| && ValueEnd(ts, i).Some?
    ensures IsValue(ts[i..ValueEnd(ts, i).value])
  {
    var back := 0 - i as int;
    ValueLocal(ts, i, ts[i..ValueEnd(ts, i).value], back);
  }

  /** A raw message pasted anywhere is scanned as exactly that value. */
  lemma PasteIsValue(raw: Raw, us: Raw, i: nat)
    requires IsValue(raw) && i + |raw| <= |us| && us[i..i + |raw|] == raw
    ensures ValueEnd(us, i) == Some(i + |raw|)
    ensures raw != [] && us[i] == raw[0] && !raw[0].Ws?
  {
    forall k | 0 <= k < |raw| ensures raw[k] == us[k + i] {
      assert raw[k] == us[i..i + |raw|][k];
    }
    ValueLocal(raw, 0, us, i);
  }
}
