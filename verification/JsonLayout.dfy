/** JSON texts by their layout (RFC 8259, sections 2 to 5): which blanks may stand where, written
    down without the scanner, and the proof that the readers accept exactly these texts. */
module JsonLayout {
  import opened Wrappers
  import opened JsonTokens
  import opened OrderedObject

  predicate Blank(b: Raw) {
    forall i :: 0 <= i < |b| ==> b[i].Ws?
  }

  /** One array element with the blanks around it. */
  datatype Item = Item(before: Raw, val: Raw, after: Raw)

  /** One object member with its key's spelling and the blanks around key, colon and value. */
  datatype Member = Member(
    before: Raw, key: string, spelling: Spelling, afterKey: Raw, beforeVal: Raw, val: Raw, after: Raw)

  predicate SpacedItem(x: Item) {
    Blank(x.before) && Blank(x.after)
  }

  predicate SpacedMember(x: Member) {
    Blank(x.before) && Blank(x.afterKey) && Blank(x.beforeVal) && Blank(x.after)
  }

  predicate LaidItem(x: Item) {
    SpacedItem(x) && IsValue(x.val)
  }

  predicate LaidMember(x: Member) {
    SpacedMember(x) && IsValue(x.val)
  }

  function ItemText(x: Item): Raw {
    x.before + (x.val + x.after)
  }

  function MemberText(x: Member): Raw {
    x.before + ([Str(x.key, x.spelling)] + (x.afterKey + ([Colon] + (x.beforeVal + (x.val + x.after)))))
  }

  function ItemsText(xs: seq<Item>, first: bool): Raw {
    if xs == [] then [] else (if first then [] else [Comma]) + (ItemText(xs[0]) + ItemsText(xs[1..], false))
  }

  function MembersText(xs: seq<Member>, first: bool): Raw {
    if xs == [] then [] else (if first then [] else [Comma]) + (MemberText(xs[0]) + MembersText(xs[1..], false))
  }

  function Vals(xs: seq<Item>): (vs: seq<Value>)
    requires forall x :: x in xs ==> IsValue(x.val)
    ensures |vs| == |xs| && forall i :: 0 <= i < |xs| ==> vs[i] == xs[i].val
  {
    seq(|xs|, i requires 0 <= i < |xs| => xs[i].val)
  }

  function FieldsOf(xs: seq<Member>): (o: Obj)
    requires forall x :: x in xs ==> IsValue(x.val)
    ensures |o| == |xs| && forall i :: 0 <= i < |xs| ==> o[i] == Field(xs[i].key, xs[i].val)
  {
    seq(|xs|, i requires 0 <= i < |xs| => Field(xs[i].key, xs[i].val))
  }

  /** What stands between brackets, from `gap` on, up to and past the closing one. */
  function ItemsTail(gap: Raw, xs: seq<Item>, first: bool, post: Raw): Raw {
    gap + (ItemsText(xs, first) + ([RBrack] + post))
  }

  function MembersTail(gap: Raw, xs: seq<Member>, first: bool, post: Raw): Raw {
    gap + (MembersText(xs, first) + ([RBrace] + post))
  }

  ghost predicate LaidItems(gap: Raw, xs: seq<Item>) {
    Blank(gap) && forall x :: x in xs ==> LaidItem(x)
  }

  ghost predicate LaidMembers(gap: Raw, xs: seq<Member>) {
    Blank(gap) && forall x :: x in xs ==> LaidMember(x)
  }

  /** raw is one array of exactly these values, with any blanks around them, their commas and
      the brackets. */
  ghost predicate IsArrayOf(raw: Raw, vs: seq<Value>) {
    exists lead: Raw, gap: Raw, xs: seq<Item>, trail: Raw ::
      Blank(lead) && LaidItems(gap, xs) && Blank(trail) && Vals(xs) == vs &&
      raw == lead + ([LBrack] + ItemsTail(gap, xs, true, trail))
  }

  /** raw is one object of exactly these fields, keys in any spelling, any blanks between tokens. */
  ghost predicate IsObjectOf(raw: Raw, o: Obj) {
    exists lead: Raw, gap: Raw, xs: seq<Member>, trail: Raw ::
      Blank(lead) && LaidMembers(gap, xs) && Blank(trail) && FieldsOf(xs) == o &&
      raw == lead + ([LBrace] + MembersTail(gap, xs, true, trail))
  }

  /** raw is this one token, blanks aside. */
  ghost predicate IsToken(raw: Raw, t: Tok) {
    exists n :: 0 <= n < |raw| && raw[n] == t && Blank(raw[..n]) && Blank(raw[n + 1..])
  }

  // ---- blanks ----------------------------------------------------------------------------

  lemma {:induction false} SkipOver(ts: Raw, i: nat, b: Raw, rest: Raw)
    requires i <= |ts| && ts[i..] == b + rest && Blank(b) && (rest != [] ==> !rest[0].Ws?)
    ensures Skip(ts, i) == i + |b| <= |ts| && ts[i + |b|..] == rest
    ensures rest != [] ==> i + |b| < |ts| && ts[i + |b|] == rest[0]
    decreases |b|
  {
    Peel(ts, i, b, rest);
    if b != [] {
      assert ts[i] == b[0];
      assert ts[i + 1..] == b[1..] + rest;
      SkipOver(ts, i + 1, b[1..], rest);
    } else if rest != [] {
      assert ts[i] == ts[i..][0];
    }
  }

  lemma {:induction false} SkippedIsBlank(ts: Raw, i: nat)
    requires i <= |ts|
    ensures Blank(ts[i..Skip(ts, i)])
    ensures Skip(ts, i) < |ts| ==> !ts[Skip(ts, i)].Ws?
    decreases |ts| - i
  {
    if i < |ts| && ts[i].Ws? {
      SkippedIsBlank(ts, i + 1);
      assert ts[i..Skip(ts, i)] == [ts[i]] + ts[i + 1..Skip(ts, i)];
    }
  }

  lemma BlankAppend(a: Raw, b: Raw)
    requires Blank(a) && Blank(b)
    ensures Blank(a + b)
  {
  }

  /** A value starts with a token that is neither blank nor closing nor a comma. */
  lemma ValueLead(v: Value)
    ensures v != [] && !v[0].Ws? && v[0] != RBrack && v[0] != RBrace && v[0] != Comma
  {
  }

  // ---- layouts are read ------------------------------------------------------------------

  /** From a gap to the next element or member: over its own leading blanks, and over the comma
      that must stand before it unless it is the first. */
  lemma Leads(ts: Raw, i: nat, gap: Raw, first: bool, before: Raw, tail: Raw) returns (k: nat)
    requires i <= |ts| && Blank(gap) && Blank(before) && tail != [] && !tail[0].Ws?
    requires ts[i..] == gap + ((if first then [] else [Comma]) + (before + tail))
    ensures k <= |ts| && KeyAt(ts, i, first) == k && ts[k..] == tail
    ensures At(ts, Skip(ts, i), if first then tail[0] else Comma)
  {
    hide Skip, Blank;
    if first {
      BlankAppend(gap, before);
      assert ts[i..] == (gap + before) + tail;
      SkipOver(ts, i, gap + before, tail);
      k := i + |gap + before|;
    } else {
      k := LeadsAfterComma(ts, i, gap, before, tail);
    }
  }

  lemma LeadsAfterComma(ts: Raw, i: nat, gap: Raw, before: Raw, tail: Raw) returns (k: nat)
    requires i <= |ts| && Blank(gap) && Blank(before) && tail != [] && !tail[0].Ws?
    requires ts[i..] == gap + ([Comma] + (before + tail))
    ensures k <= |ts| && KeyAt(ts, i, false) == k && ts[k..] == tail
    ensures At(ts, Skip(ts, i), Comma)
  {
    hide Skip, Blank;
    SkipOver(ts, i, gap, [Comma] + (before + tail));
    var c := i + |gap|;
    Peel(ts, c, [Comma], before + tail);
    SkipOver(ts, c + 1, before, tail);
    k := c + 1 + |before|;
  }

  lemma ItemStarts(ts: Raw, i: nat, gap: Raw, first: bool, x: Item, rest: Raw) returns (k: nat)
    requires i <= |ts| && Blank(gap) && LaidItem(x)
    requires ts[i..] == gap + ((if first then [] else [Comma]) + (ItemText(x) + rest))
    ensures k <= |ts| && KeyAt(ts, i, first) == k && !At(ts, Skip(ts, i), RBrack)
    ensures !first ==> At(ts, Skip(ts, i), Comma)
    ensures ts[k..] == x.val + (x.after + rest)
  {
    hide Skip, Blank, KeyAt, IsValue;
    ValueLead(x.val);
    assert ItemText(x) + rest == x.before + (x.val + (x.after + rest));
    k := Leads(ts, i, gap, first, x.before, x.val + (x.after + rest));
  }

  lemma ItemsEnd(ts: Raw, i: nat, gap: Raw, first: bool, post: Raw)
    requires i <= |ts| && Blank(gap) && ts[i..] == ItemsTail(gap, [], first, post)
    ensures Elements(ts, i, first) == Some(([], |ts| - |post|))
  {
    hide Elements, Skip;
    assert ts[i..] == gap + ([RBrack] + post);
    SkipOver(ts, i, gap, [RBrack] + post);
    Peel(ts, i + |gap|, [RBrack], post);
    ElementsClose(ts, i, first);
  }

  lemma {:induction false} ElementsRead(ts: Raw, i: nat, gap: Raw, xs: seq<Item>, first: bool, post: Raw)
    requires i <= |ts| && LaidItems(gap, xs) && ts[i..] == ItemsTail(gap, xs, first, post)
    ensures Elements(ts, i, first) == Some((Vals(xs), |ts| - |post|))
    decreases |xs|
  {
    hide Elements, ValueEnd, Skip, KeyAt, ItemText, ElementAt, Blank, LaidItem;
    if xs == [] {
      ItemsEnd(ts, i, gap, first, post);
    } else {
      var x := xs[0];
      var rest := ItemsText(xs[1..], false) + ([RBrack] + post);
      ItemsCons(gap, xs, first, post);
      LaidTail(gap, xs);
      var k := ItemStarts(ts, i, gap, first, x, rest);
      Peel(ts, k, x.val, x.after + rest);
      PasteIsValue(x.val, ts, k);
      var e := k + |x.val|;
      ElementIs(ts, k, x.val);
      ElementsRead(ts, e, x.after, xs[1..], false, post);
      ElementsTurn(ts, i, first);
      assert [x.val] + Vals(xs[1..]) == Vals(xs);
    }
  }

  lemma ElementIs(ts: Raw, k: nat, v: Value)
    requires k + |v| <= |ts| && ValueEnd(ts, k) == Some(k + |v|) && ts[k..k + |v|] == v
    ensures ElementAt(ts, k) == v
  {
    hide ValueEnd, IsValue;
  }

  lemma LaidTail(gap: Raw, xs: seq<Item>)
    requires LaidItems(gap, xs) && xs != []
    ensures LaidItem(xs[0]) && IsValue(xs[0].val) && LaidItems(xs[0].after, xs[1..])
  {
    hide Blank;
  }

  lemma ItemsCons(gap: Raw, xs: seq<Item>, first: bool, post: Raw)
    requires xs != []
    ensures ItemsTail(gap, xs, first, post) ==
      gap + ((if first then [] else [Comma]) + (ItemText(xs[0]) + (ItemsText(xs[1..], false) + ([RBrack] + post))))
    ensures ItemsTail(xs[0].after, xs[1..], false, post) == xs[0].after + (ItemsText(xs[1..], false) + ([RBrack] + post))
  {
    hide ItemText;
  }

  /** A member's key, colon and value, from its key on. */
  lemma MemberRead(ts: Raw, k: nat, x: Member, rest: Raw)
    requires k <= |ts| && LaidMember(x)
    requires ts[k..] == [Str(x.key, x.spelling)] + (x.afterKey + ([Colon] + (x.beforeVal + (x.val + rest))))
    ensures MemberEnd(ts, k).Some? && MemberAt(ts, k) == Field(x.key, x.val)
    ensures MemberEnd(ts, k).value <= |ts| && ts[MemberEnd(ts, k).value..] == rest
  {
    hide ValueEnd, Skip, IsValue, Blank, MemberEnd, MemberValueAt, MemberAt;
    var atVal := x.val + rest;
    Peel(ts, k, [Str(x.key, x.spelling)], x.afterKey + ([Colon] + (x.beforeVal + atVal)));
    var v := ColonThenValue(ts, k, x, rest);
    Peel(ts, v, x.val, rest);
    PasteIsValue(x.val, ts, v);
    MemberIs(ts, k, v, x.val);
  }

  lemma ColonThenValue(ts: Raw, k: nat, x: Member, rest: Raw) returns (v: nat)
    requires k < |ts| && LaidMember(x)
    requires ts[k + 1..] == x.afterKey + ([Colon] + (x.beforeVal + (x.val + rest)))
    ensures At(ts, Skip(ts, k + 1), Colon) && MemberValueAt(ts, k) == v <= |ts| && ts[v..] == x.val + rest
  {
    hide Skip, IsValue, Blank;
    var inner := x.beforeVal + (x.val + rest);
    SkipOver(ts, k + 1, x.afterKey, [Colon] + inner);
    var c := k + 1 + |x.afterKey|;
    Peel(ts, c, [Colon], inner);
    v := ValueAfterColon(ts, c, x, rest);
  }

  lemma ValueAfterColon(ts: Raw, c: nat, x: Member, rest: Raw) returns (v: nat)
    requires c < |ts| && LaidMember(x) && ts[c + 1..] == x.beforeVal + (x.val + rest)
    ensures Skip(ts, c + 1) == v <= |ts| && ts[v..] == x.val + rest
  {
    hide Skip, IsValue, Blank;
    ValueLead(x.val);
    SkipOver(ts, c + 1, x.beforeVal, x.val + rest);
    v := c + 1 + |x.beforeVal|;
  }

  lemma MemberIs(ts: Raw, k: nat, v: nat, val: Value)
    requires k < |ts| && ts[k].Str? && At(ts, Skip(ts, k + 1), Colon) && MemberValueAt(ts, k) == v
    requires v + |val| <= |ts| && ts[v..v + |val|] == val && ValueEnd(ts, v) == Some(v + |val|)
    ensures MemberEnd(ts, k) == Some(v + |val|) && MemberAt(ts, k) == Field(ts[k].text, val)
  {
    hide ValueEnd, Skip, IsValue;
  }

  lemma MemberStarts(ts: Raw, i: nat, gap: Raw, first: bool, x: Member, rest: Raw) returns (k: nat)
    requires i <= |ts| && Blank(gap) && LaidMember(x)
    requires ts[i..] == gap + ((if first then [] else [Comma]) + (MemberText(x) + rest))
    ensures k <= |ts| && KeyAt(ts, i, first) == k && !At(ts, Skip(ts, i), RBrace)
    ensures !first ==> At(ts, Skip(ts, i), Comma)
    ensures ts[k..] ==
      [Str(x.key, x.spelling)] + (x.afterKey + ([Colon] + (x.beforeVal + (x.val + (x.after + rest)))))
  {
    hide Skip, Blank, KeyAt, IsValue, MemberText;
    MemberTextRest(x, rest);
    k := Leads(ts, i, gap, first, x.before,
      [Str(x.key, x.spelling)] + (x.afterKey + ([Colon] + (x.beforeVal + (x.val + (x.after + rest))))));
  }

  lemma MemberTextRest(x: Member, rest: Raw)
    ensures MemberText(x) + rest == x.before +
      ([Str(x.key, x.spelling)] + (x.afterKey + ([Colon] + (x.beforeVal + (x.val + (x.after + rest))))))
  {
    var a := x.val + x.after;
    assert a + rest == x.val + (x.after + rest);
    var b := x.beforeVal + a;
    assert b + rest == x.beforeVal + (a + rest);
    var c := [Colon] + b;
    assert c + rest == [Colon] + (b + rest);
    var d := x.afterKey + c;
    assert d + rest == x.afterKey + (c + rest);
    var e := [Str(x.key, x.spelling)] + d;
    assert e + rest == [Str(x.key, x.spelling)] + (d + rest);
  }

  lemma MembersEndRead(ts: Raw, i: nat, gap: Raw, first: bool, post: Raw)
    requires i <= |ts| && Blank(gap) && ts[i..] == MembersTail(gap, [], first, post)
    ensures Fields(ts, i, first) == Some(([], |ts| - |post|))
  {
    hide Fields, Skip;
    assert ts[i..] == gap + ([RBrace] + post);
    SkipOver(ts, i, gap, [RBrace] + post);
    Peel(ts, i + |gap|, [RBrace], post);
    FieldsClose(ts, i, first);
  }

  lemma {:induction false} FieldsRead(ts: Raw, i: nat, gap: Raw, xs: seq<Member>, first: bool, post: Raw)
    requires i <= |ts| && LaidMembers(gap, xs) && ts[i..] == MembersTail(gap, xs, first, post)
    ensures Fields(ts, i, first) == Some((FieldsOf(xs), |ts| - |post|))
    decreases |xs|
  {
    hide Fields, MemberEnd, Skip, KeyAt, MemberText, MemberAt, Blank, LaidMember, IsValue;
    if xs == [] {
      MembersEndRead(ts, i, gap, first, post);
    } else {
      var x := xs[0];
      var rest := MembersText(xs[1..], false) + ([RBrace] + post);
      MembersCons(gap, xs, first, post);
      LaidMembersTail(gap, xs);
      var k := MemberStarts(ts, i, gap, first, x, rest);
      MemberRead(ts, k, x, x.after + rest);
      FieldsRead(ts, MemberEnd(ts, k).value, x.after, xs[1..], false, post);
      FieldsTurn(ts, i, first);
      assert [Field(x.key, x.val)] + FieldsOf(xs[1..]) == FieldsOf(xs);
    }
  }

  lemma LaidMembersTail(gap: Raw, xs: seq<Member>)
    requires LaidMembers(gap, xs) && xs != []
    ensures LaidMember(xs[0]) && LaidMembers(xs[0].after, xs[1..])
  {
    hide Blank;
  }

  lemma MembersCons(gap: Raw, xs: seq<Member>, first: bool, post: Raw)
    requires xs != []
    ensures MembersTail(gap, xs, first, post) ==
      gap + ((if first then [] else [Comma]) + (MemberText(xs[0]) + (MembersText(xs[1..], false) + ([RBrace] + post))))
    ensures MembersTail(xs[0].after, xs[1..], false, post) == xs[0].after + (MembersText(xs[1..], false) + ([RBrace] + post))
  {
    hide MemberText;
  }

  // ---- what is read is a layout ----------------------------------------------------------

  lemma Cut(ts: Raw, a: nat, b: nat, c: nat)
    requires a <= b <= c <= |ts|
    ensures ts[a..c] == ts[a..b] + ts[b..c]
  {
  }

  /** A stretch of text, cut where one element or member of it begins and ends. */
  lemma Assemble(ts: Raw, i: nat, j: nat, k: nat, m: nat, e: nat, first: bool)
    requires i <= k <= m <= e <= |ts| && (!first ==> i <= j < k && ts[j] == Comma)
    ensures var from := if first then i else j + 1;
      ts[i..e] == (if first then [] else ts[i..j]) +
        ((if first then [] else [Comma]) + (ts[from..k] + (ts[k..m] + ts[m..e])))
  {
    var from := if first then i else j + 1;
    Cut(ts, from, k, e);
    Cut(ts, k, m, e);
    if !first {
      Cut(ts, i, j, e);
      Cut(ts, j, j + 1, e);
      assert ts[j..j + 1] == [Comma];
    }
  }

  lemma ItemTextSplit(x: Item, rest: Raw)
    ensures ItemText(x) + rest == x.before + (x.val + (x.after + rest))
  {
  }

  lemma {:induction false} ElementsLaid(ts: Raw, i: nat, first: bool) returns (gap: Raw, xs: seq<Item>)
    requires i <= |ts| && Elements(ts, i, first).Some?
    ensures LaidItems(gap, xs) && Vals(xs) == Elements(ts, i, first).value.0
    ensures ts[i..Elements(ts, i, first).value.1] == ItemsTail(gap, xs, first, [])
    decreases |ts| - i
  {
    hide Elements, ValueEnd, Skip, Blank, ElementAt, ItemText, LaidItems, IsValue;
    var j, e := Skip(ts, i), Elements(ts, i, first).value.1;
    SkippedIsBlank(ts, i);
    if At(ts, j, RBrack) {
      ElementsClose(ts, i, first);
      gap, xs := ts[i..j], [];
      NoneLaid(gap);
      Cut(ts, i, j, j + 1);
      assert ts[j..j + 1] == [RBrack];
      assert ItemsText([], first) + ([RBrack] + []) == [RBrack];
    } else {
      ElementsTurn(ts, i, first);
      var from := if first then i else j + 1;
      var k := KeyAt(ts, i, first);
      SkippedIsBlank(ts, from);
      var v := ElementAt(ts, k);
      var m := ValueEnd(ts, k).value;
      ElementText(ts, k);
      var after, rest := ElementsLaid(ts, m, false);
      NoBlanks();
      var x := Item(ts[from..k], v, after);
      gap, xs := if first then [] else ts[i..j], [x] + rest;
      LaidCons(gap, x, rest);
      ItemsCons(gap, xs, first, []);
      ItemTextSplit(x, ItemsText(rest, false) + ([RBrack] + []));
      Assemble(ts, i, j, k, m, e, first);
      assert ts[i..e] == ItemsTail(gap, xs, first, []);
    }
  }

  lemma NoneLaid(gap: Raw)
    requires Blank(gap)
    ensures LaidItems(gap, []) && Vals([]) == [] && LaidMembers(gap, []) && FieldsOf([]) == []
  {
  }

  lemma LaidCons(gap: Raw, x: Item, rest: seq<Item>)
    requires Blank(gap) && LaidItem(x.(after := [])) && LaidItems(x.after, rest)
    ensures LaidItems(gap, [x] + rest) && Vals([x] + rest) == [x.val] + Vals(rest)
  {
    hide Blank;
  }

  lemma LaidMembersCons(gap: Raw, x: Member, rest: seq<Member>)
    requires Blank(gap) && LaidMember(x.(after := [])) && LaidMembers(x.after, rest)
    ensures LaidMembers(gap, [x] + rest) && FieldsOf([x] + rest) == [Field(x.key, x.val)] + FieldsOf(rest)
  {
    hide Blank;
  }

  lemma ElementText(ts: Raw, k: nat)
    requires k <= |ts| && ValueEnd(ts, k).Some?
    ensures ElementAt(ts, k) == ts[k..ValueEnd(ts, k).value]
  {
  }

  /** A member's tokens, from its key to the end of its value. */
  lemma MemberLaid(ts: Raw, k: nat) returns (x: Member)
    requires k <= |ts| && MemberEnd(ts, k).Some?
    ensures LaidMember(x) && x.before == [] == x.after && Field(x.key, x.val) == MemberAt(ts, k)
    ensures ts[k..MemberEnd(ts, k).value] ==
      [Str(x.key, x.spelling)] + (x.afterKey + ([Colon] + (x.beforeVal + x.val)))
  {
    hide ValueEnd, Skip, Blank, IsValue;
    NoBlanks();
    var c, v, e := Skip(ts, k + 1), MemberValueAt(ts, k), MemberEnd(ts, k).value;
    SkippedIsBlank(ts, k + 1);
    SkippedIsBlank(ts, c + 1);
    x := Member([], ts[k].text, ts[k].spelling, ts[k + 1..c], ts[c + 1..v], MemberAt(ts, k).val, []);
    Cut(ts, k, k + 1, e);
    Cut(ts, k + 1, c, e);
    Cut(ts, c, c + 1, e);
    Cut(ts, c + 1, v, e);
    assert ts[k..k + 1] == [Str(x.key, x.spelling)] && ts[c..c + 1] == [Colon];
  }

  lemma {:induction false} FieldsLaid(ts: Raw, i: nat, first: bool) returns (gap: Raw, xs: seq<Member>)
    requires i <= |ts| && Fields(ts, i, first).Some?
    ensures LaidMembers(gap, xs) && FieldsOf(xs) == Fields(ts, i, first).value.0
    ensures ts[i..Fields(ts, i, first).value.1] == MembersTail(gap, xs, first, [])
    decreases |ts| - i
  {
    hide Fields, MemberEnd, Skip, Blank, MemberAt, MemberText, LaidMembers, IsValue;
    var j, e := Skip(ts, i), Fields(ts, i, first).value.1;
    SkippedIsBlank(ts, i);
    if At(ts, j, RBrace) {
      FieldsClose(ts, i, first);
      gap, xs := ts[i..j], [];
      NoneLaid(gap);
      Cut(ts, i, j, j + 1);
      assert ts[j..j + 1] == [RBrace];
      assert MembersText([], first) + ([RBrace] + []) == [RBrace];
    } else {
      FieldsTurn(ts, i, first);
      FieldsComma(ts, i, first);
      var from := if first then i else j + 1;
      var k := KeyAt(ts, i, first);
      SkippedIsBlank(ts, from);
      var m := MemberEnd(ts, k).value;
      var y := MemberLaid(ts, k);
      var after, rest := FieldsLaid(ts, m, false);
      NoBlanks();
      var x := y.(before := ts[from..k], after := after);
      gap, xs := if first then [] else ts[i..j], [x] + rest;
      LaidMembersCons(gap, x, rest);
      MembersCons(gap, xs, first, []);
      MemberTextRest(x, MembersText(rest, false) + ([RBrace] + []));
      CoreRest(y, after + (MembersText(rest, false) + ([RBrace] + [])));
      Assemble(ts, i, j, k, m, e, first);
      assert ts[i..e] == MembersTail(gap, xs, first, []);
    }
  }

  lemma CoreRest(x: Member, rest: Raw)
    ensures ([Str(x.key, x.spelling)] + (x.afterKey + ([Colon] + (x.beforeVal + x.val)))) + rest
         == [Str(x.key, x.spelling)] + (x.afterKey + ([Colon] + (x.beforeVal + (x.val + rest))))
  {
    var a := x.beforeVal + x.val;
    assert a + rest == x.beforeVal + (x.val + rest);
    var b := [Colon] + a;
    assert b + rest == [Colon] + (a + rest);
    var c := x.afterKey + b;
    assert c + rest == x.afterKey + (b + rest);
  }

  lemma NoBlanks()
    ensures Blank([])
  {
  }

  // ---- the readers, exactly --------------------------------------------------------------

  lemma ArrayIsRead(lead: Raw, gap: Raw, xs: seq<Item>, trail: Raw)
    requires Blank(lead) && LaidItems(gap, xs) && Blank(trail)
    ensures ReadArray(lead + ([LBrack] + ItemsTail(gap, xs, true, trail))) == Some(Vals(xs))
  {
    hide Elements, Skip, Blank, ItemsTail, LaidItems;
    var tail := ItemsTail(gap, xs, true, trail);
    var raw := lead + ([LBrack] + tail);
    LaidVals(gap, xs);
    assert raw[0..] == raw;
    SkipOver(raw, 0, lead, [LBrack] + tail);
    Peel(raw, |lead|, [LBrack], tail);
    ElementsRead(raw, |lead| + 1, gap, xs, true, trail);
    TrailSkipped(raw, lead + [LBrack], trail, gap, xs);
  }

  lemma LaidVals(gap: Raw, xs: seq<Item>)
    requires LaidItems(gap, xs)
    ensures forall x :: x in xs ==> IsValue(x.val)
  {
    hide IsValue, Blank;
  }

  lemma TrailSkipped(raw: Raw, head: Raw, trail: Raw, gap: Raw, xs: seq<Item>)
    requires Blank(trail) && raw == head + ItemsTail(gap, xs, true, trail)
    ensures |trail| <= |raw| && Skip(raw, |raw| - |trail|) == |raw|
  {
    hide Skip, Blank, ItemsText;
    var front := head + (gap + (ItemsText(xs, true) + [RBrack]));
    assert raw == front + trail;
    assert raw[|front|..] == trail + [];
    SkipOver(raw, |front|, trail, []);
  }

  lemma {:induction false} SkipSplit(raw: Raw, t: Tok)
    requires At(raw, Skip(raw, 0), t)
    ensures Blank(raw[..Skip(raw, 0)]) && raw == raw[..Skip(raw, 0)] + ([t] + raw[Skip(raw, 0) + 1..])
  {
    hide Skip, Blank;
    SkippedIsBlank(raw, 0);
    assert raw[..Skip(raw, 0)] == raw[0..Skip(raw, 0)];
  }

  lemma RestIsBlank(raw: Raw, e: nat)
    requires e <= |raw| && Skip(raw, e) == |raw|
    ensures Blank(raw[e..])
  {
    hide Skip, Blank;
    SkippedIsBlank(raw, e);
    assert raw[e..] == raw[e..|raw|];
  }

  lemma TokenIsRead(raw: Raw, t: Tok)
    requires !t.Ws?
    ensures IsToken(raw, t) <==> At(raw, Skip(raw, 0), t) && Skip(raw, Skip(raw, 0) + 1) == |raw|
  {
    hide Skip, Blank, IsToken;
    if IsToken(raw, t) {
      TokenFound(raw, t);
    }
    if At(raw, Skip(raw, 0), t) && Skip(raw, Skip(raw, 0) + 1) == |raw| {
      FoundIsToken(raw, t);
    }
  }

  lemma TokenFound(raw: Raw, t: Tok)
    requires IsToken(raw, t) && !t.Ws?
    ensures At(raw, Skip(raw, 0), t) && Skip(raw, Skip(raw, 0) + 1) == |raw|
  {
    hide Skip, Blank;
    var n :| 0 <= n < |raw| && raw[n] == t && Blank(raw[..n]) && Blank(raw[n + 1..]);
    assert raw[0..] == raw[..n] + raw[n..];
    SkipOver(raw, 0, raw[..n], raw[n..]);
    assert raw[n + 1..] == raw[n + 1..] + [];
    SkipOver(raw, n + 1, raw[n + 1..], []);
  }

  lemma FoundIsToken(raw: Raw, t: Tok)
    requires At(raw, Skip(raw, 0), t) && Skip(raw, Skip(raw, 0) + 1) == |raw|
    ensures IsToken(raw, t)
  {
    hide Skip, Blank;
    SkipSplit(raw, t);
    RestIsBlank(raw, Skip(raw, 0) + 1);
  }

  lemma TailGrows(gap: Raw, xs: seq<Item>, trail: Raw)
    ensures ItemsTail(gap, xs, true, []) + trail == ItemsTail(gap, xs, true, trail)
  {
    hide ItemsText;
    assert (ItemsText(xs, true) + ([RBrack] + [])) + trail == ItemsText(xs, true) + ([RBrack] + trail);
  }

  lemma ArrayIsLaid(raw: Raw)
    requires ReadArray(raw).Some? && At(raw, Skip(raw, 0), LBrack)
    ensures IsArrayOf(raw, ReadArray(raw).value)
  {
    hide Elements, Skip, Blank, LaidItems, ItemsTail, IsValue;
    var i := Skip(raw, 0);
    var e := Elements(raw, i + 1, true).value.1;
    var gap, xs := ElementsLaid(raw, i + 1, true);
    SkipSplit(raw, LBrack);
    RestIsBlank(raw, e);
    assert raw[i + 1..] == raw[i + 1..e] + raw[e..];
    TailGrows(gap, xs, raw[e..]);
  }

  /** The array reader accepts exactly the texts that are one array, or null for none, and
      returns exactly the values in it. */
  lemma ReadArrayIff(raw: Raw, vs: seq<Value>)
    ensures ReadArray(raw) == Some(vs) <==> IsArrayOf(raw, vs) || (vs == [] && IsToken(raw, Lit("null")))
  {
    hide Skip, Elements, LaidItems, ItemsTail, IsArrayOf, IsToken, IsValue;
    TokenIsRead(raw, Lit("null"));
    ArrayOfIsRead(raw, vs);
    if ReadArray(raw) == Some(vs) && !IsToken(raw, Lit("null")) {
      ArrayIsLaid(raw);
    }
  }

  lemma ArrayOfIsRead(raw: Raw, vs: seq<Value>)
    ensures IsArrayOf(raw, vs) ==> ReadArray(raw) == Some(vs)
  {
    hide ReadArray, LaidItems, Blank, ItemsTail, IsValue;
    if IsArrayOf(raw, vs) {
      var lead: Raw, gap: Raw, xs: seq<Item>, trail: Raw :|
        Blank(lead) && LaidItems(gap, xs) && Blank(trail) && Vals(xs) == vs &&
        raw == lead + ([LBrack] + ItemsTail(gap, xs, true, trail));
      ArrayIsRead(lead, gap, xs, trail);
    }
  }

  /** And it refuses exactly the texts that are neither. */
  lemma ReadArrayRefuses(raw: Raw)
    ensures ReadArray(raw).None? <==> !IsToken(raw, Lit("null")) && forall vs: seq<Value> :: !IsArrayOf(raw, vs)
  {
    hide ReadArray, IsArrayOf, IsToken;
    forall vs: seq<Value> ensures ReadArray(raw) == Some(vs) <==> IsArrayOf(raw, vs) || (vs == [] && IsToken(raw, Lit("null"))) {
      ReadArrayIff(raw, vs);
    }
    if IsToken(raw, Lit("null")) {
      ReadArrayIff(raw, []);
    }
  }

  lemma ObjectIsRead(lead: Raw, gap: Raw, xs: seq<Member>, trail: Raw)
    requires Blank(lead) && LaidMembers(gap, xs) && Blank(trail)
    ensures ReadObject(lead + ([LBrace] + MembersTail(gap, xs, true, trail))) == Some(FieldsOf(xs))
  {
    hide Fields, Skip, Blank, MembersTail, LaidMembers;
    var tail := MembersTail(gap, xs, true, trail);
    var raw := lead + ([LBrace] + tail);
    LaidFields(gap, xs);
    assert raw[0..] == raw;
    SkipOver(raw, 0, lead, [LBrace] + tail);
    Peel(raw, |lead|, [LBrace], tail);
    FieldsRead(raw, |lead| + 1, gap, xs, true, trail);
    MembersTrailSkipped(raw, lead + [LBrace], trail, gap, xs);
  }

  lemma LaidFields(gap: Raw, xs: seq<Member>)
    requires LaidMembers(gap, xs)
    ensures forall x :: x in xs ==> IsValue(x.val)
  {
    hide IsValue, Blank;
  }

  lemma MembersTrailSkipped(raw: Raw, head: Raw, trail: Raw, gap: Raw, xs: seq<Member>)
    requires Blank(trail) && raw == head + MembersTail(gap, xs, true, trail)
    ensures |trail| <= |raw| && Skip(raw, |raw| - |trail|) == |raw|
  {
    hide Skip, Blank, MembersText;
    var front := head + (gap + (MembersText(xs, true) + [RBrace]));
    assert raw == front + trail;
    assert raw[|front|..] == trail + [];
    SkipOver(raw, |front|, trail, []);
  }

  lemma MembersTailGrows(gap: Raw, xs: seq<Member>, trail: Raw)
    ensures MembersTail(gap, xs, true, []) + trail == MembersTail(gap, xs, true, trail)
  {
    hide MembersText;
    assert (MembersText(xs, true) + ([RBrace] + [])) + trail == MembersText(xs, true) + ([RBrace] + trail);
  }

  lemma ObjectIsLaid(raw: Raw)
    requires ReadObject(raw).Some?
    ensures IsObjectOf(raw, ReadObject(raw).value)
  {
    hide Fields, Skip, Blank, LaidMembers, MembersTail, IsValue;
    var i := Skip(raw, 0);
    var e := Fields(raw, i + 1, true).value.1;
    var gap, xs := FieldsLaid(raw, i + 1, true);
    SkipSplit(raw, LBrace);
    RestIsBlank(raw, e);
    assert raw[i + 1..] == raw[i + 1..e] + raw[e..];
    MembersTailGrows(gap, xs, raw[e..]);
  }

  lemma ObjectOfIsRead(raw: Raw, o: Obj)
    ensures IsObjectOf(raw, o) ==> ReadObject(raw) == Some(o)
  {
    hide ReadObject, LaidMembers, Blank, MembersTail, IsValue;
    if IsObjectOf(raw, o) {
      var lead: Raw, gap: Raw, xs: seq<Member>, trail: Raw :|
        Blank(lead) && LaidMembers(gap, xs) && Blank(trail) && FieldsOf(xs) == o &&
        raw == lead + ([LBrace] + MembersTail(gap, xs, true, trail));
      ObjectIsRead(lead, gap, xs, trail);
    }
  }

  /** parseOrdered accepts exactly the texts that are one object with distinct keys, in any
      spelling and with any blanks, and returns exactly its members. */
  lemma ParseIff(raw: Raw, o: Obj)
    ensures Parse(raw) == Ok(o) <==> IsObjectOf(raw, o) && forall i, j :: 0 <= i < j < |o| ==> o[i].key != o[j].key
  {
    hide ReadObject, IsObjectOf;
    ObjectOfIsRead(raw, o);
    if ReadObject(raw).Some? {
      ObjectIsLaid(raw);
    }
  }

  /** The string reader accepts exactly one string, in any spelling, or null for "". */
  lemma ReadStringIff(raw: Raw, s: string)
    ensures ReadString(raw) == Some(s) <==>
      (exists spelling :: IsToken(raw, Str(s, spelling))) || (s == "" && IsToken(raw, Lit("null")))
  {
    hide Skip, IsToken;
    TokenIsRead(raw, Lit("null"));
    forall spelling
      ensures IsToken(raw, Str(s, spelling)) <==>
        At(raw, Skip(raw, 0), Str(s, spelling)) && Skip(raw, Skip(raw, 0) + 1) == |raw|
    {
      TokenIsRead(raw, Str(s, spelling));
    }
    if ReadString(raw) == Some(s) && raw[Skip(raw, 0)].Str? {
      assert IsToken(raw, Str(s, raw[Skip(raw, 0)].spelling));
    }
  }

  // ---- the scanner, against the grammar --------------------------------------------------

  ghost predicate SpacedItems(gap: Raw, xs: seq<Item>) {
    Blank(gap) && forall x :: x in xs ==> SpacedItem(x)
  }

  ghost predicate SpacedMembers(gap: Raw, xs: seq<Member>) {
    Blank(gap) && forall x :: x in xs ==> SpacedMember(x)
  }

  /** The grammar: a string, a literal, an array of values or an object of members, with blanks
      wherever they may stand. */
  ghost predicate IsJson(raw: Raw)
    decreases |raw|
  {
    (|raw| == 1 && (raw[0].Str? || raw[0].Lit?)) ||
    (exists gap: Raw, xs: seq<Item> :: SpacedItems(gap, xs) && raw == [LBrack] + ItemsTail(gap, xs, true, []) &&
      forall x :: x in xs ==> |x.val| < |raw| && IsJson(x.val)) ||
    (exists gap: Raw, xs: seq<Member> :: SpacedMembers(gap, xs) && raw == [LBrace] + MembersTail(gap, xs, true, []) &&
      forall x :: x in xs ==> |x.val| < |raw| && IsJson(x.val))
  }

  lemma {:induction false} ItemInside(xs: seq<Item>, x: Item, first: bool)
    requires x in xs
    ensures |x.val| <= |ItemsText(xs, first)|
  {
    if xs[0] != x {
      ItemInside(xs[1..], x, false);
    }
  }

  lemma {:induction false} MemberInside(xs: seq<Member>, x: Member, first: bool)
    requires x in xs
    ensures |x.val| <= |MembersText(xs, first)|
  {
    if xs[0] != x {
      MemberInside(xs[1..], x, false);
    }
  }

  lemma ArrayIsValue(gap: Raw, xs: seq<Item>)
    requires LaidItems(gap, xs)
    ensures IsValue([LBrack] + ItemsTail(gap, xs, true, []))
  {
    hide ElementsEnd, Elements, Skip, Blank, ItemsTail, LaidItems;
    var raw := [LBrack] + ItemsTail(gap, xs, true, []);
    LaidVals(gap, xs);
    Peel(raw, 0, [LBrack], ItemsTail(gap, xs, true, []));
    ElementsRead(raw, 1, gap, xs, true, []);
    ElementsScan(raw, 1, true);
  }

  lemma ObjectIsValue(gap: Raw, xs: seq<Member>)
    requires LaidMembers(gap, xs)
    ensures IsValue([LBrace] + MembersTail(gap, xs, true, []))
  {
    hide MembersEnd, Fields, Skip, Blank, MembersTail, LaidMembers;
    var raw := [LBrace] + MembersTail(gap, xs, true, []);
    LaidFields(gap, xs);
    Peel(raw, 0, [LBrace], MembersTail(gap, xs, true, []));
    FieldsRead(raw, 1, gap, xs, true, []);
    FieldsScan(raw, 1, true);
  }

  lemma {:induction false} JsonIsValue(raw: Raw)
    requires IsJson(raw)
    ensures IsValue(raw)
    decreases |raw|
  {
    hide IsValue, Blank, ItemsTail, MembersTail;
    if |raw| == 1 && (raw[0].Str? || raw[0].Lit?) {
      OneTokenIsValue(raw);
    } else if gap: Raw, xs: seq<Item> :| SpacedItems(gap, xs) && raw == [LBrack] + ItemsTail(gap, xs, true, []) &&
                                         forall x :: x in xs ==> |x.val| < |raw| && IsJson(x.val) {
      forall x | x in xs ensures IsValue(x.val) {
        JsonIsValue(x.val);
      }
      ArrayIsValue(gap, xs);
    } else {
      var gap: Raw, xs: seq<Member> :| SpacedMembers(gap, xs) && raw == [LBrace] + MembersTail(gap, xs, true, []) &&
        forall x :: x in xs ==> |x.val| < |raw| && IsJson(x.val);
      forall x | x in xs ensures IsValue(x.val) {
        JsonIsValue(x.val);
      }
      ObjectIsValue(gap, xs);
    }
  }

  lemma OneTokenIsValue(raw: Raw)
    requires |raw| == 1 && (raw[0].Str? || raw[0].Lit?)
    ensures IsValue(raw)
  {
  }

  lemma {:induction false} ValueIsJson(raw: Raw)
    requires IsValue(raw)
    ensures IsJson(raw)
    decreases |raw|
  {
    hide IsValue, Blank, ItemsTail, MembersTail, Skip;
    if IsArrayText(raw) {
      var gap, xs := ArrayLaidOut(raw);
      forall x | x in xs ensures |x.val| < |raw| && IsJson(x.val) {
        ArrayHolds(raw, gap, xs, x);
        ValueIsJson(x.val);
      }
      assert SpacedItems(gap, xs);
    } else if IsObjectText(raw) {
      var gap, xs := ObjectLaidOut(raw);
      forall x | x in xs ensures |x.val| < |raw| && IsJson(x.val) {
        ObjectHolds(raw, gap, xs, x);
        ValueIsJson(x.val);
      }
      assert SpacedMembers(gap, xs);
    } else {
      OtherIsToken(raw);
    }
  }

  predicate IsArrayText(raw: Raw) { raw != [] && raw[0] == LBrack }

  predicate IsObjectText(raw: Raw) { raw != [] && raw[0] == LBrace }

  lemma OtherIsToken(raw: Raw)
    requires IsValue(raw) && !IsArrayText(raw) && !IsObjectText(raw)
    ensures |raw| == 1 && (raw[0].Str? || raw[0].Lit?)
  {
  }

  lemma ArrayHolds(raw: Raw, gap: Raw, xs: seq<Item>, x: Item)
    requires raw == [LBrack] + ItemsTail(gap, xs, true, []) && x in xs
    ensures |x.val| < |raw|
  {
    ItemInside(xs, x, true);
  }

  lemma ObjectHolds(raw: Raw, gap: Raw, xs: seq<Member>, x: Member)
    requires raw == [LBrace] + MembersTail(gap, xs, true, []) && x in xs
    ensures |x.val| < |raw|
  {
    MemberInside(xs, x, true);
  }

  lemma ArrayLaidOut(raw: Raw) returns (gap: Raw, xs: seq<Item>)
    requires IsValue(raw) && IsArrayText(raw)
    ensures LaidItems(gap, xs) && raw == [LBrack] + ItemsTail(gap, xs, true, [])
  {
    hide Elements, Skip, ElementsEnd, ItemsTail, LaidItems;
    ScanIsElements(raw, 1);
    gap, xs := ElementsLaid(raw, 1, true);
    assert raw == [LBrack] + raw[1..];
  }

  lemma ObjectLaidOut(raw: Raw) returns (gap: Raw, xs: seq<Member>)
    requires IsValue(raw) && IsObjectText(raw)
    ensures LaidMembers(gap, xs) && raw == [LBrace] + MembersTail(gap, xs, true, [])
  {
    hide Fields, Skip, MembersEnd, MembersTail, LaidMembers;
    ScanIsFields(raw, 1);
    gap, xs := FieldsLaid(raw, 1, true);
    assert raw == [LBrace] + raw[1..];
  }

  /** Where the scanner finds an array's end, the element reader does too. */
  lemma ScanIsElements(ts: Raw, i: nat)
    requires i <= |ts|
    requires At(ts, Skip(ts, i), RBrack) || ElementsEnd(ts, Skip(ts, i)).Some?
    ensures Elements(ts, i, true).Some?
    ensures Elements(ts, i, true).value.1 ==
      if At(ts, Skip(ts, i), RBrack) then Skip(ts, i) + 1 else ElementsEnd(ts, Skip(ts, i)).value
  {
    hide Elements, Skip, ElementsEnd;
    if At(ts, Skip(ts, i), RBrack) {
      ElementsClose(ts, i, true);
    } else {
      ScanGoesOn(ts, i, true);
    }
  }

  lemma {:induction false} ScanGoesOn(ts: Raw, i: nat, first: bool)
    requires i <= |ts| && !At(ts, Skip(ts, i), RBrack) && (first || At(ts, Skip(ts, i), Comma))
    requires ElementsEnd(ts, KeyAt(ts, i, first)).Some?
    ensures Elements(ts, i, first).Some? && Elements(ts, i, first).value.1 == ElementsEnd(ts, KeyAt(ts, i, first)).value
    decreases |ts| - i
  {
    hide Elements, Skip, ValueEnd, KeyAt;
    var e := ValueEnd(ts, KeyAt(ts, i, first)).value;
    ElementsTurn(ts, i, first);
    if At(ts, Skip(ts, e), RBrack) {
      ElementsClose(ts, e, false);
    } else {
      KeyAfterComma(ts, e);
      ScanGoesOn(ts, e, false);
    }
  }

  lemma ScanIsFields(ts: Raw, i: nat)
    requires i <= |ts|
    requires At(ts, Skip(ts, i), RBrace) || MembersEnd(ts, Skip(ts, i)).Some?
    ensures Fields(ts, i, true).Some?
    ensures Fields(ts, i, true).value.1 ==
      if At(ts, Skip(ts, i), RBrace) then Skip(ts, i) + 1 else MembersEnd(ts, Skip(ts, i)).value
  {
    hide Fields, Skip, MembersEnd;
    if At(ts, Skip(ts, i), RBrace) {
      FieldsClose(ts, i, true);
    } else {
      MembersGoOn(ts, i, true);
    }
  }

  lemma {:induction false} MembersGoOn(ts: Raw, i: nat, first: bool)
    requires i <= |ts| && !At(ts, Skip(ts, i), RBrace) && (first || At(ts, Skip(ts, i), Comma))
    requires MembersEnd(ts, KeyAt(ts, i, first)).Some?
    ensures Fields(ts, i, first).Some? && Fields(ts, i, first).value.1 == MembersEnd(ts, KeyAt(ts, i, first)).value
    decreases |ts| - i
  {
    hide Fields, Skip, MemberEnd, KeyAt;
    var e := MemberEnd(ts, KeyAt(ts, i, first)).value;
    FieldsTurn(ts, i, first);
    if At(ts, Skip(ts, e), RBrace) {
      FieldsClose(ts, e, false);
    } else {
      KeyAfterComma(ts, e);
      MembersGoOn(ts, e, false);
    }
  }

  /** The scanner accepts exactly the texts of the grammar. */
  lemma ValueIffJson(raw: Raw)
    ensures IsValue(raw) <==> IsJson(raw)
  {
    hide IsValue, IsJson;
    if IsValue(raw) {
      ValueIsJson(raw);
    }
    if IsJson(raw) {
      JsonIsValue(raw);
    }
  }

  // ---- what is printed -------------------------------------------------------------------

  /** The printers' layout: no blanks, keys in their one canonical spelling. */
  function Compact(v: Value): Item { Item([], v, []) }

  function CompactMember(f: Field): Member { Member([], f.key, Canonical, [], [], f.val, []) }

  lemma {:induction false} JoinIsItems(vs: seq<Value>, xs: seq<Item>, first: bool)
    requires |xs| == |vs| && forall i :: 0 <= i < |vs| ==> xs[i] == Compact(vs[i])
    ensures Join(vs, first) == ItemsText(xs, first)
  {
    hide ItemText, IsValue;
    if vs != [] {
      JoinIsItems(vs[1..], xs[1..], false);
      CompactText(vs[0]);
      assert (if first then [] else [Comma]) + vs[0] + Join(vs[1..], false)
          == (if first then [] else [Comma]) + (vs[0] + Join(vs[1..], false));
    }
  }

  lemma CompactText(v: Value)
    ensures ItemText(Compact(v)) == v
  {
    hide IsValue;
  }

  lemma CompactMemberText(f: Field)
    ensures MemberText(CompactMember(f)) == FieldText(f)
  {
    hide IsValue;
  }

  lemma {:induction false} JoinIsMembers(o: Obj, xs: seq<Member>, first: bool)
    requires |xs| == |o| && forall i :: 0 <= i < |o| ==> xs[i] == CompactMember(o[i])
    ensures Join(FieldTexts(o), first) == MembersText(xs, first)
  {
    hide MemberText, FieldText, IsValue;
    if o != [] {
      JoinIsMembers(o[1..], xs[1..], false);
      assert FieldTexts(o)[1..] == FieldTexts(o[1..]);
      CompactMemberText(o[0]);
      var sep: Raw, text, rest := if first then [] else [Comma], FieldText(o[0]), Join(FieldTexts(o[1..]), false);
      assert sep + text + rest == sep + (text + rest);
    }
  }

  /** packBlocks and marshal write exactly the compact layouts. */
  lemma PrintedLayouts(vs: seq<Value>, o: Obj)
    ensures Pack(vs) == [LBrack] + ItemsTail([], seq(|vs|, i requires 0 <= i < |vs| => Compact(vs[i])), true, [])
    ensures Marshal(o) == [LBrace] + MembersTail([], seq(|o|, i requires 0 <= i < |o| => CompactMember(o[i])), true, [])
  {
    hide Join, ItemsText, MembersText, FieldTexts, Compact, CompactMember, IsValue;
    JoinIsItems(vs, seq(|vs|, i requires 0 <= i < |vs| => Compact(vs[i])), true);
    JoinIsMembers(o, seq(|o|, i requires 0 <= i < |o| => CompactMember(o[i])), true);
  }
}
