/** The reader itself: one cursor moved by loops and recursion, and the header it parses. */
module GgufReader {
  import opened Wrappers
  import opened Gguf

  class Reader {
    const data: Bytes
    var pos: nat

    ghost predicate Valid()
      reads this
    {
      pos <= |data|
    }

    constructor (data: Bytes)
      ensures Valid() && this.data == data && pos == 0
    {
      this.data, pos := data, 0;
    }

    method Number(width: nat) returns (v: nat, ok: bool)
      requires Valid()
      modifies this
      ensures Valid() && Gguf.Number(v, pos, ok) == ReadNumber(data, old(pos), width)
    {
      if pos + width <= |data| {
        v, ok := FromLE(data[pos..pos + width]), true;
        pos := pos + width;
      } else {
        v, ok := 0, false;
        pos := |data|;
      }
    }

    method String() returns (r: Result<Value>)
      requires Valid()
      modifies this
      ensures Valid() && Parsed(r, pos) == ReadString(data, old(pos))
    {
      var n, ok := Number(8);
      if !ok || n > MAX_STRING {
        return Err;
      }
      if pos + n > |data| {
        pos := |data|;
        return Err;
      }
      r := Ok(S(data[pos..pos + n]));
      pos := pos + n;
    }

    method ScalarOf(t: nat) returns (v: Value)
      requires Valid() && t <= 12 && t != 8 && t != 9
      modifies this
      ensures Valid() && Parsed(Ok(v), pos) == Typed(data, old(pos), t)
    {
      var x: nat, ok: bool;
      match t {
        case 0 => x, ok := Number(1); v := U(x);
        case 1 => x, ok := Number(1); v := I(Signed(x, 1));
        case 2 => x, ok := Number(2); v := U(x);
        case 3 => x, ok := Number(2); v := I(Signed(x, 2));
        case 4 => x, ok := Number(4); v := U(x);
        case 5 => x, ok := Number(4); v := I(Signed(x, 4));
        case 6 => x, ok := Number(4); v := F32(x);
        case 7 => x, ok := Number(1); v := B(x != 0);
        case 10 => x, ok := Number(8); v := U(x);
        case 11 => x, ok := Number(8); v := I(Signed(x, 8));
        case 12 => x, ok := Number(8); v := F64(x);
      }
    }

    /** readTyped: the recursion only goes down after the twelve bytes of an array header. */
    method TypedValue(t: nat) returns (r: Result<Value>)
      requires Valid()
      modifies this
      ensures Valid() && Parsed(r, pos) == Typed(data, old(pos), t)
      decreases |data| - pos
    {
      if t == 8 {
        r := String();
      } else if t == 9 {
        var et, _ := Number(4);
        var n, ok := Number(8);
        if !ok {
          return Err;
        }
        var first, i := Nil, 0;
        ghost var start := pos;
        while i < n
          invariant Valid() && start <= pos && i <= n && old(pos) + 12 <= pos
          invariant Elements(data, pos, et, n, i, first) == Elements(data, start, et, n, 0, Nil)
        {
          var v := TypedValue(et);
          if v.Err? {
            return Err;
          }
          if i == 0 {
            first := v.value;
          }
          i := i + 1;
        }
        r := Ok(first);
      } else if t <= 12 {
        var v := ScalarOf(t);
        r := Ok(v);
      } else {
        r := Err;
      }
    }

    method TaggedValue() returns (r: Result<Value>)
      requires Valid()
      modifies this
      ensures Valid() && Parsed(r, pos) == ReadValue(data, old(pos))
    {
      var t, ok := Number(4);
      if !ok {
        return Err;
      }
      r := TypedValue(t);
    }
  }

  // ---- the metadata table ----------------------------------------------------------------

  type Meta = map<Bytes, Value>

  /** The key/value loop from pair i on: it stops for good at the first pair it cannot read. */
  function Pairs(data: Bytes, pos: nat, n: nat, meta: Meta): Meta
    requires pos <= |data|
    decreases |data| - pos
  {
    if n == 0 then meta
    else
      var key := ReadString(data, pos);
      if key.v.Err? then meta
      else
        var val := ReadValue(data, key.pos);
        if val.v.Err? then meta
        else Pairs(data, val.pos, n - 1, meta[key.v.value.s := val.v.value])
  }

  datatype Params = Params(arch: Bytes, layers: nat, kvHeads: nat, headDim: nat, trainCtx: nat)

  function Text(s: string): (bs: Bytes)
    ensures |bs| == |s| && forall i :: 0 <= i < |s| && s[i] as int < 256 ==> bs[i] as int == s[i] as int
  {
    seq(|s|, i requires 0 <= i < |s| => s[i] as int % 256)
  }

  /** u32(v): integers keep their low 32 bits, anything else is 0. */
  function U32Of(v: Value): nat {
    match v
    case U(n) => n % 0x1_0000_0000
    case I(i) => i % 0x1_0000_0000
    case _ => 0
  }

  function Lookup(meta: Meta, key: Bytes): Value {
    if key in meta then meta[key] else Nil
  }

  function Dim(meta: Meta, arch: Bytes, name: string): nat {
    U32Of(Lookup(meta, arch + Text(name)))
  }

  function ParamsOf(meta: Meta): Params {
    var a := Lookup(meta, Text("general.architecture"));
    var arch := if a.S? then a.s else [];
    var heads := Dim(meta, arch, ".attention.head_count");
    var keyLength := Dim(meta, arch, ".attention.key_length");
    var kv := Dim(meta, arch, ".attention.head_count_kv");
    Params(
      arch,
      Dim(meta, arch, ".block_count"),
      if kv == 0 then heads else kv,
      if keyLength == 0 && heads > 0 then Dim(meta, arch, ".embedding_length") / heads else keyLength,
      Dim(meta, arch, ".context_length"))
  }

  const MAGIC: nat := 0x46554747
  const LIMIT: nat := 0x80_0000

  function Limited(file: Bytes): Bytes {
    if |file| <= LIMIT then file else file[..LIMIT]
  }

  /** Read on the first eight megabytes of a file. */
  function ReadHeader(file: Bytes): Result<Params> {
    var data := Limited(file);
    var magic := ReadNumber(data, 0, 4);
    if !magic.ok || magic.v != MAGIC then Err
    else
      var version := ReadNumber(data, magic.pos, 4);
      var tensors := ReadNumber(data, version.pos, 8);
      var count := ReadNumber(data, tensors.pos, 8);
      if !count.ok then Err else Ok(ParamsOf(Pairs(data, count.pos, count.v, map[])))
  }

  method Read(file: Bytes) returns (r: Result<Params>)
    ensures r == ReadHeader(file)
  {
    hide Pairs, Typed, Elements, Limited, ParamsOf, Lookup, FromLE;
    var rd := new Reader(Limited(file));
    var magic, ok := rd.Number(4);
    if !ok || magic != MAGIC {
      return Err;
    }
    var _, _ := rd.Number(4);
    var _, _ := rd.Number(8);
    var count, countOk := rd.Number(8);
    if !countOk {
      return Err;
    }
    var meta := ReadPairs(rd, count);
    r := Ok(ParamsOf(meta));
  }

  method ReadPairs(rd: Reader, count: nat) returns (meta: Meta)
    requires rd.Valid()
    modifies rd
    ensures rd.Valid() && meta == Pairs(rd.data, old(rd.pos), count, map[])
  {
    hide Typed, Elements, ReadValue;
    meta := map[];
    var i := 0;
    while i < count
      invariant rd.Valid() && i <= count
      invariant Pairs(rd.data, rd.pos, count - i, meta) == Pairs(rd.data, old(rd.pos), count, map[])
    {
      var key := rd.String();
      if key.Err? {
        break;
      }
      var val := rd.TaggedValue();
      if val.Err? {
        break;
      }
      meta := meta[key.value.s := val.value];
      i := i + 1;
    }
  }

  // ---- headers written by the format -----------------------------------------------------

  datatype Entry = Entry(key: Bytes, val: GVal)

  ghost predicate ValidEntries(es: seq<Entry>) {
    forall e | e in es :: |e.key| <= MAX_STRING && Gguf.Valid(e.val)
  }

  function EncodeEntry(e: Entry): Bytes {
    EncodeString(e.key) + (ToLE(Tag(e.val), 4) + Encode(e.val))
  }

  function EncodeEntries(es: seq<Entry>): Bytes {
    if es == [] then [] else EncodeEntry(es[0]) + EncodeEntries(es[1..])
  }

  function EncodeHeader(version: nat, tensors: nat, es: seq<Entry>): Bytes {
    ToLE(MAGIC, 4) + (ToLE(version, 4) + (ToLE(tensors, 8) + (ToLE(|es|, 8) + EncodeEntries(es))))
  }

  /** The table a list of entries stands for: the last entry of a key wins. */
  function TableOf(es: seq<Entry>): Meta {
    if es == [] then map[] else
      var e := es[|es| - 1];
      TableOf(es[..|es| - 1])[e.key := Projected(e.val)]
  }

  lemma {:induction false} LastEntryWins(es: seq<Entry>, k: nat)
    requires k < |es| && forall j :: k < j < |es| ==> es[j].key != es[k].key
    ensures es[k].key in TableOf(es) && TableOf(es)[es[k].key] == Projected(es[k].val)
    decreases |es|
  {
    if k < |es| - 1 {
      LastEntryWins(es[..|es| - 1], k);
    }
  }

  lemma {:induction false} OnlyEntriesPresent(es: seq<Entry>, key: Bytes)
    requires forall j :: 0 <= j < |es| ==> es[j].key != key
    ensures key !in TableOf(es)
  {
    if es != [] {
      OnlyEntriesPresent(es[..|es| - 1], key);
    }
  }

  /** The entries not yet read extend the table of those already read. */
  lemma {:induction false} PairsOfEntries(data: Bytes, pos: nat, done: seq<Entry>, es: seq<Entry>)
    requires ValidEntries(es) && Holds(data, pos, EncodeEntries(es))
    ensures Pairs(data, pos, |es|, TableOf(done)) == TableOf(done + es)
    decreases |es|
  {
    hide ReadValue, ReadString, EncodeEntry, Encode, Projected, Holds;
    HoldsInside(data, pos, EncodeEntries(es));
    if es == [] {
      assert done + es == done;
    } else {
      var e := es[0];
      assert e in es;
      HoldsSplit(data, pos, EncodeEntry(e), EncodeEntries(es[1..]));
      EntryRead(data, pos, e);
      var next := done + [e];
      assert next[..|next| - 1] == done;
      PairsOfEntries(data, pos + |EncodeEntry(e)|, next, es[1..]);
      assert next + es[1..] == done + es;
    }
  }

  lemma EntryRead(data: Bytes, pos: nat, e: Entry)
    requires |e.key| <= MAX_STRING && Gguf.Valid(e.val) && Holds(data, pos, EncodeEntry(e))
    ensures pos + |EncodeEntry(e)| <= |data|
    ensures ReadString(data, pos).v == Ok(S(e.key))
    ensures ReadValue(data, ReadString(data, pos).pos) == Parsed(Ok(Projected(e.val)), pos + |EncodeEntry(e)|)
  {
    hide Typed, Encode, EncodeString, ReadString, Projected, Gguf.Valid, ReadNumber, ToLE, Tag;
    var tag, body := ToLE(Tag(e.val), 4), Encode(e.val);
    HoldsSplit(data, pos, EncodeString(e.key), tag + body);
    StringRead(data, pos, e.key);
    var p := pos + |EncodeString(e.key)|;
    HoldsSplit(data, p, tag, body);
    TagFits(e.val);
    NumberRead(data, p, Tag(e.val), 4);
    RoundTrip(data, p + 4, e.val);
  }

  lemma TagFits(v: GVal)
    ensures FitsU(Tag(v), 4)
  {
    assert Pow256(4) == 0x1_0000_0000;
  }

  /** Read on an encoded header, whatever follows it in the file, returns the parameters of
      the table of its entries, the last entry of each key winning. */
  lemma HeaderRoundTrip(version: nat, tensors: nat, es: seq<Entry>, rest: Bytes)
    requires FitsU(version, 4) && FitsU(tensors, 8) && FitsU(|es|, 8) && ValidEntries(es)
    requires |EncodeHeader(version, tensors, es)| <= LIMIT
    ensures ReadHeader(EncodeHeader(version, tensors, es) + rest) == Ok(ParamsOf(TableOf(es)))
  {
    hide ReadNumber, ToLE, EncodeEntries, Pairs, ParamsOf, TableOf, FitsU, ValidEntries;
    var file := EncodeHeader(version, tensors, es) + rest;
    var data := Limited(file);
    var entries := EncodeEntries(es);
    var c := ToLE(|es|, 8) + entries;
    var b := ToLE(tensors, 8) + c;
    var a := ToLE(version, 4) + b;
    LimitKeeps(EncodeHeader(version, tensors, es), rest);
    HoldsSplit(data, 0, ToLE(MAGIC, 4), a);
    HoldsSplit(data, 4, ToLE(version, 4), b);
    HoldsSplit(data, 8, ToLE(tensors, 8), c);
    HoldsSplit(data, 16, ToLE(|es|, 8), entries);
    MagicFits();
    NumberRead(data, 0, MAGIC, 4);
    NumberRead(data, 4, version, 4);
    NumberRead(data, 8, tensors, 8);
    NumberRead(data, 16, |es|, 8);
    PairsOfEntries(data, 24, [], es);
    assert [] + es == es;
    EmptyTable();
  }

  lemma LimitKeeps(head: Bytes, rest: Bytes)
    requires |head| <= LIMIT
    ensures Holds(Limited(head + rest), 0, head)
  {
  }

  lemma EmptyTable()
    ensures TableOf([]) == map[]
  {
  }

  lemma MagicFits()
    ensures FitsU(MAGIC, 4)
  {
    assert Pow256(4) == 0x1_0000_0000;
  }

  // ---- the parameters, from the entries --------------------------------------------------

  /** The last entry of a key. */
  function LastOf(es: seq<Entry>, key: Bytes): (r: Option<nat>)
    ensures r.Some? ==> r.value < |es| && es[r.value].key == key
    ensures forall j :: (if r.Some? then r.value + 1 else 0) <= j < |es| ==> es[j].key != key
  {
    if es == [] then None
    else if es[|es| - 1].key == key then Some(|es| - 1)
    else LastOf(es[..|es| - 1], key)
  }

  /** The number a value of the format stands for: unsigned ones keep their low 32 bits, signed
      ones are taken modulo 2^32, an array stands for its first element, anything else for 0. */
  function NumberOf(v: GVal): nat {
    match v
    case U8(u) => u
    case U16(u) => u
    case U32(u) => u
    case U64(u) => u % 4294967296
    case I8(i) => if i < 0 then Wrapped(i) else i
    case I16(i) => if i < 0 then Wrapped(i) else i
    case I32(i) => if i < 0 then Wrapped(i) else i
    case I64(i) => Wrapped(i)
    case Arr(_, elems) => if elems == [] then 0 else NumberOf(elems[0])
    case _ => 0
  }

  function Wrapped(i: int): nat {
    i % 4294967296
  }

  lemma {:induction false} NumbersKept(v: GVal)
    requires Gguf.Valid(v)
    ensures U32Of(Projected(v)) == NumberOf(v)
  {
    Powers();
    match v
    case Arr(_, elems) =>
      if elems != [] {
        assert elems[0] in elems;
        NumbersKept(elems[0]);
      }
    case _ =>
  }

  /** The text a value of the format stands for, if it is one. */
  function TextOf(v: GVal): Bytes {
    match v
    case Str(s) => s
    case Arr(_, elems) => if elems == [] then [] else TextOf(elems[0])
    case _ => []
  }

  lemma {:induction false} TextKept(v: GVal)
    ensures TextOf(v) == if Projected(v).S? then Projected(v).s else []
  {
    if v.Arr? && v.elems != [] {
      TextKept(v.elems[0]);
    }
  }

  /** The number the last entry of a key gives; 0 without one. */
  function NumberSaid(es: seq<Entry>, key: Bytes): nat {
    match LastOf(es, key) case None => 0 case Some(i) => NumberOf(es[i].val)
  }

  function TextSaid(es: seq<Entry>, key: Bytes): Bytes {
    match LastOf(es, key) case None => [] case Some(i) => TextOf(es[i].val)
  }

  lemma TableSays(es: seq<Entry>, key: Bytes)
    requires ValidEntries(es)
    ensures U32Of(Lookup(TableOf(es), key)) == NumberSaid(es, key)
    ensures var v := Lookup(TableOf(es), key); TextSaid(es, key) == if v.S? then v.s else []
  {
    hide NumberOf, TextOf, U32Of, Gguf.Valid;
    var last := LastOf(es, key);
    if last.Some? {
      var e := es[last.value];
      assert e in es;
      LastEntryWins(es, last.value);
      NumbersKept(e.val);
      TextKept(e.val);
    } else {
      OnlyEntriesPresent(es, key);
      NilIsNothing();
    }
  }

  lemma NilIsNothing()
    ensures U32Of(Nil) == 0
  {
  }

  lemma DimSays(es: seq<Entry>, arch: Bytes, name: string)
    requires ValidEntries(es)
    ensures Dim(TableOf(es), arch, name) == NumberSaid(es, arch + Text(name))
  {
    hide Lookup, NumberSaid, U32Of, TableOf, Text, ValidEntries;
    TableSays(es, arch + Text(name));
  }

  /** Flooring a quotient. */
  lemma QuotientBounds(n: nat, d: nat)
    requires d > 0
    ensures (n / d) * d <= n < (n / d + 1) * d
  {
  }

  /** Read on an encoded header: every parameter is what the last entry of its key says, kv-heads
      falling back to the attention heads, and the head dimension to the integer quotient of
      embedding length and heads, or to 0 without heads. */
  lemma HeaderFields(version: nat, tensors: nat, es: seq<Entry>, rest: Bytes)
    requires FitsU(version, 4) && FitsU(tensors, 8) && FitsU(|es|, 8) && ValidEntries(es)
    requires |EncodeHeader(version, tensors, es)| <= LIMIT
    ensures ReadHeader(EncodeHeader(version, tensors, es) + rest).Ok?
    ensures var p := ReadHeader(EncodeHeader(version, tensors, es) + rest).value;
      var said := (name: string) => NumberSaid(es, p.arch + Text(name));
      var heads, kv := said(".attention.head_count"), said(".attention.head_count_kv");
      var keyLength := said(".attention.key_length");
      p.arch == TextSaid(es, Text("general.architecture")) &&
      p.layers == said(".block_count") && p.trainCtx == said(".context_length") &&
      p.kvHeads == (if kv != 0 then kv else heads) &&
      (keyLength != 0 ==> p.headDim == keyLength) &&
      (keyLength == 0 && heads == 0 ==> p.headDim == 0) &&
      (keyLength == 0 && heads > 0 ==>
        p.headDim * heads <= said(".embedding_length") < (p.headDim + 1) * heads)
  {
    hide EncodeHeader, ReadHeader, ValidEntries, Dim, NumberSaid, TextSaid, TableOf, Lookup, FitsU, Text;
    HeaderRoundTrip(version, tensors, es, rest);
    var p := ParamsOf(TableOf(es));
    TableSays(es, Text("general.architecture"));
    DimSays(es, p.arch, ".block_count");
    DimSays(es, p.arch, ".context_length");
    DimSays(es, p.arch, ".attention.head_count");
    DimSays(es, p.arch, ".attention.head_count_kv");
    DimSays(es, p.arch, ".attention.key_length");
    DimSays(es, p.arch, ".embedding_length");
    var heads := NumberSaid(es, p.arch + Text(".attention.head_count"));
    if heads > 0 {
      QuotientBounds(NumberSaid(es, p.arch + Text(".embedding_length")), heads);
    }
  }

  /** So a context length written as a 32-bit number is the trained context, whole. */
  lemma TrainedContext(version: nat, tensors: nat, es: seq<Entry>, rest: Bytes, k: nat, c: nat)
    requires FitsU(version, 4) && FitsU(tensors, 8) && FitsU(|es|, 8) && ValidEntries(es)
    requires |EncodeHeader(version, tensors, es)| <= LIMIT
    requires k < |es| && es[k].key == TextSaid(es, Text("general.architecture")) + Text(".context_length")
    requires es[k].val == U32(c) && forall j :: k < j < |es| ==> es[j].key != es[k].key
    ensures ReadHeader(EncodeHeader(version, tensors, es) + rest).Ok?
    ensures ReadHeader(EncodeHeader(version, tensors, es) + rest).value.trainCtx == c
  {
    hide EncodeHeader, ReadHeader, ValidEntries, TextSaid, NumberSaid, FitsU, Text;
    HeaderFields(version, tensors, es, rest);
    LastSays(es, k);
  }

  lemma LastSays(es: seq<Entry>, k: nat)
    requires k < |es| && forall j :: k < j < |es| ==> es[j].key != es[k].key
    ensures NumberSaid(es, es[k].key) == NumberOf(es[k].val)
  {
    hide NumberOf;
    assert LastOf(es, es[k].key) == Some(k);
  }

  /** A header, from the bytes: the first eight megabytes of the file count; they start with
      "GGUF", and the entry count stands at byte 16. */
  lemma HeaderBytes(file: Bytes)
    ensures var data := if |file| <= 8388608 then file else file[..8388608];
      (ReadHeader(file).Ok? <==> |data| >= 24 && data[0] == 71 && data[1] == 71 && data[2] == 85 && data[3] == 70) &&
      (ReadHeader(file).Ok? ==> ReadHeader(file) == Ok(ParamsOf(Pairs(data, 24, Byte8(data, 16), map[]))))
  {
    hide FromLE, Pairs, ParamsOf, Byte8;
    var data := Limited(file);
    LEBytes(data, 0);
    LEBytes(data, 16);
    if |data| >= 4 {
      MagicBytes(data);
    }
  }

  lemma MagicBytes(data: Bytes)
    requires |data| >= 4
    ensures Byte4(data, 0) == MAGIC <==> data[0] == 71 && data[1] == 71 && data[2] == 85 && data[3] == 70
  {
  }
}
