/** The GGUF value format: what the reader computes, as functions of the bytes and a position,
    and the encoding it must undo. */
module Gguf {
  import opened Wrappers

  type byte = x: int | 0 <= x < 256

  type Bytes = seq<byte>

  // ---- little-endian numbers -------------------------------------------------------------

  function FromLE(bs: Bytes): nat {
    if bs == [] then 0 else bs[0] + 256 * FromLE(bs[1..])
  }

  function ToLE(v: nat, width: nat): (bs: Bytes)
    ensures |bs| == width
  {
    if width == 0 then [] else [v % 256] + ToLE(v / 256, width - 1)
  }

  function Pow256(width: nat): (p: nat)
    ensures p > 0
  {
    if width == 0 then 1 else 256 * Pow256(width - 1)
  }

  lemma {:induction false} LittleEndian(v: nat, width: nat)
    requires v < Pow256(width)
    ensures FromLE(ToLE(v, width)) == v
  {
    if width > 0 {
      LittleEndian(v / 256, width - 1);
      assert ToLE(v, width)[1..] == ToLE(v / 256, width - 1);
    }
  }

  /** The two's complement reading of a width-byte number. */
  function Signed(v: nat, width: nat): int {
    if 2 * v < Pow256(width) then v else v - Pow256(width)
  }

  /** The width-byte two's complement pattern of an integer that fits. */
  function Unsigned(i: int, width: nat): nat {
    var u := if i < 0 then i + Pow256(width) else i;
    if u < 0 then 0 else u
  }

  lemma SignedUnsigned(i: int, width: nat)
    requires FitsI(i, width)
    ensures FitsU(Unsigned(i, width), width) && Signed(Unsigned(i, width), width) == i
  {
  }

  predicate FitsU(n: nat, width: nat) { n < Pow256(width) }

  predicate FitsI(i: int, width: nat) { 0 <= 2 * i + Pow256(width) && 2 * i < Pow256(width) }

  // ---- reading ---------------------------------------------------------------------------

  /** The Go `any` a value is decoded into. Floats keep their bit pattern. */
  datatype Value =
    | U(n: nat) | I(i: int) | F32(bits32: nat) | F64(bits64: nat) | B(b: bool) | S(s: Bytes)
    | Nil

  /** binary.Read of an unsigned number: on a short read the rest of the input is consumed and
      the target keeps its zero. */
  datatype Number = Number(v: nat, pos: nat, ok: bool)

  function ReadNumber(data: Bytes, pos: nat, width: nat): (r: Number)
    requires pos <= |data|
    ensures pos <= r.pos <= |data|
    ensures r.ok ==> r.pos == pos + width
  {
    if pos + width <= |data| then Number(FromLE(data[pos..pos + width]), pos + width, true)
    else Number(0, |data|, false)
  }

  datatype Parsed = Parsed(v: Result<Value>, pos: nat)

  const MAX_STRING: nat := 0x10_0000

  function ReadString(data: Bytes, pos: nat): (r: Parsed)
    requires pos <= |data|
    ensures pos <= r.pos <= |data|
    ensures r.v.Ok? ==> pos + 8 <= r.pos && r.v.value.S?
  {
    var n := ReadNumber(data, pos, 8);
    if !n.ok || n.v > MAX_STRING then Parsed(Err, n.pos)
    else if n.pos + n.v <= |data| then Parsed(Ok(S(data[n.pos..n.pos + n.v])), n.pos + n.v)
    else Parsed(Err, |data|)
  }

  /** readTyped: scalar reads ignore their errors, arrays yield their first element. */
  function Typed(data: Bytes, pos: nat, t: nat): (r: Parsed)
    requires pos <= |data|
    ensures pos <= r.pos <= |data|
    decreases |data| - pos, 0
  {
    match t
    case 0 => var x := ReadNumber(data, pos, 1); Parsed(Ok(U(x.v)), x.pos)
    case 1 => var x := ReadNumber(data, pos, 1); Parsed(Ok(I(Signed(x.v, 1))), x.pos)
    case 2 => var x := ReadNumber(data, pos, 2); Parsed(Ok(U(x.v)), x.pos)
    case 3 => var x := ReadNumber(data, pos, 2); Parsed(Ok(I(Signed(x.v, 2))), x.pos)
    case 4 => var x := ReadNumber(data, pos, 4); Parsed(Ok(U(x.v)), x.pos)
    case 5 => var x := ReadNumber(data, pos, 4); Parsed(Ok(I(Signed(x.v, 4))), x.pos)
    case 6 => var x := ReadNumber(data, pos, 4); Parsed(Ok(F32(x.v)), x.pos)
    case 7 => var x := ReadNumber(data, pos, 1); Parsed(Ok(B(x.v != 0)), x.pos)
    case 8 => ReadString(data, pos)
    case 9 =>
      var et := ReadNumber(data, pos, 4);
      var n := ReadNumber(data, et.pos, 8);
      if n.ok then Elements(data, n.pos, et.v, n.v, 0, Nil) else Parsed(Err, n.pos)
    case 10 => var x := ReadNumber(data, pos, 8); Parsed(Ok(U(x.v)), x.pos)
    case 11 => var x := ReadNumber(data, pos, 8); Parsed(Ok(I(Signed(x.v, 8))), x.pos)
    case 12 => var x := ReadNumber(data, pos, 8); Parsed(Ok(F64(x.v)), x.pos)
    case _ => Parsed(Err, pos)
  }

  /** The array loop from element i on. It may spin without consuming anything, so the count of
      elements left takes part in the measure. */
  function Elements(data: Bytes, pos: nat, et: nat, n: nat, i: nat, first: Value): (r: Parsed)
    requires pos <= |data| && i <= n
    ensures pos <= r.pos <= |data|
    decreases |data| - pos, n - i + 1
  {
    if i == n then Parsed(Ok(first), pos)
    else
      var p := Typed(data, pos, et);
      if p.v.Err? then p
      else Elements(data, p.pos, et, n, i + 1, if i == 0 then p.v.value else first)
  }

  function ReadValue(data: Bytes, pos: nat): (r: Parsed)
    requires pos <= |data|
    ensures pos <= r.pos <= |data|
  {
    var t := ReadNumber(data, pos, 4);
    if t.ok then Typed(data, t.pos, t.v) else Parsed(Err, t.pos)
  }

  // ---- values of the format --------------------------------------------------------------

  datatype GVal =
    | U8(u: nat) | U16(u: nat) | U32(u: nat) | U64(u: nat)
    | I8(i: int) | I16(i: int) | I32(i: int) | I64(i: int)
    | Float32(bits: nat) | Float64(bits: nat) | Bool(b: bool) | Str(s: Bytes)
    | Arr(et: nat, elems: seq<GVal>)

  function Tag(v: GVal): nat {
    match v
    case U8(_) => 0 case I8(_) => 1 case U16(_) => 2 case I16(_) => 3
    case U32(_) => 4 case I32(_) => 5 case Float32(_) => 6 case Bool(_) => 7
    case Str(_) => 8 case Arr(_, _) => 9 case U64(_) => 10 case I64(_) => 11
    case Float64(_) => 12
  }

  /** Numbers in range, strings up to the reader's cap, arrays of one element type. */
  ghost predicate Valid(v: GVal) {
    match v
    case U8(u) => FitsU(u, 1) case U16(u) => FitsU(u, 2)
    case U32(u) => FitsU(u, 4) case U64(u) => FitsU(u, 8)
    case I8(i) => FitsI(i, 1) case I16(i) => FitsI(i, 2)
    case I32(i) => FitsI(i, 4) case I64(i) => FitsI(i, 8)
    case Float32(bits) => FitsU(bits, 4) case Float64(bits) => FitsU(bits, 8)
    case Bool(_) => true
    case Str(s) => |s| <= MAX_STRING
    case Arr(et, elems) =>
      FitsU(et, 4) && FitsU(|elems|, 8) && forall e | e in elems :: Tag(e) == et && Valid(e)
  }

  function Encode(v: GVal): Bytes
    decreases v, 0
  {
    match v
    case U8(u) => ToLE(u, 1) case U16(u) => ToLE(u, 2)
    case U32(u) => ToLE(u, 4) case U64(u) => ToLE(u, 8)
    case I8(i) => ToLE(Unsigned(i, 1), 1) case I16(i) => ToLE(Unsigned(i, 2), 2)
    case I32(i) => ToLE(Unsigned(i, 4), 4) case I64(i) => ToLE(Unsigned(i, 8), 8)
    case Float32(bits) => ToLE(bits, 4) case Float64(bits) => ToLE(bits, 8)
    case Bool(b) => [if b then 1 else 0]
    case Str(s) => EncodeString(s)
    case Arr(et, elems) => ToLE(et, 4) + (ToLE(|elems|, 8) + EncodeAll(elems))
  }

  function EncodeAll(vs: seq<GVal>): Bytes
    decreases vs, 1
  {
    if vs == [] then [] else Encode(vs[0]) + EncodeAll(vs[1..])
  }

  function EncodeString(s: Bytes): Bytes {
    ToLE(|s|, 8) + s
  }

  /** What the reader keeps of a value: arrays are projected to their first element. */
  function Projected(v: GVal): Value {
    match v
    case U8(u) => U(u) case U16(u) => U(u) case U32(u) => U(u) case U64(u) => U(u)
    case I8(i) => I(i) case I16(i) => I(i) case I32(i) => I(i) case I64(i) => I(i)
    case Float32(bits) => F32(bits) case Float64(bits) => F64(bits)
    case Bool(b) => B(b)
    case Str(s) => S(s)
    case Arr(_, elems) => if elems == [] then Nil else Projected(elems[0])
  }

  // ---- decode after encode ---------------------------------------------------------------

  /** `part` stands at pos. */
  predicate Holds(data: Bytes, pos: nat, part: Bytes) {
    pos + |part| <= |data| && data[pos..pos + |part|] == part
  }

  lemma HoldsSplit(data: Bytes, pos: nat, a: Bytes, b: Bytes)
    requires Holds(data, pos, a + b)
    ensures Holds(data, pos, a) && Holds(data, pos + |a|, b)
  {
    assert data[pos..pos + |a|] == data[pos..pos + |a + b|][..|a|];
    assert data[pos + |a|..pos + |a| + |b|] == data[pos..pos + |a + b|][|a|..];
  }

  lemma NumberRead(data: Bytes, pos: nat, v: nat, width: nat)
    requires FitsU(v, width) && Holds(data, pos, ToLE(v, width))
    ensures ReadNumber(data, pos, width) == Number(v, pos + width, true)
  {
    LittleEndian(v, width);
  }

  lemma IntegerRead(data: Bytes, pos: nat, i: int, width: nat)
    requires FitsI(i, width) && Holds(data, pos, ToLE(Unsigned(i, width), width))
    ensures ReadNumber(data, pos, width) == Number(Unsigned(i, width), pos + width, true)
    ensures Signed(Unsigned(i, width), width) == i
  {
    SignedUnsigned(i, width);
    NumberRead(data, pos, Unsigned(i, width), width);
  }

  lemma StringRead(data: Bytes, pos: nat, s: Bytes)
    requires |s| <= MAX_STRING && Holds(data, pos, EncodeString(s))
    ensures ReadString(data, pos) == Parsed(Ok(S(s)), pos + |EncodeString(s)|)
  {
    HoldsSplit(data, pos, ToLE(|s|, 8), s);
    Pow256At8();
    NumberRead(data, pos, |s|, 8);
  }

  lemma Pow256At8()
    ensures Pow256(8) == 0x1_0000_0000_0000_0000
  {
    assert Pow256(4) == 0x1_0000_0000;
    assert Pow256(6) == 0x1_0000_0000_0000;
  }

  lemma ScalarRoundTrip(data: Bytes, pos: nat, v: GVal)
    requires Valid(v) && !v.Arr? && Holds(data, pos, Encode(v))
    ensures Typed(data, pos, Tag(v)) == Parsed(Ok(Projected(v)), pos + |Encode(v)|)
  {
    hide ToLE, Pow256, FromLE, ReadNumber, Signed, Unsigned, ReadString, EncodeString, FitsU, FitsI, Holds;
    match v
    case U8(u) => NumberRead(data, pos, u, 1);
    case U16(u) => NumberRead(data, pos, u, 2);
    case U32(u) => NumberRead(data, pos, u, 4);
    case U64(u) => NumberRead(data, pos, u, 8);
    case I8(i) => IntegerRead(data, pos, i, 1);
    case I16(i) => IntegerRead(data, pos, i, 2);
    case I32(i) => IntegerRead(data, pos, i, 4);
    case I64(i) => IntegerRead(data, pos, i, 8);
    case Float32(bits) => NumberRead(data, pos, bits, 4);
    case Float64(bits) => NumberRead(data, pos, bits, 8);
    case Bool(b) => BoolRead(data, pos, b);
    case Str(s) => StringRead(data, pos, s);
  }

  lemma BoolRead(data: Bytes, pos: nat, b: bool)
    requires Holds(data, pos, [if b then 1 else 0])
    ensures ReadNumber(data, pos, 1) == Number(if b then 1 else 0, pos + 1, true)
  {
    var v := if b then 1 else 0;
    assert ToLE(v, 1) == [v];
    NumberRead(data, pos, v, 1);
  }

  /** Reading an encoded value gives back the value and stops exactly behind it, whatever
      follows and however deep its arrays nest. */
  lemma {:induction false} RoundTrip(data: Bytes, pos: nat, v: GVal)
    requires Valid(v) && Holds(data, pos, Encode(v))
    ensures Typed(data, pos, Tag(v)) == Parsed(Ok(Projected(v)), pos + |Encode(v)|)
    decreases v, 0
  {
    if !v.Arr? {
      ScalarRoundTrip(data, pos, v);
    } else {
      var et, n := v.et, |v.elems|;
      ArrayHead(data, pos, et, v.elems);
      ElementsRoundTrip(data, pos + 12, et, v.elems, 0, Nil);
      assert v.elems[0..] == v.elems;
      ArrayRead(data, pos, et, n);
    }
  }

  lemma ArrayHead(data: Bytes, pos: nat, et: nat, elems: seq<GVal>)
    requires FitsU(et, 4) && FitsU(|elems|, 8) && Holds(data, pos, Encode(Arr(et, elems)))
    ensures pos + 12 <= |data| && Holds(data, pos + 12, EncodeAll(elems))
    ensures |Encode(Arr(et, elems))| == 12 + |EncodeAll(elems)|
    ensures ReadNumber(data, pos, 4) == Number(et, pos + 4, true)
    ensures ReadNumber(data, pos + 4, 8) == Number(|elems|, pos + 12, true)
  {
    hide EncodeAll, ToLE, Pow256, ReadNumber, FitsU;
    HoldsSplit(data, pos, ToLE(et, 4), ToLE(|elems|, 8) + EncodeAll(elems));
    HoldsSplit(data, pos + 4, ToLE(|elems|, 8), EncodeAll(elems));
    NumberRead(data, pos, et, 4);
    NumberRead(data, pos + 4, |elems|, 8);
  }

  lemma ArrayRead(data: Bytes, pos: nat, et: nat, n: nat)
    requires pos + 12 <= |data|
    requires ReadNumber(data, pos, 4) == Number(et, pos + 4, true)
    requires ReadNumber(data, pos + 4, 8) == Number(n, pos + 12, true)
    ensures Typed(data, pos, 9) == Elements(data, pos + 12, et, n, 0, Nil)
  {
    hide ReadNumber, Elements;
  }

  lemma {:induction false} ElementsRoundTrip(data: Bytes, pos: nat, et: nat, vs: seq<GVal>, i: nat, first: Value)
    requires i <= |vs| && Holds(data, pos, EncodeAll(vs[i..]))
    requires forall e | e in vs :: Tag(e) == et && Valid(e)
    ensures Elements(data, pos, et, |vs|, i, first)
         == Parsed(Ok(if i == 0 && vs != [] then Projected(vs[0]) else first), pos + |EncodeAll(vs[i..])|)
    decreases vs, |vs| - i
  {
    hide Typed, Holds, Encode, Valid, Tag;
    if i < |vs| {
      assert vs[i] in vs && vs[i..][0] == vs[i] && vs[i..][1..] == vs[i + 1..];
      HoldsSplit(data, pos, Encode(vs[i]), EncodeAll(vs[i + 1..]));
      RoundTrip(data, pos, vs[i]);
      HoldsInside(data, pos, Encode(vs[i]));
      ElementsRoundTrip(data, pos + |Encode(vs[i])|, et, vs, i + 1,
        if i == 0 then Projected(vs[0]) else first);
    } else {
      assert vs[i..] == [];
      HoldsInside(data, pos, []);
    }
  }

  lemma HoldsInside(data: Bytes, pos: nat, part: Bytes)
    requires Holds(data, pos, part)
    ensures pos + |part| <= |data|
  {
  }

  // ---- how deep an input can nest --------------------------------------------------------

  function Max(a: nat, b: nat): nat { if a < b then b else a }

  /** Array loops open at once, at worst, while reading a value at pos. */
  ghost function Depth(data: Bytes, pos: nat, t: nat): nat
    requires pos <= |data|
    decreases |data| - pos, 0
  {
    if t != 9 then 0
    else
      var et := ReadNumber(data, pos, 4);
      var n := ReadNumber(data, et.pos, 8);
      if n.ok then 1 + ElementsDepth(data, n.pos, et.v, n.v, 0) else 0
  }

  ghost function ElementsDepth(data: Bytes, pos: nat, et: nat, n: nat, i: nat): nat
    requires pos <= |data| && i <= n
    decreases |data| - pos, n - i + 1
  {
    if i == n then 0
    else
      var p := Typed(data, pos, et);
      var here := Depth(data, pos, et);
      if p.v.Err? then here else Max(here, ElementsDepth(data, p.pos, et, n, i + 1))
  }

  /** Every open array loop has consumed twelve bytes of its own: the nesting, and with it the
      recursion, is bounded by the bytes that are there, whatever counts the input claims. */
  lemma {:induction false} DepthBounded(data: Bytes, pos: nat, t: nat)
    requires pos <= |data|
    ensures 12 * Depth(data, pos, t) <= |data| - pos
    decreases |data| - pos, 0
  {
    hide Typed, Elements;
    if t == 9 {
      var et := ReadNumber(data, pos, 4);
      var n := ReadNumber(data, et.pos, 8);
      if n.ok {
        ElementsDepthBounded(data, n.pos, et.v, n.v, 0);
      }
    }
  }

  lemma {:induction false} ElementsDepthBounded(data: Bytes, pos: nat, et: nat, n: nat, i: nat)
    requires pos <= |data| && i <= n
    ensures 12 * ElementsDepth(data, pos, et, n, i) <= |data| - pos
    decreases |data| - pos, n - i + 1
  {
    hide Typed, Elements, Depth;
    if i < n {
      DepthBounded(data, pos, et);
      var p := Typed(data, pos, et);
      if p.v.Ok? {
        ElementsDepthBounded(data, p.pos, et, n, i + 1);
      }
    }
  }

  // ---- the format, byte by byte ----------------------------------------------------------

  function Byte2(b: Bytes, i: nat): nat
    requires i + 2 <= |b|
  {
    b[i] as int + 0x100 * b[i + 1] as int
  }

  function Byte4(b: Bytes, i: nat): nat
    requires i + 4 <= |b|
  {
    Byte2(b, i) + 0x1_0000 * Byte2(b, i + 2)
  }

  function Byte8(b: Bytes, i: nat): nat
    requires i + 8 <= |b|
  {
    Byte4(b, i) + 0x1_0000_0000 * Byte4(b, i + 4)
  }

  lemma {:induction false} FromLEAppend(a: Bytes, b: Bytes)
    ensures FromLE(a + b) == FromLE(a) + Pow256(|a|) * FromLE(b)
  {
    if a == [] {
      assert a + b == b;
    } else {
      assert (a + b)[1..] == a[1..] + b;
      FromLEAppend(a[1..], b);
      PowerStep(a[0], FromLE(a[1..]), Pow256(|a| - 1), FromLE(b));
    }
  }

  lemma PowerStep(x: int, y: int, p: int, z: int)
    ensures x + 256 * (y + p * z) == (x + 256 * y) + (256 * p) * z
  {
  }

  lemma LEBytes(data: Bytes, i: nat)
    ensures i + 1 <= |data| ==> FromLE(data[i..i + 1]) == data[i]
    ensures i + 2 <= |data| ==> FromLE(data[i..i + 2]) == Byte2(data, i)
    ensures i + 4 <= |data| ==> FromLE(data[i..i + 4]) == Byte4(data, i)
    ensures i + 8 <= |data| ==> FromLE(data[i..i + 8]) == Byte8(data, i)
  {
    hide FromLE;
    if i + 1 <= |data| {
      OneByte(data, i);
    }
    if i + 2 <= |data| {
      OneByte(data, i + 1);
      Halves(data, i, 1);
    }
    if i + 4 <= |data| {
      LETwo(data, i + 2);
      Halves(data, i, 2);
    }
    if i + 8 <= |data| {
      LETwo(data, i);
      LETwo(data, i + 2);
      LETwo(data, i + 4);
      LETwo(data, i + 6);
      Halves(data, i, 2);
      Halves(data, i + 4, 2);
      Halves(data, i, 4);
    }
    Powers();
  }

  lemma LETwo(data: Bytes, i: nat)
    requires i + 2 <= |data|
    ensures FromLE(data[i..i + 2]) == Byte2(data, i)
  {
    hide FromLE;
    OneByte(data, i);
    OneByte(data, i + 1);
    Halves(data, i, 1);
    Powers();
  }

  lemma OneByte(data: Bytes, i: nat)
    requires i + 1 <= |data|
    ensures FromLE(data[i..i + 1]) == data[i]
  {
    assert data[i..i + 1] == [data[i]];
    assert FromLE([data[i]][1..]) == 0;
  }

  lemma Halves(data: Bytes, i: nat, w: nat)
    requires i + 2 * w <= |data|
    ensures FromLE(data[i..i + 2 * w]) == FromLE(data[i..i + w]) + Pow256(w) * FromLE(data[i + w..i + 2 * w])
  {
    hide FromLE, Pow256;
    assert data[i..i + 2 * w] == data[i..i + w] + data[i + w..i + 2 * w];
    FromLEAppend(data[i..i + w], data[i + w..i + 2 * w]);
  }

  lemma Powers()
    ensures Pow256(1) == 0x100 && Pow256(2) == 0x1_0000 && Pow256(4) == 0x1_0000_0000
    ensures Pow256(8) == 0x1_0000_0000_0000_0000
  {
    Pow256At8();
    assert Pow256(2) == 0x1_0000;
    assert Pow256(4) == 0x1_0000_0000;
  }

  /** i is the number whose two's complement pattern over that range is n. */
  predicate Complement(i: int, n: nat, range: nat) {
    0 <= 2 * i + range && 2 * i < range && (i == n || i == n - range)
  }

  /** What a signed code yields. */
  ghost predicate ReadsSigned(p: Parsed, n: nat, range: nat, pos: nat) {
    p.v.Ok? && p.v.value.I? && Complement(p.v.value.i, n, range) && p.pos == pos
  }

  lemma SignedIs(v: nat, width: nat)
    requires FitsU(v, width)
    ensures Complement(Signed(v, width), v, Pow256(width))
  {
  }

  lemma {:induction false} FromLEFits(bs: Bytes)
    ensures FitsU(FromLE(bs), |bs|)
  {
    if bs != [] {
      FromLEFits(bs[1..]);
    }
  }

  /** The scalar type codes of GGUF, from the bytes they are read from. */
  lemma ScalarCodes(data: Bytes, pos: nat)
    requires pos <= |data|
    ensures pos + 1 <= |data| ==>
      Typed(data, pos, 0) == Parsed(Ok(U(data[pos])), pos + 1) &&
      ReadsSigned(Typed(data, pos, 1), data[pos], 0x100, pos + 1) &&
      Typed(data, pos, 7) == Parsed(Ok(B(data[pos] != 0)), pos + 1)
    ensures pos + 2 <= |data| ==>
      Typed(data, pos, 2) == Parsed(Ok(U(Byte2(data, pos))), pos + 2) &&
      ReadsSigned(Typed(data, pos, 3), Byte2(data, pos), 0x1_0000, pos + 2)
    ensures pos + 4 <= |data| ==>
      Typed(data, pos, 4) == Parsed(Ok(U(Byte4(data, pos))), pos + 4) &&
      ReadsSigned(Typed(data, pos, 5), Byte4(data, pos), 0x1_0000_0000, pos + 4) &&
      Typed(data, pos, 6) == Parsed(Ok(F32(Byte4(data, pos))), pos + 4)
    ensures pos + 8 <= |data| ==>
      Typed(data, pos, 10) == Parsed(Ok(U(Byte8(data, pos))), pos + 8) &&
      ReadsSigned(Typed(data, pos, 11), Byte8(data, pos), 0x1_0000_0000_0000_0000, pos + 8) &&
      Typed(data, pos, 12) == Parsed(Ok(F64(Byte8(data, pos))), pos + 8)
  {
    hide FromLE, Pow256, Byte2, Byte4, Byte8, Signed, Complement;
    LEBytes(data, pos);
    Powers();
    SignedRead(data, pos, 1);
    SignedRead(data, pos, 2);
    SignedRead(data, pos, 4);
    SignedRead(data, pos, 8);
  }

  lemma SignedRead(data: Bytes, pos: nat, width: nat)
    requires pos <= |data|
    ensures pos + width <= |data| ==>
      Complement(Signed(FromLE(data[pos..pos + width]), width), FromLE(data[pos..pos + width]), Pow256(width))
  {
    hide FromLE, Pow256, Signed, Complement;
    if pos + width <= |data| {
      FromLEFits(data[pos..pos + width]);
      SignedIs(FromLE(data[pos..pos + width]), width);
    }
  }

  /** Short input: a scalar is 0 and takes the rest with it; an unknown code is refused. */
  lemma ShortScalars(data: Bytes, pos: nat, t: nat)
    requires pos <= |data|
    ensures t in {4, 5, 6} && pos + 4 > |data| ==> Typed(data, pos, t).v.Ok? && Typed(data, pos, t).pos == |data|
    ensures t == 4 && pos + 4 > |data| ==> Typed(data, pos, t) == Parsed(Ok(U(0)), |data|)
    ensures t == 10 && pos + 8 > |data| ==> Typed(data, pos, t) == Parsed(Ok(U(0)), |data|)
    ensures t > 12 ==> Typed(data, pos, t) == Parsed(Err, pos)
  {
    hide Pow256, FromLE;
  }

  /** Strings and arrays, from the bytes: an eight-byte length up to 2^20; a four-byte element
      code and an eight-byte count. A tagged value is a four-byte code before it. */
  lemma CompoundCodes(data: Bytes, pos: nat)
    requires pos <= |data|
    ensures pos + 8 > |data| ==> Typed(data, pos, 8) == Parsed(Err, |data|)
    ensures pos + 8 <= |data| && Byte8(data, pos) > 1048576 ==> Typed(data, pos, 8) == Parsed(Err, pos + 8)
    ensures pos + 8 <= |data| && Byte8(data, pos) <= 1048576 ==>
      var n := Byte8(data, pos);
      Typed(data, pos, 8) ==
        if pos + 8 + n <= |data| then Parsed(Ok(S(data[pos + 8..pos + 8 + n])), pos + 8 + n) else Parsed(Err, |data|)
    ensures pos + 12 <= |data| ==>
      Typed(data, pos, 9) == Elements(data, pos + 12, Byte4(data, pos), Byte8(data, pos + 4), 0, Nil)
    ensures pos + 12 > |data| ==> Typed(data, pos, 9) == Parsed(Err, |data|)
    ensures pos + 4 <= |data| ==> ReadValue(data, pos) == Typed(data, pos + 4, Byte4(data, pos))
  {
    hide FromLE, Byte2, Byte4, Byte8, Elements;
    LEBytes(data, pos);
    LEBytes(data, pos + 4);
  }
}
