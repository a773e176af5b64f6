/** guessContext: how many tokens of KV cache fit the free memory, in exact arithmetic. */
module ContextGuess {
  import opened Wrappers
  import opened GgufReader

  datatype Gpu = Gpu(index: int, total: int, used: int)

  const MIB: real := 1048576.0
  const STEP: int := 4096

  /** Bytes of K and V per token; 0 when a dimension is unknown. */
  function KVBytesPerToken(p: Params, bytesPerElem: real): real {
    if p.layers == 0 || p.kvHeads == 0 || p.headDim == 0 then 0.0
    else 2.0 * p.layers as real * p.kvHeads as real * p.headDim as real * bytesPerElem
  }

  lemma KVBytesPositive(p: Params, bytesPerElem: real)
    requires bytesPerElem > 0.0
    ensures KVBytesPerToken(p, bytesPerElem) >= 0.0
    ensures KVBytesPerToken(p, bytesPerElem) == 0.0 <==> p.layers == 0 || p.kvHeads == 0 || p.headDim == 0
  {
    if p.layers > 0 && p.kvHeads > 0 && p.headDim > 0 {
      var a, b, c := p.layers as real, p.kvHeads as real, p.headDim as real;
      Positive(2.0, a);
      Positive(2.0 * a, b);
      Positive(2.0 * a * b, c);
      Positive(2.0 * a * b * c, bytesPerElem);
    }
  }

  lemma Positive(a: real, b: real)
    requires a > 0.0 && b > 0.0
    ensures a * b > 0.0
  {
  }

  function ElementBytes(kv: string): real {
    if kv == "f16" || kv == "" then 2.0 else if kv == "q4_0" then 0.5625 else 1.0625
  }

  /** The last GPU reported under an index counts for it. */
  function FreeOf(gpus: seq<Gpu>, index: int): int {
    if gpus == [] then 0
    else
      var g := gpus[|gpus| - 1];
      if g.index == index then g.total - g.used else FreeOf(gpus[..|gpus| - 1], index)
  }

  function FreeMiB(gpus: seq<Gpu>, wanted: seq<int>): int {
    if wanted == [] then 0
    else FreeMiB(gpus, wanted[..|wanted| - 1]) + FreeOf(gpus, wanted[|wanted| - 1])
  }

  /** The report that counts for an index is the last one; without any it has nothing free. */
  lemma {:induction false} FreeOfIs(gpus: seq<Gpu>, index: int)
    ensures (forall i :: 0 <= i < |gpus| ==> gpus[i].index != index) ==> FreeOf(gpus, index) == 0
    ensures forall i |
      0 <= i < |gpus| && gpus[i].index == index && forall j :: i < j < |gpus| ==> gpus[j].index != index ::
      FreeOf(gpus, index) == gpus[i].total - gpus[i].used
  {
    if gpus != [] && gpus[|gpus| - 1].index != index {
      FreeOfIs(gpus[..|gpus| - 1], index);
    }
  }

  /** Every wanted index counts, as often as it is named. */
  lemma {:induction false} FreeAdds(gpus: seq<Gpu>, a: seq<int>, b: seq<int>)
    ensures FreeMiB(gpus, a + b) == FreeMiB(gpus, a) + FreeMiB(gpus, b)
    ensures |b| == 1 ==> FreeMiB(gpus, b) == FreeOf(gpus, b[0])
  {
    hide FreeOf;
    if b == [] {
      assert a + b == a;
    } else {
      FreeAdds(gpus, a, b[..|b| - 1]);
      assert (a + b)[..|a + b| - 1] == a + b[..|b| - 1];
    }
  }

  method SumFree(gpus: seq<Gpu>, wanted: seq<int>) returns (free: int)
    ensures free == FreeMiB(gpus, wanted)
  {
    var byIdx: map<int, Gpu> := map[];
    for i := 0 to |gpus|
      invariant forall x :: (if x in byIdx then byIdx[x].total - byIdx[x].used else 0) == FreeOf(gpus[..i], x)
    {
      assert gpus[..i + 1][..i] == gpus[..i];
      byIdx := byIdx[gpus[i].index := gpus[i]];
    }
    assert gpus[..|gpus|] == gpus;
    free := 0;
    for i := 0 to |wanted|
      invariant free == FreeMiB(gpus, wanted[..i])
    {
      assert wanted[..i + 1][..i] == wanted[..i];
      if wanted[i] in byIdx {
        var g := byIdx[wanted[i]];
        free := free + (g.total - g.used);
      }
    }
    assert wanted[..|wanted|] == wanted;
  }

  /** KV memory per token in MiB: from the dimensions the GGUF header gave, if it could be read
      and gave any, else a rule of thumb on size. */
  function PerToken(bytes: nat, kv: string, dims: Result<Params>): real {
    var b := if dims.Ok? then KVBytesPerToken(dims.value, ElementBytes(kv)) else 0.0;
    if b > 0.0 then b / MIB
    else (if ElementBytes(kv) >= 2.0 then 0.010 else 0.005) * (bytes as real / MIB / 1024.0)
  }

  /** Nothing is known about the cache only for an empty file without dimensions: every other model
      gets a guess. */
  lemma PerTokenPositive(bytes: nat, kv: string, dims: Result<Params>)
    ensures PerToken(bytes, kv, dims) >= 0.0
    ensures PerToken(bytes, kv, dims) == 0.0 <==>
      (bytes == 0 && (dims.Ok? ==> dims.value.layers == 0 || dims.value.kvHeads == 0 || dims.value.headDim == 0))
  {
    hide KVBytesPerToken;
    if dims.Ok? {
      KVBytesPositive(dims.value, ElementBytes(kv));
      if KVBytesPerToken(dims.value, ElementBytes(kv)) > 0.0 {
        QuotientPositive(KVBytesPerToken(dims.value, ElementBytes(kv)));
      }
    }
    if bytes > 0 {
      QuotientPositive(bytes as real);
    }
  }

  /** The context a model was trained for; only known along with its dimensions. */
  function Trained(kv: string, dims: Result<Params>): nat {
    if dims.Ok? && KVBytesPerToken(dims.value, ElementBytes(kv)) > 0.0 then dims.value.trainCtx else 0
  }

  /** Memory left for the cache, in MiB. */
  function Available(gpus: seq<Gpu>, wanted: seq<int>, bytes: nat): real {
    FreeMiB(gpus, wanted) as real - bytes as real / MIB - 700.0
  }

  /** ctx tokens of cache fit 0.9 of what is available. */
  predicate Fits(ctx: int, per: real, avail: real) {
    ctx as real * per <= avail * 0.9
  }

  ghost predicate LargestStep(ctx: int, per: real, avail: real) {
    ctx >= 0 && ctx % STEP == 0 && Fits(ctx, per, avail) &&
    forall c: int :: c % STEP == 0 && Fits(c, per, avail) ==> c <= ctx
  }

  // ---- the same in bytes, without fractions ----------------------------------------------

  /** Sixteenths of a byte per cache element. */
  function Sixteenths(kv: string): int {
    if kv == "" || kv == "f16" then 32 else if kv == "q4_0" then 9 else 17
  }

  predicate Known(dims: Result<Params>) {
    dims.Ok? && dims.value.layers > 0 && dims.value.kvHeads > 0 && dims.value.headDim > 0
  }

  function AvailableBytes(gpus: seq<Gpu>, wanted: seq<int>, bytes: nat): int {
    (FreeMiB(gpus, wanted) - 700) * 1048576 - bytes
  }

  /** A cache of ctx tokens takes at most nine tenths of the bytes left: two tensors of layers,
      kv-heads and head dimension; with dimensions unknown, 1024 tokens are taken to need a
      hundredth (f16) or a 200th of the file's size. */
  predicate CacheFits(ctx: int, gpus: seq<Gpu>, wanted: seq<int>, bytes: nat, kv: string, dims: Result<Params>) {
    var avail := AvailableBytes(gpus, wanted, bytes);
    if Known(dims) then
      var p := dims.value;
      ctx * (2 * p.layers * p.kvHeads * p.headDim * Sixteenths(kv)) * 10 <= avail * 144
    else
      ctx * ((if Sixteenths(kv) == 32 then 2 else 1) * bytes) * 10 <= avail * 9 * 204800
  }

  lemma RealProduct(a: int, b: int)
    ensures (a * b) as real == a as real * b as real
  {
  }

  lemma TimesMIB(x: real)
    ensures x / MIB * MIB == x
  {
  }

  /** Scaling both sides of a comparison by a positive number. */
  lemma Scaled(a: real, b: real, k: real)
    requires k > 0.0
    ensures a <= b <==> a * k <= b * k
  {
    if a > b {
      StrictlyMore(a, b, k);
    } else {
      ScaleMonotone(a, b, k);
    }
  }

  lemma AvailableIs(gpus: seq<Gpu>, wanted: seq<int>, bytes: nat)
    ensures Available(gpus, wanted, bytes) * MIB == AvailableBytes(gpus, wanted, bytes) as real
  {
    hide FreeMiB;
    var free := FreeMiB(gpus, wanted);
    TimesMIB(bytes as real);
    RealProduct(free - 700, 1048576);
  }

  lemma ElementsAre(kv: string)
    ensures ElementBytes(kv) * 16.0 == Sixteenths(kv) as real
    ensures ElementBytes(kv) >= 2.0 <==> Sixteenths(kv) == 32
  {
  }

  lemma KVBytesAre(p: Params, kv: string)
    requires p.layers > 0 && p.kvHeads > 0 && p.headDim > 0
    ensures KVBytesPerToken(p, ElementBytes(kv)) * 16.0 == (2 * p.layers * p.kvHeads * p.headDim * Sixteenths(kv)) as real
  {
    var l, k, h := p.layers, p.kvHeads, p.headDim;
    ElementsAre(kv);
    RealProduct(2, l);
    RealProduct(2 * l, k);
    RealProduct(2 * l * k, h);
    RealProduct(2 * l * k * h, Sixteenths(kv));
    Regroup(2.0 * l as real * k as real * h as real, ElementBytes(kv), 16.0);
  }

  lemma Regroup(a: real, b: real, c: real)
    ensures a * b * c == a * (b * c)
  {
  }

  lemma PerTokenKnown(bytes: nat, kv: string, dims: Result<Params>)
    requires Known(dims)
    ensures PerToken(bytes, kv, dims) * MIB == KVBytesPerToken(dims.value, ElementBytes(kv))
    ensures PerToken(bytes, kv, dims) > 0.0
  {
    hide KVBytesPerToken;
    KVBytesPositive(dims.value, ElementBytes(kv));
    TimesMIB(KVBytesPerToken(dims.value, ElementBytes(kv)));
    QuotientPositive(KVBytesPerToken(dims.value, ElementBytes(kv)));
  }

  lemma FitsKnown(ctx: int, gpus: seq<Gpu>, wanted: seq<int>, bytes: nat, kv: string, dims: Result<Params>)
    requires Known(dims)
    ensures Fits(ctx, PerToken(bytes, kv, dims), Available(gpus, wanted, bytes))
       <==> CacheFits(ctx, gpus, wanted, bytes, kv, dims)
  {
    hide KVBytesPerToken, PerToken, Available, AvailableBytes, ElementBytes, Sixteenths;
    var per, avail := PerToken(bytes, kv, dims), Available(gpus, wanted, bytes);
    var p := dims.value;
    var n := 2 * p.layers * p.kvHeads * p.headDim * Sixteenths(kv);
    PerTokenKnown(bytes, kv, dims);
    KVBytesAre(p, kv);
    AvailableIs(gpus, wanted, bytes);
    Scaled(ctx as real * per, avail * 0.9, MIB * 160.0);
    RealProduct(ctx, n);
    KnownSides(ctx as real, per, avail, n as real, AvailableBytes(gpus, wanted, bytes) as real);
  }

  lemma KnownSides(c: real, per: real, avail: real, n: real, left: real)
    requires per * MIB * 16.0 == n && avail * MIB == left
    ensures (c * per) * (MIB * 160.0) == c * n * 10.0
    ensures (avail * 0.9) * (MIB * 160.0) == left * 144.0
  {
    Regroup(c, per * MIB * 16.0, 10.0);
    assert (c * per) * (MIB * 160.0) == c * (per * MIB * 16.0) * 10.0;
  }

  lemma PerTokenUnknown(bytes: nat, kv: string, dims: Result<Params>)
    requires !Known(dims)
    ensures PerToken(bytes, kv, dims) * (MIB * 204800.0) == ((if Sixteenths(kv) == 32 then 2 else 1) * bytes) as real
  {
    hide KVBytesPerToken;
    if dims.Ok? {
      KVBytesPositive(dims.value, ElementBytes(kv));
    }
    ElementsAre(kv);
    TimesMIB(bytes as real);
    var q := bytes as real / MIB;
    assert q * MIB == bytes as real;
    assert q / 1024.0 * 204800.0 == q * 200.0;
  }

  lemma FitsUnknown(ctx: int, gpus: seq<Gpu>, wanted: seq<int>, bytes: nat, kv: string, dims: Result<Params>)
    requires !Known(dims)
    ensures Fits(ctx, PerToken(bytes, kv, dims), Available(gpus, wanted, bytes))
       <==> CacheFits(ctx, gpus, wanted, bytes, kv, dims)
  {
    hide KVBytesPerToken, PerToken, Available, AvailableBytes, ElementBytes, Sixteenths;
    var per, avail := PerToken(bytes, kv, dims), Available(gpus, wanted, bytes);
    var n := (if Sixteenths(kv) == 32 then 2 else 1) * bytes;
    PerTokenUnknown(bytes, kv, dims);
    AvailableIs(gpus, wanted, bytes);
    Scaled(ctx as real * per, avail * 0.9, MIB * 204800.0 * 10.0);
    RealProduct(ctx, n);
    UnknownSides(ctx as real, per, avail, n as real, AvailableBytes(gpus, wanted, bytes) as real);
  }

  lemma UnknownSides(c: real, per: real, avail: real, n: real, left: real)
    requires per * (MIB * 204800.0) == n && avail * MIB == left
    ensures (c * per) * (MIB * 204800.0 * 10.0) == c * n * 10.0
    ensures (avail * 0.9) * (MIB * 204800.0 * 10.0) == left * 9.0 * 204800.0
  {
    Regroup(c, per, MIB * 204800.0 * 10.0);
    assert per * (MIB * 204800.0 * 10.0) == n * 10.0;
    Regroup(c, n, 10.0);
  }

  lemma FitsIffCacheFits(ctx: int, gpus: seq<Gpu>, wanted: seq<int>, bytes: nat, kv: string, dims: Result<Params>)
    ensures Fits(ctx, PerToken(bytes, kv, dims), Available(gpus, wanted, bytes))
       <==> CacheFits(ctx, gpus, wanted, bytes, kv, dims)
  {
    hide Fits, CacheFits, PerToken, Available;
    if Known(dims) {
      FitsKnown(ctx, gpus, wanted, bytes, kv, dims);
    } else {
      FitsUnknown(ctx, gpus, wanted, bytes, kv, dims);
    }
  }

  lemma Positives(gpus: seq<Gpu>, wanted: seq<int>, bytes: nat, kv: string, dims: Result<Params>)
    ensures Available(gpus, wanted, bytes) > 0.0 <==> AvailableBytes(gpus, wanted, bytes) > 0
    ensures PerToken(bytes, kv, dims) > 0.0 <==> Known(dims) || bytes > 0
    ensures Trained(kv, dims) == if Known(dims) then dims.value.trainCtx else 0
  {
    hide PerToken, Available, AvailableBytes, KVBytesPerToken;
    AvailableIs(gpus, wanted, bytes);
    Scaled(Available(gpus, wanted, bytes), 0.0, MIB);
    PerTokenPositive(bytes, kv, dims);
    if dims.Ok? {
      KVBytesPositive(dims.value, ElementBytes(kv));
    }
  }

  /** The uncapped guess is the largest multiple of 4096 whose cache fits, and 0 when nothing is
      left or nothing is known; the answer is that, or the trained context if that is known and
      smaller; and it fits too. */
  method GuessContext(gpus: seq<Gpu>, wanted: seq<int>, bytes: nat, kv: string, dims: Result<Params>)
    returns (maxCtx: int, ghost uncapped: int)
    ensures var some := AvailableBytes(gpus, wanted, bytes) > 0 && (Known(dims) || bytes > 0);
      (!some ==> uncapped == 0) &&
      (some ==>
        (uncapped >= 0 && uncapped % 4096 == 0 && CacheFits(uncapped, gpus, wanted, bytes, kv, dims) &&
         forall c: int :: c % 4096 == 0 && CacheFits(c, gpus, wanted, bytes, kv, dims) ==> c <= uncapped))
    ensures var trained := if Known(dims) then dims.value.trainCtx else 0;
      maxCtx == (if 0 < trained < uncapped then trained else uncapped)
    ensures maxCtx > 0 ==> CacheFits(maxCtx, gpus, wanted, bytes, kv, dims)
  {
    hide FreeMiB, KVBytesPerToken, Fits, LargestStep, CacheFits, AvailableBytes;
    var free := SumFree(gpus, wanted);
    var avail := free as real - bytes as real / MIB - 700.0;
    var per := 0.0;
    var trainCtx := 0;
    if dims.Ok? {
      var b := KVBytesPerToken(dims.value, ElementBytes(kv));
      if b > 0.0 {
        per := b / MIB;
        trainCtx := dims.value.trainCtx;
        QuotientPositive(b);
      }
    }
    if per == 0.0 {
      var perGB := 0.005;
      if ElementBytes(kv) >= 2.0 {
        perGB := 0.010;
      }
      per := perGB * (bytes as real / MIB / 1024.0);
    }
    maxCtx := 0;
    if per > 0.0 && avail > 0.0 {
      maxCtx := (avail * 0.9 / per).Floor;
      RoundedDown(maxCtx, per, avail);
      maxCtx := maxCtx / STEP * STEP;
    }
    uncapped := maxCtx;
    if trainCtx > 0 && maxCtx > trainCtx {
      maxCtx := trainCtx;
      SmallerFits(maxCtx, uncapped, per, avail);
    }
    LargestFits(uncapped, per, avail);
    GuessIsLargest(maxCtx, uncapped, gpus, wanted, bytes, kv, dims);
  }

  /** From MiB and real numbers to bytes. */
  lemma GuessIsLargest(maxCtx: int, uncapped: int, gpus: seq<Gpu>, wanted: seq<int>, bytes: nat, kv: string, dims: Result<Params>)
    requires var per, avail, trained := PerToken(bytes, kv, dims), Available(gpus, wanted, bytes), Trained(kv, dims);
      (per > 0.0 && avail > 0.0 ==> LargestStep(uncapped, per, avail)) &&
      (per <= 0.0 || avail <= 0.0 ==> uncapped == 0) &&
      maxCtx == (if 0 < trained < uncapped then trained else uncapped) &&
      (maxCtx > 0 ==> Fits(maxCtx, per, avail))
    ensures var some := AvailableBytes(gpus, wanted, bytes) > 0 && (Known(dims) || bytes > 0);
      (!some ==> uncapped == 0) &&
      (some ==>
        (uncapped >= 0 && uncapped % 4096 == 0 && CacheFits(uncapped, gpus, wanted, bytes, kv, dims) &&
         forall c: int :: c % 4096 == 0 && CacheFits(c, gpus, wanted, bytes, kv, dims) ==> c <= uncapped))
    ensures var trained := if Known(dims) then dims.value.trainCtx else 0;
      maxCtx == (if 0 < trained < uncapped then trained else uncapped)
    ensures maxCtx > 0 ==> CacheFits(maxCtx, gpus, wanted, bytes, kv, dims)
  {
    hide Fits, LargestStep, CacheFits, PerToken, Available, AvailableBytes, Trained;
    Positives(gpus, wanted, bytes, kv, dims);
    var per, avail := PerToken(bytes, kv, dims), Available(gpus, wanted, bytes);
    forall c: int ensures Fits(c, per, avail) <==> CacheFits(c, gpus, wanted, bytes, kv, dims) {
      FitsIffCacheFits(c, gpus, wanted, bytes, kv, dims);
    }
    LargestIs(uncapped, per, avail);
  }

  lemma LargestIs(ctx: int, per: real, avail: real)
    ensures LargestStep(ctx, per, avail) <==>
      ctx >= 0 && ctx % 4096 == 0 && Fits(ctx, per, avail) && forall c: int :: c % 4096 == 0 && Fits(c, per, avail) ==> c <= ctx
  {
    hide Fits;
  }

  lemma QuotientPositive(b: real)
    requires b > 0.0
    ensures b / MIB > 0.0
  {
  }

  lemma LargestFits(ctx: int, per: real, avail: real)
    ensures LargestStep(ctx, per, avail) ==> Fits(ctx, per, avail)
  {
  }

  lemma SmallerFits(c: int, ctx: int, per: real, avail: real)
    requires 0 <= c <= ctx && per > 0.0 && LargestStep(ctx, per, avail)
    ensures Fits(c, per, avail)
  {
    ScaleMonotone(c as real, ctx as real, per);
  }

  lemma ScaleMonotone(a: real, b: real, per: real)
    requires a <= b && per > 0.0
    ensures a * per <= b * per
  {
  }

  /** Flooring the quotient and rounding down to the step gives the largest step that fits. */
  lemma RoundedDown(n: int, per: real, avail: real)
    requires per > 0.0 && avail > 0.0 && n == (avail * 0.9 / per).Floor
    ensures LargestStep(n / STEP * STEP, per, avail)
  {
    var q := avail * 0.9 / per;
    var ctx := n / STEP * STEP;
    QuotientTimes(avail * 0.9, per);
    assert q >= 0.0 by { QuotientAtLeast(0.0, avail * 0.9, per); }
    assert 0 <= n && n as real <= q < (n + 1) as real;
    assert 0 <= ctx <= n < ctx + STEP;
    ScaleMonotone(ctx as real, q, per);
    forall c: int | c % STEP == 0 && Fits(c, per, avail) ensures c <= ctx {
      QuotientAtLeast(c as real, avail * 0.9, per);
      assert c as real <= q;
      assert c <= n;
      StepBelow(c, n);
    }
  }

  lemma QuotientTimes(a: real, per: real)
    requires per > 0.0
    ensures a / per * per == a
  {
  }

  lemma QuotientAtLeast(c: real, a: real, per: real)
    requires per > 0.0 && c * per <= a
    ensures c <= a / per
  {
    QuotientTimes(a, per);
    if c > a / per {
      StrictlyMore(c, a / per, per);
    }
  }

  lemma StrictlyMore(a: real, b: real, per: real)
    requires a > b && per > 0.0
    ensures a * per > b * per
  {
  }

  lemma StepBelow(c: int, n: int)
    requires c % STEP == 0 && c <= n
    ensures c <= n / STEP * STEP
  {
    assert c == c / STEP * STEP;
  }
}
