/**
 * The geometry-shader on-chip heuristic of the graphics context: from the
 * output sizes of the export stage (ES) and the geometry stage (GS) it sizes
 * the two local-data-share rings of one GS subgroup (ES-GS and GS-VS),
 * repartitions them when they exceed the per-subgroup budget, and decides
 * whether the geometry stage may keep its rings on chip.
 *
 * All arithmetic of the source is on `uint32_t`; every product, sum and
 * difference is wrapped explicitly with `U32`.
 */
module GsOnChip {
  import opened Common

  /** The GS input primitive as the geometry stage declares it; `InputOther` is any value the switch does not list. */
  datatype InputPrimitive =
    | InputPoints
    | InputLines
    | InputLinesAdjacency
    | InputTriangles
    | InputTrianglesAdjacency
    | InputOther

  /** Vertices of one input primitive and whether the primitive carries adjacency. */
  datatype PrimShape = PrimShape(vertsPerPrim: nat, useAdjacency: bool)

  /**
   * What resource usage says about the stages involved: output location
   * counts of the vertex, tessellation-evaluation and geometry stages, and the
   * geometry stage's declared output vertices, invocations and input primitive.
   */
  datatype GsUsage = GsUsage(
    vsOutputLocs: nat,
    tesOutputLocs: nat,
    gsOutputLocs: nat,
    outputVertices: nat,
    invocations: nat,
    inputPrimitive: InputPrimitive)

  /**
   * The GPU properties the heuristic reads: default primitives and LDS dwords
   * per subgroup, the LDS allocation granularity, and the hardware cap on
   * primitives times instances per subgroup.
   */
  datatype GsLdsLimits = GsLdsLimits(
    defaultPrimsPerSubgroup: nat,
    maxLdsSize: nat,
    ldsGranularity: nat,
    maxPrimsPerSubgroup: nat)

  /**
   * Everything the heuristic computes. `esVertsBeforeReuse` is the ES vertex
   * count before the adjustment for non-reused vertices; `esVertsPerSubgroup`
   * is the count after it.
   */
  datatype GsSizing = GsSizing(
    esGsItemSize: nat,
    gsVsItemSize: nat,
    esMinVerts: nat,
    targetPrims: nat,
    repartitioned: bool,
    esGsLdsSize: nat,
    gsVsLdsSize: nat,
    ldsSize: nat,
    primsPerSubgroup: nat,
    esVertsBeforeReuse: nat,
    esVertsPerSubgroup: nat,
    onChip: bool)

  /** Below this many GS primitives times instances per subgroup the rings stay off chip. */
  const GsOffChipDefaultThreshold: nat := 64

  /** The value of a `uint32_t` expression whose mathematical value is `x`. */
  function U32(x: int): (r: nat)
    ensures r < Two32
    ensures 0 <= x < Two32 ==> r == x
  {
    x % Two32
  }

  predicate IsPow2(a: nat)
  {
    a == 1 || (a > 1 && a % 2 == 0 && IsPow2(a / 2))
  }

  lemma MulAtLeast(d: int, m: int)
    requires 1 <= d && 0 < m
    ensures m <= d * m
  {
    assert d * m == (d - 1) * m + m;
    assert 0 <= (d - 1) * m;
  }

  /** Quotient and remainder are the only ones: `q * m + r` with `0 <= r < m` divides back to `q` and `r`. */
  lemma DivModUnique(x: int, m: int, q: int, r: int)
    requires 0 < m && 0 <= r < m && x == q * m + r
    ensures x / m == q && x % m == r
  {
    var q', r' := x / m, x % m;
    assert x == q' * m + r';
    assert (q - q') * m == r' - r;
    if q > q' {
      MulAtLeast(q - q', m);
    } else if q < q' {
      MulAtLeast(q' - q, m);
    }
  }

  /** Rounding `x` down to a multiple of `m` lands within `m` below `x`, on a multiple of `m`. */
  lemma DivMul(x: nat, m: nat)
    requires 0 < m
    ensures 0 <= (x / m) * m <= x < (x / m) * m + m
    ensures ((x / m) * m) % m == 0
    ensures (x / m) * m <= x < (x / m + 1) * m
  {
    DivModUnique((x / m) * m, m, x / m, 0);
    assert (x / m + 1) * m == (x / m) * m + m;
  }

  /** Smallest multiple of `m` at or above `x`, computed in `uint32_t` as `((x + m - 1) / m) * m`. */
  function RoundUpToMultiple(x: nat, m: nat): (r: nat)
    requires 0 < m
    ensures r % m == 0 && r < Two32
    ensures x + m - 1 < Two32 ==> x <= r < x + m
  {
    var y := U32(x + m - 1);
    DivMul(y, m);
    assert x + m - 1 < Two32 ==> y == x + m - 1;
    y / m * m
  }

  /** Largest multiple of `m` at or below `x`. */
  function RoundDownToMultiple(x: nat, m: nat): (r: nat)
    requires 0 < m
    ensures r % m == 0
    ensures r <= x < r + m
  {
    DivMul(x, m);
    x / m * m
  }

  /**
   * `Pow2Align(x, a)` masks `x + a - 1` with `~(a - 1)`; for a power-of-two
   * alignment the mask clears exactly the remainder modulo `a`, so it rounds
   * up to a multiple of `a`.
   */
  function Pow2Align(x: nat, a: nat): (r: nat)
    requires IsPow2(a)
    ensures r % a == 0 && r < Two32
    ensures x + a - 1 < Two32 ==> x <= r < x + a
  {
    RoundUpToMultiple(x, a)
  }

  /** The vertex count and adjacency of each input primitive the switch lists. */
  function Shape(p: InputPrimitive): Option<PrimShape>
  {
    match p
    case InputPoints => Some(PrimShape(1, false))
    case InputLines => Some(PrimShape(2, false))
    case InputLinesAdjacency => Some(PrimShape(4, true))
    case InputTriangles => Some(PrimShape(3, false))
    case InputTrianglesAdjacency => Some(PrimShape(6, true))
    case InputOther => None
  }

  /** ES vertices needed per GS primitive: half the primitive's vertices are shared under adjacency. */
  function EsMinVerts(s: PrimShape): nat
  {
    if s.useAdjacency then s.vertsPerPrim / 2 else s.vertsPerPrim
  }

  lemma EsMinVertsOfShapes(p: InputPrimitive)
    requires Shape(p).Some?
    ensures var s := Shape(p).value;
      (s.vertsPerPrim, EsMinVerts(s)) ==
        match p
        case InputPoints => (1, 1)
        case InputLines => (2, 2)
        case InputLinesAdjacency => (4, 2)
        case InputTriangles => (3, 3)
        case InputTrianglesAdjacency => (6, 3)
        case InputOther => (0, 0)
    ensures var s := Shape(p).value;
      1 <= EsMinVerts(s) <= s.vertsPerPrim &&
      (s.useAdjacency <==> EsMinVerts(s) < s.vertsPerPrim) &&
      (s.useAdjacency ==> 2 * EsMinVerts(s) == s.vertsPerPrim)
  {
  }

  /** Output locations of the ES stage. */
  function EsOutputLocs(mask: set<ShaderStage>, u: GsUsage): nat
  {
    if ExportStage(mask) == TessEval then u.tesOutputLocs else u.vsOutputLocs
  }

  /** DWORDs one ES vertex writes to the ES-GS ring: four per output location. */
  function EsGsItemSize(mask: set<ShaderStage>, u: GsUsage): nat
  {
    U32(4 * EsOutputLocs(mask, u))
  }

  /** DWORDs one GS primitive writes to the GS-VS ring, over all its instances. */
  function GsVsItemSize(u: GsUsage): nat
  {
    U32(4 * u.gsOutputLocs * u.outputVertices * u.invocations)
  }

  /**
   * The primitives per subgroup the sizing starts from: the default, capped so
   * that primitives times instances stay within the hardware limit when the
   * primitive has adjacency or the geometry stage is instanced.
   */
  function TargetPrims(s: PrimShape, invocations: nat, lim: GsLdsLimits): (r: nat)
    requires 0 < invocations
    ensures r <= lim.defaultPrimsPerSubgroup
    ensures s.useAdjacency || invocations > 1 ==> r * invocations <= lim.maxPrimsPerSubgroup
    ensures s.useAdjacency || invocations > 1 ==>
      r == lim.defaultPrimsPerSubgroup || lim.maxPrimsPerSubgroup < (r + 1) * invocations
    ensures !(s.useAdjacency || invocations > 1) ==> r == lim.defaultPrimsPerSubgroup
  {
    if s.useAdjacency || invocations > 1 then
      var cap := lim.maxPrimsPerSubgroup / invocations;
      assert cap * invocations <= lim.maxPrimsPerSubgroup;
      if lim.defaultPrimsPerSubgroup <= cap then lim.defaultPrimsPerSubgroup else cap
    else
      lim.defaultPrimsPerSubgroup
  }

  /** Inputs and properties are `uint32_t` values, and the granularity is a power of two. */
  predicate WellFormed(u: GsUsage, lim: GsLdsLimits)
  {
    u.vsOutputLocs < Two32 && u.tesOutputLocs < Two32 && u.gsOutputLocs < Two32 &&
    u.outputVertices < Two32 && u.invocations < Two32 &&
    lim.defaultPrimsPerSubgroup < Two32 && lim.maxLdsSize < Two32 &&
    lim.maxPrimsPerSubgroup < Two32 && IsPow2(lim.ldsGranularity)
  }

  /** LDS DWORDs of the two rings before any repartition, rounded to the granularity. */
  function InitialLdsSize(mask: set<ShaderStage>, u: GsUsage, lim: GsLdsLimits, s: PrimShape): nat
    requires WellFormed(u, lim)
    requires GsVsItemSize(u) != 0
  {
    var prims := TargetPrims(s, u.invocations, lim);
    Pow2Align(U32(U32(EsGsItemSize(mask, u) * EsMinVerts(s) * prims) + U32(GsVsItemSize(u) * prims)),
              lim.ldsGranularity)
  }

  /**
   * No division of the heuristic has a zero divisor: both item sizes are
   * non-zero (which also makes the instance count non-zero), and when the
   * rings are repartitioned so are the per-primitive ES-GS size and the sum of
   * the two item sizes.
   */
  predicate NoDivisionByZero(mask: set<ShaderStage>, u: GsUsage, lim: GsLdsLimits)
    requires WellFormed(u, lim)
  {
    EsGsItemSize(mask, u) != 0 && GsVsItemSize(u) != 0 &&
    (Shape(u.inputPrimitive).Some? ==>
       var s := Shape(u.inputPrimitive).value;
       var perPrim := U32(EsGsItemSize(mask, u) * EsMinVerts(s));
       InitialLdsSize(mask, u, lim, s) > lim.maxLdsSize ==>
         perPrim != 0 && U32(perPrim + GsVsItemSize(u)) != 0)
  }

  lemma InvocationsPositive(u: GsUsage)
    requires GsVsItemSize(u) != 0
    ensures 0 < u.invocations
  {
  }

  /**
   * Splits the budget between the rings in proportion to their item sizes:
   * the ES-GS share is rounded up to whole primitives and the GS-VS ring gets
   * what is left, in whole GS-VS items. As written the remainder is a
   * `uint32_t` difference that wraps when the rounded ES-GS share exceeds the
   * budget; the intended split leaves nothing to the GS-VS ring then.
   */
  function Repartition(v: Variant, esGsItemPerPrim: nat, gsVsItem: nat, maxLds: nat): (r: (nat, nat))
    requires 0 < esGsItemPerPrim && 0 < gsVsItem && 0 < U32(esGsItemPerPrim + gsVsItem)
    requires maxLds < Two32
    ensures r.0 % esGsItemPerPrim == 0 && r.1 % gsVsItem == 0
    ensures r.0 < Two32 && r.1 < Two32
    ensures r.0 <= maxLds ==> r.0 + r.1 <= maxLds
    ensures v == Intended && maxLds < r.0 ==> r.1 == 0
    ensures v == AsWritten && maxLds < r.0 ==> Two32 + maxLds - r.0 - gsVsItem < r.1
    ensures r.0 == EsGsShare(esGsItemPerPrim, gsVsItem, maxLds)
    ensures r.0 <= maxLds ==> maxLds - r.0 - r.1 < gsVsItem
  {
    var esGs := EsGsShare(esGsItemPerPrim, gsVsItem, maxLds);
    var rest := if v == AsWritten || esGs <= maxLds then U32(maxLds - esGs) else 0;
    var r := (esGs, RoundDownToMultiple(rest, gsVsItem));
    if maxLds < esGs then U32BelowZero(maxLds - esGs); r else r
  }

  /**
   * The budget scaled by the ES-GS part of the item sizes, in uint32
   * arithmetic, before rounding (zero for a zero divisor, which a repartition
   * never has).
   */
  function ProportionalShare(esGsItemPerPrim: nat, gsVsItem: nat, maxLds: nat): nat
  {
    var itemTotal := U32(esGsItemPerPrim + gsVsItem);
    if itemTotal == 0 then 0 else U32(esGsItemPerPrim * maxLds) / itemTotal
  }

  /**
   * The ES-GS share of the budget, in proportion to the item sizes and rounded
   * up to whole primitives: the first multiple of the per-primitive size at or
   * above the proportional share, unless that rounding wraps.
   */
  function EsGsShare(esGsItemPerPrim: nat, gsVsItem: nat, maxLds: nat): (esGs: nat)
    requires 0 < esGsItemPerPrim && 0 < U32(esGsItemPerPrim + gsVsItem)
    ensures esGs % esGsItemPerPrim == 0 && esGs < Two32
    ensures var q := ProportionalShare(esGsItemPerPrim, gsVsItem, maxLds);
      q + esGsItemPerPrim - 1 < Two32 ==> q <= esGs < q + esGsItemPerPrim
  {
    RoundUpToMultiple(ProportionalShare(esGsItemPerPrim, gsVsItem, maxLds), esGsItemPerPrim)
  }

  /** A difference in (-2^32, 0) wraps to itself plus 2^32. */
  lemma U32BelowZero(x: int)
    requires x < 0 && 0 < x + Two32
    ensures U32(x) == x + Two32
  {
  }

  /**
   * The two ring sizes and the LDS size: the sizes for the target primitive
   * count, rounded to the granularity, or the repartitioned budget when that
   * total exceeds it.
   */
  function RingSizes(v: Variant, mask: set<ShaderStage>, u: GsUsage, lim: GsLdsLimits, s: PrimShape): (r: (nat, nat, nat, bool))
    requires WellFormed(u, lim)
    requires NoDivisionByZero(mask, u, lim)
    requires Shape(u.inputPrimitive) == Some(s)
    ensures r.3 <==> InitialLdsSize(mask, u, lim, s) > lim.maxLdsSize
    ensures r.3 ==>
      var perPrim := U32(EsGsItemSize(mask, u) * EsMinVerts(s));
      0 < perPrim && 0 < GsVsItemSize(u) && SplitOfBudget(v, perPrim, GsVsItemSize(u), lim.maxLdsSize, r)
    ensures !r.3 ==>
      var prims := TargetPrims(s, u.invocations, lim);
      && r.2 == InitialLdsSize(mask, u, lim, s) <= lim.maxLdsSize
      && r.0 == U32(EsGsItemSize(mask, u) * EsMinVerts(s) * prims)
      && r.1 == U32(GsVsItemSize(u) * prims)
  {
    var total := InitialLdsSize(mask, u, lim, s);
    if total > lim.maxLdsSize then
      var perPrim := U32(EsGsItemSize(mask, u) * EsMinVerts(s));
      RepartitionDivisors(mask, u, lim, s);
      Repartitioned(v, perPrim, GsVsItemSize(u), lim.maxLdsSize)
    else
      InvocationsPositive(u);
      var prims := TargetPrims(s, u.invocations, lim);
      (U32(EsGsItemSize(mask, u) * EsMinVerts(s) * prims), U32(GsVsItemSize(u) * prims), total, false)
  }

  /** The divisors of a repartition are not zero. */
  lemma RepartitionDivisors(mask: set<ShaderStage>, u: GsUsage, lim: GsLdsLimits, s: PrimShape)
    requires WellFormed(u, lim)
    requires NoDivisionByZero(mask, u, lim)
    requires Shape(u.inputPrimitive) == Some(s)
    requires InitialLdsSize(mask, u, lim, s) > lim.maxLdsSize
    ensures U32(EsGsItemSize(mask, u) * EsMinVerts(s)) != 0
    ensures U32(U32(EsGsItemSize(mask, u) * EsMinVerts(s)) + GsVsItemSize(u)) != 0
  {
  }

  /**
   * What a repartition of the budget `maxLds` gives (ES-GS ring, GS-VS ring,
   * LDS size, repartitioned flag): the budget as the total; an ES-GS ring of
   * whole primitives, the first such at or above the proportional share when
   * rounding does not wrap; when that ring fits, a GS-VS ring of whole items
   * using all of the rest but less than one item; and, as intended, no GS-VS
   * ring when it does not fit.
   */
  predicate SplitOfBudget(v: Variant, perPrim: nat, gsVsItem: nat, maxLds: nat, r: (nat, nat, nat, bool))
    requires 0 < perPrim && 0 < gsVsItem
  {
    && r.3 && r.2 == maxLds
    && r.0 % perPrim == 0 && r.1 % gsVsItem == 0
    && (r.0 <= maxLds ==> r.0 + r.1 <= maxLds && maxLds - r.0 - r.1 < gsVsItem)
    && (v == Intended && maxLds < r.0 ==> r.1 == 0)
    && var q := ProportionalShare(perPrim, gsVsItem, maxLds);
       (q + perPrim - 1 < Two32 ==> q <= r.0 < q + perPrim)
  }

  /** The ring sizes and LDS size after a repartition: the budget is used as the total. */
  function Repartitioned(v: Variant, perPrim: nat, gsVsItem: nat, maxLds: nat): (r: (nat, nat, nat, bool))
    requires 0 < perPrim && 0 < gsVsItem && 0 < U32(perPrim + gsVsItem)
    requires maxLds < Two32
    ensures SplitOfBudget(v, perPrim, gsVsItem, maxLds, r)
  {
    var split := Repartition(v, perPrim, gsVsItem, maxLds);
    (split.0, split.1, maxLds, true)
  }

  /**
   * From the ring sizes to the subgroup counts and the decision. The ES-GS
   * ring must hold the vertices of at least one primitive; the vertex count is
   * then reduced by the vertices of one primitive beyond the first, since
   * they need not be reused. As written the decision is never set to `true`;
   * the intended decision keeps the rings on chip unless there are fewer than
   * the threshold of primitives times instances or no ES vertices left.
   */
  function Conclude(v: Variant, s: PrimShape, esGsItem: nat, gsVsItem: nat, prims: nat, invocations: nat,
                    sizes: (nat, nat, nat, bool)): (r: Checked<GsSizing>)
    requires 0 < esGsItem && 0 < gsVsItem
    ensures r.Ok? <==> EsMinVerts(s) <= sizes.0 / esGsItem
    ensures r.Ok? ==>
      r.value.esGsItemSize == esGsItem && r.value.gsVsItemSize == gsVsItem &&
      r.value.esMinVerts == EsMinVerts(s) && r.value.targetPrims == prims &&
      r.value.esGsLdsSize == sizes.0 && r.value.gsVsLdsSize == sizes.1 &&
      r.value.ldsSize == sizes.2 && r.value.repartitioned == sizes.3
    ensures r.Ok? ==> r.value.esMinVerts <= r.value.esVertsBeforeReuse
    ensures r.Ok? ==> r.value.primsPerSubgroup * gsVsItem <= sizes.1 < (r.value.primsPerSubgroup + 1) * gsVsItem
    ensures r.Ok? ==> r.value.esVertsBeforeReuse * esGsItem <= sizes.0 < (r.value.esVertsBeforeReuse + 1) * esGsItem
    ensures r.Ok? ==> r.value.esVertsPerSubgroup == U32(r.value.esVertsBeforeReuse - (s.vertsPerPrim - 1))
    ensures r.Ok? && v == AsWritten ==> !r.value.onChip
    ensures r.Ok? && v == Intended ==>
      (r.value.onChip <==>
         GsOffChipDefaultThreshold <= U32(r.value.primsPerSubgroup * invocations) && r.value.esVertsPerSubgroup != 0)
  {
    var primsOut := sizes.1 / gsVsItem;
    var esVerts := sizes.0 / esGsItem;
    DivMul(sizes.1, gsVsItem);
    DivMul(sizes.0, esGsItem);
    if esVerts < EsMinVerts(s) then AssertFails("ES-GS ring holds fewer vertices than one primitive needs")
    else
      var esVertsAfter := U32(esVerts - (s.vertsPerPrim - 1));
      var onChip := v == Intended &&
        !(U32(primsOut * invocations) < GsOffChipDefaultThreshold || esVertsAfter == 0);
      Ok(GsSizing(esGsItem, gsVsItem, EsMinVerts(s), prims, sizes.3, sizes.0, sizes.1, sizes.2,
                  primsOut, esVerts, esVertsAfter, onChip))
  }

  /**
   * The sizing of `CanGsOnChip`. It stops (an assertion of the source) on an
   * unlisted input primitive, when the ES-GS ring cannot hold the vertices of
   * one primitive, and on a GFX IP above 8, where the heuristic is not
   * implemented. Only the sizing itself, on GFX8 and before with a listed
   * primitive, divides, so only there must the divisors be non-zero.
   */
  function GsSizingFor(v: Variant, gfxMajor: nat, mask: set<ShaderStage>, u: GsUsage, lim: GsLdsLimits): (r: Checked<GsSizing>)
    requires WellFormed(u, lim)
    requires gfxMajor <= 8 && Shape(u.inputPrimitive).Some? ==> NoDivisionByZero(mask, u, lim)
    ensures gfxMajor > 8 || u.inputPrimitive == InputOther ==> r.AssertFails?
    ensures r.Ok? ==> Shape(u.inputPrimitive).Some?
    ensures r.Ok? ==> r.value.esMinVerts <= r.value.esVertsBeforeReuse
    ensures r.Ok? ==> r.value.primsPerSubgroup * r.value.gsVsItemSize <= r.value.gsVsLdsSize
    ensures r.Ok? ==> r.value.targetPrims <= lim.defaultPrimsPerSubgroup
    ensures r.Ok? && v == AsWritten ==> !r.value.onChip
  {
    if gfxMajor > 8 then AssertFails("GS on-chip sizing is not implemented above GFX8")
    else match Shape(u.inputPrimitive)
      case None => AssertFails("GS input primitive outside the listed kinds")
      case Some(s) =>
        InvocationsPositive(u);
        Conclude(v, s, EsGsItemSize(mask, u), GsVsItemSize(u), TargetPrims(s, u.invocations, lim), u.invocations,
                 RingSizes(v, mask, u, lim, s))
  }

  /** `CanGsOnChip`: the decision of the sizing. */
  function CanGsOnChip(v: Variant, gfxMajor: nat, mask: set<ShaderStage>, u: GsUsage, lim: GsLdsLimits): (r: Checked<bool>)
    requires WellFormed(u, lim)
    requires gfxMajor <= 8 && Shape(u.inputPrimitive).Some? ==> NoDivisionByZero(mask, u, lim)
    ensures r.Ok? <==> GsSizingFor(v, gfxMajor, mask, u, lim).Ok?
    ensures v == AsWritten ==> r != Ok(true)
  {
    match GsSizingFor(v, gfxMajor, mask, u, lim)
    case Ok(s) => Ok(s.onChip)
    case AssertFails(why) => AssertFails(why)
  }

  /**
   * What a successful sizing promises about its parts: the target primitive
   * count respects the hardware cap, a repartition fills the whole budget with
   * whole primitives of each ring, and the ES vertex count is reduced by the
   * vertices of one primitive beyond the first.
   */
  lemma GsSizingParts(v: Variant, gfxMajor: nat, mask: set<ShaderStage>, u: GsUsage, lim: GsLdsLimits)
    requires WellFormed(u, lim)
    requires gfxMajor <= 8 && Shape(u.inputPrimitive).Some? ==> NoDivisionByZero(mask, u, lim)
    ensures var r := GsSizingFor(v, gfxMajor, mask, u, lim);
      r.Ok? ==>
        var s := Shape(u.inputPrimitive).value;
        (s.useAdjacency || u.invocations > 1 ==> r.value.targetPrims * u.invocations <= lim.maxPrimsPerSubgroup) &&
        (r.value.repartitioned ==>
           r.value.esGsLdsSize % U32(r.value.esGsItemSize * r.value.esMinVerts) == 0 &&
           r.value.gsVsLdsSize % r.value.gsVsItemSize == 0 &&
           r.value.ldsSize == lim.maxLdsSize) &&
        r.value.esVertsPerSubgroup == U32(r.value.esVertsBeforeReuse - (s.vertsPerPrim - 1))
  {
    var r := GsSizingFor(v, gfxMajor, mask, u, lim);
    if r.Ok? {
      assert gfxMajor <= 8 && Shape(u.inputPrimitive).Some?;
      var s := Shape(u.inputPrimitive).value;
      InvocationsPositive(u);
      var esGsItem, gsVsItem := EsGsItemSize(mask, u), GsVsItemSize(u);
      var prims := TargetPrims(s, u.invocations, lim);
      var sizes := RingSizes(v, mask, u, lim, s);
      assert r == Conclude(v, s, esGsItem, gsVsItem, prims, u.invocations, sizes);
      assert r.value.esGsItemSize == esGsItem && r.value.esMinVerts == EsMinVerts(s);
      assert r.value.targetPrims == prims;
    }
  }

  /**
   * The ring sizes before any repartition do not wrap: the ES-GS and GS-VS
   * DWORDs for the target primitive count, plus the granularity, stay below
   * 2^32.
   */
  predicate NoWrap(mask: set<ShaderStage>, u: GsUsage, lim: GsLdsLimits)
    requires WellFormed(u, lim)
    requires NoDivisionByZero(mask, u, lim)
  {
    Shape(u.inputPrimitive).Some? &&
    var s := Shape(u.inputPrimitive).value;
    InvocationsPositive(u);
    var prims := TargetPrims(s, u.invocations, lim);
    EsGsItemSize(mask, u) * EsMinVerts(s) * prims + GsVsItemSize(u) * prims + lim.ldsGranularity < Two32
  }

  /**
   * Whenever the intended heuristic keeps the rings on chip, the two rings fit
   * in the LDS budget of a subgroup. After a repartition this holds without
   * further assumptions; without one it needs the initial sizes not to wrap.
   */
  lemma OnChipFitsBudget(gfxMajor: nat, mask: set<ShaderStage>, u: GsUsage, lim: GsLdsLimits)
    requires WellFormed(u, lim)
    requires NoDivisionByZero(mask, u, lim)
    requires NoWrap(mask, u, lim)
    ensures var r := GsSizingFor(Intended, gfxMajor, mask, u, lim);
      r.Ok? && r.value.onChip ==> r.value.esGsLdsSize + r.value.gsVsLdsSize <= lim.maxLdsSize
  {
    var r := GsSizingFor(Intended, gfxMajor, mask, u, lim);
    if r.Ok? && r.value.onChip {
      var s := Shape(u.inputPrimitive).value;
      InvocationsPositive(u);
      var esGsItem, gsVsItem := EsGsItemSize(mask, u), GsVsItemSize(u);
      var prims := TargetPrims(s, u.invocations, lim);
      var sizes := RingSizes(Intended, mask, u, lim, s);
      assert r == Conclude(Intended, s, esGsItem, gsVsItem, prims, u.invocations, sizes);
      OnChipNeedsGsVsRoom(s, esGsItem, gsVsItem, prims, u.invocations, sizes);
      if sizes.3 {
        FitsAfterRepartition(mask, u, lim, s);
      } else {
        FitsWithoutRepartition(mask, u, lim, s);
      }
    }
  }

  /** The intended decision keeps the rings on chip only if the GS-VS ring holds at least one item. */
  lemma OnChipNeedsGsVsRoom(s: PrimShape, esGsItem: nat, gsVsItem: nat, prims: nat, invocations: nat,
                            sizes: (nat, nat, nat, bool))
    requires 0 < esGsItem && 0 < gsVsItem
    ensures var r := Conclude(Intended, s, esGsItem, gsVsItem, prims, invocations, sizes);
      r.Ok? && r.value.onChip ==> gsVsItem <= sizes.1
  {
    var r := Conclude(Intended, s, esGsItem, gsVsItem, prims, invocations, sizes);
    if r.Ok? && r.value.onChip {
      MulAtLeast(r.value.primsPerSubgroup, gsVsItem);
    }
  }

  /** After an intended repartition, a GS-VS ring that holds anything leaves the ES-GS share within the budget. */
  lemma FitsAfterRepartition(mask: set<ShaderStage>, u: GsUsage, lim: GsLdsLimits, s: PrimShape)
    requires WellFormed(u, lim)
    requires NoDivisionByZero(mask, u, lim)
    requires Shape(u.inputPrimitive) == Some(s)
    ensures var sizes := RingSizes(Intended, mask, u, lim, s);
      sizes.3 && 0 < sizes.1 ==> sizes.0 + sizes.1 <= lim.maxLdsSize
  {
  }

  /** Without a repartition and without wrap-around, the two rings fit in the aligned total, which is within the budget. */
  lemma FitsWithoutRepartition(mask: set<ShaderStage>, u: GsUsage, lim: GsLdsLimits, s: PrimShape)
    requires WellFormed(u, lim)
    requires NoDivisionByZero(mask, u, lim)
    requires Shape(u.inputPrimitive) == Some(s)
    requires NoWrap(mask, u, lim)
    ensures var sizes := RingSizes(Intended, mask, u, lim, s);
      !sizes.3 ==> sizes.0 + sizes.1 <= lim.maxLdsSize
  {
    var sizes := RingSizes(Intended, mask, u, lim, s);
    if !sizes.3 {
      InvocationsPositive(u);
      var prims := TargetPrims(s, u.invocations, lim);
      var e := EsGsItemSize(mask, u) * EsMinVerts(s) * prims;
      var g := GsVsItemSize(u) * prims;
      NonNegativeSizes(EsGsItemSize(mask, u), EsMinVerts(s), GsVsItemSize(u), prims);
      AlignedTotalCovers(e, g, lim.ldsGranularity);
    }
  }

  lemma NonNegativeSizes(esGsItem: nat, esMin: nat, gsVsItem: nat, prims: nat)
    ensures 0 <= esGsItem * esMin * prims && 0 <= gsVsItem * prims
  {
    MulNonNegative(esGsItem, esMin);
    MulNonNegative(esGsItem * esMin, prims);
    MulNonNegative(gsVsItem, prims);
  }

  /** Sizes that do not wrap are covered by their aligned sum. */
  lemma AlignedTotalCovers(e: int, g: int, gran: nat)
    requires 0 <= e && 0 <= g && IsPow2(gran) && e + g + gran < Two32
    ensures e + g <= Pow2Align(U32(U32(e) + U32(g)), gran)
  {
  }


  lemma MulNonNegative(a: int, b: int)
    requires 0 <= a && 0 <= b
    ensures 0 <= a * b
  {
  }

  /** The allocation granularity of GFX6 to GFX8 (128 dwords) is a power of two. */
  lemma Granularity128IsPow2()
    ensures IsPow2(128)
  {
    assert IsPow2(1) && IsPow2(2) && IsPow2(4) && IsPow2(8) && IsPow2(16) && IsPow2(32) && IsPow2(64);
  }

  /** The GPU defaults of GFX6 to GFX8, for any hardware cap on primitives per subgroup. */
  function DefaultLimits(maxPrims: nat): (lim: GsLdsLimits)
    requires maxPrims < Two32
    ensures lim.defaultPrimsPerSubgroup == 64 && lim.maxLdsSize == 8192 && lim.ldsGranularity == 128
  {
    GsLdsLimits(64, 8192, 128, maxPrims)
  }

  /**
   * The as-written heuristic refuses on-chip mode even for a pipeline whose
   * rings fit the budget with 64 primitives per subgroup: triangles in, four
   * output locations per ES vertex, three GS output vertices of four locations.
   */
  lemma AsWrittenRefusesFittingPipeline(maxPrims: nat)
    requires maxPrims < Two32
    ensures var u := GsUsage(4, 0, 4, 3, 1, InputTriangles);
      var mask := {Vertex, Geometry, Fragment};
      var lim := DefaultLimits(maxPrims);
      WellFormed(u, lim) && NoDivisionByZero(mask, u, lim) &&
      CanGsOnChip(AsWritten, 8, mask, u, lim) == Ok(false) &&
      CanGsOnChip(Intended, 8, mask, u, lim) == Ok(true)
  {
    var s := PrimShape(3, false);
    FittingRingSizes(maxPrims);
    assert Shape(InputTriangles) == Some(s);
    FittingConclusions(s);
  }

  /** The ring sizes of the fitting example: 16 DWORDs per ES-GS vertex, 48 per GS-VS primitive, 64 primitives. */
  lemma FittingRingSizes(maxPrims: nat)
    requires maxPrims < Two32
    ensures var u := GsUsage(4, 0, 4, 3, 1, InputTriangles);
      var mask := {Vertex, Geometry, Fragment};
      var lim := DefaultLimits(maxPrims);
      var s := PrimShape(3, false);
      && WellFormed(u, lim) && NoDivisionByZero(mask, u, lim) && Shape(u.inputPrimitive) == Some(s)
      && EsGsItemSize(mask, u) == 16 && GsVsItemSize(u) == 48 && TargetPrims(s, u.invocations, lim) == 64
      && RingSizes(AsWritten, mask, u, lim, s) == (3072, 3072, 6144, false)
      && RingSizes(Intended, mask, u, lim, s) == (3072, 3072, 6144, false)
  {
    var u := GsUsage(4, 0, 4, 3, 1, InputTriangles);
    var mask := {Vertex, Geometry, Fragment};
    var lim := DefaultLimits(maxPrims);
    Granularity128IsPow2();
    var s := PrimShape(3, false);
    assert EsGsItemSize(mask, u) == 16 && GsVsItemSize(u) == 48;
    assert TargetPrims(s, 1, lim) == 64;
    assert InitialLdsSize(mask, u, lim, s) == 6144;
  }

  /** What the last step makes of the fitting example: on chip only under the intended test. */
  lemma FittingConclusions(s: PrimShape)
    requires s == PrimShape(3, false)
    ensures Conclude(AsWritten, s, 16, 48, 64, 1, (3072, 3072, 6144, false)) ==
            Ok(GsSizing(16, 48, 3, 64, false, 3072, 3072, 6144, 64, 192, 190, false))
    ensures Conclude(Intended, s, 16, 48, 64, 1, (3072, 3072, 6144, false)) ==
            Ok(GsSizing(16, 48, 3, 64, false, 3072, 3072, 6144, 64, 192, 190, true))
  {
    assert 3072 / 16 == 192 && 3072 / 48 == 64;
    assert U32(192 - 2) == 190 && U32(64 * 1) == 64;
  }

  /**
   * The repartition underflow: triangles in, ES vertices of 32 locations
   * (128 DWORDs), and one GS output vertex of one location (4 DWORDs per
   * primitive).
   * The ES-GS share rounds up to 8448 DWORDs, above the 8192-DWORD budget; as
   * written the GS-VS share wraps to almost 2^32 DWORDs and the sizing counts
   * over a billion primitives per subgroup, while the intended split leaves
   * the GS-VS ring empty and the rings off chip.
   */
  lemma RepartitionUnderflow(maxPrims: nat)
    requires maxPrims < Two32
    ensures var u := GsUsage(32, 0, 1, 1, 1, InputTriangles);
      var mask := {Vertex, Geometry};
      var lim := DefaultLimits(maxPrims);
      WellFormed(u, lim) && NoDivisionByZero(mask, u, lim) &&
      var w := GsSizingFor(AsWritten, 8, mask, u, lim);
      var i := GsSizingFor(Intended, 8, mask, u, lim);
      w.Ok? && w.value.repartitioned && w.value.esGsLdsSize == 8448 &&
      w.value.gsVsLdsSize == 4294967040 && lim.maxLdsSize < w.value.esGsLdsSize + w.value.gsVsLdsSize &&
      w.value.primsPerSubgroup == 1073741760 &&
      i.Ok? && i.value.repartitioned && i.value.gsVsLdsSize == 0 && !i.value.onChip
  {
    var u := GsUsage(32, 0, 1, 1, 1, InputTriangles);
    var mask := {Vertex, Geometry};
    var lim := DefaultLimits(maxPrims);
    var s := PrimShape(3, false);
    UnderflowRingSizes(maxPrims);
    assert Shape(InputTriangles) == Some(s);
    UnderflowConclusions(s);
  }

  /** The ring sizes of the underflow example: 384 DWORDs per ES-GS primitive, 4 per GS-VS primitive. */
  lemma UnderflowRingSizes(maxPrims: nat)
    requires maxPrims < Two32
    ensures var u := GsUsage(32, 0, 1, 1, 1, InputTriangles);
      var mask := {Vertex, Geometry};
      var lim := DefaultLimits(maxPrims);
      var s := PrimShape(3, false);
      && WellFormed(u, lim) && NoDivisionByZero(mask, u, lim) && Shape(u.inputPrimitive) == Some(s)
      && EsGsItemSize(mask, u) == 128 && GsVsItemSize(u) == 4 && TargetPrims(s, u.invocations, lim) == 64
      && RingSizes(AsWritten, mask, u, lim, s) == (8448, 4294967040, 8192, true)
      && RingSizes(Intended, mask, u, lim, s) == (8448, 0, 8192, true)
  {
    var u := GsUsage(32, 0, 1, 1, 1, InputTriangles);
    var mask := {Vertex, Geometry};
    var lim := DefaultLimits(maxPrims);
    Granularity128IsPow2();
    var s := PrimShape(3, false);
    assert EsGsItemSize(mask, u) == 128 && GsVsItemSize(u) == 4;
    assert TargetPrims(s, 1, lim) == 64;
    assert InitialLdsSize(mask, u, lim, s) == 24832;
    UnderflowRepartition();
  }

  lemma UnderflowRepartition()
    ensures Repartition(AsWritten, 384, 4, 8192) == (8448, 4294967040)
    ensures Repartition(Intended, 384, 4, 8192) == (8448, 0)
  {
    assert U32(384 * 8192) / U32(384 + 4) == 8107;
    assert RoundUpToMultiple(8107, 384) == 8448;
    assert U32(8192 - 8448) == 4294967040;
    assert RoundDownToMultiple(4294967040, 4) == 4294967040;
    assert RoundDownToMultiple(0, 4) == 0;
  }

  /** What the last step makes of the underflow example's ring sizes under each reading. */
  lemma UnderflowConclusions(s: PrimShape)
    requires s == PrimShape(3, false)
    ensures var w := Conclude(AsWritten, s, 128, 4, 64, 1, (8448, 4294967040, 8192, true));
      w.Ok? && w.value.repartitioned && w.value.esGsLdsSize == 8448 && w.value.gsVsLdsSize == 4294967040 &&
      w.value.primsPerSubgroup == 1073741760
    ensures var i := Conclude(Intended, s, 128, 4, 64, 1, (8448, 0, 8192, true));
      i.Ok? && i.value.repartitioned && i.value.gsVsLdsSize == 0 && !i.value.onChip
  {
    assert 8448 / 128 == 66 && 4294967040 / 4 == 1073741760 && 0 / 4 == 0;
    assert U32(0 * 1) == 0;
  }
}
