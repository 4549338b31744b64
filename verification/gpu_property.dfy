/**
 * The GPU properties the compiler derives from the graphics IP version when
 * it is created: wave size, LDS sizes, shader-engine count, user-data limit
 * and, up to GFX8, the defaults of the geometry-shader on-chip heuristic.
 */
module GpuProperty {
  import opened Common
  import opened GsOnChip

  /** A graphics IP version. */
  datatype GfxIp = GfxIp(major: nat, minor: nat, stepping: nat)

  /** The on-chip geometry defaults: primitives per subgroup, LDS DWORDs per subgroup, LDS granularity. */
  datatype GsOnChipDefaults = GsOnChipDefaults(primsPerSubgroup: nat, ldsSizePerSubgroup: nat, ldsGranularity: nat)

  /**
   * The derived properties. The on-chip defaults are set only up to GFX8;
   * later generations leave them to other code, which is not part of this
   * model.
   */
  datatype Properties = Properties(
    waveSize: nat,
    ldsSizePerCu: nat,
    ldsSizePerThreadGroup: nat,
    numShaderEngines: nat,
    gsPrimBufferDepth: nat,
    maxUserDataCount: nat,
    gsOnChip: Option<GsOnChipDefaults>)

  /**
   * The shader-engine count by generation and stepping. GFX6 has two engines
   * on its first stepping and one otherwise; GFX7 has two, four or one; GFX8
   * has one on minor version 1 or the first two steppings and four otherwise;
   * GFX9 keeps the initial four.
   */
  function ShaderEngines(ip: GfxIp): (n: nat)
    ensures n == 1 || n == 2 || n == 4
    ensures ip.major == 9 ==> n == 4
    ensures ip.major == 6 ==> (n == 2 <==> ip.stepping == 0)
    ensures ip.major == 8 ==> (n == 1 <==> ip.minor == 1 || ip.stepping <= 1)
  {
    if ip.major == 6 then (if ip.stepping == 0 then 2 else 1)
    else if ip.major == 7 then (if ip.stepping == 0 then 2 else if ip.stepping == 1 then 4 else 1)
    else if ip.major == 8 then (if ip.minor == 1 || ip.stepping <= 1 then 1 else 4)
    else 4
  }

  /**
   * `InitGpuProperty`: GFX6 to GFX8 are supported, GFX9 only in a build with
   * GFX9 support; any other generation stops on "not implemented".
   */
  function InitGpuProperty(ip: GfxIp, gfx9Build: bool): (r: Checked<Properties>)
    ensures r.Ok? <==> 6 <= ip.major <= 8 || (ip.major == 9 && gfx9Build)
    ensures r.Ok? ==> r.value.waveSize == 64 && r.value.ldsSizePerThreadGroup == 32 * 1024 &&
                      r.value.gsPrimBufferDepth == 0x100
    ensures r.Ok? ==> (r.value.ldsSizePerCu == 65536 <==> ip.major > 6) &&
                      (r.value.ldsSizePerCu == 32768 <==> ip.major == 6)
    ensures r.Ok? ==> (r.value.maxUserDataCount == 32 <==> ip.major == 9) &&
                      (r.value.maxUserDataCount == 16 <==> ip.major < 9)
    ensures r.Ok? ==> (r.value.gsOnChip.Some? <==> ip.major <= 8)
    ensures r.Ok? ==> r.value.numShaderEngines == ShaderEngines(ip)
  {
    if !(6 <= ip.major <= 8 || (ip.major == 9 && gfx9Build)) then AssertFails("graphics IP not implemented")
    else
      Ok(Properties(
        64,
        if ip.major > 6 then 65536 else 32768,
        32 * 1024,
        ShaderEngines(ip),
        0x100,
        if ip.major >= 9 then 32 else 16,
        if ip.major <= 8 then Some(GsOnChipDefaults(64, 8192, 128)) else None))
  }

  /**
   * The limits the on-chip heuristic works with on a supported generation up
   * to GFX8, given the hardware cap on primitives per subgroup.
   */
  function GsLimitsOf(d: GsOnChipDefaults, maxPrims: nat): (lim: GsLdsLimits)
  {
    GsLdsLimits(d.primsPerSubgroup, d.ldsSizePerSubgroup, d.ldsGranularity, maxPrims)
  }

  /**
   * On every generation up to GFX8 the derived defaults are the ones the
   * on-chip heuristic is written against, and they are well formed for it:
   * the granularity is a power of two and every value fits in 32 bits.
   */
  lemma DefaultsFeedGsHeuristic(ip: GfxIp, gfx9Build: bool, maxPrims: nat, u: GsUsage)
    requires InitGpuProperty(ip, gfx9Build).Ok? && ip.major <= 8
    requires maxPrims < Two32
    requires u.vsOutputLocs < Two32 && u.tesOutputLocs < Two32 && u.gsOutputLocs < Two32
    requires u.outputVertices < Two32 && u.invocations < Two32
    ensures var d := InitGpuProperty(ip, gfx9Build).value.gsOnChip;
      d.Some? && GsLimitsOf(d.value, maxPrims) == DefaultLimits(maxPrims) &&
      WellFormed(u, GsLimitsOf(d.value, maxPrims))
  {
    Granularity128IsPow2();
  }
}
