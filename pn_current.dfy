/** Ideal-diode current of a PN junction and the excess minority carriers at
    the depletion edges (pn_current.js).

    Concentrations are in cm^-3, lengths in cm, current densities in A/cm^2
    and currents in A. */
module DiodeCurrent {
  import opened Elementary

  /** Intrinsic carrier concentration used by the current model. */
  const NI_300K: real := 1e10

  /** Thermal voltage at 300 K (V). */
  const VT: real := 0.0259

  /** Elementary charge (C); pn_current.js declares its own copy. */
  const Q_CHARGE: real := 1.602e-19

  /** Electron and hole diffusion constants (cm^2/s). */
  const DIFFUSION_N: real := 25.0
  const DIFFUSION_P: real := 10.0

  /** Electron and hole diffusion lengths (cm). */
  const LENGTH_N: real := 10e-4
  const LENGTH_P: real := 10e-4

  /** Junction area (cm^2). */
  const AREA: real := 1e-4

  /** Diode current, equilibrium minority densities on the p side (`np0`) and
      the n side (`pn0`), their excess at the depletion edges, the diffusion
      lengths and the saturation current density. */
  datatype CurrentResult = CurrentResult(
    current: real,
    np0: real,
    pn0: real,
    delta_np0: real,
    delta_pn0: real,
    Ln: real,
    Lp: real,
    J0: real)

  /** `exp(Va/VT) - 1`, the factor by which a bias scales the equilibrium
      minority densities at the depletion edges. */
  function BiasFactor(m: Elementary, Va: real): (f: real)
    ensures f > -1.0
  {
    m.exp(Va / VT) - 1.0
  }

  /** `J0 = q·(Dp·pn0/Lp + Dn·np0/Ln)`, the saturation current density carried
      by the equilibrium minority densities `pn0` (n side) and `np0` (p side). */
  function SaturationCurrentDensity(pn0: real, np0: real): (J0: real)
    ensures pn0 > 0.0 && np0 > 0.0 ==> J0 > 0.0
  {
    Q_CHARGE * ((DIFFUSION_P * pn0 / LENGTH_P) + (DIFFUSION_N * np0 / LENGTH_N))
  }

  /** The ideal diode: equilibrium minority densities follow the mass-action
      law, the saturation current density is positive, the current never goes
      below the saturation current `-J0·Area`, and the current and both excess
      densities are the same bias factor applied to their zero-bias scale. */
  function CalculateCurrentPhysics(m: Elementary, Na: real, Nd: real, Va: real): (r: CurrentResult)
    requires Na > 0.0 && Nd > 0.0
    ensures r.pn0 * Nd == NI_300K * NI_300K && r.np0 * Na == NI_300K * NI_300K
    ensures r.J0 > 0.0
    ensures r.current > -(r.J0 * AREA)
    ensures r.Ln == LENGTH_N && r.Lp == LENGTH_P
  {
    var Ln, Lp := LENGTH_N, LENGTH_P;
    var pn0 := (NI_300K * NI_300K) / Nd;
    var np0 := (NI_300K * NI_300K) / Na;
    var J0 := SaturationCurrentDensity(pn0, np0);
    var current := (J0 * AREA) * BiasFactor(m, Va);
    var delta_np0 := np0 * BiasFactor(m, Va);
    var delta_pn0 := pn0 * BiasFactor(m, Va);
    ReverseSaturation(J0 * AREA, BiasFactor(m, Va));
    CurrentResult(current, np0, pn0, delta_np0, delta_pn0, Ln, Lp, J0)
  }

  /** A positive scale `s` times a factor above -1 stays above `-s`. */
  lemma ReverseSaturation(s: real, f: real)
    requires s > 0.0 && f > -1.0
    ensures s * f > -s
  {
    MulLess(s, -1.0, f);
  }

  /** The current and both excess densities are one bias factor applied to
      their zero-bias scales `J0·Area`, `np0` and `pn0`, so they stay in
      proportion at every bias. */
  lemma SharedBiasFactor(m: Elementary, Na: real, Nd: real, Va: real)
    requires Na > 0.0 && Nd > 0.0
    ensures var r := CalculateCurrentPhysics(m, Na, Nd, Va);
      && r.current * r.np0 == r.delta_np0 * (r.J0 * AREA)
      && r.current * r.pn0 == r.delta_pn0 * (r.J0 * AREA)
  {
    var r := CalculateCurrentPhysics(m, Na, Nd, Va);
    var s, f := r.J0 * AREA, BiasFactor(m, Va);
    assert r.current == s * f && r.delta_np0 == r.np0 * f && r.delta_pn0 == r.pn0 * f;
    assert (s * f) * r.np0 == (r.np0 * f) * s;
    assert (s * f) * r.pn0 == (r.pn0 * f) * s;
  }

  /** No bias, no current and no excess carriers. */
  lemma ZeroBiasZeroCurrent(m: Elementary, Na: real, Nd: real)
    requires ExpOfZero(m)
    requires Na > 0.0 && Nd > 0.0
    ensures var r := CalculateCurrentPhysics(m, Na, Nd, 0.0);
      r.current == 0.0 && r.delta_np0 == 0.0 && r.delta_pn0 == 0.0
  {
    assert BiasFactor(m, 0.0) == 0.0;
  }

  /** The current rises strictly with the applied bias. */
  lemma CurrentIncreasing(m: Elementary, Na: real, Nd: real, Va1: real, Va2: real)
    requires ExpIncreasing(m)
    requires Na > 0.0 && Nd > 0.0
    requires Va1 < Va2
    ensures CalculateCurrentPhysics(m, Na, Nd, Va1).current < CalculateCurrentPhysics(m, Na, Nd, Va2).current
  {
    var s := SaturationCurrentDensity((NI_300K * NI_300K) / Nd, (NI_300K * NI_300K) / Na) * AREA;
    assert CalculateCurrentPhysics(m, Na, Nd, Va1).current == s * BiasFactor(m, Va1);
    assert CalculateCurrentPhysics(m, Na, Nd, Va2).current == s * BiasFactor(m, Va2);
    BiasFactorIncreasing(m, Va1, Va2);
    MulLess(s, BiasFactor(m, Va1), BiasFactor(m, Va2));
  }

  /** The bias factor rises strictly with the bias. */
  lemma BiasFactorIncreasing(m: Elementary, Va1: real, Va2: real)
    requires ExpIncreasing(m)
    requires Va1 < Va2
    ensures BiasFactor(m, Va1) < BiasFactor(m, Va2)
  {
    QuotientStrictMonotone(Va1, Va2, VT);
  }

  /** Forward bias gives positive current and injects carriers; reverse bias
      gives negative current and extracts them. */
  lemma CurrentFollowsBiasSign(m: Elementary, Na: real, Nd: real, Va: real)
    requires ExpIncreasing(m) && ExpOfZero(m)
    requires Na > 0.0 && Nd > 0.0
    ensures var r := CalculateCurrentPhysics(m, Na, Nd, Va);
      && (r.current > 0.0 <==> Va > 0.0) && (r.current < 0.0 <==> Va < 0.0)
      && (r.delta_np0 > 0.0 <==> Va > 0.0) && (r.delta_np0 < 0.0 <==> Va < 0.0)
      && (r.delta_pn0 > 0.0 <==> Va > 0.0) && (r.delta_pn0 < 0.0 <==> Va < 0.0)
  {
    var r := CalculateCurrentPhysics(m, Na, Nd, Va);
    var f := BiasFactor(m, Va);
    ExpMinusOneSign(m, Va / VT);
    assert Va / VT > 0.0 <==> Va > 0.0;
    assert Va / VT < 0.0 <==> Va < 0.0;
    assert f > 0.0 <==> Va > 0.0;
    assert f < 0.0 <==> Va < 0.0;
    SignOfScaled(r.J0 * AREA, f);
    SignOfScaled(r.np0, f);
    SignOfScaled(r.pn0, f);
  }

  /** A positive scale keeps the sign of what it multiplies. */
  lemma SignOfScaled(s: real, f: real)
    requires s > 0.0
    ensures (s * f > 0.0 <==> f > 0.0) && (s * f < 0.0 <==> f < 0.0)
    ensures (f * s > 0.0 <==> f > 0.0) && (f * s < 0.0 <==> f < 0.0)
  {
    if f > 0.0 {
      MulPositive(s, f);
    } else if f < 0.0 {
      MulPositive(s, -f);
    }
  }
}
