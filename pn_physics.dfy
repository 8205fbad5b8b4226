/** Depletion-approximation electrostatics of an abrupt PN junction
    (pn_physics.js).

    Concentrations are in cm^-3, potentials in volts, lengths in cm and fields
    in V/cm. The solver works with fixed 300 K values of the intrinsic
    concentration and the thermal voltage whatever temperature it is given. */
module Junction {
  import opened Elementary

  /** Permittivity of silicon (F/cm). */
  const EPSILON_SI: real := 1.035e-12

  /** Elementary charge (C). */
  const Q_CHARGE: real := 1.602e-19

  /** Intrinsic carrier concentration at 300 K used by the solver. */
  const NI_300K: real := 1.5e10

  /** Thermal voltage at 300 K used by the solver (V). */
  const THERMAL_VOLTAGE: real := 0.0259

  /** A barrier at or below this height has no depletion region (V). */
  const FLAT_BAND_MARGIN: real := 0.01

  datatype Option<T> = None | Some(value: T)

  /** Built-in potential, total barrier, depletion width and its split into
      the n side (`xn`) and the p side (`xp`), and the peak field. */
  datatype JunctionResult = JunctionResult(
    Vbi: real,
    Vtotal: real,
    W: real,
    xn: real,
    xp: real,
    Emax: real)

  /** `Vbi = (kT/q)·ln(Na·Nd / ni^2)`. */
  function BuiltInPotential(m: Elementary, Na: real, Nd: real): real
  {
    THERMAL_VOLTAGE * m.log((Na * Nd) / m.pow(NI_300K, 2.0))
  }

  /** `W^2 = (2ε/q)·(1/Na + 1/Nd)·V`, the squared depletion width under a
      barrier `V`; positive for a positive barrier. */
  function WidthSquared(Na: real, Nd: real, V: real): (w2: real)
    requires Na > 0.0 && Nd > 0.0
    ensures V > 0.0 ==> w2 > 0.0
  {
    var c := 2.0 * EPSILON_SI / Q_CHARGE;
    var g := 1.0 / Na + 1.0 / Nd;
    MulPositive(c, g);
    assert V > 0.0 ==> c * g * V > 0.0 by {
      if V > 0.0 {
        MulPositive(c * g, V);
      }
    }
    c * g * V
  }

  /** Solves the junction at applied bias `Va`. There is no result once the
      barrier `Vbi - Va` has fallen to `FLAT_BAND_MARGIN`; otherwise the
      depletion width splits into an n side and a p side carrying equal and
      opposite charge, and the peak field equals both the n-side and the
      p-side expression for it. */
  function CalculatePNJunction(m: Elementary, Na: real, Nd: real, Va: real, T: real): (r: Option<JunctionResult>)
    requires Na > 0.0 && Nd > 0.0
    ensures r.None? <==> BuiltInPotential(m, Na, Nd) - Va <= FLAT_BAND_MARGIN
    ensures r.Some? ==> r.value.Vbi == BuiltInPotential(m, Na, Nd)
    ensures r.Some? ==> r.value.Vtotal == r.value.Vbi - Va > FLAT_BAND_MARGIN
    ensures r.Some? ==> r.value.xn + r.value.xp == r.value.W
    ensures r.Some? ==> r.value.xn * Nd == r.value.xp * Na
    ensures r.Some? && Na == Nd ==> r.value.xn == r.value.xp == r.value.W / 2.0
    ensures r.Some? ==> r.value.Emax == -(Q_CHARGE * Na * r.value.xp) / EPSILON_SI
  {
    var Vbi := BuiltInPotential(m, Na, Nd);
    var Vtotal := Vbi - Va;
    if Vtotal <= FLAT_BAND_MARGIN then None
    else
      var W := m.sqrt(WidthSquared(Na, Nd, Vtotal));
      var xn := W * (Na / (Na + Nd));
      var xp := W * (Nd / (Na + Nd));
      var Emax := -(Q_CHARGE * Nd * xn) / EPSILON_SI;
      DepletionSplit(W, Na, Nd);
      Some(JunctionResult(Vbi, Vtotal, W, xn, xp, Emax))
  }

  /** The split `xn = W·Na/(Na+Nd)`, `xp = W·Nd/(Na+Nd)` covers the whole
      width, balances the charge `xn·Nd = xp·Na`, and halves the width for
      equal dopings. */
  lemma DepletionSplit(W: real, Na: real, Nd: real)
    requires Na > 0.0 && Nd > 0.0
    ensures W * (Na / (Na + Nd)) + W * (Nd / (Na + Nd)) == W
    ensures W * (Na / (Na + Nd)) * Nd == W * (Nd / (Na + Nd)) * Na
    ensures Na == Nd ==> W * (Na / (Na + Nd)) == W * (Nd / (Na + Nd)) == W / 2.0
    ensures -(Q_CHARGE * Nd * (W * (Na / (Na + Nd)))) / EPSILON_SI
         == -(Q_CHARGE * Na * (W * (Nd / (Na + Nd)))) / EPSILON_SI
  {
    var s := Na + Nd;
    var fn, fp := Na / s, Nd / s;
    assert fn + fp == 1.0;
    assert W * fn + W * fp == W * (fn + fp);
    assert fn * Nd == fp * Na by {
      assert fn * Nd == (Na * Nd) / s;
      assert fp * Na == (Nd * Na) / s;
    }
    assert W * fn * Nd == W * fp * Na by {
      assert W * fn * Nd == W * (fn * Nd);
      assert W * fp * Na == W * (fp * Na);
    }
    assert Q_CHARGE * Nd * (W * fn) == Q_CHARGE * Na * (W * fp) by {
      assert Q_CHARGE * Nd * (W * fn) == Q_CHARGE * (W * fn * Nd);
      assert Q_CHARGE * Na * (W * fp) == Q_CHARGE * (W * fp * Na);
    }
  }

  /** With a positive barrier the depletion region has positive width on both
      sides, and the peak field is negative. */
  lemma DepletionWidthPositive(m: Elementary, Na: real, Nd: real, Va: real, T: real)
    requires SqrtLaw(m)
    requires Na > 0.0 && Nd > 0.0
    requires CalculatePNJunction(m, Na, Nd, Va, T).Some?
    ensures var j := CalculatePNJunction(m, Na, Nd, Va, T).value;
      j.W > 0.0 && j.xn > 0.0 && j.xp > 0.0 && j.Emax < 0.0
  {
    var j := CalculatePNJunction(m, Na, Nd, Va, T).value;
    SqrtPositive(m, WidthSquared(Na, Nd, j.Vtotal));
    SplitPositive(j.W, Na, Nd);
    PeakNegative(Na, j.xp);
  }

  /** Both shares of a positive width are positive. */
  lemma SplitPositive(W: real, Na: real, Nd: real)
    requires W > 0.0 && Na > 0.0 && Nd > 0.0
    ensures W * (Na / (Na + Nd)) > 0.0 && W * (Nd / (Na + Nd)) > 0.0
  {
    MulPositive(W, Na / (Na + Nd));
    MulPositive(W, Nd / (Na + Nd));
  }

  /** A positive charge `q·Na·xp` gives a negative peak field. */
  lemma PeakNegative(Na: real, xp: real)
    requires Na > 0.0 && xp > 0.0
    ensures -(Q_CHARGE * Na * xp) / EPSILON_SI < 0.0
  {
    MulPositive(Q_CHARGE * Na, xp);
  }

  /** The temperature argument has no effect on the result. */
  lemma IndependentOfTemperature(m: Elementary, Na: real, Nd: real, Va: real, T1: real, T2: real)
    requires Na > 0.0 && Nd > 0.0
    ensures CalculatePNJunction(m, Na, Nd, Va, T1) == CalculatePNJunction(m, Na, Nd, Va, T2)
  {
  }

  /** The built-in potential is positive exactly when `Na·Nd` exceeds `ni^2`. */
  lemma BuiltInPotentialPositive(m: Elementary, Na: real, Nd: real)
    requires LogIncreasing(m) && LogOfOne(m) && PowSquare(m)
    requires Na > 0.0 && Nd > 0.0
    ensures BuiltInPotential(m, Na, Nd) > 0.0 <==> Na * Nd > NI_300K * NI_300K
  {
    var n2 := NI_300K * NI_300K;
    assert m.pow(NI_300K, 2.0) == n2;
    MulPositive(Na, Nd);
    var ratio := (Na * Nd) / n2;
    assert ratio > 0.0;
    if Na * Nd > n2 {
      QuotientStrictMonotone(n2, Na * Nd, n2);
      assert m.log(1.0) < m.log(ratio);
    } else {
      QuotientMonotone(Na * Nd, n2, n2);
      assert ratio <= 1.0;
      if ratio < 1.0 {
        assert m.log(ratio) < m.log(1.0);
      }
    }
  }
}
