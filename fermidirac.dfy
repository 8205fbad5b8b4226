/** Band model and Fermi-level solver for silicon (fermidirac.js).

    Energies are in eV referenced to the valence-band edge (`Ev = 0`,
    `Ec = Eg(T)`), temperatures in kelvin, concentrations in cm^-3. Every
    operation first floors the temperature at 1 K. */
module Silicon {
  import opened Elementary

  /** Boltzmann constant in eV/K. */
  const K_BOLTZMANN: real := 8.617333262e-5

  /** The fixed material parameters of silicon. */
  datatype Material = Material(
    Eg0: real,       // band gap at 0 K (eV)
    alpha: real,     // Varshni coefficient (eV/K)
    beta: real,      // Varshni coefficient (K)
    Nc300: real,     // conduction-band effective density of states at 300 K
    Nv300: real,     // valence-band effective density of states at 300 K
    Ed: real,        // donor ionisation energy (eV)
    Ea: real)        // acceptor ionisation energy (eV)

  const SILICON: Material := Material(1.166, 4.73e-4, 636.0, 2.8e19, 1.04e19, 0.045, 0.057)

  /** The occupation function widens its slope by evaluating at twice the temperature. */
  const VISUAL_TEMPERATURE_SCALE: real := 2.0

  /** Below this temperature the Fermi level is a fixed freeze-out anchor. */
  const FREEZE_OUT_TEMPERATURE: real := 45.0

  /** Distance the doped Fermi level is kept inside the band edges (eV). */
  const EDGE_MARGIN: real := 0.002

  /** `Math.max(T, 1)`: the temperature every operation works with. */
  function Temperature(T: real): (t: real)
    ensures t >= 1.0
    ensures T >= 1.0 ==> t == T
    ensures T <= 1.0 ==> t == 1.0
  {
    Max(T, 1.0)
  }

  // ---------------------------------------------------------------------------
  // Band model
  // ---------------------------------------------------------------------------

  /** Varshni's law for the band gap. The subtracted term is positive, so the
      gap always lies below its 0 K value. */
  function BandGap(T: real): (eg: real)
    ensures eg < SILICON.Eg0
  {
    var t := Temperature(T);
    assert t * t > 0.0 && t + SILICON.beta > 0.0;
    SILICON.Eg0 - (SILICON.alpha * t * t) / (t + SILICON.beta)
  }

  /** Effective density of states of the conduction band, `Nc300·(T/300)^1.5`. */
  function Nc(m: Elementary, T: real): (n: real)
    ensures n > 0.0
  {
    var t := Temperature(T);
    SILICON.Nc300 * m.pow(t / 300.0, 1.5)
  }

  /** Effective density of states of the valence band, `Nv300·(T/300)^1.5`. */
  function Nv(m: Elementary, T: real): (n: real)
    ensures n > 0.0
  {
    var t := Temperature(T);
    SILICON.Nv300 * m.pow(t / 300.0, 1.5)
  }

  /** The product `Nc·Nv` of the two densities of states. */
  function DensityOfStatesProduct(m: Elementary, T: real): (p: real)
    ensures p > 0.0
  {
    Nc(m, T) * Nv(m, T)
  }

  /** Intrinsic carrier concentration `sqrt(Nc·Nv)·exp(-Eg / 2kT)`. */
  function IntrinsicConcentration(m: Elementary, T: real): real
  {
    var t := Temperature(T);
    var eg := BandGap(t);
    m.sqrt(DensityOfStatesProduct(m, t)) * m.exp(-eg / (2.0 * K_BOLTZMANN * t))
  }

  // ---------------------------------------------------------------------------
  // Occupation function
  // ---------------------------------------------------------------------------

  /** The widened thermal energy `k·2T` the occupation function divides by. */
  function VisualThermalEnergy(T: real): (kT: real)
    ensures kT > 0.0
  {
    var t := Temperature(T);
    K_BOLTZMANN * (t * VISUAL_TEMPERATURE_SCALE)
  }

  /** The exponent `x = (E - Ef) / (k·2T)` of the occupation function: positive
      above the Fermi level, negative below it, zero on it. */
  function ReducedEnergy(E: real, Ef: real, T: real): (x: real)
    ensures x > 0.0 <==> E > Ef
    ensures x < 0.0 <==> E < Ef
  {
    (E - Ef) / VisualThermalEnergy(T)
  }

  /** Fermi-Dirac occupation probability with the exponent guarded at ±100:
      exactly 0 far above the Fermi level, exactly 1 far below it, and strictly
      between 0 and 1 everywhere else. */
  function FermiDirac(m: Elementary, E: real, Ef: real, T: real): (f: real)
    ensures 0.0 <= f <= 1.0
    ensures f == 0.0 <==> ReducedEnergy(E, Ef, T) > 100.0
    ensures f == 1.0 <==> ReducedEnergy(E, Ef, T) < -100.0
  {
    var x := ReducedEnergy(E, Ef, T);
    if x > 100.0 then 0.0
    else if x < -100.0 then 1.0
    else 1.0 / (1.0 + m.exp(x))
  }

  // ---------------------------------------------------------------------------
  // Fermi level
  // ---------------------------------------------------------------------------

  /** Majority-carrier density of a fully ionised dopant concentration `N`
      with the intrinsic correction: `N/2 + sqrt((N/2)^2 + ni^2)`. */
  function MajorityDensity(m: Elementary, N: real, ni: real): real
  {
    (N / 2.0) + m.sqrt(m.pow(N / 2.0, 2.0) + m.pow(ni, 2.0))
  }

  /** `kT·log(n/N)`: how far a carrier density `n` puts the Fermi level from
      the band edge whose density of states is `N`. */
  function ThermalLog(m: Elementary, t: real, n: real, N: real): real
    requires N != 0.0
  {
    (K_BOLTZMANN * t) * m.log(n / N)
  }

  /** The n-type level above freeze-out, before the edge clamp: `Ec + kT·log(n/Nc)`. */
  function DonorLevel(m: Elementary, t: real, Nd: real): real
  {
    BandGap(t) + ThermalLog(m, t, MajorityDensity(m, Nd, IntrinsicConcentration(m, t)), Nc(m, t))
  }

  /** The p-type level above freeze-out, before the edge clamp: `Ev - kT·log(p/Nv)`. */
  function AcceptorLevel(m: Elementary, t: real, Na: real): real
  {
    0.0 - ThermalLog(m, t, MajorityDensity(m, Na, IntrinsicConcentration(m, t)), Nv(m, t))
  }

  /** Equilibrium Fermi level. Below the freeze-out temperature it is a fixed
      anchor; above it a donor concentration is checked first, then an
      acceptor concentration, and undoped silicon sits at mid-gap. The doped
      levels are held `EDGE_MARGIN` inside the band edges. */
  function CalculateFermiLevel(m: Elementary, T: real, Nd: real, Na: real): (ef: real)
    ensures Temperature(T) >= FREEZE_OUT_TEMPERATURE && Nd > 0.0 ==> ef <= BandGap(T) - EDGE_MARGIN
    ensures Temperature(T) >= FREEZE_OUT_TEMPERATURE && Nd <= 0.0 && Na > 0.0 ==> ef >= EDGE_MARGIN
    ensures Nd <= 0.0 && Na <= 0.0 ==> ef == BandGap(T) / 2.0
  {
    var t := Temperature(T);
    var eg := BandGap(t);
    var ec, ev := eg, 0.0;
    if t < FREEZE_OUT_TEMPERATURE then
      if Nd > 0.0 then ec - (SILICON.Ed / 2.0)
      else if Na > 0.0 then ev + (SILICON.Ea / 2.0)
      else eg / 2.0
    else if Nd > 0.0 then
      Min(DonorLevel(m, t, Nd), ec - EDGE_MARGIN)
    else if Na > 0.0 then
      Max(AcceptorLevel(m, t, Na), ev + EDGE_MARGIN)
    else
      eg / 2.0
  }

  // ---------------------------------------------------------------------------
  // Properties of the band model
  // ---------------------------------------------------------------------------

  /** Every operation treats a temperature at or below 1 K as exactly 1 K. */
  lemma TemperatureFloor(m: Elementary, T: real, E: real, Ef: real, Nd: real, Na: real)
    requires T <= 1.0
    ensures BandGap(T) == BandGap(1.0)
    ensures Nc(m, T) == Nc(m, 1.0) && Nv(m, T) == Nv(m, 1.0)
    ensures IntrinsicConcentration(m, T) == IntrinsicConcentration(m, 1.0)
    ensures FermiDirac(m, E, Ef, T) == FermiDirac(m, E, Ef, 1.0)
    ensures CalculateFermiLevel(m, T, Nd, Na) == CalculateFermiLevel(m, 1.0, Nd, Na)
  {
    assert Temperature(T) == Temperature(1.0);
  }

  /** The band gap strictly decreases as the temperature rises above 1 K. */
  lemma BandGapDecreasing(T1: real, T2: real)
    requires 1.0 <= T1 < T2
    ensures BandGap(T2) < BandGap(T1)
  {
    VarshniTermIncreasing(SILICON.alpha, SILICON.beta, T1, T2);
  }

  /** `a·t^2/(t+b)` is strictly increasing for positive `a`, `b` and `t`. */
  lemma VarshniTermIncreasing(a: real, b: real, t1: real, t2: real)
    requires a > 0.0 && b > 0.0 && 0.0 < t1 < t2
    ensures a * t1 * t1 / (t1 + b) < a * t2 * t2 / (t2 + b)
  {
    var s1, s2 := t1 * t1, t2 * t2;
    MulLess(t1, t1, t2);
    MulLess(t2, t1, t2);
    assert s1 < s2;
    MulPositive(t1, t2);
    MulPositive(t1 * t2, t2 - t1);
    MulPositive(b, s2 - s1);
    assert s2 * (t1 + b) - s1 * (t2 + b) == t1 * t2 * (t2 - t1) + b * (s2 - s1);
    MulLess(a, s1 * (t2 + b), s2 * (t1 + b));
    assert (a * s1) * (t2 + b) < (a * s2) * (t1 + b);
    QuotientLess(a * s1, t1 + b, a * s2, t2 + b);
  }

  /** The band gap stays positive up to 2900 K; the Varshni fit itself
      reaches zero near 2990 K. */
  lemma BandGapPositive(T: real)
    requires T <= 2900.0
    ensures BandGap(T) > 0.0
  {
    var t := Temperature(T);
    assert BandGap(2900.0) > 0.0;
    if t < 2900.0 {
      BandGapDecreasing(t, 2900.0);
    }
  }

  /** Above about 2990 K the Varshni fit goes negative. */
  lemma BandGapNegativeAt3000()
    ensures BandGap(3000.0) < 0.0
  {
  }

  /** At 300 K the densities of states take their reference values. */
  lemma DensitiesOfStatesAt300(m: Elementary)
    requires PowOfOne(m)
    ensures Nc(m, 300.0) == SILICON.Nc300
    ensures Nv(m, 300.0) == SILICON.Nv300
  {
  }

  /** The intrinsic concentration is positive at every temperature. */
  lemma IntrinsicConcentrationPositive(m: Elementary, T: real)
    requires SqrtLaw(m)
    ensures IntrinsicConcentration(m, T) > 0.0
  {
    var t := Temperature(T);
    SqrtPositive(m, DensityOfStatesProduct(m, t));
  }

  // ---------------------------------------------------------------------------
  // Properties of the occupation function
  // ---------------------------------------------------------------------------

  /** A state at the Fermi level is occupied with probability one half. */
  lemma FermiDiracAtFermiLevel(m: Elementary, Ef: real, T: real)
    requires ExpOfZero(m)
    ensures FermiDirac(m, Ef, Ef, T) == 0.5
  {
  }

  /** Occupation is symmetric about the Fermi level: a state at `E` and its
      mirror image `2Ef - E` are occupied with probabilities summing to 1.
      This holds on every input, including where the ±100 guards apply. */
  lemma FermiDiracSymmetric(m: Elementary, E: real, Ef: real, T: real)
    requires ExpReciprocal(m)
    ensures FermiDirac(m, E, Ef, T) + FermiDirac(m, 2.0 * Ef - E, Ef, T) == 1.0
  {
    var x, y := ReducedEnergy(E, Ef, T), ReducedEnergy(2.0 * Ef - E, Ef, T);
    assert (2.0 * Ef - E) - Ef == -(E - Ef);
    NegatedQuotient(E - Ef, VisualThermalEnergy(T));
    assert y == -x;
    if -100.0 <= x <= 100.0 {
      LogisticComplement(m.exp(x), m.exp(-x));
    }
  }

  /** Occupation never increases with energy. */
  lemma FermiDiracNonIncreasing(m: Elementary, E1: real, E2: real, Ef: real, T: real)
    requires ExpIncreasing(m)
    requires E1 <= E2
    ensures FermiDirac(m, E2, Ef, T) <= FermiDirac(m, E1, Ef, T)
  {
    var x1, x2 := ReducedEnergy(E1, Ef, T), ReducedEnergy(E2, Ef, T);
    QuotientMonotone(E1 - Ef, E2 - Ef, VisualThermalEnergy(T));
    assert x1 <= x2;
    if -100.0 <= x1 < x2 <= 100.0 {
      var a1, a2 := m.exp(x1), m.exp(x2);
      assert a1 < a2;
      assert 1.0 * (1.0 + a1) < 1.0 * (1.0 + a2);
      QuotientLess(1.0, 1.0 + a2, 1.0, 1.0 + a1);
    }
  }

  // ---------------------------------------------------------------------------
  // Properties of the Fermi level
  // ---------------------------------------------------------------------------

  /** In freeze-out the level depends only on which dopants are present, not on
      how many. */
  lemma FreezeOutIgnoresMagnitude(m: Elementary, T: real, Nd1: real, Na1: real, Nd2: real, Na2: real)
    requires Temperature(T) < FREEZE_OUT_TEMPERATURE
    requires (Nd1 > 0.0) == (Nd2 > 0.0) && (Na1 > 0.0) == (Na2 > 0.0)
    ensures CalculateFermiLevel(m, T, Nd1, Na1) == CalculateFermiLevel(m, T, Nd2, Na2)
  {
  }

  /** In freeze-out the level sits half the donor ionisation energy below the
      conduction band, half the acceptor ionisation energy above the valence
      band, or at mid-gap, and every one of these anchors lies strictly inside
      the band gap. */
  lemma FreezeOutAnchor(m: Elementary, T: real, Nd: real, Na: real)
    requires Temperature(T) < FREEZE_OUT_TEMPERATURE
    ensures Nd > 0.0 ==> CalculateFermiLevel(m, T, Nd, Na) == BandGap(T) - SILICON.Ed / 2.0
    ensures Nd <= 0.0 && Na > 0.0 ==> CalculateFermiLevel(m, T, Nd, Na) == SILICON.Ea / 2.0
    ensures Nd <= 0.0 && Na <= 0.0 ==> CalculateFermiLevel(m, T, Nd, Na) == BandGap(T) / 2.0
    ensures 0.0 < CalculateFermiLevel(m, T, Nd, Na) < BandGap(T)
  {
    var t := Temperature(T);
    BandGapDecreasing(t, FREEZE_OUT_TEMPERATURE);
    assert BandGap(FREEZE_OUT_TEMPERATURE) > 1.0;
  }

  /** A positive donor concentration decides the level on its own: the
      acceptor concentration is ignored and no compensation is computed. */
  lemma DonorPrecedence(m: Elementary, T: real, Nd: real, Na: real)
    requires Nd > 0.0
    ensures CalculateFermiLevel(m, T, Nd, Na) == CalculateFermiLevel(m, T, Nd, 0.0)
  {
  }

  /** The majority-carrier density is positive and strictly increasing in the
      dopant concentration. */
  lemma MajorityDensityIncreasing(m: Elementary, N1: real, N2: real, ni: real)
    requires SqrtLaw(m) && PowSquare(m)
    requires 0.0 < N1 < N2
    ensures 0.0 < MajorityDensity(m, N1, ni) < MajorityDensity(m, N2, ni)
  {
    var h1, h2 := N1 / 2.0, N2 / 2.0;
    var a1, a2 := m.pow(h1, 2.0) + m.pow(ni, 2.0), m.pow(h2, 2.0) + m.pow(ni, 2.0);
    SquareLess(h1, h2);
    SquareNonNegative(h1);
    SquareNonNegative(ni);
    assert 0.0 <= a1 < a2;
    SqrtIncreasing(m, a1, a2);
  }

  /** `kT·log(n/N)` grows strictly with the carrier density `n`. */
  lemma ThermalLogIncreasing(m: Elementary, t: real, n1: real, n2: real, N: real)
    requires LogIncreasing(m)
    requires t > 0.0 && N > 0.0 && 0.0 < n1 < n2
    ensures ThermalLog(m, t, n1, N) < ThermalLog(m, t, n2, N)
  {
    QuotientStrictMonotone(n1, n2, N);
    assert 0.0 < n1 / N;
    MulLess(K_BOLTZMANN * t, m.log(n1 / N), m.log(n2 / N));
  }

  /** Above freeze-out, an n-type level never falls as the donor
      concentration grows. */
  lemma FermiLevelRisesWithDonors(m: Elementary, T: real, Nd1: real, Nd2: real, Na: real)
    requires SqrtLaw(m) && PowSquare(m) && LogIncreasing(m)
    requires Temperature(T) >= FREEZE_OUT_TEMPERATURE
    requires 0.0 < Nd1 <= Nd2
    ensures CalculateFermiLevel(m, T, Nd1, Na) <= CalculateFermiLevel(m, T, Nd2, Na)
  {
    var t := Temperature(T);
    if Nd1 < Nd2 {
      var ni := IntrinsicConcentration(m, t);
      MajorityDensityIncreasing(m, Nd1, Nd2, ni);
      ThermalLogIncreasing(m, t, MajorityDensity(m, Nd1, ni), MajorityDensity(m, Nd2, ni), Nc(m, t));
    }
  }

  /** Above freeze-out, a p-type level never rises as the acceptor
      concentration grows. */
  lemma FermiLevelFallsWithAcceptors(m: Elementary, T: real, Na1: real, Na2: real)
    requires SqrtLaw(m) && PowSquare(m) && LogIncreasing(m)
    requires Temperature(T) >= FREEZE_OUT_TEMPERATURE
    requires 0.0 < Na1 <= Na2
    ensures CalculateFermiLevel(m, T, 0.0, Na2) <= CalculateFermiLevel(m, T, 0.0, Na1)
  {
    var t := Temperature(T);
    if Na1 < Na2 {
      var ni := IntrinsicConcentration(m, t);
      MajorityDensityIncreasing(m, Na1, Na2, ni);
      ThermalLogIncreasing(m, t, MajorityDensity(m, Na1, ni), MajorityDensity(m, Na2, ni), Nv(m, t));
    }
  }
}
