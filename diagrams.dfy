/** Per-position formulas of the junction diagrams (main.js): the charge,
    field and potential profile of the electrostatics view, the band and
    quasi-Fermi-level lines of the band view, and the clamp that maps a
    particle position to a band sample.

    Positions `x` are in cm, measured from the metallurgical junction, with
    the p side at negative `x`. */
module Diagrams {
  import opened Elementary
  import opened Junction

  /** Thermal voltage and band gap the band view uses (V, eV). */
  const VT: real := 0.0259
  const EG: real := 1.12

  /** Band edges and quasi-Fermi levels at one position. */
  datatype BandSample = BandSample(Ec: real, Ev: real, Efn: real, Efp: real)

  /** `q·N/(2ε)`, the curvature of the potential on the side doped with `N`. */
  function Curvature(N: real): real
  {
    Q_CHARGE * N / (2.0 * EPSILON_SI)
  }

  // ---------------------------------------------------------------------------
  // Electrostatics view
  // ---------------------------------------------------------------------------

  // The three curves are computed by one branch chain over `x` in main.js;
  // the model splits it into one function per curve.

  /** Space-charge density: uniform acceptor charge on `[-xp, 0)`, uniform
      donor charge on `[0, xn]`, neutral elsewhere. */
  function ChargeAt(j: JunctionResult, Na: real, Nd: real, x: real): real
  {
    if -j.xp <= x && x < 0.0 then -Q_CHARGE * Na
    else if 0.0 <= x <= j.xn then Q_CHARGE * Nd
    else 0.0
  }

  /** Electric field: linear on each side of the depletion region, zero
      outside. */
  function FieldAt(j: JunctionResult, Na: real, Nd: real, x: real): real
    requires j.xn > 0.0
  {
    if -j.xp <= x && x < 0.0 then -(Q_CHARGE * Na / EPSILON_SI) * (x + j.xp)
    else if 0.0 <= x <= j.xn then j.Emax * (1.0 - x / j.xn)
    else 0.0
  }

  /** Electrostatic potential: quadratic on each side of the depletion region,
      0 before it and the barrier `Vtotal` after it. */
  function PotentialAt(m: Elementary, j: JunctionResult, Na: real, Nd: real, x: real): real
  {
    if -j.xp <= x && x < 0.0 then Curvature(Na) * m.pow(x + j.xp, 2.0)
    else if 0.0 <= x <= j.xn then j.Vtotal - Curvature(Nd) * m.pow(j.xn - x, 2.0)
    else if x > j.xn then j.Vtotal
    else 0.0
  }

  /** What the profile needs of a depletion region: positive widths on both
      sides, equal and opposite charge on them, the peak field of the p-side
      charge, and drops across the two sides that add up to the barrier. */
  predicate Balanced(j: JunctionResult, Na: real, Nd: real)
  {
    && Na > 0.0 && Nd > 0.0
    && j.xn > 0.0 && j.xp > 0.0 && j.Vtotal > 0.0
    && j.xn * Nd == j.xp * Na
    && j.Emax == -(Q_CHARGE * Na * j.xp) / EPSILON_SI
    && Drop(Curvature(Na), j.xp) + Drop(Curvature(Nd), j.xn) == j.Vtotal
  }

  /** The junction solved at `Va` has a depletion region, and the square root
      obeys its law. */
  ghost predicate Solved(m: Elementary, Na: real, Nd: real, Va: real, T: real)
  {
    SqrtLaw(m) && Na > 0.0 && Nd > 0.0 && CalculatePNJunction(m, Na, Nd, Va, T).Some?
  }

  /** Every depletion region the solver returns is balanced. */
  lemma SolutionBalanced(m: Elementary, Na: real, Nd: real, Va: real, T: real)
    requires Solved(m, Na, Nd, Va, T)
    ensures Balanced(CalculatePNJunction(m, Na, Nd, Va, T).value, Na, Nd)
  {
    DepletionWidthPositive(m, Na, Nd, Va, T);
    SolutionDrops(m, Na, Nd, Va, T);
  }

  /** The drops across the two sides of a solved depletion region add up to
      the barrier. */
  lemma SolutionDrops(m: Elementary, Na: real, Nd: real, Va: real, T: real)
    requires Solved(m, Na, Nd, Va, T)
    ensures var j := CalculatePNJunction(m, Na, Nd, Va, T).value;
      Drop(Curvature(Na), j.xp) + Drop(Curvature(Nd), j.xn) == j.Vtotal
  {
    var j := CalculatePNJunction(m, Na, Nd, Va, T).value;
    var w2 := WidthSquared(Na, Nd, j.Vtotal);
    assert j.W == m.sqrt(w2);
    assert j.W * j.W == w2;
    DepletionEnergy(Q_CHARGE, EPSILON_SI, Na, Nd, j.Vtotal, j.W);
  }

  /** The space charge is neutral overall: the acceptor charge `q·Na·xp` on
      the p side equals the donor charge `q·Nd·xn` on the n side. */
  lemma ChargeNeutrality(j: JunctionResult, Na: real, Nd: real)
    requires Balanced(j, Na, Nd)
    ensures ChargeAt(j, Na, Nd, -j.xp) * j.xp + ChargeAt(j, Na, Nd, 0.0) * j.xn == 0.0
  {
    assert ChargeAt(j, Na, Nd, -j.xp) == -Q_CHARGE * Na;
    assert ChargeAt(j, Na, Nd, 0.0) == Q_CHARGE * Nd;
    assert Q_CHARGE * Na * j.xp == Q_CHARGE * (j.xp * Na);
    assert Q_CHARGE * Nd * j.xn == Q_CHARGE * (j.xn * Nd);
  }

  /** The field vanishes at both depletion edges, peaks at `Emax` on the
      junction, and reaches `Emax` from the p side too: the p-side slope
      `-q·Na·xp/ε` meets the n-side value. */
  lemma FieldAtEdgesAndJunction(j: JunctionResult, Na: real, Nd: real)
    requires Balanced(j, Na, Nd)
    ensures FieldAt(j, Na, Nd, -j.xp) == 0.0
    ensures FieldAt(j, Na, Nd, j.xn) == 0.0
    ensures FieldAt(j, Na, Nd, 0.0) == j.Emax
    ensures -(Q_CHARGE * Na / EPSILON_SI) * (0.0 + j.xp) == j.Emax
  {
    assert -(Q_CHARGE * Na / EPSILON_SI) * j.xp == -(Q_CHARGE * Na * j.xp) / EPSILON_SI;
  }

  /** The field is never positive and never below its peak `Emax`. */
  lemma FieldBetweenPeakAndZero(j: JunctionResult, Na: real, Nd: real, x: real)
    requires Balanced(j, Na, Nd)
    ensures j.Emax <= FieldAt(j, Na, Nd, x) <= 0.0
  {
    var k := Q_CHARGE * Na / EPSILON_SI;
    assert j.Emax == -(k * j.xp);
    MulPositive(k, j.xp);
    if -j.xp <= x < 0.0 {
      assert FieldAt(j, Na, Nd, x) == -k * (x + j.xp);
      NegScaledBetween(k, x + j.xp, j.xp);
    } else if 0.0 <= x <= j.xn {
      QuotientMonotone(0.0, x, j.xn);
      QuotientMonotone(x, j.xn, j.xn);
      ScaledBetween(j.Emax, 1.0 - x / j.xn);
    }
  }

  /** `-k·d` lies between `-k·top` and zero for `k > 0` and `0 <= d <= top`. */
  lemma NegScaledBetween(k: real, d: real, top: real)
    requires k > 0.0 && 0.0 <= d <= top
    ensures -(k * top) <= -k * d <= 0.0
  {
    if d > 0.0 {
      MulPositive(k, d);
    }
    if d < top {
      MulLess(k, d, top);
    }
  }

  /** A negative number scaled by a fraction in `[0, 1]` stays between itself
      and zero. */
  lemma ScaledBetween(e: real, u: real)
    requires e < 0.0 && 0.0 <= u <= 1.0
    ensures e <= e * u <= 0.0
  {
    if u > 0.0 {
      MulPositive(-e, u);
    }
    if u < 1.0 {
      MulLess(-e, u, 1.0);
    }
  }

  /** The potential is 0 on the p side up to the depletion edge and `Vtotal`
      from the n-side edge on. */
  lemma PotentialOutsideDepletion(m: Elementary, j: JunctionResult, Na: real, Nd: real, x: real)
    requires PowSquare(m) && Balanced(j, Na, Nd)
    ensures x <= -j.xp ==> PotentialAt(m, j, Na, Nd, x) == 0.0
    ensures x >= j.xn ==> PotentialAt(m, j, Na, Nd, x) == j.Vtotal
  {
    assert m.pow(0.0, 2.0) == 0.0;
  }

  /** The two quadratic pieces of the potential meet at the junction, so the
      potential is continuous there. */
  lemma PotentialContinuousAtJunction(m: Elementary, j: JunctionResult, Na: real, Nd: real)
    requires PowSquare(m) && Balanced(j, Na, Nd)
    ensures Curvature(Na) * m.pow(0.0 + j.xp, 2.0) == PotentialAt(m, j, Na, Nd, 0.0)
  {
    assert m.pow(0.0 + j.xp, 2.0) == j.xp * j.xp;
    assert m.pow(j.xn - 0.0, 2.0) == j.xn * j.xn;
  }

  /** Inside the depletion region the potential is the p-side quadratic
      `q·Na·(x+xp)^2/(2ε)` or the n-side quadratic `Vtotal - q·Nd·(xn-x)^2/(2ε)`. */
  lemma PotentialPieces(m: Elementary, j: JunctionResult, Na: real, Nd: real, x: real)
    requires PowSquare(m) && j.xp >= 0.0 && j.xn >= 0.0
    ensures x < -j.xp ==> PotentialAt(m, j, Na, Nd, x) == 0.0
    ensures -j.xp <= x < 0.0 ==> PotentialAt(m, j, Na, Nd, x) == Drop(Curvature(Na), x + j.xp)
    ensures 0.0 <= x <= j.xn ==> PotentialAt(m, j, Na, Nd, x) == j.Vtotal - Drop(Curvature(Nd), j.xn - x)
    ensures x > j.xn ==> PotentialAt(m, j, Na, Nd, x) == j.Vtotal
  {
    assert m.pow(x + j.xp, 2.0) == (x + j.xp) * (x + j.xp);
    assert m.pow(j.xn - x, 2.0) == (j.xn - x) * (j.xn - x);
  }

  /** The potential never leaves `[0, Vtotal]`; on the p side of the
      depletion region it stays at or below the p-side drop `q·Na·xp^2/(2ε)`,
      on the n side at or above it. */
  lemma PotentialBounds(m: Elementary, j: JunctionResult, Na: real, Nd: real, x: real)
    requires PowSquare(m) && Balanced(j, Na, Nd)
    ensures 0.0 <= PotentialAt(m, j, Na, Nd, x) <= j.Vtotal
    ensures -j.xp <= x < 0.0 ==> PotentialAt(m, j, Na, Nd, x) <= Drop(Curvature(Na), j.xp)
    ensures 0.0 <= x <= j.xn ==> PotentialAt(m, j, Na, Nd, x) >= Drop(Curvature(Na), j.xp)
  {
    PotentialPieces(m, j, Na, Nd, x);
    DropOrdered(Curvature(Na), 0.0, j.xp);
    DropOrdered(Curvature(Nd), 0.0, j.xn);
    if -j.xp <= x < 0.0 {
      DropOrdered(Curvature(Na), x + j.xp, j.xp);
    } else if 0.0 <= x <= j.xn {
      DropOrdered(Curvature(Nd), j.xn - x, j.xn);
    }
  }

  /** The potential rises monotonically across the junction, from the p side
      to the n side. */
  lemma PotentialNonDecreasing(m: Elementary, j: JunctionResult, Na: real, Nd: real, x1: real, x2: real)
    requires PowSquare(m) && Balanced(j, Na, Nd)
    requires x1 <= x2
    ensures PotentialAt(m, j, Na, Nd, x1) <= PotentialAt(m, j, Na, Nd, x2)
  {
    PotentialBounds(m, j, Na, Nd, x1);
    PotentialBounds(m, j, Na, Nd, x2);
    if -j.xp <= x1 <= x2 < 0.0 {
      PotentialPieces(m, j, Na, Nd, x1);
      PotentialPieces(m, j, Na, Nd, x2);
      DropOrdered(Curvature(Na), x1 + j.xp, x2 + j.xp);
    } else if 0.0 <= x1 <= x2 <= j.xn {
      PotentialPieces(m, j, Na, Nd, x1);
      PotentialPieces(m, j, Na, Nd, x2);
      DropOrdered(Curvature(Nd), j.xn - x2, j.xn - x1);
    }
  }

  /** `c·d^2`, the potential drop across a layer of depth `d` whose charge
      bends the potential with curvature `c`. */
  function Drop(c: real, d: real): real
  {
    c * (d * d)
  }

  /** Drops grow with depth. */
  lemma DropOrdered(c: real, u: real, v: real)
    requires c > 0.0 && 0.0 <= u <= v
    ensures 0.0 <= Drop(c, u) <= Drop(c, v)
  {
    ScaledSquaresOrdered(c, u, v);
  }

  /** `c·u^2 <= c·v^2` for `c > 0` and `0 <= u <= v`. */
  lemma ScaledSquaresOrdered(c: real, u: real, v: real)
    requires c > 0.0 && 0.0 <= u <= v
    ensures 0.0 <= c * (u * u) <= c * (v * v)
  {
    SquaresOrdered(u, v);
    ScaledOrdered(c, u * u, v * v);
  }

  /** `u^2 <= v^2` for `0 <= u <= v`. */
  lemma SquaresOrdered(u: real, v: real)
    requires 0.0 <= u <= v
    ensures 0.0 <= u * u <= v * v
  {
    SquareNonNegative(u);
    if 0.0 < u < v {
      SquareLess(u, v);
    } else if u == 0.0 {
      SquareNonNegative(v);
    }
  }

  /** `0 <= c·x <= c·y` for `c > 0` and `0 <= x <= y`. */
  lemma ScaledOrdered(c: real, x: real, y: real)
    requires c > 0.0 && 0.0 <= x <= y
    ensures 0.0 <= c * x <= c * y
  {
    if x > 0.0 {
      MulPositive(c, x);
    }
    if x < y {
      MulLess(c, x, y);
    }
  }

  /** The algebra behind `SolutionDrops`, over arbitrary positive constants. */
  lemma DepletionEnergy(q: real, eps: real, Na: real, Nd: real, V: real, W: real)
    requires q > 0.0 && eps > 0.0 && Na > 0.0 && Nd > 0.0
    requires W * W == (2.0 * eps / q) * (1.0 / Na + 1.0 / Nd) * V
    ensures Drop(q * Na / (2.0 * eps), W * (Nd / (Na + Nd))) + Drop(q * Nd / (2.0 * eps), W * (Na / (Na + Nd))) == V
  {
    var s := Na + Nd;
    var a, b := Na / s, Nd / s;
    var h, k := q / (2.0 * eps), 2.0 * eps / q;
    var w2 := W * W;
    var sum := Na * (b * b) + Nd * (a * a);
    WeightedSquares(Na, Nd);
    ReciprocalSum(Na, Nd);
    assert w2 * sum == k * V by {
      ScaledByReciprocalSum(k, V, Na, Nd, sum);
    }
    assert h * k == 1.0;
    assert q * Na / (2.0 * eps) == h * Na && q * Nd / (2.0 * eps) == h * Nd;
    SplitQuadratic(h, W, a, b, Na, Nd);
  }

  /** `Na·(Nd/s)^2 + Nd·(Na/s)^2 = Na·Nd/s` with `s = Na + Nd`. */
  lemma WeightedSquares(Na: real, Nd: real)
    requires Na > 0.0 && Nd > 0.0
    ensures var s := Na + Nd;
      (Na * ((Nd / s) * (Nd / s)) + Nd * ((Na / s) * (Na / s))) * s == Na * Nd
  {
    var s := Na + Nd;
    var a, b := Na / s, Nd / s;
    assert a * s == Na && b * s == Nd;
    assert a + b == 1.0;
    var sum := Na * (b * b) + Nd * (a * a);
    assert sum * s == Na * b * (b * s) + Nd * a * (a * s);
    assert Na * b * Nd + Nd * a * Na == Na * Nd * (a + b);
  }

  /** `(1/Na + 1/Nd)·Na·Nd = Na + Nd`. */
  lemma ReciprocalSum(Na: real, Nd: real)
    requires Na > 0.0 && Nd > 0.0
    ensures (1.0 / Na + 1.0 / Nd) * (Na * Nd) == Na + Nd
  {
    assert (1.0 / Na) * Na == 1.0 && (1.0 / Nd) * Nd == 1.0;
    assert (1.0 / Na + 1.0 / Nd) * (Na * Nd) == ((1.0 / Na) * Na) * Nd + ((1.0 / Nd) * Nd) * Na;
  }

  /** Cancels the reciprocal sum against `sum = Na·Nd/(Na+Nd)`. */
  lemma ScaledByReciprocalSum(k: real, V: real, Na: real, Nd: real, sum: real)
    requires Na > 0.0 && Nd > 0.0
    requires sum * (Na + Nd) == Na * Nd
    requires (1.0 / Na + 1.0 / Nd) * (Na * Nd) == Na + Nd
    ensures k * (1.0 / Na + 1.0 / Nd) * V * sum == k * V
  {
    var g, s, P := 1.0 / Na + 1.0 / Nd, Na + Nd, Na * Nd;
    assert g * sum * s == g * P;
    assert g * sum == 1.0;
    assert k * g * V * sum == k * V * (g * sum);
  }

  /** Distributes `h` over the two squared side widths `W·b` and `W·a`. */
  lemma SplitQuadratic(h: real, W: real, a: real, b: real, Na: real, Nd: real)
    ensures h * Na * ((W * b) * (W * b)) + h * Nd * ((W * a) * (W * a))
         == h * ((W * W) * (Na * (b * b) + Nd * (a * a)))
  {
  }

  // ---------------------------------------------------------------------------
  // Band view
  // ---------------------------------------------------------------------------

  /** The electrostatic potential the band view bends the bands by. It sends
      the junction itself to the p-side quadratic. */
  function BandPotential(m: Elementary, j: JunctionResult, Na: real, Nd: real, x: real): real
  {
    if x < -j.xp then 0.0
    else if x > j.xn then j.Vtotal
    else if x <= 0.0 then Curvature(Na) * m.pow(x + j.xp, 2.0)
    else j.Vtotal - Curvature(Nd) * m.pow(j.xn - x, 2.0)
  }

  /** Band edges and quasi-Fermi levels at `x`. The gap between the band edges
      is the same everywhere, and the quasi-Fermi levels are split by exactly
      the applied bias. */
  function BandDiagramAt(m: Elementary, j: JunctionResult, Na: real, Nd: real, Va: real, x: real): (b: BandSample)
    ensures b.Ec - b.Ev == EG
    ensures b.Efn - b.Efp == Va
  {
    var energy := -BandPotential(m, j, Na, Nd, x);
    var efp := -EG / 2.0 + 0.5 + VT * m.log(Na / 1e10);
    BandSample(energy + EG / 2.0 + 0.5, energy - EG / 2.0 + 0.5, efp + Va, efp)
  }

  /** Both views draw the same potential, although they assign the junction
      itself to different sides. */
  lemma BandPotentialAgrees(m: Elementary, j: JunctionResult, Na: real, Nd: real, x: real)
    requires PowSquare(m) && Balanced(j, Na, Nd)
    ensures BandPotential(m, j, Na, Nd, x) == PotentialAt(m, j, Na, Nd, x)
  {
    if x == 0.0 {
      PotentialContinuousAtJunction(m, j, Na, Nd);
    }
  }

  /** The conduction band edge stands higher in the neutral p region than in
      the neutral n region by exactly the barrier `Vtotal`, while the
      quasi-Fermi levels are flat. */
  lemma BandBendingEqualsBarrier(m: Elementary, j: JunctionResult, Na: real, Nd: real, Va: real, xp: real, xn: real)
    requires Balanced(j, Na, Nd)
    requires xp < -j.xp && xn > j.xn
    ensures var p, n := BandDiagramAt(m, j, Na, Nd, Va, xp), BandDiagramAt(m, j, Na, Nd, Va, xn);
      p.Ec - n.Ec == j.Vtotal && p.Efn == n.Efn && p.Efp == n.Efp
  {
  }

  /** Both band edges fall monotonically from the p side to the n side. */
  lemma BandsFallTowardNSide(m: Elementary, j: JunctionResult, Na: real, Nd: real, Va: real, x1: real, x2: real)
    requires PowSquare(m) && Balanced(j, Na, Nd)
    requires x1 <= x2
    ensures BandDiagramAt(m, j, Na, Nd, Va, x2).Ec <= BandDiagramAt(m, j, Na, Nd, Va, x1).Ec
    ensures BandDiagramAt(m, j, Na, Nd, Va, x2).Ev <= BandDiagramAt(m, j, Na, Nd, Va, x1).Ev
  {
    BandPotentialAgrees(m, j, Na, Nd, x1);
    BandPotentialAgrees(m, j, Na, Nd, x2);
    PotentialNonDecreasing(m, j, Na, Nd, x1, x2);
  }

  // ---------------------------------------------------------------------------
  // Particle animation
  // ---------------------------------------------------------------------------

  /** Maps a particle at `px` to the band sample just left of it on a grid of
      `length` samples that starts at `minX` with spacing `step`: the floor of
      the grid position, pulled into `[0, length - 2]` so that both `idx` and
      `idx + 1` index the grid whenever it has two samples. */
  method ClampIndex(px: real, minX: real, step: real, length: int) returns (idx: int)
    requires step != 0.0
    ensures length >= 2 ==> 0 <= idx && idx + 1 < length
    ensures var raw := ((px - minX) / step).Floor;
      && (0 <= raw < length - 1 ==> idx == raw)
      && (raw < 0 && length >= 2 ==> idx == 0)
      && (raw >= length - 1 ==> idx == length - 2)
  {
    idx := ((px - minX) / step).Floor;
    if idx < 0 {
      idx := 0;
    }
    if idx >= length - 1 {
      idx := length - 2;
    }
  }
}
