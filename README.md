# Semiconductor physics engine of the PN-junction visualiser

This project models the calculation engine behind an interactive
semiconductor visualiser:

- the silicon band model and the Fermi-level solver (`fermidirac.js`);
- the depletion-approximation solver for an abrupt PN junction (`pn_physics.js`);
- the ideal-diode current model (`pn_current.js`);
- the per-position formulas that `main.js` draws:
  - the charge, field and potential profile;
  - the band edges and quasi-Fermi levels;
  - the clamp that maps an animated particle to a band sample.

Every engine function is pure, so the model is made of datatypes, functions
and lemmas. The one piece of step-by-step code in scope is the index clamp,
which reassigns a local variable. It is modelled as a method.

Numbers are Dafny `real`s. `Math.exp`, `Math.log`, `Math.sqrt` and `Math.pow`
cannot be evaluated over the reals, so each operation that uses them takes
them as a value of `Elementary.Elementary`. The type guarantees two facts:

- `exp` is positive everywhere;
- `pow` is positive on positive bases.

Every other law is a predicate, and each lemma asks only for the laws its
proof uses:

- `exp` is increasing, `exp(0) = 1` and `exp(x)·exp(-x) = 1`;
- `sqrt` is a non-negative square root;
- `log` is increasing and `log(1) = 0`;
- `pow(1, 1.5) = 1` and `pow(x, 2) = x·x`.

The files:

| file | module | models |
|---|---|---|
| `elementary.dfy` | `Elementary` | the `Math` functions and the real-number facts shared by the proofs |
| `fermidirac.dfy` | `Silicon` | `fermidirac.js` |
| `pn_physics.dfy` | `Junction` | `pn_physics.js` |
| `pn_current.dfy` | `DiodeCurrent` | `pn_current.js` |
| `diagrams.dfy` | `Diagrams` | the per-sample formulas and the index clamp of `main.js` |

The profile and band lemmas are stated for any junction record that is
`Diagrams.Balanced`. `Diagrams.SolutionBalanced` proves that every record
the solver returns is balanced. A balanced record has:

- positive side widths;
- equal and opposite charge on the two sides;
- the peak field of the p-side charge;
- potential drops across the two sides that add up to the barrier.

The two engine files disagree on the intrinsic concentration:
`pn_physics.js` uses 1.5e10 cm^-3 and `pn_current.js` uses 1e10 cm^-3. The
model keeps each file's own constant.

## Model

| member | source | states |
|---|---|---|
| Silicon.Temperature | fermidirac.js:11 | the working temperature is at least 1 K, equals `T` from 1 K up, and is 1 K below it |
| Silicon.TemperatureFloor | fermidirac.js:11-41 | at or below 1 K, the band gap, both densities of states, the intrinsic concentration, the occupation and the Fermi level equal their values at 1 K |
| Silicon.BandGap | fermidirac.js:10-13 | the band gap is strictly below its 0 K value `Eg0 = 1.166` at every temperature |
| Silicon.BandGapDecreasing | fermidirac.js:12 | the band gap strictly decreases as the temperature rises from 1 K |
| Silicon.BandGapPositive | fermidirac.js:10-13 | the band gap is positive up to 2900 K |
| Silicon.BandGapNegativeAt3000 | fermidirac.js:10-13 | the Varshni fit gives a negative gap at 3000 K |
| Silicon.Nc | fermidirac.js:15-18 | the conduction-band density of states is positive |
| Silicon.Nv | fermidirac.js:20-23 | the valence-band density of states is positive |
| Silicon.DensityOfStatesProduct | fermidirac.js:28 | `Nc·Nv` is positive, so its square root is defined |
| Silicon.DensitiesOfStatesAt300 | fermidirac.js:15-23 | at 300 K the densities of states are exactly `Nc300` and `Nv300` |
| Silicon.IntrinsicConcentration | fermidirac.js:25-29 | no contract of its own; `Silicon.IntrinsicConcentrationPositive` proves it positive and `Silicon.TemperatureFloor` proves the 1 K floor |
| Silicon.IntrinsicConcentrationPositive | fermidirac.js:25-29 | the intrinsic concentration is positive at every temperature |
| Silicon.VisualThermalEnergy | fermidirac.js:32-34 | the widened thermal energy `k·2T` is positive |
| Silicon.ReducedEnergy | fermidirac.js:34 | the exponent `(E - Ef)/(k·2T)` is positive iff `E` is above the Fermi level and negative iff it is below |
| Silicon.FermiDirac | fermidirac.js:31-38 | the occupation lies in `[0, 1]`; it is exactly 0 iff the reduced energy exceeds 100, and exactly 1 iff it is below -100 |
| Silicon.FermiDiracAtFermiLevel | fermidirac.js:31-38 | a state at the Fermi level is occupied with probability 1/2 |
| Silicon.FermiDiracSymmetric | fermidirac.js:31-38 | occupations at `E` and at `2Ef - E` sum to 1 on every input, including where the guards apply |
| Silicon.FermiDiracNonIncreasing | fermidirac.js:34-37 | occupation never increases with energy |
| Silicon.CalculateFermiLevel | fermidirac.js:40-63 | above freeze-out an n-type level is at least 0.002 eV below `Ec` and a p-type level at least 0.002 eV above `Ev`; undoped silicon sits at mid-gap at every temperature |
| Silicon.FreezeOutAnchor | fermidirac.js:48-52 | below 45 K the level is `Eg - Ed/2` with donors, otherwise `Ea/2` with acceptors, otherwise `Eg/2`, and always strictly inside the gap |
| Silicon.FreezeOutIgnoresMagnitude | fermidirac.js:48-52 | below 45 K the level depends only on which dopants are present, not on how many |
| Silicon.DonorPrecedence | fermidirac.js:48-61 | with donors present the acceptor concentration has no effect in either regime |
| Silicon.MajorityDensity | fermidirac.js:56 | no contract of its own; `Silicon.MajorityDensityIncreasing` proves it positive and strictly increasing in the doping (the same formula serves fermidirac.js:59) |
| Silicon.DonorLevel | fermidirac.js:57 | no contract of its own; `Silicon.CalculateFermiLevel` caps it at `Ec - 0.002` and `Silicon.FermiLevelRisesWithDonors` proves it non-decreasing in `Nd` |
| Silicon.AcceptorLevel | fermidirac.js:60 | no contract of its own; `Silicon.CalculateFermiLevel` floors it at `Ev + 0.002` and `Silicon.FermiLevelFallsWithAcceptors` proves it non-increasing in `Na` |
| Silicon.MajorityDensityIncreasing | fermidirac.js:56-59 | the majority density `N/2 + sqrt((N/2)^2 + ni^2)` is positive and strictly increasing in `N` |
| Silicon.ThermalLogIncreasing | fermidirac.js:57-60 | `kT·log(n/N)` is strictly increasing in the carrier density `n` |
| Silicon.FermiLevelRisesWithDonors | fermidirac.js:55-57 | above freeze-out the n-type level never falls as the donor concentration grows |
| Silicon.FermiLevelFallsWithAcceptors | fermidirac.js:58-60 | above freeze-out the p-type level never rises as the acceptor concentration grows |
| Junction.BuiltInPotential | pn_physics.js:10 | no contract of its own; `Junction.BuiltInPotentialPositive` proves it positive iff `Na·Nd > ni^2` |
| Junction.WidthSquared | pn_physics.js:16 | the squared depletion width is positive under a positive barrier |
| Junction.CalculatePNJunction | pn_physics.js:5-26 | there is no result iff `Vbi - Va <= 0.01`. Otherwise: `Vbi` is the built-in potential and `Vtotal = Vbi - Va`; `xn + xp = W`; `xn·Nd = xp·Na`; `xn = xp = W/2` for equal dopings; `Emax` equals the p-side expression `-q·Na·xp/ε` |
| Junction.DepletionSplit | pn_physics.js:19-23 | the split covers the width, balances the charge, halves equal dopings, and makes the n-side and p-side peak-field expressions equal |
| Junction.DepletionWidthPositive | pn_physics.js:16-23 | a solved junction has `W`, `xn` and `xp` positive and `Emax` negative |
| Junction.IndependentOfTemperature | pn_physics.js:5-7 | the result is the same at every temperature argument |
| Junction.BuiltInPotentialPositive | pn_physics.js:10 | `Vbi > 0` iff `Na·Nd > ni^2` |
| DiodeCurrent.BiasFactor | pn_current.js:23 | `exp(Va/VT) - 1` is above -1 |
| DiodeCurrent.SaturationCurrentDensity | pn_current.js:19 | the saturation current density is positive whenever both equilibrium minority densities are |
| DiodeCurrent.CalculateCurrentPhysics | pn_current.js:9-30 | the minority densities obey `pn0·Nd = np0·Na = ni^2`; `J0 > 0`; the current never goes below `-J0·Area`; the diffusion lengths are the fixed constants |
| DiodeCurrent.SharedBiasFactor | pn_current.js:22-27 | the current and both excess densities are the same bias factor applied to `J0·Area`, `np0` and `pn0` |
| DiodeCurrent.ZeroBiasZeroCurrent | pn_current.js:23-27 | at zero bias the current and both excess densities are 0 |
| DiodeCurrent.BiasFactorIncreasing | pn_current.js:23 | the bias factor is strictly increasing in the bias |
| DiodeCurrent.CurrentIncreasing | pn_current.js:23 | the current is strictly increasing in the bias |
| DiodeCurrent.CurrentFollowsBiasSign | pn_current.js:23-27 | the current and both excess densities are positive iff `Va > 0` and negative iff `Va < 0` |
| Diagrams.SolutionBalanced | pn_physics.js:16-23 | every depletion region the solver returns is balanced, so the profile lemmas apply to it |
| Diagrams.SolutionDrops | pn_physics.js:16-20 | the potential drops `q·Na·xp^2/(2ε)` and `q·Nd·xn^2/(2ε)` across the two sides add up to `Vtotal` |
| Diagrams.ChargeAt | main.js:100-106 | no contract of its own; `Diagrams.ChargeNeutrality` proves the two sides' charges cancel |
| Diagrams.FieldAt | main.js:100-107 | no contract of its own; `Diagrams.FieldAtEdgesAndJunction` and `Diagrams.FieldBetweenPeakAndZero` give its edge values and its range `[Emax, 0]` |
| Diagrams.PotentialAt | main.js:100-109 | no contract of its own; `Diagrams.PotentialOutsideDepletion`, `Diagrams.PotentialContinuousAtJunction`, `Diagrams.PotentialBounds` and `Diagrams.PotentialNonDecreasing` give its edges, continuity, range and monotonicity |
| Diagrams.ChargeNeutrality | main.js:101-106 | the acceptor charge on `[-xp, 0)` cancels the donor charge on `[0, xn]` |
| Diagrams.FieldAtEdgesAndJunction | main.js:101-107 | the field is 0 at `-xp` and at `xn` and equals `Emax` at the junction; the p-side field reaches `Emax` at `x = 0` too |
| Diagrams.FieldBetweenPeakAndZero | main.js:100-109 | the field is never positive and never below `Emax` |
| Diagrams.PotentialOutsideDepletion | main.js:100-109 | the potential is 0 up to `-xp` and `Vtotal` from `xn` on |
| Diagrams.PotentialContinuousAtJunction | main.js:104-108 | the two quadratic pieces of the potential meet at the junction |
| Diagrams.PotentialBounds | main.js:100-109 | the potential stays in `[0, Vtotal]`, below the p-side drop on the p side and above it on the n side |
| Diagrams.PotentialNonDecreasing | main.js:100-109 | the potential never decreases from the p side to the n side |
| Diagrams.BandPotential | main.js:188-192 | no contract of its own; `Diagrams.BandPotentialAgrees` proves it equal to `Diagrams.PotentialAt` everywhere |
| Diagrams.BandDiagramAt | main.js:194-198 | `Ec - Ev = EG` and `Efn - Efp = Va` at every position |
| Diagrams.BandPotentialAgrees | main.js:188-192 | the band view's potential equals the electrostatics view's potential everywhere, although the two assign `x = 0` to different pieces |
| Diagrams.BandBendingEqualsBarrier | main.js:188-198 | between the neutral p and n regions the conduction band drops by exactly `Vtotal`, while both quasi-Fermi levels are flat |
| Diagrams.BandsFallTowardNSide | main.js:188-196 | both band edges never rise from the p side to the n side |
| Diagrams.ClampIndex | main.js:285-287 | with at least two samples, `idx` and `idx + 1` are valid indices. The result is the floor of the grid position when that is in range, 0 below the range, and `length - 2` above it |

## Left out

- Floating point: rounding, overflow, `NaN` and `Infinity` are not modelled. Values are exact reals.
- `Math.exp`, `Math.log`, `Math.sqrt` and `Math.pow` are parameters constrained by laws. No concrete value such as the band gap at 300 K is computed.
- Junction.CalculatePNJunction: requires `Na > 0` and `Nd > 0`. With a zero doping the source relies on `log(0) = -Infinity` or a division by zero, which exact reals cannot express.
- Junction.WidthSquared: requires `Na > 0` and `Nd > 0`, for the same reason.
- DiodeCurrent.CalculateCurrentPhysics: requires `Na > 0` and `Nd > 0`. With a zero doping the source divides by zero and yields `Infinity`.
- Diagrams.ClampIndex: requires a non-zero `step`. A zero step makes the source's floor `NaN` or infinite.
- Default arguments: `calculateFermiLevel(T, Nd = 0, Na = 0)` (fermidirac.js:40) and `calculatePNJunction(Na, Nd, Va, T = 300)` (pn_physics.js:5) take every argument explicitly in the model. A caller that relied on a default passes its value, and the solver's `T` is unused.
- Diagrams.FieldAt requires `xn > 0`, because the n-side field divides by `xn`. Every solved junction meets this, by `Junction.DepletionWidthPositive`.
- The profile for the fixed reference doping (main.js:111-120) uses the same formulas as the active profile with the reference record, so `Diagrams.ChargeAt`, `Diagrams.FieldAt` and `Diagrams.PotentialAt` cover it. The reference-doping snapshot itself is UI state.
- The sampling loops that fill the plotted arrays, and their window sizes, only collect these formulas at grid points. They are not modelled.
- The particle animation (drift, random diffusion, wrap-around, respawn and frame scheduling) is not modelled. It depends on `Math.random` and on animation state. The same clamp appears twice (main.js:285-287 and 321-322), and `Diagrams.ClampIndex` models both.
- `main.js` reads a breakdown voltage `Vbr` and calls `calculateCarrierProfile`. `pn_current.js` defines neither, so neither is part of this model.
- The use of a junction result that may be missing in the band view is not modelled. The band view's functions take a solved record.
- DOM access, Plotly rendering and event wiring are not modelled.
