# ThermoStoichWizard core in Dafny

ThermoStoichWizard turns the elemental compositions of FT-ICR mass-spectrometry peaks into
thermodynamic stoichiometries. For each compound (its C, H, N, O, S and P counts) the calculator
`ThermoStoichiometry` derives ten-component reaction vectors. The slot order is
`[donor, h2o, hco3, nh4, hpo4, hs, h, e, acceptor, biom]`, and the reactions are:

- the electron-donor half reaction;
- the O2 acceptor half reaction;
- the catabolic reaction;
- two anabolic reactions that make one C-mol of biomass (CH1.8N0.2O0.5), one with O2 and one
  with hco3 as electron acceptor.

The calculator then applies the Thermodynamic Electron Equivalents Model (TEEM). It computes
eleven Gibbs energies, the two lambdas (how many catabolic reactions pay for one anabolic
reaction) and the two overall metabolic reactions.

The batch class `FTICRResult` works on a whole Formularity peak table:

- checks that the table has the element columns;
- assigns each row a compound id `xcpd__i` and a molecular formula;
- drops unassigned, C13 and Na rows;
- runs the calculator on every compound;
- builds the result tables keyed by molecular formula;
- bins the compounds by lambda and averages their compositions per bin;
- builds the rows of the compounds and reactions files of a flux-balance model.

The model has one Dafny module per part of `lib/ThermoStoichWizard/ThermoStoichiometry.py`:

- `Vectors`: numpy vector arithmetic on exact reals.
- `Stoichiometry`: donor, acceptor, catabolic and anabolic reactions, and element and charge balances.
- `Energetics`: `get_lambda`.
- `Thermo`: `get_all_thermo_stoich` and the calculator class.
- `Formula` and `Text`: `assign_formula`.
- `Dicts`: Python dicts and `drop_duplicates`.
- `Fticr`: the batch class.
- `Binning`: `average_by_lambda_bins`.
- `Fba`: the model-file rows.

Conventions:

- Numbers are exact reals.
- R·T·ln(1e-7) is a parameter `rtLn` that is only known to be negative.
- η^m is 0.43 for m = 1 and 1/0.43 for m = −1.
- Python's `1/float(a)` with a = 0 raises ZeroDivisionError. It is modelled as
  `Outcome.RaisesZeroDivision`.
- A numpy division by zero yields inf/NaN with only a warning. It is modelled as
  `Finite.InfOrNaN`.
- As in the code, the hpo4 slot receives the S count and the hs slot the P count.
  `Stoichiometry.ElementBalance` shows the consequence: the donor reaction conserves P and S
  only when the compound has as many S as P atoms.

Where the project's own documentation and its code disagree, the model follows the code:

- Deduplication does not protect the later steps. `drop_duplicates` stores its result in `tbl`,
  but the filter runs on the original table, so duplicate rows survive.
- Molecular formulas need not be unique. A formula shared by several compounds keeps its first
  position in every formula-keyed table (and in `mf2id`) and takes the value of its last
  compound.
- `average_by_lambda_bins` returns a row for every bin. An empty bin's means are NaN (None in
  the model), because `groupby` on the categorical bin column keeps unobserved categories.
- Bins are right-closed. With cutoff 0 the lowest edge is 0, so a compound with lambda ≤ 0, or
  with an inf or NaN lambda, falls into no bin.
- The compounds file appends nine shared species, not eight.
- There is a single binning strategy. No "uniform" alternative exists in this code.

## Model

| member | source | states |
|---|---|---|
| Stoichiometry.ElectronDonor | lib/ThermoStoichWizard/ThermoStoichiometry.py:322-342 | donor coefficient −1, hco3 = C, nh4 = N, hpo4 = S, hs = P, acceptor and biomass 0, e- = 4C + H − 3N − 2O + 5S − 2P |
| Stoichiometry.GetStoichElectronAcceptor | lib/ThermoStoichWizard/ThermoStoichiometry.py:344-350 | the zero array filled slot by slot is always [0, 2, 0, 0, 0, 0, −4, −4, −1, 0], with a non-zero electron coefficient |
| Stoichiometry.Catabolic | lib/ThermoStoichWizard/ThermoStoichiometry.py:352-355 | finite exactly when the acceptor's electron coefficient is non-zero, and then moves no electrons |
| Stoichiometry.StarBiomassDerivation | lib/ThermoStoichWizard/ThermoStoichiometry.py:370-391 | the negated biomass donor vector, with its first entry moved to the biomass slot, is the biomass-synthesis vector used by both anabolic pathways |
| Stoichiometry.AnabolicO2 | lib/ThermoStoichWizard/ThermoStoichiometry.py:399-410 | raises exactly when C = 0; when finite, its electron coefficient is 0 |
| Stoichiometry.AnabolicHCO3 | lib/ThermoStoichWizard/ThermoStoichiometry.py:411-415 | when finite, electron coefficient 0 and biomass coefficient 1 |
| Stoichiometry.StoichAnabolicReaction | lib/ThermoStoichWizard/ThermoStoichiometry.py:357-417 | the in-place buffer and the loop over the two pathways compute the pair (O2, hco3) of anabolic reactions, and raise exactly when C = 0 |
| Stoichiometry.ElementBalance | lib/ThermoStoichWizard/ThermoStoichiometry.py:331-342 | the donor reaction conserves C, H, N, O and charge; it creates S − P phosphorus and P − S sulfur |
| Stoichiometry.AcceptorAndBiomassBalanced | lib/ThermoStoichWizard/ThermoStoichiometry.py:344-391 | the O2 half reaction and the biomass synthesis conserve every element and charge |
| Stoichiometry.CatabolicBalanced | lib/ThermoStoichWizard/ThermoStoichiometry.py:352-355 | with the O2 acceptor the catabolic reaction is finite and conserves everything the donor conserves |
| Stoichiometry.AnabolicO2Finite | lib/ThermoStoichWizard/ThermoStoichiometry.py:401-410 | for C ≠ 0 the O2 anabolic reaction is finite exactly when the donor releases electrons |
| Stoichiometry.AnabolicO2Balanced | lib/ThermoStoichWizard/ThermoStoichiometry.py:399-410 | when defined, the O2 anabolic reaction conserves what the donor conserves and makes exactly one unit of biomass |
| Stoichiometry.AnabolicHCO3Finite | lib/ThermoStoichWizard/ThermoStoichiometry.py:411-415 | the hco3 anabolic reaction is finite exactly when the donor releases electrons |
| Stoichiometry.AnabolicHCO3Balanced | lib/ThermoStoichWizard/ThermoStoichiometry.py:411-415 | when defined, the hco3 anabolic reaction conserves what the donor conserves |
| Energetics.DelGcox0OfDonor | lib/ThermoStoichWizard/ThermoStoichiometry.py:433-436 | the donor oxidation energy is 28.5 kJ per electron released minus 53.7 kJ per carbon |
| Energetics.FormationEnergies | lib/ThermoStoichWizard/ThermoStoichiometry.py:438-445 | finite exactly when the donor coefficient is non-zero; entries 1 to 9 are the fixed formation energies; the estimated donor entry makes dot(delGf0, donor) equal delGcox0 |
| Energetics.EtaExponent | lib/ThermoStoichWizard/ThermoStoichiometry.py:465-473 | m is 1 exactly when the pH-7 anabolic energy is negative, and −1 otherwise |
| Energetics.EfficiencyPenalty | lib/ThermoStoichWizard/ThermoStoichiometry.py:463-476 | applying eta^m never lowers the anabolic energy, and strictly raises a negative one |
| Energetics.TeemPathway | lib/ThermoStoichWizard/ThermoStoichiometry.py:445-489 | for a finite anabolic reaction, delGan0 is its dot product with the formation energies and delGan that energy at pH 7; with a non-zero catabolic energy, lambda times the catabolic energy released at efficiency eta equals delGan scaled by eta^m plus the 200 kJ synthesis energy; with a zero catabolic energy lambda is inf/NaN, and the metabolic reaction is the anabolic one with delGdis = delGan when that demand is not negative; an inf/NaN anabolic reaction makes every value inf/NaN |
| Energetics.AtPh7Linear | lib/ThermoStoichWizard/ThermoStoichiometry.py:488-489 | the pH-7 energy of lam·cat + an is lam times that of cat plus that of an |
| Energetics.MetabolicReaction | lib/ThermoStoichWizard/ThermoStoichiometry.py:478-489 | the metabolic reaction is lambda·cat + an when lambda > 0 and an otherwise; its dissipated energy is lambda·delGcat + delGan or delGan |
| Energetics.MetabolicElectronsAndBiomass | lib/ThermoStoichWizard/ThermoStoichiometry.py:478-486 | built from electron-neutral reactions, the metabolic reaction is electron-neutral and makes one unit of biomass |
| Energetics.GetLambda | lib/ThermoStoichWizard/ThermoStoichiometry.py:419-497 | raises exactly for a compound without carbon; otherwise reports delGcox0PerC, delGcox0 and its pH-7 value delGcox; delGcat0 and delGcat are the catabolic reaction's energies under the estimated formation energies, and each pathway's lambda, delGan0, delGan, metabolic reaction and delGdis are what the TEEM gives for its anabolic reaction; without formation energies the catabolic and anabolic energies and both lambdas are inf/NaN |
| Energetics.LambdaDemand | lib/ThermoStoichWizard/ThermoStoichiometry.py:475-476 | with both anabolic reactions finite, get_lambda's delGcat and delGan values are finite; a non-zero delGcat gives finite lambdas that supply each pathway's energy demand at efficiency eta, and a zero delGcat leaves both lambdas inf/NaN |
| Energetics.ThermoRow | lib/ThermoStoichWizard/ThermoStoichiometry.py:115-117 | a row of the thermo table has 13 values, lambda_O2 at index 11 and lambda_HCO3 at index 12 |
| Thermo.AllThermoStoich | lib/ThermoStoichWizard/ThermoStoichiometry.py:499-542 | raises exactly for a compound without carbon; otherwise the donor and acceptor reactions are those of the composition |
| Thermo.ThermoLambdas | lib/ThermoStoichWizard/ThermoStoichiometry.py:446-476 | for a compound with carbon whose donor releases electrons, the lambdas of the whole computation satisfy lambda · (−delGcat · eta) = delGan · eta^m + delGsyn when delGcat ≠ 0, and are inf/NaN when delGcat = 0 |
| Thermo.ThermoStoichProperties | lib/ThermoStoichWizard/ThermoStoichiometry.py:499-542 | for C ≠ 0: the catabolic reaction is balanced and electron-neutral; when the donor releases electrons both anabolic reactions are finite, balanced, electron-neutral and make one unit of biomass; when in addition delGcat ≠ 0 both lambdas and both metabolic reactions are finite, electron-neutral and make one unit of biomass |
| Thermo.AnabolicAndLambda | lib/ThermoStoichWizard/ThermoStoichiometry.py:521-533 | the anabolic step followed by get_lambda raises exactly when C = 0 and otherwise yields the results of AllThermoStoich |
| Thermo.ThermoStoichiometry.constructor | lib/ThermoStoichWizard/ThermoStoichiometry.py:292-295 | stores the composition; no result attribute is set yet |
| Thermo.ThermoStoichiometry.StoreHalfReactions | lib/ThermoStoichWizard/ThermoStoichiometry.py:503-515 | stores the donor, acceptor and catabolic reactions of the composition |
| Thermo.ThermoStoichiometry.GetAllThermoStoich | lib/ThermoStoichWizard/ThermoStoichiometry.py:499-542 | returns AllThermoStoich; the half-reaction attributes are set even when the anabolic step raises, and then the later attributes keep their old values; otherwise they hold the results |
| Text.ParseNatToString | lib/ThermoStoichWizard/ThermoStoichiometry.py:66 | `str(n)` of a count reads back as n |
| Text.NatToStringInjective | lib/ThermoStoichWizard/ThermoStoichiometry.py:66 | distinct counts render differently |
| Formula.AssignFormula | lib/ThermoStoichWizard/ThermoStoichiometry.py:61-67 | the loop over C, H, N, O, P, S builds the molecular formula of the counts |
| Formula.FormulaRoundTrip | lib/ThermoStoichWizard/ThermoStoichiometry.py:61-67 | parsing the formula of non-negative counts gives the counts back |
| Formula.FormulaInjective | lib/ThermoStoichWizard/ThermoStoichiometry.py:61-67 | distinct non-negative compositions have distinct formulas, and equal ones equal formulas |
| Formula.FormulaOmitsNonPositive | lib/ThermoStoichWizard/ThermoStoichiometry.py:64 | a count that is not positive leaves no trace in the formula |
| Dicts.Insert | lib/ThermoStoichWizard/ThermoStoichiometry.py:100 | dict assignment keeps keys unique, replaces a present key in place, appends a new one, sets its value and leaves the other keys' values alone |
| Dicts.FromPairsSpec | lib/ThermoStoichWizard/ThermoStoichiometry.py:100-118 | a dict built from pairs has the pairs' keys once each in first-occurrence order, and each key holds the value of its last pair |
| Dicts.DedupSpec | lib/ThermoStoichWizard/ThermoStoichiometry.py:25 | drop_duplicates keeps exactly the elements of the input, each once, ordered by their first occurrence in the input |
| Dicts.DedupDistinct | lib/ThermoStoichWizard/ThermoStoichiometry.py:29 | drop_duplicates leaves a sequence without repeats unchanged |
| Fticr.MissingColumns | lib/ThermoStoichWizard/ThermoStoichiometry.py:52 | a column is listed exactly when it is required and absent |
| Fticr.IsValidSpec | lib/ThermoStoichWizard/ThermoStoichiometry.py:47-53 | a table is valid exactly when it has all six element columns |
| Fticr.CpdIdInjective | lib/ThermoStoichWizard/ThermoStoichiometry.py:70 | distinct row positions get distinct `xcpd__i` ids |
| Fticr.FilterSpec | lib/ThermoStoichWizard/ThermoStoichiometry.py:55-81 | `_filter` keeps, in input order, exactly the rows with a positive element sum and zero C13 and Na where those columns exist; each kept row carries the id of its input position and its formula |
| Fticr.FilterXIds | lib/ThermoStoichWizard/ThermoStoichiometry.py:70 | every kept compound id begins with 'x' |
| Fticr.FilterIdsDistinct | lib/ThermoStoichWizard/ThermoStoichiometry.py:70-81 | the kept compounds have pairwise distinct ids |
| Fticr.FormulaTableSpec | lib/ThermoStoichWizard/ThermoStoichiometry.py:100-118 | a formula-keyed table has one row per distinct formula, in first-occurrence order, holding the value of the last compound with that formula |
| Fticr.Id2MfSpec | lib/ThermoStoichWizard/ThermoStoichiometry.py:29 | with distinct ids, `id2mf` lists every compound once, in order, with its formula |
| Fticr.MapRowsIds | lib/ThermoStoichWizard/ThermoStoichiometry.py:94 | `apply(...).to_dict()` has one entry per compound, in order, keyed by its id |
| Fticr.MapRowsSpec | lib/ThermoStoichWizard/ThermoStoichiometry.py:94 | each entry holds the row function's result on that compound |
| Fticr.ComputeRecord | lib/ThermoStoichWizard/ThermoStoichiometry.py:89-93 | a fresh calculator yields a result exactly for a compound with carbon, and it is that compound's AllThermoStoich |
| Fticr.BatchStoichiometries | lib/ThermoStoichWizard/ThermoStoichiometry.py:86-94 | succeeds exactly when every compound has carbon, and then holds every compound's results in order |
| Fticr.FormulaKeysKnown | lib/ThermoStoichWizard/ThermoStoichiometry.py:167 | every formula of a table keyed by the compounds' formulas is a key of `mf2id`, so the donor lookup cannot fail |
| Fticr.FormulaReactionRows | lib/ThermoStoichWizard/ThermoStoichiometry.py:157-182 | the reaction rows of a formula-keyed table exist exactly when the table is not empty and every reaction is finite, and are one (id, equation) row per table row |
| Fticr.CompoundRowsOfAssigned | lib/ThermoStoichWizard/ThermoStoichiometry.py:142-153 | the compounds file lists each compound in order with its formula, then the nine shared species, with no repeated id |
| Fticr.FTICRResult.constructor | lib/ThermoStoichWizard/ThermoStoichiometry.py:21-37 | `tbl` is the deduplicated table; the assigned table is `_filter` of the original table; `id2mf`, `mf2id` and the counts follow from it; ids are distinct; nothing has run |
| Fticr.FTICRResult.Create | lib/ThermoStoichWizard/ThermoStoichiometry.py:21-37 | a table without the element columns raises the input-format exception; a valid table without Na or C13 raises KeyError; otherwise the object is built as the constructor says |
| Fticr.FTICRResult.Run | lib/ThermoStoichWizard/ThermoStoichiometry.py:96-118 | succeeds exactly when every compound has carbon and then stores every compound's results in order; on failure nothing changes; the object's invariant is kept |
| Fticr.FTICRResult.CompoundFileRows | lib/ThermoStoichWizard/ThermoStoichiometry.py:142-155 | the compounds file rows are every compound in order with its formula, then the shared species, with distinct ids |
| Fticr.FTICRResult.ReactionFileRows | lib/ThermoStoichWizard/ThermoStoichiometry.py:131-182 | before `run` there are no rows; after it the stoichMet_O2 rows exist exactly when the table is not empty and every metabolic reaction is finite, one per formula in table order |
| Fticr.FTICRResult.AverageByLambdaBins | lib/ThermoStoichWizard/ThermoStoichiometry.py:239-272 | the two assertions fail first; before `run` it fails; after it, the binning of each compound's element counts and lambda_O2 against the lambda_O2 column of `thermo` |
| Binning.Linspace | lib/ThermoStoichWizard/ThermoStoichiometry.py:263 | n + 1 edges, from lo to exactly hi |
| Binning.LinspaceStep | lib/ThermoStoichWizard/ThermoStoichiometry.py:263 | consecutive edges are (hi − lo)/n apart |
| Binning.LinspaceOrder | lib/ThermoStoichWizard/ThermoStoichiometry.py:263 | edges strictly increase when lo < hi, are all lo when lo = hi, and start by decreasing when hi < lo |
| Binning.CountBelow | lib/ThermoStoichWizard/ThermoStoichiometry.py:265 | the count of leading edges below x: all before it are below x and the next is not |
| Binning.Cut | lib/ThermoStoichWizard/ThermoStoichiometry.py:265 | a bin is found only for a finite value, and is a valid bin index |
| Binning.CutSpec | lib/ThermoStoichWizard/ThermoStoichiometry.py:265 | with non-decreasing edges, a value is in bin k exactly when it is finite and lies in (edges[k], edges[k+1]] |
| Binning.CutCovers | lib/ThermoStoichWizard/ThermoStoichiometry.py:265-266 | with increasing edges, finite values in (first, last] are binned; values at or below the first edge or above the last are dropped |
| Binning.MembersPrefix | lib/ThermoStoichWizard/ThermoStoichiometry.py:265-268 | the member list of a bin holds exactly the compounds cut into it, in increasing order |
| Binning.MembersSpec | lib/ThermoStoichWizard/ThermoStoichiometry.py:265-268 | a compound is a member of bin k exactly when its lambda is finite and in the bin's interval |
| Binning.Mean | lib/ThermoStoichWizard/ThermoStoichiometry.py:268 | the mean is NaN (None) exactly for no values |
| Binning.MeanBounds | lib/ThermoStoichWizard/ThermoStoichiometry.py:268 | the mean of values within [a, b] is within [a, b] |
| Binning.MeanAbove | lib/ThermoStoichWizard/ThermoStoichiometry.py:268 | the mean of values above a is above a |
| Binning.BinLabelInjective | lib/ThermoStoichWizard/ThermoStoichiometry.py:264 | distinct bins have distinct labels `Bin{k+1}` |
| Binning.MaxOf | lib/ThermoStoichWizard/ThermoStoichiometry.py:259 | `np.amax` of finite values is one of them and bounds them all |
| Binning.LambdaRange | lib/ThermoStoichWizard/ThermoStoichiometry.py:253-259 | an empty lambda_O2 column fails at every cutoff; otherwise a positive cutoff uses the two percentiles, and cutoff 0 fails on a non-finite column and otherwise spans 0 to the largest lambda_O2 |
| Binning.BinMeans | lib/ThermoStoichWizard/ThermoStoichiometry.py:262-271 | pd.cut fails exactly on decreasing edges, and on repeated edges exactly when there are two or more bins; otherwise one row per bin |
| Binning.AverageByLambdaBins | lib/ThermoStoichWizard/ThermoStoichiometry.py:239-272 | cutoff outside [0, 100) and n_bins ≤ 0 fail in that order; a failure of the lambda interval is passed on; over the interval (lo, hi) decreasing edges and repeated edges with n_bins ≥ 2 fail; a result has lo ≤ hi, non-decreasing evenly spaced edges, and row k is bin k's row of means over those edges |
| Binning.BinRowSpec | lib/ThermoStoichWizard/ThermoStoichiometry.py:265-271 | row k is labelled Bin{k+1} with Na = C13 = 0 and six element means; its means are NaN exactly when no compound is in the bin; otherwise the mean lambda lies in the bin's interval and each element mean lies within any bounds on that element's counts in the bin |
| Binning.BinMeansRows | lib/ThermoStoichWizard/ThermoStoichiometry.py:263-268 | the edges of a successful binning are non-decreasing and row k is the row of bin k |
| Binning.BinsPartition | lib/ThermoStoichWizard/ThermoStoichiometry.py:263-266 | for lo < hi, a compound with a finite lambda in (lo, hi] is in exactly one bin; any other compound is in none |
| Fba.CompoundRows | lib/ThermoStoichWizard/ThermoStoichiometry.py:142-153 | one (id_c0, formula) row per `id2mf` entry in order, then the nine shared species |
| Fba.InCytosolInjective | lib/ThermoStoichWizard/ThermoStoichiometry.py:144 | appending `_c0` keeps distinct ids distinct |
| Fba.CompoundRowIdsDistinct | lib/ThermoStoichWizard/ThermoStoichiometry.py:142-153 | with unique compound ids beginning with 'x', no two compounds-file rows share an id |
| Fba.SpeciesNames | lib/ThermoStoichWizard/ThermoStoichiometry.py:166-168 | the donor slot is named by the compound id, the other slots by their column names |
| Fba.SideSlots | lib/ThermoStoichWizard/ThermoStoichiometry.py:170-174 | the slots on one side are exactly those with a coefficient of that sign, in increasing order |
| Fba.Terms | lib/ThermoStoichWizard/ThermoStoichiometry.py:172-174 | each term is `(abs coefficient)  name[c0]` for its slot |
| Fba.SidesSpec | lib/ThermoStoichWizard/ThermoStoichiometry.py:163-175 | the reactant and product lists the loop builds are the terms of the negative and of the positive slots |
| Fba.EquationTerms | lib/ThermoStoichWizard/ThermoStoichiometry.py:175 | the equation is the reactant terms joined by " + ", " <=> ", the product terms joined by " + " |
| Fba.EquationSides | lib/ThermoStoichWizard/ThermoStoichiometry.py:170-174 | negative coefficients are reactants and positive ones products, with positive magnitudes; zero coefficients appear on neither side |
| Fba.GenerateEquation | lib/ThermoStoichWizard/ThermoStoichiometry.py:163-175 | an unknown formula raises KeyError (None); otherwise the loop yields the equation of the coefficients with the donor named by `mf2id` |
| Fba.ReactionIdInjective | lib/ThermoStoichWizard/ThermoStoichiometry.py:179 | distinct rows get distinct `xrxn{i+1}_c0` ids |
| Fba.ReactionRows | lib/ThermoStoichWizard/ThermoStoichiometry.py:157-182 | the rows exist exactly when the table is not empty (pandas' empty `apply` returns a frame without `tolist`) and every table row is finite and has a known formula, and are then one (id, equation) row per table row, numbered from 1 |

## Left out

- `run`'s eight tables: `stoichD`, `stoichA`, `stoichCat`, `stoichAn_O2`, `stoichAn_HCO3`,
  `stoichMet_O2`, `stoichMet_HCO3` and `thermo` are not fields. They are the class function
  `ResultTable(sel)` of the single field `allStoich`: each table is a view of the stored
  results, not separately stored state.
- Fticr.FTICRResult.Run: the contract states `all_stoich`. The eight tables follow from it
  through `ResultTable`, not as separate stored state.
- `all_stoich` lookups by compound id (lines 100-117 and 251) are modelled by position. The
  class invariant proves that the entries follow the assigned table in order, keyed by the
  compounds' ids.
- Binning.LambdaRange: `np.percentile` (lines 255-256) is not modelled. The two percentiles
  are parameters `pLo` and `pHi`.
- Binning.LambdaRange: with a zero cutoff, a lambda_O2 column holding +inf or NaN makes
  `np.amax` inf or NaN, and what pandas then does with those edges is not modelled. The model
  does not tell -inf apart from the other non-finite values, so it also reports `NonFiniteMax`
  when the only non-finite entries are -inf (a +0.0 delGcat with a non-negative demand gives
  one). In that case the source takes the largest finite value as the upper edge and bins
  normally, and the -inf compounds fall outside every bin.
- Binning.LambdaRange: with a positive cutoff, a lambda_O2 column holding inf or NaN can give
  inf or NaN percentiles, and `pd.cut` (line 265) then raises on the NaN edges. The model
  takes `pLo` and `pHi` as finite reals and does not report that failure.
- The `print` of the lambda bounds (line 260) is not modelled.
- Plotting (lines 190-214, 225-237) is not modelled: it is graphics only.
- `get_summary` (lines 216-223) is not modelled: float mean, standard deviation and median.
- File writing is not modelled: `to_csv`, `save_result_files`, `create_media_file`, and the
  paths built by `create_fba_model_files`. The model produces the rows of the compounds and
  reactions files instead.
- Fba.GenerateEquation: Python's repr of a float coefficient is the parameter `show`.
- Fba.ReactionRows, Fticr.FormulaReactionRows and Fticr.FTICRResult.ReactionFileRows: a row
  with an inf or NaN coefficient gives no rows (None). The source would write "inf" or "nan"
  text into the equation.
- Fticr.FTICRResult.CompoundFileRows: the nine shared species are appended as one
  concatenation. The source appends them one at a time; the resulting rows are the same.
- Energetics.TeemPathway: a zero catabolic energy is taken to be +0.0, so that numpy divides
  by -0.0. The rarer -0.0, which arises only when both terms of delGcat are -0.0, flips the
  sign of the infinite lambda and is not modelled.
- The true value of ln(1e-7) is not modelled. Only its sign is used, through `rtLn`.
- The `astype(np.int)` casts (lines 68, 76, 79) are not modelled: counts, Na and C13 are
  integers from the start.
- `_filter` adds the `mf` and `cpd_id` columns to the caller's table in place (lines 68-71).
  The model returns the assigned rows as a new value, and the caller's table is not changed.
- Fticr.FTICRResult.Run and Fticr.FTICRResult.Create: on an empty table the model follows
  pandas 2.x, whose `apply` with no rows probes the function with an all-NaN row indexed by
  the columns. The probe returns a string or a `ThermoStoichiometry`, not a Series, so pandas
  returns an empty Series, and the constructor and `run` succeed with empty results, which is
  what the model returns. Under pandas 1.x the probe row is an empty Series, the probe raises
  KeyError, and pandas swallows it and returns a copy of the frame. An empty input table then
  makes the constructor raise when line 69 stores that frame as the `mf` column. An empty
  assigned table makes `run` raise KeyError at line 100, because `_batch_stoichiometries`
  returns the frame's column dict rather than an empty dict. These pandas 1.x failures are not
  modelled.
- Formula.AssignFormula: counts are written as integers (`C12`). That holds when the row
  `apply` passes is not upcast to float, which is the case when the table has a text column
  (Formularity's `El_comp` or `Class`) or only integer columns. When every column is numeric
  and one of them is a float, pandas passes float rows, and line 66 writes `C12.0`. That
  rendering is not modelled.
- Fticr.FTICRResult.constructor: requires the Na and C13 columns. Without them line 25 raises
  KeyError, which `Create` models.
- Stoichiometry.AnabolicO2, Stoichiometry.AnabolicHCO3, Stoichiometry.Catabolic and Energetics.TeemPathway:
  an inf or NaN result is a single `InfOrNaN`. Which entries are inf and which NaN is not
  tracked.
- lib/ThermoStoichWizard/ThermoStoichWizardImpl.py (service glue) is not part of this model.
- lib/ThermoStoichWizard/LambdaAnalysis.py (remote fetch, float statistics) is not part of
  this model.
- The commented-out `extract_composition` and `__ignore_isotopes` are not live code.
