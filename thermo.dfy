/** The per-compound calculator object `ThermoStoichiometry`
    (lib/ThermoStoichWizard/ThermoStoichiometry.py:276-542): `get_all_thermo_stoich` runs the
    half reactions, the anabolic reactions and the TEEM in order and stores each result in a
    field of the object. */
module Thermo {
  import opened Common
  import opened Vectors
  import opened Stoichiometry
  import opened Energetics

  /** Everything get_all_thermo_stoich computes for one compound. */
  datatype ThermoStoich = ThermoStoich(
    donor: Vec,
    acceptor: Vec,
    cat: Vec,
    anO2: Finite<Vec>,
    anHCO3: Finite<Vec>,
    teem: LambdaResult)

  /** The result of get_all_thermo_stoich as a value: the computation raises exactly for a
      compound without carbon. */
  function AllThermoStoich(x: Composition, rtLn: NegReal): (r: Outcome<ThermoStoich>)
    ensures r.RaisesZeroDivision? <==> x.c == 0.0
    ensures r.Returns? ==> r.value.donor == ElectronDonor(x) && r.value.acceptor == Acceptor
  {
    var d := ElectronDonor(x);
    var cat := Catabolic(d, Acceptor).value;
    match AnabolicReaction(x.c, d, Acceptor)
    case RaisesZeroDivision => RaisesZeroDivision
    case Returns((anO2, anHCO3)) =>
      var t := GetLambda(x, d, cat, anO2, anHCO3, rtLn);
      Returns(ThermoStoich(d, Acceptor, cat, anO2, anHCO3, t.value))
  }

  /** What the whole computation guarantees for a compound with carbon: the catabolic
      reaction is defined and balanced; when the donor releases electrons both anabolic
      reactions are defined, balanced, electron-neutral and make one unit of biomass; when in
      addition the catabolic energy is not zero both lambdas and both metabolic reactions are
      defined, and the metabolic reactions are electron-neutral and make one unit of biomass.
      The donor oxidation energy is 28.5 kJ per electron minus 53.7 kJ per carbon. */
  lemma ThermoStoichProperties(x: Composition, rtLn: NegReal)
    requires x.c != 0.0
    ensures AllThermoStoich(x, rtLn).Returns?
    ensures var t := AllThermoStoich(x, rtLn).value;
      t.cat[ElectronSlot] == 0.0 && Balanced(x, t.cat) &&
      t.teem.energies.delGcox0 == 28.5 * ElectronCount(x) - 53.7 * x.c
    ensures var t := AllThermoStoich(x, rtLn).value;
      ElectronCount(x) != 0.0 ==>
        t.anO2.Finite? && t.anHCO3.Finite? &&
        Balanced(x, t.anO2.value) && Balanced(x, t.anHCO3.value) &&
        t.anO2.value[ElectronSlot] == 0.0 && t.anO2.value[BiomassSlot] == 1.0 &&
        t.anHCO3.value[ElectronSlot] == 0.0 && t.anHCO3.value[BiomassSlot] == 1.0
    ensures var t := AllThermoStoich(x, rtLn).value;
      ElectronCount(x) != 0.0 && t.teem.energies.delGcat != Finite(0.0) ==>
        t.teem.lambdaO2.Finite? && t.teem.lambdaHCO3.Finite? &&
        t.teem.metO2.Finite? && t.teem.metHCO3.Finite? &&
        t.teem.metO2.value[ElectronSlot] == 0.0 && t.teem.metO2.value[BiomassSlot] == 1.0 &&
        t.teem.metHCO3.value[ElectronSlot] == 0.0 && t.teem.metHCO3.value[BiomassSlot] == 1.0
  {
    var d := ElectronDonor(x);
    var t := AllThermoStoich(x, rtLn).value;
    CatabolicBalanced(x);
    DelGcox0OfDonor(x);
    if ElectronCount(x) != 0.0 {
      AnabolicO2Balanced(x);
      AnabolicHCO3Balanced(x);
      AnabolicHCO3Finite(x);
      var f := FormationEnergies(x, d).value;
      var delGcat := AtPh7(Dot(f, t.cat), t.cat, rtLn);
      if delGcat != 0.0 {
        MetabolicElectronsAndBiomass(f, t.cat, delGcat, t.anO2.value, rtLn);
        MetabolicElectronsAndBiomass(f, t.cat, delGcat, t.anHCO3.value, rtLn);
      }
    }
  }

  /** The TEEM relation of the whole computation: for a compound with carbon whose donor
      releases electrons, each lambda is the number of catabolic reactions that, run at
      efficiency eta, supply its pathway's energy demand; a zero catabolic energy leaves both
      lambdas inf/NaN. */
  lemma ThermoLambdas(x: Composition, rtLn: NegReal)
    requires x.c != 0.0 && ElectronCount(x) != 0.0
    ensures AllThermoStoich(x, rtLn).Returns?
    ensures var t := AllThermoStoich(x, rtLn).value; var e := t.teem.energies;
      e.delGcat.Finite? && e.delGanO2.Finite? && e.delGanHCO3.Finite? &&
      (e.delGcat.value != 0.0 ==>
        t.teem.lambdaO2.Finite? && t.teem.lambdaHCO3.Finite? &&
        Supplies(t.teem.lambdaO2.value, e.delGcat.value, e.delGanO2.value) &&
        Supplies(t.teem.lambdaHCO3.value, e.delGcat.value, e.delGanHCO3.value)) &&
      (e.delGcat.value == 0.0 ==> t.teem.lambdaO2.InfOrNaN? && t.teem.lambdaHCO3.InfOrNaN?)
  {
    ThermoStoichProperties(x, rtLn);
    var t := AllThermoStoich(x, rtLn).value;
    LambdaDemand(x, t.donor, t.cat, t.anO2, t.anHCO3, rtLn);
  }

  /** Steps 2 and 3 of `get_all_thermo_stoich`, after the half reactions and the catabolic
      reaction: the anabolic reactions, which raise for a compound without carbon, then the
      TEEM. */
  method AnabolicAndLambda(x: Composition, d: Vec, a: Vec, cat: Vec, rtLn: NegReal)
    returns (r: Outcome<(Finite<Vec>, Finite<Vec>, LambdaResult)>)
    requires d == ElectronDonor(x) && a == Acceptor && Catabolic(d, a) == Finite(cat)
    ensures r.RaisesZeroDivision? <==> x.c == 0.0
    ensures r.Returns? ==>
      AllThermoStoich(x, rtLn) == Returns(ThermoStoich(d, a, cat, r.value.0, r.value.1, r.value.2))
  {
    var an := StoichAnabolicReaction(x, d, a);
    if an.RaisesZeroDivision? {
      return RaisesZeroDivision;
    }
    var (anO2, anHCO3) := an.value;
    var t := GetLambda(x, d, cat, anO2, anHCO3, rtLn).value;
    r := Returns((anO2, anHCO3, t));
  }

  class ThermoStoichiometry {
    const composition: Composition

    // Attributes set by get_all_thermo_stoich; None until it has assigned them.
    var stoichElectronDonor: Option<Vec>
    var stoichElectronAcceptor: Option<Vec>
    var stoichCatRxns: Option<Vec>
    var stoichAnabolicO2: Option<Finite<Vec>>
    var stoichAnabolicHCO3: Option<Finite<Vec>>
    var thLambda: Option<(Finite<real>, Finite<real>)>
    var deltaGibbsEnergy: Option<Energies>
    var stoichMetabolicO2: Option<Finite<Vec>>
    var stoichMetabolicHCO3: Option<Finite<Vec>>

    constructor (x: Composition)
      ensures composition == x
      ensures stoichElectronDonor == None && stoichElectronAcceptor == None && stoichCatRxns == None
      ensures stoichAnabolicO2 == None && stoichAnabolicHCO3 == None
      ensures thLambda == None && deltaGibbsEnergy == None
      ensures stoichMetabolicO2 == None && stoichMetabolicHCO3 == None
    {
      composition := x;
      stoichElectronDonor, stoichElectronAcceptor, stoichCatRxns := None, None, None;
      stoichAnabolicO2, stoichAnabolicHCO3 := None, None;
      thLambda, deltaGibbsEnergy := None, None;
      stoichMetabolicO2, stoichMetabolicHCO3 := None, None;
    }

    /** The half reactions and the catabolic reaction of the composition are stored. */
    ghost predicate HalfReactionsStored()
      reads this`stoichElectronDonor, this`stoichElectronAcceptor, this`stoichCatRxns
    {
      stoichElectronDonor == Some(ElectronDonor(composition)) &&
      stoichElectronAcceptor == Some(Acceptor) &&
      stoichCatRxns == Some(Catabolic(ElectronDonor(composition), Acceptor).value)
    }

    /** The attributes get_all_thermo_stoich sets after the anabolic step, in order. */
    function LaterAttributes(): (Option<Finite<Vec>>, Option<Finite<Vec>>, Option<(Finite<real>, Finite<real>)>,
                                 Option<Energies>, Option<Finite<Vec>>, Option<Finite<Vec>>)
      reads this
    {
      (stoichAnabolicO2, stoichAnabolicHCO3, thLambda, deltaGibbsEnergy, stoichMetabolicO2, stoichMetabolicHCO3)
    }

    /** Steps 1a to 1c of `get_all_thermo_stoich`: the donor and acceptor half reactions and
        the catabolic reaction, each stored as soon as it is computed. */
    method StoreHalfReactions() returns (d: Vec, a: Vec, cat: Vec)
      modifies this`stoichElectronDonor, this`stoichElectronAcceptor, this`stoichCatRxns
      ensures d == ElectronDonor(composition) && a == Acceptor
      ensures Catabolic(d, a) == Finite(cat)
      ensures HalfReactionsStored()
    {
      d := ElectronDonor(composition);
      stoichElectronDonor := Some(d);
      a := GetStoichElectronAcceptor();
      stoichElectronAcceptor := Some(a);
      cat := Catabolic(d, a).value;
      stoichCatRxns := Some(cat);
    }

    /** `get_all_thermo_stoich`.  The donor, acceptor and catabolic attributes are stored
        before the anabolic step, so they are set even when that step raises; the other
        attributes then keep their previous values, and otherwise hold the results. */
    method GetAllThermoStoich(rtLn: NegReal) returns (r: Outcome<ThermoStoich>)
      modifies this
      ensures r == AllThermoStoich(composition, rtLn)
      ensures HalfReactionsStored()
      ensures r.RaisesZeroDivision? ==> LaterAttributes() == old(LaterAttributes())
      ensures r.Returns? ==>
        var t := r.value;
        LaterAttributes() == (Some(t.anO2), Some(t.anHCO3), Some((t.teem.lambdaO2, t.teem.lambdaHCO3)),
                              Some(t.teem.energies), Some(t.teem.metO2), Some(t.teem.metHCO3))
    {
      var d, a, cat := StoreHalfReactions();
      var rest := AnabolicAndLambda(composition, d, a, cat, rtLn);
      if rest.RaisesZeroDivision? {
        return RaisesZeroDivision;
      }
      var (anO2, anHCO3, t) := rest.value;
      stoichAnabolicO2, stoichAnabolicHCO3 := Some(anO2), Some(anHCO3);
      thLambda := Some((t.lambdaO2, t.lambdaHCO3));
      deltaGibbsEnergy := Some(t.energies);
      stoichMetabolicO2, stoichMetabolicHCO3 := Some(t.metO2), Some(t.metHCO3);
      r := Returns(ThermoStoich(d, a, cat, anO2, anHCO3, t));
    }
  }
}
