/** Gibbs energies and the Thermodynamic Electron Equivalents Model (TEEM): `get_lambda`
    (lib/ThermoStoichWizard/ThermoStoichiometry.py:419-497).

    Energies are in kJ.  The pH-7 correction multiplies each reaction's proton coefficient by
    R*T*ln(1e-7); its value is a parameter `rtLn` of which the model only assumes that it is
    negative. */
module Energetics {
  import opened Common
  import opened Vectors
  import opened Stoichiometry

  /** The type of R*T*ln(1e-7). */
  type NegReal = r: real | r < 0.0 witness -1.0

  /** Energy transfer efficiency of the TEEM. */
  const Eta: real := 0.43

  /** Energy needed to synthesise one C-mol of biomass, kJ/(mol X). */
  const DelGsyn: real := 200.0

  /** Standard formation energies of the fixed species; the donor entry is a placeholder
      that FormationEnergies replaces. */
  const KnownFormationEnergies: Vec :=
    [0.0, -237.2, -586.8, -79.3, -1096.1, 12.1, 0.0, 0.0, 16.4, -67.0]

  function Abs(r: real): real
  {
    if r < 0.0 then -r else r
  }

  /** Nominal oxidation state of carbon (Python's division raises without carbon). */
  function Nosc(x: Composition): real
    requires x.c != 0.0
  {
    -ElectronCount(x) / x.c + 4.0
  }

  /** Standard Gibbs energy of donor oxidation per C-mol, after LaRowe and Van Cappellen. */
  function DelGcox0PerC(x: Composition): real
    requires x.c != 0.0
  {
    60.3 - 28.5 * Nosc(x)
  }

  /** Standard Gibbs energy of the donor half reaction `d`. */
  function DelGcox0(x: Composition, d: Vec): real
    requires x.c != 0.0
  {
    DelGcox0PerC(x) * x.c * Abs(d[DonorSlot])
  }

  /** For the compound's own donor reaction the oxidation energy is linear in the composition:
      28.5 kJ per electron released minus 53.7 kJ per carbon. */
  lemma DelGcox0OfDonor(x: Composition)
    requires x.c != 0.0
    ensures DelGcox0(x, ElectronDonor(x)) == 28.5 * ElectronCount(x) - 53.7 * x.c
  {
    var ne := ElectronCount(x);
    var q := -ne / x.c;
    DivCancel(-ne, x.c);
    calc {
      DelGcox0(x, ElectronDonor(x));
      (60.3 - 28.5 * (q + 4.0)) * x.c * 1.0;
      60.3 * x.c - 28.5 * (q * x.c) - 114.0 * x.c;
      60.3 * x.c + 28.5 * ne - 114.0 * x.c;
    }
  }

  /** Formation energies with the donor's own entry estimated so that the donor half reaction
      has exactly the energy DelGcox0.  numpy's division by a zero donor coefficient gives
      inf/NaN. */
  function FormationEnergies(x: Composition, d: Vec): (r: Finite<Vec>)
    requires x.c != 0.0
    ensures r.Finite? <==> d[DonorSlot] != 0.0
    ensures r.Finite? ==> forall i :: 1 <= i < 10 ==> r.value[i] == KnownFormationEnergies[i]
    ensures r.Finite? ==> Dot(r.value, d) == DelGcox0(x, d)
  {
    if d[DonorSlot] == 0.0 then InfOrNaN
    else
      var g := DelGcox0(x, d) - Dot(KnownFormationEnergies, d);
      DivCancel(g, d[DonorSlot]);
      Finite(KnownFormationEnergies[DonorSlot := g / d[DonorSlot]])
  }

  /** Gibbs energy at pH 7 of a reaction with standard energy `g0`. */
  function AtPh7(g0: real, v: Vec, rtLn: NegReal): real
  {
    g0 + rtLn * v[ProtonSlot]
  }

  /** TEEM exponent: 1 for an exergonic anabolic reaction, -1 otherwise. */
  function EtaExponent(delGan: real): (m: int)
    ensures m == 1 <==> delGan < 0.0
    ensures m == 1 || m == -1
  {
    if delGan < 0.0 then 1 else -1
  }

  /** `eta**m` for m in {1, -1}. */
  function EtaPower(m: int): real
    requires m == 1 || m == -1
  {
    if m == 1 then Eta else 1.0 / Eta
  }

  /** Applying the efficiency never makes anabolism look cheaper: an energy gain shrinks by
      the factor eta, an energy cost grows by the factor 1/eta. */
  lemma EfficiencyPenalty(delGan: real)
    ensures delGan * EtaPower(EtaExponent(delGan)) >= delGan
    ensures delGan < 0.0 ==> delGan * EtaPower(EtaExponent(delGan)) > delGan
  {
    if delGan >= 0.0 {
      assert 1.0 / Eta > 1.0;
      assert delGan * (1.0 / Eta) >= delGan * 1.0;
    }
  }

  /** The energy the catabolic reactions must supply per unit of biomass: the anabolic energy
      after efficiency plus the synthesis energy. */
  function Demand(delGan: real): real
  {
    delGan * EtaPower(EtaExponent(delGan)) + DelGsyn
  }

  /** `lam` catabolic reactions of energy `delGcat`, run at efficiency eta, supply exactly the
      demand of an anabolic reaction of energy `delGan`. */
  predicate Supplies(lam: real, delGcat: real, delGan: real)
  {
    lam * (-delGcat * Eta) == Demand(delGan)
  }

  /** What get_lambda computes for one anabolic pathway. */
  datatype Pathway = Pathway(
    delGan0: Finite<real>,
    delGan: Finite<real>,
    lam: Finite<real>,
    met: Finite<Vec>,
    delGdis: Finite<real>)

  /** One pathway of the TEEM: lambda is the number of catabolic reactions, run at efficiency
      eta, that pay for the anabolic reaction plus the synthesis energy; the metabolic reaction
      adds that many catabolic reactions to the anabolic one when lambda is positive.  NaN
      propagates from an anabolic reaction that is not finite.  A zero catabolic energy makes
      numpy divide by -0.0: lambda is -inf (or NaN) when the numerator is not negative, so
      `lambda > 0` fails and the metabolic reaction is the anabolic one; it is +inf otherwise,
      and the metabolic reaction is not finite. */
  function TeemPathway(f: Vec, cat: Vec, delGcat: real, an: Finite<Vec>, rtLn: NegReal)
    : (r: Pathway)
    ensures an.InfOrNaN? ==> r == Pathway(InfOrNaN, InfOrNaN, InfOrNaN, InfOrNaN, InfOrNaN)
    ensures an.Finite? ==>
      r.delGan0 == Finite(Dot(f, an.value)) &&
      r.delGan == Finite(AtPh7(Dot(f, an.value), an.value, rtLn))
    ensures an.Finite? && delGcat != 0.0 ==>
      r.lam.Finite? && r.met.Finite? && r.delGdis.Finite? &&
      Supplies(r.lam.value, delGcat, r.delGan.value)
    ensures an.Finite? && delGcat == 0.0 ==>
      r.lam.InfOrNaN? &&
      (Demand(r.delGan.value) >= 0.0 ==> r.met == an && r.delGdis == r.delGan) &&
      (Demand(r.delGan.value) < 0.0 ==> r.met.InfOrNaN? && r.delGdis.InfOrNaN?)
  {
    match an
    case InfOrNaN => Pathway(InfOrNaN, InfOrNaN, InfOrNaN, InfOrNaN, InfOrNaN)
    case Finite(a) =>
      var delGan0 := Dot(f, a);
      var delGan := AtPh7(delGan0, a, rtLn);
      var num := Demand(delGan);
      var den := -delGcat * Eta;
      if den == 0.0 then
        if num >= 0.0 then Pathway(Finite(delGan0), Finite(delGan), InfOrNaN, an, Finite(delGan))
        else Pathway(Finite(delGan0), Finite(delGan), InfOrNaN, InfOrNaN, InfOrNaN)
      else
        var lam := num / den;
        DivCancel(num, den);
        var met := if lam > 0.0 then Add(Scale(lam, cat), a) else a;
        Pathway(Finite(delGan0), Finite(delGan), Finite(lam), Finite(met),
                Finite(AtPh7(Dot(f, met), met, rtLn)))
  }

  /** The pH-7 Gibbs energy of `lam` reactions `cat` plus one reaction `a` is `lam` times that
      of `cat` plus that of `a`. */
  lemma AtPh7Linear(f: Vec, lam: real, cat: Vec, a: Vec, rtLn: NegReal)
    ensures var met := Add(Scale(lam, cat), a);
      AtPh7(Dot(f, met), met, rtLn) == lam * AtPh7(Dot(f, cat), cat, rtLn) + AtPh7(Dot(f, a), a, rtLn)
  {
    var met := Add(Scale(lam, cat), a);
    DotLinear(f, lam, cat, a);
    var dc, da, pc, pa := Dot(f, cat), Dot(f, a), cat[ProtonSlot], a[ProtonSlot];
    var pm := met[ProtonSlot];
    assert pm == lam * pc + pa;
    var gm, gc, ga := AtPh7(Dot(f, met), met, rtLn), AtPh7(dc, cat, rtLn), AtPh7(da, a, rtLn);
    assert gm == (lam * dc + da) + rtLn * pm;
    assert gc == dc + rtLn * pc && ga == da + rtLn * pa;
    Regroup(lam, dc, da, pc, pa, pm, gc, rtLn);
  }

  /** The scalar identity behind AtPh7Linear. */
  lemma Regroup(lam: real, dc: real, da: real, pc: real, pa: real, pm: real, gc: real, r: real)
    requires pm == lam * pc + pa && gc == dc + r * pc
    ensures (lam * dc + da) + r * pm == lam * gc + (da + r * pa)
  {
    assert r * pm == r * (lam * pc) + r * pa;
    assert lam * gc == lam * dc + lam * (r * pc);
    assert r * (lam * pc) == lam * (r * pc);
  }

  /** The metabolic reaction is lambda catabolic reactions plus the anabolic one when lambda is
      positive and the anabolic one alone otherwise; its dissipated energy is accordingly
      lambda * delGcat + delGan or delGan. */
  lemma MetabolicReaction(f: Vec, cat: Vec, delGcat: real, a: Vec, rtLn: NegReal)
    requires delGcat == AtPh7(Dot(f, cat), cat, rtLn) && delGcat != 0.0
    ensures var r := TeemPathway(f, cat, delGcat, Finite(a), rtLn);
      r.met.Finite? && r.delGdis.Finite? && r.lam.Finite? && r.delGan.Finite? &&
      r.met.value == (if r.lam.value > 0.0 then Add(Scale(r.lam.value, cat), a) else a) &&
      r.delGdis.value == (if r.lam.value > 0.0 then r.lam.value * delGcat else 0.0) + r.delGan.value
  {
    var r := TeemPathway(f, cat, delGcat, Finite(a), rtLn);
    AtPh7Linear(f, r.lam.value, cat, a, rtLn);
  }

  /** A metabolic reaction built from electron-neutral catabolic and anabolic reactions is
      electron-neutral and, like the anabolic one, makes one unit of biomass. */
  lemma MetabolicElectronsAndBiomass(f: Vec, cat: Vec, delGcat: real, a: Vec, rtLn: NegReal)
    requires cat[ElectronSlot] == 0.0 && cat[BiomassSlot] == 0.0
    requires a[ElectronSlot] == 0.0 && a[BiomassSlot] == 1.0
    requires delGcat != 0.0
    ensures var r := TeemPathway(f, cat, delGcat, Finite(a), rtLn);
      r.met.Finite? && r.met.value[ElectronSlot] == 0.0 && r.met.value[BiomassSlot] == 1.0
  {
  }

  /** The eleven energies get_lambda reports, in the order of its result list. */
  datatype Energies = Energies(
    delGcox0PerC: real,
    delGcox0: real,
    delGcox: real,
    delGcat0: Finite<real>,
    delGcat: Finite<real>,
    delGan0O2: Finite<real>,
    delGan0HCO3: Finite<real>,
    delGanO2: Finite<real>,
    delGanHCO3: Finite<real>,
    delGdisO2: Finite<real>,
    delGdisHCO3: Finite<real>)

  datatype LambdaResult = LambdaResult(
    lambdaO2: Finite<real>,
    lambdaHCO3: Finite<real>,
    energies: Energies,
    metO2: Finite<Vec>,
    metHCO3: Finite<Vec>)

  /** `get_lambda`: raises for a compound without carbon (at the nominal oxidation state);
      otherwise the catabolic energies are those of `cat` under the estimated formation
      energies, and each pathway's energies, lambda and metabolic reaction are what the TEEM
      gives for its anabolic reaction.  Without formation energies every value after the
      donor's is inf/NaN. */
  function GetLambda(x: Composition, d: Vec, cat: Vec, anO2: Finite<Vec>, anHCO3: Finite<Vec>,
                     rtLn: NegReal): (r: Outcome<LambdaResult>)
    ensures r.RaisesZeroDivision? <==> x.c == 0.0
    ensures r.Returns? ==>
      r.value.energies.delGcox0PerC == DelGcox0PerC(x) &&
      r.value.energies.delGcox == AtPh7(DelGcox0(x, d), d, rtLn) &&
      r.value.energies.delGcox0 == DelGcox0(x, d)
    ensures r.Returns? && FormationEnergies(x, d).InfOrNaN? ==>
      var e := r.value.energies;
      e.delGcat0.InfOrNaN? && e.delGcat.InfOrNaN? && e.delGanO2.InfOrNaN? &&
      e.delGanHCO3.InfOrNaN? && r.value.lambdaO2.InfOrNaN? && r.value.lambdaHCO3.InfOrNaN?
    ensures r.Returns? && FormationEnergies(x, d).Finite? ==>
      var f := FormationEnergies(x, d).value;
      var gcat := AtPh7(Dot(f, cat), cat, rtLn);
      var o2 := TeemPathway(f, cat, gcat, anO2, rtLn);
      var hco3 := TeemPathway(f, cat, gcat, anHCO3, rtLn);
      var e := r.value.energies;
      e.delGcat0 == Finite(Dot(f, cat)) && e.delGcat == Finite(gcat) &&
      r.value.lambdaO2 == o2.lam && r.value.metO2 == o2.met &&
      e.delGan0O2 == o2.delGan0 && e.delGanO2 == o2.delGan && e.delGdisO2 == o2.delGdis &&
      r.value.lambdaHCO3 == hco3.lam && r.value.metHCO3 == hco3.met &&
      e.delGan0HCO3 == hco3.delGan0 && e.delGanHCO3 == hco3.delGan && e.delGdisHCO3 == hco3.delGdis
  {
    if x.c == 0.0 then RaisesZeroDivision
    else
      var perC := DelGcox0PerC(x);
      var g0 := DelGcox0(x, d);
      var gcox := AtPh7(g0, d, rtLn);
      match FormationEnergies(x, d)
      case InfOrNaN =>
        Returns(LambdaResult(InfOrNaN, InfOrNaN,
          Energies(perC, g0, gcox, InfOrNaN, InfOrNaN, InfOrNaN, InfOrNaN, InfOrNaN, InfOrNaN,
                   InfOrNaN, InfOrNaN),
          InfOrNaN, InfOrNaN))
      case Finite(f) =>
        var delGcat0 := Dot(f, cat);
        var delGcat := AtPh7(delGcat0, cat, rtLn);
        var o2 := TeemPathway(f, cat, delGcat, anO2, rtLn);
        var hco3 := TeemPathway(f, cat, delGcat, anHCO3, rtLn);
        Returns(LambdaResult(o2.lam, hco3.lam,
          Energies(perC, g0, gcox, Finite(delGcat0), Finite(delGcat), o2.delGan0, hco3.delGan0,
                   o2.delGan, hco3.delGan, o2.delGdis, hco3.delGdis),
          o2.met, hco3.met))
  }

  /** The lambda equation of one pathway with a finite anabolic reaction. */
  lemma PathwayDemand(f: Vec, cat: Vec, gcat: real, an: Finite<Vec>, rtLn: NegReal)
    requires an.Finite?
    ensures var r := TeemPathway(f, cat, gcat, an, rtLn);
      r.delGan.Finite? &&
      (gcat != 0.0 ==> r.lam.Finite? && Supplies(r.lam.value, gcat, r.delGan.value)) &&
      (gcat == 0.0 ==> r.lam.InfOrNaN?)
  {
  }

  /** With formation energies and both anabolic reactions defined, each lambda get_lambda
      returns is the number of catabolic reactions that, run at efficiency eta, supply its
      pathway's energy demand; a zero catabolic energy leaves both lambdas inf/NaN. */
  lemma LambdaDemand(x: Composition, d: Vec, cat: Vec, anO2: Finite<Vec>, anHCO3: Finite<Vec>,
                     rtLn: NegReal)
    requires x.c != 0.0 && d[DonorSlot] != 0.0 && anO2.Finite? && anHCO3.Finite?
    ensures var t := GetLambda(x, d, cat, anO2, anHCO3, rtLn).value; var e := t.energies;
      e.delGcat.Finite? && e.delGanO2.Finite? && e.delGanHCO3.Finite? &&
      (e.delGcat.value != 0.0 ==>
        t.lambdaO2.Finite? && t.lambdaHCO3.Finite? &&
        Supplies(t.lambdaO2.value, e.delGcat.value, e.delGanO2.value) &&
        Supplies(t.lambdaHCO3.value, e.delGcat.value, e.delGanHCO3.value)) &&
      (e.delGcat.value == 0.0 ==> t.lambdaO2.InfOrNaN? && t.lambdaHCO3.InfOrNaN?)
  {
    var f := FormationEnergies(x, d).value;
    var gcat := AtPh7(Dot(f, cat), cat, rtLn);
    PathwayDemand(f, cat, gcat, anO2, rtLn);
    PathwayDemand(f, cat, gcat, anHCO3, rtLn);
  }

  /** The thirteen values of a row of the thermodynamic table: the eleven energies, then
      lambda for O2 and for hco3. */
  function ThermoRow(r: LambdaResult): (row: seq<Finite<real>>)
    ensures |row| == 13
    ensures row[11] == r.lambdaO2 && row[12] == r.lambdaHCO3
  {
    var e := r.energies;
    [Finite(e.delGcox0PerC), Finite(e.delGcox0), Finite(e.delGcox), e.delGcat0, e.delGcat,
     e.delGan0O2, e.delGan0HCO3, e.delGanO2, e.delGanHCO3, e.delGdisO2, e.delGdisHCO3,
     r.lambdaO2, r.lambdaHCO3]
  }
}
