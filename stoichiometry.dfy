/** Half reactions of the thermodynamic model: electron donor, O2 acceptor, catabolism and
    the two anabolic reactions that build one C-mol of biomass (ThermoStoichiometry,
    lib/ThermoStoichWizard/ThermoStoichiometry.py:322-417).

    Every vector is in the slot order [donor, h2o, hco3, nh4, hpo4, hs, h, e, acceptor, biom]
    of module Vectors.  As in the source, the hpo4 slot receives the S count and the hs slot
    the P count; ElementBalance below shows what that does to the P and S balances. */
module Stoichiometry {
  import opened Common
  import opened Vectors

  /** Element counts of one compound (its C, H, N, O, S and P entries). */
  datatype Composition = Composition(c: real, h: real, n: real, o: real, s: real, p: real)

  /** Electrons the donor releases per mole: the coefficient of e- in its half reaction. */
  function ElectronCount(x: Composition): real
  {
    4.0 * x.c + x.h - 3.0 * x.n - 2.0 * x.o + 5.0 * x.s - 2.0 * x.p
  }

  /** `get_stoich_electron_donor`: oxidation of the compound to hco3, nh4, hpo4 and hs. */
  function ElectronDonor(x: Composition): (d: Vec)
    ensures d[DonorSlot] == -1.0 && d[Hco3Slot] == x.c && d[Nh4Slot] == x.n
    ensures d[Hpo4Slot] == x.s && d[HsSlot] == x.p
    ensures d[AcceptorSlot] == 0.0 && d[BiomassSlot] == 0.0
    ensures d[ElectronSlot] == ElectronCount(x)
  {
    [ -1.0,
      -(3.0 * x.c + 4.0 * x.s - x.o),
      x.c,
      x.n,
      x.s,
      x.p,
      5.0 * x.c + x.h - 4.0 * x.n - 2.0 * x.o + 7.0 * x.s - x.p,
      4.0 * x.c + x.h - 3.0 * x.n - 2.0 * x.o + 5.0 * x.s - 2.0 * x.p,
      0.0,
      0.0 ]
  }

  /** The O2 half reaction O2 + 4 h+ + 4 e- -> 2 h2o. */
  const Acceptor: Vec := [0.0, 2.0, 0.0, 0.0, 0.0, 0.0, -4.0, -4.0, -1.0, 0.0]

  /** `get_stoich_electron_acceptor`: fills a zero array slot by slot. */
  method GetStoichElectronAcceptor() returns (v: Vec)
    ensures v == Acceptor
    ensures v[ElectronSlot] != 0.0
  {
    var a := new real[10](_ => 0.0);
    a[AcceptorSlot] := -1.0;
    a[ProtonSlot] := -4.0;
    a[ElectronSlot] := -4.0;
    a[H2oSlot] := 2.0;
    v := a[..];
  }

  /** `get_stoich_catabolic_reaciton`: the donor minus as many acceptors as take up its
      electrons.  numpy divides by the acceptor's electron coefficient without raising, so a
      zero there gives inf/NaN entries. */
  function Catabolic(d: Vec, a: Vec): (r: Finite<Vec>)
    ensures r.Finite? <==> a[ElectronSlot] != 0.0
    ensures r.Finite? ==> r.value[ElectronSlot] == 0.0
  {
    if a[ElectronSlot] == 0.0 then InfOrNaN
    else
      var k := d[ElectronSlot] / a[ElectronSlot];
      DivCancel(d[ElectronSlot], a[ElectronSlot]);
      Finite(Sub(d, Scale(k, a)))
  }

  /** The biomass formula CH1.8N0.2O0.5. */
  const Biomass := Composition(1.0, 1.8, 0.2, 0.5, 0.0, 0.0)

  /** The synthesis of one C-mol of biomass from hco3, nh4, h+ and e-, as the numbers that
      StarBiomassDerivation shows get_stoich_anabolic_reaction derives from the formula. */
  const StarBiomass: Vec := [0.0, 2.5, -1.0, -0.2, 0.0, 0.0, -5.0, -4.2, 0.0, 1.0]

  /** The biomass donor reaction reversed, with its donor coefficient moved to the biomass
      slot and the donor slot cleared, is StarBiomass. */
  lemma StarBiomassDerivation()
    ensures var v := Scale(-1.0, ElectronDonor(Biomass));
      v[BiomassSlot := v[DonorSlot]][DonorSlot := 0.0] == StarBiomass
  {
  }

  /** Anabolic reaction with O2 as electron acceptor.  Python's `1/float(a)` raises when the
      compound has no carbon; the electron surplus or deficit is then cancelled with the
      acceptor or with the donor, and numpy's division by a zero coefficient gives inf/NaN. */
  function AnabolicO2(c: real, d: Vec, a: Vec): (r: Outcome<Finite<Vec>>)
    ensures r.RaisesZeroDivision? <==> c == 0.0
    ensures r.Returns? && r.value.Finite? ==> r.value.value[ElectronSlot] == 0.0
  {
    if c == 0.0 then RaisesZeroDivision
    else
      var star := Add(StarBiomass, Scale(1.0 / c, d));
      var y := star[ElectronSlot];
      if y > 0.0 then
        if a[ElectronSlot] == 0.0 then Returns(InfOrNaN)
        else
          DivCancel(y, a[ElectronSlot]);
          Returns(Finite(Sub(star, Scale(y / a[ElectronSlot], a))))
      else if y < 0.0 then
        if d[ElectronSlot] == 0.0 then Returns(InfOrNaN)
        else
          DivCancel(y, d[ElectronSlot]);
          Returns(Finite(Sub(star, Scale(y / d[ElectronSlot], d))))
      else
        Returns(Finite(star))
  }

  /** Anabolic reaction with hco3 as electron acceptor: the donor minus as much biomass
      synthesis as takes up its electrons, normalised to one unit of biomass.  numpy divides
      by the biomass coefficient without raising, so a zero there gives inf/NaN. */
  function AnabolicHCO3(d: Vec): (r: Finite<Vec>)
    ensures r.Finite? ==> r.value[ElectronSlot] == 0.0 && r.value[BiomassSlot] == 1.0
  {
    var b := StarBiomass;
    DivCancel(d[ElectronSlot], b[ElectronSlot]);
    var v := Sub(d, Scale(d[ElectronSlot] / b[ElectronSlot], b));
    if v[BiomassSlot] == 0.0 then InfOrNaN
    else
      DivSelf(v[BiomassSlot]);
      Finite(Div(v, v[BiomassSlot]))
  }

  /** The two electron acceptors of anabolism, in the order the source visits them. */
  datatype AnabolicAcceptor = O2 | HCO3
  const AnabolicAcceptors: seq<AnabolicAcceptor> := [O2, HCO3]

  /** `get_stoich_anabolic_reaction`: the O2 pathway is visited first, so a compound without
      carbon raises before the hco3 pathway is computed. */
  function AnabolicReaction(c: real, d: Vec, a: Vec): Outcome<(Finite<Vec>, Finite<Vec>)>
  {
    match AnabolicO2(c, d, a)
    case RaisesZeroDivision => RaisesZeroDivision
    case Returns(o2) => Returns((o2, AnabolicHCO3(d)))
  }

  /** `get_stoich_anabolic_reaction` as the source runs it: the biomass reaction is built in a
      buffer that is negated and then rearranged in place, and a loop visits both pathways. */
  method StoichAnabolicReaction(x: Composition, d: Vec, a: Vec)
    returns (r: Outcome<(Finite<Vec>, Finite<Vec>)>)
    ensures r == AnabolicReaction(x.c, d, a)
    ensures r.RaisesZeroDivision? <==> x.c == 0.0
  {
    var bd := ElectronDonor(Biomass);
    var starB := new real[10];
    for i := 0 to 10
      invariant forall j :: 0 <= j < i ==> starB[j] == -bd[j]
    {
      starB[i] := -bd[i];
    }
    starB[BiomassSlot] := starB[DonorSlot];
    starB[DonorSlot] := 0.0;
    assert starB[..] == StarBiomass;
    var b: Vec := starB[..];

    var o2: Finite<Vec> := InfOrNaN;
    var hco3: Finite<Vec> := InfOrNaN;
    for k := 0 to |AnabolicAcceptors|
      invariant k >= 1 ==> x.c != 0.0
      invariant k >= 1 ==> Returns(o2) == AnabolicO2(x.c, d, a)
      invariant k >= 2 ==> hco3 == AnabolicHCO3(d)
    {
      if AnabolicAcceptors[k] == O2 {
        if x.c == 0.0 {
          return RaisesZeroDivision;
        }
        var star := Add(b, Scale(1.0 / x.c, d));
        var y := star[ElectronSlot];
        if y > 0.0 {
          o2 := if a[ElectronSlot] == 0.0 then InfOrNaN
                else Finite(Sub(star, Scale(y / a[ElectronSlot], a)));
        } else if y < 0.0 {
          o2 := if d[ElectronSlot] == 0.0 then InfOrNaN
                else Finite(Sub(star, Scale(y / d[ElectronSlot], d)));
        } else {
          o2 := Finite(star);
        }
      } else {
        var v := Sub(d, Scale(d[ElectronSlot] / b[ElectronSlot], b));
        hco3 := if v[BiomassSlot] == 0.0 then InfOrNaN else Finite(Div(v, v[BiomassSlot]));
      }
    }
    r := Returns((o2, hco3));
  }

  /** What a balance counts: one of the six elements, or electric charge. */
  datatype Quantity = C | H | N | O | P | S | Charge

  /** Amount of `q` in one mole of each species of the slot order.  The donor species is the
      compound itself, taken as uncharged; the acceptor species is O2. */
  function Content(x: Composition, q: Quantity): Vec
  {
    match q
    case C => [x.c, 0.0, 1.0, 0.0, 0.0, 0.0, 0.0, 0.0, 0.0, 1.0]
    case H => [x.h, 2.0, 1.0, 4.0, 1.0, 1.0, 1.0, 0.0, 0.0, 1.8]
    case N => [x.n, 0.0, 0.0, 1.0, 0.0, 0.0, 0.0, 0.0, 0.0, 0.2]
    case O => [x.o, 1.0, 3.0, 0.0, 4.0, 0.0, 0.0, 0.0, 2.0, 0.5]
    case P => [x.p, 0.0, 0.0, 0.0, 1.0, 0.0, 0.0, 0.0, 0.0, 0.0]
    case S => [x.s, 0.0, 0.0, 0.0, 0.0, 1.0, 0.0, 0.0, 0.0, 0.0]
    case Charge => [0.0, 0.0, -1.0, 1.0, -2.0, -1.0, 1.0, -1.0, 0.0, 0.0]
  }

  /** Net production of `q` by reaction `v`; zero when the reaction conserves `q`. */
  function Balance(x: Composition, q: Quantity, v: Vec): real
  {
    Dot(Content(x, q), v)
  }

  /** The quantities that reactions built from the donor of `x` conserve: everything except
      P and S, and those two as well when the compound has as many S as P atoms. */
  predicate Conserved(x: Composition, q: Quantity)
  {
    (q != P && q != S) || x.s == x.p
  }

  ghost predicate Balanced(x: Composition, v: Vec)
  {
    forall q :: Conserved(x, q) ==> Balance(x, q, v) == 0.0
  }

  /** The donor half reaction conserves C, H, N, O and charge.  Because the S count sits in the
      hpo4 slot and the P count in the hs slot, it creates S - P phosphorus and P - S sulfur. */
  lemma ElementBalance(x: Composition, q: Quantity)
    ensures Balance(x, q, ElectronDonor(x)) ==
      match q
      case P => x.s - x.p
      case S => x.p - x.s
      case _ => 0.0
    ensures Conserved(x, q) ==> Balance(x, q, ElectronDonor(x)) == 0.0
  {
  }

  /** The O2 half reaction and the biomass synthesis conserve every quantity. */
  lemma AcceptorAndBiomassBalanced(x: Composition, q: Quantity)
    ensures Balance(x, q, Acceptor) == 0.0
    ensures Balance(x, q, StarBiomass) == 0.0
  {
  }

  /** With the O2 acceptor the catabolic reaction is always defined, moves no electrons, and
      conserves whatever the donor conserves. */
  lemma CatabolicBalanced(x: Composition)
    ensures Catabolic(ElectronDonor(x), Acceptor).Finite?
    ensures Balanced(x, Catabolic(ElectronDonor(x), Acceptor).value)
  {
    var d := ElectronDonor(x);
    var k := d[ElectronSlot] / Acceptor[ElectronSlot];
    forall q | Conserved(x, q)
      ensures Balance(x, q, Catabolic(d, Acceptor).value) == 0.0
    {
      ElementBalance(x, q);
      AcceptorAndBiomassBalanced(x, q);
      DotSubScale(Content(x, q), d, k, Acceptor);
    }
  }

  /** For a compound with carbon, the O2 anabolic reaction is defined exactly when the donor
      releases electrons (otherwise its electron deficit is divided by zero). */
  lemma AnabolicO2Finite(x: Composition)
    requires x.c != 0.0
    ensures AnabolicO2(x.c, ElectronDonor(x), Acceptor).Returns?
    ensures AnabolicO2(x.c, ElectronDonor(x), Acceptor).value.Finite? <==> ElectronCount(x) != 0.0
  {
    var d := ElectronDonor(x);
    var star := Add(StarBiomass, Scale(1.0 / x.c, d));
    if ElectronCount(x) == 0.0 {
      assert star[ElectronSlot] == -4.2;
    }
  }

  /** The O2 anabolic reaction, when defined, conserves what the donor conserves and produces
      exactly one unit of biomass. */
  lemma AnabolicO2Balanced(x: Composition)
    requires x.c != 0.0 && ElectronCount(x) != 0.0
    ensures AnabolicO2(x.c, ElectronDonor(x), Acceptor).Returns?
    ensures AnabolicO2(x.c, ElectronDonor(x), Acceptor).value.Finite?
    ensures Balanced(x, AnabolicO2(x.c, ElectronDonor(x), Acceptor).value.value)
    ensures AnabolicO2(x.c, ElectronDonor(x), Acceptor).value.value[BiomassSlot] == 1.0
  {
    AnabolicO2Finite(x);
    var d := ElectronDonor(x);
    var star := Add(StarBiomass, Scale(1.0 / x.c, d));
    var y := star[ElectronSlot];
    var r := AnabolicO2(x.c, d, Acceptor).value.value;
    forall q | Conserved(x, q)
      ensures Balance(x, q, r) == 0.0
    {
      var f := Content(x, q);
      ElementBalance(x, q);
      AcceptorAndBiomassBalanced(x, q);
      DotAddScale(f, StarBiomass, 1.0 / x.c, d);
      if y > 0.0 {
        DotSubScale(f, star, y / Acceptor[ElectronSlot], Acceptor);
      } else if y < 0.0 {
        DotSubScale(f, star, y / d[ElectronSlot], d);
      }
    }
  }

  /** The hco3 anabolic reaction is defined exactly when the donor releases electrons. */
  lemma AnabolicHCO3Finite(x: Composition)
    ensures AnabolicHCO3(ElectronDonor(x)).Finite? <==> ElectronCount(x) != 0.0
  {
    var d := ElectronDonor(x);
    var b := StarBiomass;
    var v := Sub(d, Scale(d[ElectronSlot] / b[ElectronSlot], b));
    assert v[BiomassSlot] == -(d[ElectronSlot] / -4.2);
  }

  /** The hco3 anabolic reaction, when defined, conserves what the donor conserves. */
  lemma AnabolicHCO3Balanced(x: Composition)
    requires ElectronCount(x) != 0.0
    ensures AnabolicHCO3(ElectronDonor(x)).Finite?
    ensures Balanced(x, AnabolicHCO3(ElectronDonor(x)).value)
  {
    AnabolicHCO3Finite(x);
    var d := ElectronDonor(x);
    var b := StarBiomass;
    var k := d[ElectronSlot] / b[ElectronSlot];
    var v := Sub(d, Scale(k, b));
    forall q | Conserved(x, q)
      ensures Balance(x, q, AnabolicHCO3(d).value) == 0.0
    {
      var f := Content(x, q);
      ElementBalance(x, q);
      AcceptorAndBiomassBalanced(x, q);
      DotSubScale(f, d, k, b);
      DotDivZero(f, v, v[BiomassSlot]);
    }
  }
}
