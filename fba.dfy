/** The rows of the two model files `FTICRResult` writes for flux-balance analysis
    (lib/ThermoStoichWizard/ThermoStoichiometry.py:142-182): the compounds file, one row per
    compound plus the nine shared species, and the reactions file, one equation per row of a
    stoichiometry table.  Writing the tab-separated files is not modelled; the rows are. */
module Fba {
  import opened Common
  import opened Dicts
  import opened Text
  import opened Vectors

  // ---------------------------------------------------------------------------------------
  // Compounds file

  /** The shared species appended after the compounds, as (id, formula). */
  const Cofactors: seq<(string, string)> := [
    ("h2o_c0", "H2O"), ("hco3_c0", "HCO3"), ("nh4_c0", "NH4"), ("hpo4_c0", "HPO4"), ("hs_c0", "HS"),
    ("h_c0", "H"), ("e_c0", "e-"), ("acceptor_c0", "O2"), ("biom_c0", "CH1.8N0.2O0.5")]

  /** The compartment suffix of every species id. */
  function InCytosol(id: string): string
  {
    id + "_c0"
  }

  /** `create_cpd_file_fba_model`: an (id, formula) row for every compound of `id2mf`, in
      order, then the shared species. */
  function CompoundRows(id2mf: seq<(string, string)>): (rows: seq<(string, string)>)
    ensures |rows| == |id2mf| + |Cofactors| && rows[|id2mf|..] == Cofactors
    ensures forall i :: 0 <= i < |id2mf| ==> rows[i] == (InCytosol(id2mf[i].0), Lookup(id2mf, id2mf[i].0))
  {
    seq(|id2mf|, i requires 0 <= i < |id2mf| => (InCytosol(id2mf[i].0), Lookup(id2mf, id2mf[i].0))) + Cofactors
  }

  /** Appending the suffix keeps distinct ids distinct. */
  lemma InCytosolInjective(a: string, b: string)
    ensures InCytosol(a) == InCytosol(b) <==> a == b
  {
    if InCytosol(a) == InCytosol(b) {
      assert a == InCytosol(a)[..|a|];
      assert b == InCytosol(b)[..|b|];
    }
  }

  /** The rows of the compounds file have distinct ids when the compound ids are distinct and
      begin with 'x', as the `xcpd__` ids do: no shared species id begins with 'x'. */
  lemma CompoundRowIdsDistinct(id2mf: seq<(string, string)>)
    requires UniqueKeys(id2mf)
    requires forall i :: 0 <= i < |id2mf| ==> |id2mf[i].0| > 0 && id2mf[i].0[0] == 'x'
    ensures var rows := CompoundRows(id2mf);
      forall i, j :: 0 <= i < j < |rows| ==> rows[i].0 != rows[j].0
  {
    var rows := CompoundRows(id2mf);
    var n := |id2mf|;
    forall i, j | 0 <= i < j < |rows|
      ensures rows[i].0 != rows[j].0
    {
      if j < n {
        InCytosolInjective(id2mf[i].0, id2mf[j].0);
      } else if i < n {
        assert rows[i].0[0] == 'x';
        assert rows[j] == Cofactors[j - n];
      } else {
        assert rows[i] == Cofactors[i - n] && rows[j] == Cofactors[j - n];
      }
    }
  }

  // ---------------------------------------------------------------------------------------
  // Reactions file

  /** The column names of a stoichiometry table, in slot order. */
  const StoichColumns: seq<string> := ["donor", "h2o", "hco3", "nh4", "hpo4", "hs", "h", "e", "acceptor", "biom"]

  /** The species name written for each slot: the donor's compound id, then the column names. */
  function SpeciesNames(donorId: string): (names: seq<string>)
    ensures |names| == 10 && names[0] == donorId && names[1..] == StoichColumns[1..]
  {
    [donorId] + StoichColumns[1..]
  }

  /** One side's entry for a species: the coefficient as Python prints it (`show`), two
      spaces, the species name and the compartment tag. */
  function Term(show: real -> string, coef: real, name: string): string
  {
    "(" + show(coef) + ")  " + name + "[c0]"
  }

  /** Slot `s` goes to the products (`products`) or to the reactants (otherwise). */
  predicate OnSide(v: Vec, products: bool, s: nat)
    requires s < 10
  {
    if products then v[s] > 0.0 else v[s] < 0.0
  }

  /** The slots below `k` whose coefficient is positive (`products`) or negative (`reactants`). */
  function SideSlots(v: Vec, products: bool, k: nat): (slots: seq<nat>)
    requires k <= 10
    ensures forall j :: 0 <= j < |slots| ==> slots[j] < k && OnSide(v, products, slots[j])
    ensures forall s :: 0 <= s < k && OnSide(v, products, s) ==> s in slots
    ensures forall j1, j2 :: 0 <= j1 < j2 < |slots| ==> slots[j1] < slots[j2]
  {
    if k == 0 then []
    else SideSlots(v, products, k - 1) + (if OnSide(v, products, k - 1) then [k - 1] else [])
  }

  function Abs(x: real): real
  {
    if x < 0.0 then -x else x
  }

  /** The terms of the slots `slots`, each with its coefficient's magnitude: products as they
      are, reactants negated. */
  function Terms(show: real -> string, v: Vec, names: seq<string>, slots: seq<nat>): (ts: seq<string>)
    requires |names| == 10 && forall j :: 0 <= j < |slots| ==> slots[j] < 10
    ensures |ts| == |slots|
    ensures forall j :: 0 <= j < |slots| ==> ts[j] == Term(show, Abs(v[slots[j]]), names[slots[j]])
  {
    seq(|slots|, j requires 0 <= j < |slots| => Term(show, Abs(v[slots[j]]), names[slots[j]]))
  }

  /** The reactant and product lists after `generate_equation` has visited the slots below
      `k`: a zero coefficient is skipped, a positive one adds a product term and a negative
      one a reactant term with the coefficient negated. */
  function Sides(show: real -> string, v: Vec, names: seq<string>, k: nat): (seq<string>, seq<string>)
    requires |names| == 10 && k <= 10
  {
    if k == 0 then ([], [])
    else
      var (reactants, products) := Sides(show, v, names, k - 1);
      var c := v[k - 1];
      if c == 0.0 then (reactants, products)
      else if c > 0.0 then (reactants, products + [Term(show, c, names[k - 1])])
      else (reactants + [Term(show, -c, names[k - 1])], products)
  }

  /** The equation `generate_equation` writes for the coefficients `v`. */
  function Equation(show: real -> string, v: Vec, names: seq<string>): string
    requires |names| == 10
  {
    var (reactants, products) := Sides(show, v, names, 10);
    Join(reactants, " + ") + " <=> " + Join(products, " + ")
  }

  /** The reactant list holds the terms of the negative slots and the product list those of
      the positive slots, in slot order, each with the magnitude of its coefficient. */
  lemma SidesSpec(show: real -> string, v: Vec, names: seq<string>, k: nat)
    requires |names| == 10 && k <= 10
    ensures Sides(show, v, names, k) ==
      (Terms(show, v, names, SideSlots(v, false, k)), Terms(show, v, names, SideSlots(v, true, k)))
  {
    ReactantsSpec(show, v, names, k);
    ProductsSpec(show, v, names, k);
  }

  /** The reactant list of Sides. */
  lemma {:induction false} ReactantsSpec(show: real -> string, v: Vec, names: seq<string>, k: nat)
    requires |names| == 10 && k <= 10
    ensures Sides(show, v, names, k).0 == Terms(show, v, names, SideSlots(v, false, k))
  {
    if k > 0 {
      ReactantsSpec(show, v, names, k - 1);
      TermsSnoc(show, v, names, false, k - 1);
      var c := v[k - 1];
      var prev := Sides(show, v, names, k - 1).0;
      var cur := Sides(show, v, names, k).0;
      if c < 0.0 {
        assert cur == prev + [Term(show, -c, names[k - 1])];
      } else {
        assert cur == prev;
      }
    }
  }

  /** The product list of Sides. */
  lemma {:induction false} ProductsSpec(show: real -> string, v: Vec, names: seq<string>, k: nat)
    requires |names| == 10 && k <= 10
    ensures Sides(show, v, names, k).1 == Terms(show, v, names, SideSlots(v, true, k))
  {
    if k > 0 {
      ProductsSpec(show, v, names, k - 1);
      TermsSnoc(show, v, names, true, k - 1);
      var c := v[k - 1];
      var prev := Sides(show, v, names, k - 1).1;
      var cur := Sides(show, v, names, k).1;
      if c > 0.0 {
        assert cur == prev + [Term(show, c, names[k - 1])];
      } else {
        assert cur == prev;
      }
    }
  }

  /** The equation written out: the reactant terms, " <=> ", the product terms. */
  lemma EquationTerms(show: real -> string, v: Vec, names: seq<string>)
    requires |names| == 10
    ensures Equation(show, v, names) ==
      Join(Terms(show, v, names, SideSlots(v, false, 10)), " + ") + " <=> " +
      Join(Terms(show, v, names, SideSlots(v, true, 10)), " + ")
  {
    SidesSpec(show, v, names, 10);
  }

  /** Every species with a negative coefficient is written among the reactants and every
      one with a positive coefficient among the products, both in slot order, each with the
      magnitude of its coefficient, which is positive; a species with a zero coefficient is
      written on neither side. */
  lemma EquationSides(v: Vec)
    ensures forall s :: 0 <= s < 10 ==>
      (s in SideSlots(v, false, 10) <==> v[s] < 0.0) && (s in SideSlots(v, true, 10) <==> v[s] > 0.0)
    ensures forall s :: s in SideSlots(v, false, 10) + SideSlots(v, true, 10) ==> s < 10 && Abs(v[s]) > 0.0
  {
    var r, p := SideSlots(v, false, 10), SideSlots(v, true, 10);
    forall s | s in r + p
      ensures s < 10 && Abs(v[s]) > 0.0
    {
      if s in r {
        var j :| 0 <= j < |r| && r[j] == s;
      } else {
        var j :| 0 <= j < |p| && p[j] == s;
      }
    }
  }

  /** One more slot adds its term at the end of its side. */
  lemma TermsSnoc(show: real -> string, v: Vec, names: seq<string>, products: bool, k: nat)
    requires |names| == 10 && k < 10
    ensures Terms(show, v, names, SideSlots(v, products, k + 1)) ==
      Terms(show, v, names, SideSlots(v, products, k)) +
      (if OnSide(v, products, k) then [Term(show, Abs(v[k]), names[k])] else [])
  {
  }

  /** `generate_equation` for the row of formula `mf`: the slots are visited in order; the
      donor's name is looked up in `mf2id` on the first step, which raises KeyError (None)
      for an unknown formula; a zero coefficient is skipped, a positive one becomes a product
      and a negative one a reactant with the coefficient negated. */
  method GenerateEquation(show: real -> string, mf2id: seq<(string, string)>, mf: string, v: Vec)
    returns (eq: Option<string>)
    ensures mf !in Keys(mf2id) ==> eq == None
    ensures mf in Keys(mf2id) ==> eq == Some(Equation(show, v, SpeciesNames(Lookup(mf2id, mf))))
  {
    var reactants: seq<string> := [];
    var products: seq<string> := [];
    ghost var names := if mf in Keys(mf2id) then SpeciesNames(Lookup(mf2id, mf)) else SpeciesNames("");
    for k := 0 to 10
      invariant k > 0 ==> mf in Keys(mf2id)
      invariant (reactants, products) == Sides(show, v, names, k)
    {
      var name: string;
      if k == 0 {
        if mf !in Keys(mf2id) {
          return None;
        }
        name := Lookup(mf2id, mf);
      } else {
        name := StoichColumns[k];
      }
      if v[k] == 0.0 {
        continue;
      } else if v[k] > 0.0 {
        products := products + [Term(show, v[k], name)];
      } else {
        reactants := reactants + [Term(show, -v[k], name)];
      }
    }
    eq := Some(Join(reactants, " + ") + " <=> " + Join(products, " + "));
  }

  /** The id of the reaction on row `i` (counted from zero). */
  function ReactionId(i: nat): string
  {
    "xrxn" + NatToString(i + 1) + "_c0"
  }

  /** Distinct rows get distinct reaction ids. */
  lemma ReactionIdInjective(i: nat, j: nat)
    ensures ReactionId(i) == ReactionId(j) <==> i == j
  {
    if ReactionId(i) == ReactionId(j) {
      var a, b := NatToString(i + 1), NatToString(j + 1);
      assert ReactionId(i) == ("xrxn" + a) + "_c0";
      assert ReactionId(j) == ("xrxn" + b) + "_c0";
      InCytosolInjective("xrxn" + a, "xrxn" + b);
      assert a == ("xrxn" + a)[4..];
      assert b == ("xrxn" + b)[4..];
      NatToStringInjective(i + 1, j + 1);
    }
  }

  /** A table row with finite coefficients whose formula `mf2id` knows. */
  predicate RowWritable(mf2id: seq<(string, string)>, row: (string, Finite<Vec>))
  {
    row.1.Finite? && row.0 in Keys(mf2id)
  }

  ghost predicate Writable(mf2id: seq<(string, string)>, table: seq<(string, Finite<Vec>)>)
  {
    forall i :: 0 <= i < |table| ==> RowWritable(mf2id, table[i])
  }

  /** The reaction row for entry `i` of `table`. */
  function ReactionRow(show: real -> string, mf2id: seq<(string, string)>, i: nat, row: (string, Finite<Vec>))
    : (string, string)
    requires RowWritable(mf2id, row)
  {
    (ReactionId(i), Equation(show, row.1.value, SpeciesNames(Lookup(mf2id, row.0))))
  }

  /** `rows` are the rows `create_rxn_file_fba_model` writes for `table`: they exist exactly
      when the table is not empty and every row of it can be written, and then hold one
      (id, equation) row per row of the table, numbered from 1 in table order. */
  ghost predicate IsReactionFile(show: real -> string, mf2id: seq<(string, string)>, table: seq<(string, Finite<Vec>)>,
                                 rows: Option<seq<(string, string)>>)
  {
    (rows.Some? <==> |table| > 0 && Writable(mf2id, table)) &&
    (rows.Some? ==>
       |rows.value| == |table| &&
       forall i :: 0 <= i < |table| ==> rows.value[i] == ReactionRow(show, mf2id, i, table[i]))
  }

  /** `create_rxn_file_fba_model`: the rows of the formula-keyed table are visited in order and
      each gets its equation and the next reaction id.  A row with an inf or NaN coefficient, or
      whose formula `mf2id` lacks, gives None.  So does an empty table: pandas' `apply` on an
      empty frame probes the row function with a row named None, whose lookup in `mf2id`
      fails, and returns the frame itself, which has no `tolist`. */
  method ReactionRows(show: real -> string, mf2id: seq<(string, string)>, table: seq<(string, Finite<Vec>)>)
    returns (rows: Option<seq<(string, string)>>)
    ensures IsReactionFile(show, mf2id, table, rows)
  {
    if |table| == 0 {
      return None;
    }
    var acc: seq<(string, string)> := [];
    for i := 0 to |table|
      invariant forall j :: 0 <= j < i ==> RowWritable(mf2id, table[j])
      invariant |acc| == i
      invariant forall j :: 0 <= j < i ==> acc[j] == ReactionRow(show, mf2id, j, table[j])
    {
      if table[i].1.InfOrNaN? {
        return None;
      }
      var eq := GenerateEquation(show, mf2id, table[i].0, table[i].1.value);
      if eq.None? {
        return None;
      }
      acc := acc + [(ReactionId(i), eq.value)];
    }
    rows := Some(acc);
  }
}
