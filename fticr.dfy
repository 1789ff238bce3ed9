/** The batch layer `FTICRResult` (lib/ThermoStoichWizard/ThermoStoichiometry.py:19-118): schema
    check, formula assignment and filtering of a Formularity peak table, and the per-compound
    thermodynamic tables keyed by molecular formula. */
module Fticr {
  import opened Common
  import opened Dicts
  import opened Text
  import opened Formula
  import opened Vectors
  import opened Stoichiometry
  import opened Energetics
  import opened Thermo
  import opened Binning
  import opened Fba

  /** The element columns every input table must have, in the order C, H, N, O, P, S. */
  const RequiredColumns: seq<string> := ["C", "H", "N", "O", "P", "S"]

  /** One row of a Formularity table: its element counts in the order of RequiredColumns and
      its Na and C13 entries (meaningless when the table has no such column). */
  datatype Peak = Peak(counts: Counts, na: int, c13: int)

  /** An input table: the names of its columns and its rows in order. */
  datatype Table = Table(columns: set<string>, peaks: seq<Peak>)

  /** The entries of `required` that are not among `columns`, in order. */
  function MissingColumns(columns: set<string>, required: seq<string>): (m: seq<string>)
    ensures forall c :: c in m <==> c in required && c !in columns
  {
    if required == [] then []
    else
      var last := required[|required| - 1];
      MissingColumns(columns, required[..|required| - 1]) + (if last in columns then [] else [last])
  }

  /** `isvalid`: the number of missing required columns is zero. */
  predicate IsValid(t: Table)
  {
    |MissingColumns(t.columns, RequiredColumns)| == 0
  }

  /** A table is valid exactly when it has every required column. */
  lemma IsValidSpec(t: Table)
    ensures IsValid(t) <==> forall c :: c in RequiredColumns ==> c in t.columns
  {
    var m := MissingColumns(t.columns, RequiredColumns);
    if !IsValid(t) {
      assert m[0] in RequiredColumns && m[0] !in t.columns;
    }
  }

  /** The composition handed to ThermoStoichiometry for a row (looked up by element name). */
  function CompositionOf(counts: Counts): Composition
  {
    Composition(c := counts[0] as real, h := counts[1] as real, n := counts[2] as real,
                o := counts[3] as real, s := counts[5] as real, p := counts[4] as real)
  }

  function ElementSum(counts: Counts): int
  {
    counts[0] + counts[1] + counts[2] + counts[3] + counts[4] + counts[5]
  }

  /** The filter condition of `_filter`: some element is assigned, and the C13 and Na entries
      are zero where those columns exist. */
  predicate Keep(columns: set<string>, p: Peak)
  {
    ElementSum(p.counts) > 0 &&
    ("C13" in columns ==> p.c13 == 0) &&
    ("Na" in columns ==> p.na == 0)
  }

  /** Compound id of the row at position `i` of the input table. */
  function CpdId(i: nat): string
  {
    "xcpd__" + NatToString(i)
  }

  /** Distinct rows get distinct compound ids. */
  lemma CpdIdInjective(i: nat, j: nat)
    ensures CpdId(i) == CpdId(j) <==> i == j
  {
    if CpdId(i) == CpdId(j) {
      assert NatToString(i) == CpdId(i)[6..];
      assert NatToString(j) == CpdId(j)[6..];
      NatToStringInjective(i, j);
    }
  }

  /** A row of the assigned table: compound id, molecular formula and the row itself. */
  datatype Compound = Compound(id: string, mf: string, peak: Peak)

  function CompoundAt(t: Table, i: nat): Compound
    requires i < |t.peaks|
  {
    Compound(CpdId(i), MolecularFormula(t.peaks[i].counts), t.peaks[i])
  }

  /** Positions, among the first `k` rows, of the rows `_filter` keeps. */
  function KeptIndices(t: Table, k: nat): (ks: seq<nat>)
    requires k <= |t.peaks|
  {
    if k == 0 then []
    else KeptIndices(t, k - 1) + (if Keep(t.columns, t.peaks[k - 1]) then [k - 1] else [])
  }

  /** `_filter` on the first `k` rows: ids and formulas are assigned to every row, then the
      boolean mask keeps the rows that satisfy Keep, in order. */
  function FilterPrefix(t: Table, k: nat): seq<Compound>
    requires k <= |t.peaks|
  {
    if k == 0 then []
    else FilterPrefix(t, k - 1) + (if Keep(t.columns, t.peaks[k - 1]) then [CompoundAt(t, k - 1)] else [])
  }

  function Filter(t: Table): seq<Compound>
  {
    FilterPrefix(t, |t.peaks|)
  }

  lemma {:induction false} FilterPrefixSpec(t: Table, k: nat)
    requires k <= |t.peaks|
    ensures var ks := KeptIndices(t, k);
      |FilterPrefix(t, k)| == |ks| &&
      (forall j :: 0 <= j < |ks| ==> ks[j] < k && FilterPrefix(t, k)[j] == CompoundAt(t, ks[j])) &&
      (forall j1, j2 :: 0 <= j1 < j2 < |ks| ==> ks[j1] < ks[j2]) &&
      (forall i :: 0 <= i < k ==> (i in ks <==> Keep(t.columns, t.peaks[i])))
  {
    if k > 0 {
      FilterPrefixSpec(t, k - 1);
    }
  }

  /** `_filter` keeps exactly the rows that satisfy Keep, in their input order, each with the id
      of its position in the whole input table and its molecular formula. */
  lemma FilterSpec(t: Table)
    ensures var ks := KeptIndices(t, |t.peaks|);
      |Filter(t)| == |ks| &&
      (forall j :: 0 <= j < |ks| ==> ks[j] < |t.peaks| && Filter(t)[j] == CompoundAt(t, ks[j])) &&
      (forall j1, j2 :: 0 <= j1 < j2 < |ks| ==> ks[j1] < ks[j2]) &&
      (forall i :: 0 <= i < |t.peaks| ==> (i in ks <==> Keep(t.columns, t.peaks[i])))
  {
    FilterPrefixSpec(t, |t.peaks|);
  }

  /** Every id begins with 'x', as the `xcpd__` ids do. */
  ghost predicate XIds(cs: seq<Compound>)
  {
    forall i :: 0 <= i < |cs| ==> |cs[i].id| > 0 && cs[i].id[0] == 'x'
  }

  /** The compounds `_filter` keeps carry `xcpd__` ids. */
  lemma FilterXIds(t: Table)
    ensures XIds(Filter(t))
  {
    FilterSpec(t);
  }

  ghost predicate DistinctIds(cs: seq<Compound>)
  {
    forall i, j :: 0 <= i < j < |cs| ==> cs[i].id != cs[j].id
  }

  /** The compounds `_filter` keeps have pairwise distinct ids. */
  lemma FilterIdsDistinct(t: Table)
    ensures DistinctIds(Filter(t))
  {
    FilterSpec(t);
    var ks := KeptIndices(t, |t.peaks|);
    forall i, j | 0 <= i < j < |Filter(t)|
      ensures Filter(t)[i].id != Filter(t)[j].id
    {
      CpdIdInjective(ks[i], ks[j]);
    }
  }

  /** A dict built from one (formula, value) pair per compound, as in the comprehensions keyed
      by `id2mf[cpd]` and in `mf2id`. */
  function FormulaPairs<V>(cs: seq<Compound>, vs: seq<V>): (ps: seq<(string, V)>)
    requires |cs| == |vs|
    ensures |ps| == |cs| && forall i :: 0 <= i < |cs| ==> ps[i] == (cs[i].mf, vs[i])
  {
    seq(|cs|, i requires 0 <= i < |cs| => (cs[i].mf, vs[i]))
  }

  function FormulaTable<V>(cs: seq<Compound>, vs: seq<V>): seq<(string, V)>
    requires |cs| == |vs|
  {
    FromPairs(FormulaPairs(cs, vs))
  }

  function Formulas(cs: seq<Compound>): (mfs: seq<string>)
    ensures |mfs| == |cs| && forall i :: 0 <= i < |cs| ==> mfs[i] == cs[i].mf
  {
    seq(|cs|, i requires 0 <= i < |cs| => cs[i].mf)
  }

  /** A table keyed by formula has one row per distinct formula, in order of first occurrence;
      the row for a formula shared by several compounds holds the value of the last of them. */
  lemma FormulaTableSpec<V>(cs: seq<Compound>, vs: seq<V>)
    requires |cs| == |vs|
    ensures Keys(FormulaTable(cs, vs)) == Dedup(Formulas(cs))
    ensures forall i :: 0 <= i < |cs| ==>
      var j := LastIndexOf(FormulaPairs(cs, vs), cs[i].mf);
      i <= j && cs[j].mf == cs[i].mf && (forall j' :: j < j' < |cs| ==> cs[j'].mf != cs[i].mf) &&
      cs[i].mf in Keys(FormulaTable(cs, vs)) && Lookup(FormulaTable(cs, vs), cs[i].mf) == vs[j]
  {
    var ps := FormulaPairs(cs, vs);
    FromPairsSpec(ps);
    assert Keys(ps) == Formulas(cs);
    forall i | 0 <= i < |cs|
      ensures cs[i].mf in Keys(ps)
    {
      assert Keys(ps)[i] == cs[i].mf;
    }
  }

  function IdPairs(cs: seq<Compound>): (ps: seq<(string, string)>)
    ensures |ps| == |cs| && forall i :: 0 <= i < |cs| ==> ps[i] == (cs[i].id, cs[i].mf)
  {
    seq(|cs|, i requires 0 <= i < |cs| => (cs[i].id, cs[i].mf))
  }

  function Ids(cs: seq<Compound>): (ids: seq<string>)
    ensures |ids| == |cs| && forall i :: 0 <= i < |cs| ==> ids[i] == cs[i].id
  {
    seq(|cs|, i requires 0 <= i < |cs| => cs[i].id)
  }

  /** `_assigned_tbl.mf.to_dict()`: compound id to formula. */
  function Id2Mf(cs: seq<Compound>): seq<(string, string)>
  {
    FromPairs(IdPairs(cs))
  }

  /** With distinct ids, `id2mf` lists every compound once, in order, with its formula. */
  lemma Id2MfSpec(cs: seq<Compound>)
    requires DistinctIds(cs)
    ensures Keys(Id2Mf(cs)) == Ids(cs)
    ensures forall i :: 0 <= i < |cs| ==> cs[i].id in Keys(Id2Mf(cs)) && Lookup(Id2Mf(cs), cs[i].id) == cs[i].mf
  {
    var ps := IdPairs(cs);
    FromPairsSpec(ps);
    assert Keys(ps) == Ids(cs);
    DedupDistinct(Ids(cs));
    forall i | 0 <= i < |cs|
      ensures cs[i].id in Keys(ps) && LastIndexOf(ps, cs[i].id) == i
    {
      assert Keys(ps)[i] == cs[i].id;
    }
  }

  /** `mf2id`: formula to compound id; a repeated formula keeps the last id. */
  function Mf2Id(cs: seq<Compound>): seq<(string, string)>
  {
    FormulaTable(cs, Ids(cs))
  }

  predicate HasCarbon(c: Compound)
  {
    CompositionOf(c.peak.counts).c != 0.0
  }

  /** The results get_all_thermo_stoich computes for a compound with carbon. */
  function RecordOf(c: Compound, rtLn: NegReal): ThermoStoich
    requires HasCarbon(c)
  {
    AllThermoStoich(CompositionOf(c.peak.counts), rtLn).value
  }

  /** `get_stoichiometry` as a function value, defined for compounds with carbon. */
  function RecordFn(rtLn: NegReal): Compound --> ThermoStoich
  {
    c requires HasCarbon(c) => RecordOf(c, rtLn)
  }

  /** `apply(rowFn, axis=1).to_dict()` on the assigned table, whose index is the compound id:
      each compound's id with the result of `rowFn` on its row, in row order. */
  function MapRows<T>(cs: seq<Compound>, rowFn: Compound --> T): (recs: seq<(string, T)>)
    requires forall i :: 0 <= i < |cs| ==> rowFn.requires(cs[i])
    ensures |recs| == |cs|
  {
    if cs == [] then []
    else MapRows(cs[..|cs| - 1], rowFn) + [(cs[|cs| - 1].id, rowFn(cs[|cs| - 1]))]
  }

  /** The mapped table has one entry per compound, in order, keyed by the compound's id. */
  lemma {:induction false} MapRowsIds<T>(cs: seq<Compound>, rowFn: Compound --> T)
    requires forall i :: 0 <= i < |cs| ==> rowFn.requires(cs[i])
    ensures |MapRows(cs, rowFn)| == |cs|
    ensures forall i :: 0 <= i < |cs| ==> MapRows(cs, rowFn)[i].0 == cs[i].id
  {
    if cs != [] {
      MapRowsIds(cs[..|cs| - 1], rowFn);
    }
  }

  /** The entry of each compound holds the result of `rowFn` on that compound's row. */
  lemma {:induction false} MapRowsSpec<T>(cs: seq<Compound>, rowFn: Compound --> T)
    requires forall i :: 0 <= i < |cs| ==> rowFn.requires(cs[i])
    ensures |MapRows(cs, rowFn)| == |cs|
    ensures forall i :: 0 <= i < |cs| ==> MapRows(cs, rowFn)[i] == (cs[i].id, rowFn(cs[i]))
  {
    if cs != [] {
      MapRowsSpec(cs[..|cs| - 1], rowFn);
    }
  }

  /** `_batch_stoichiometries` when no compound raises: compound id to its results. */
  function Records(cs: seq<Compound>, rtLn: NegReal): seq<(string, ThermoStoich)>
    requires forall i :: 0 <= i < |cs| ==> HasCarbon(cs[i])
  {
    MapRows(cs, RecordFn(rtLn))
  }

  /** One more compound adds its id and results at the end of the batch. */
  lemma RecordsSnoc(cs: seq<Compound>, i: nat, rtLn: NegReal, t: ThermoStoich)
    requires i < |cs| && forall j :: 0 <= j <= i ==> HasCarbon(cs[j])
    requires t == RecordOf(cs[i], rtLn)
    ensures Records(cs[..i + 1], rtLn) == Records(cs[..i], rtLn) + [(cs[i].id, t)]
  {
    assert cs[..i + 1][..i] == cs[..i];
  }

  /** `get_stoichiometry` inside `_batch_stoichiometries`: a new calculator object for the
      compound runs get_all_thermo_stoich, which raises exactly for a compound without carbon. */
  method ComputeRecord(c: Compound, rtLn: NegReal) returns (r: Option<ThermoStoich>)
    ensures r.Some? <==> HasCarbon(c)
    ensures r.Some? ==> r.value == RecordOf(c, rtLn)
  {
    var ts := new ThermoStoichiometry(CompositionOf(c.peak.counts));
    var o := ts.GetAllThermoStoich(rtLn);
    if o.RaisesZeroDivision? {
      return None;
    }
    r := Some(o.value);
  }

  /** `_batch_stoichiometries` on the assigned table `cs`: every compound's results, in order;
      a compound without carbon makes it raise. */
  method BatchStoichiometries(cs: seq<Compound>, rtLn: NegReal) returns (r: Option<seq<(string, ThermoStoich)>>)
    ensures r.Some? <==> forall i :: 0 <= i < |cs| ==> HasCarbon(cs[i])
    ensures r.Some? ==> r.value == Records(cs, rtLn)
  {
    var recs: seq<(string, ThermoStoich)> := [];
    for i := 0 to |cs|
      invariant forall j :: 0 <= j < i ==> HasCarbon(cs[j])
      invariant recs == Records(cs[..i], rtLn)
    {
      var rec := ComputeRecord(cs[i], rtLn);
      if rec.None? {
        return None;
      }
      RecordsSnoc(cs, i, rtLn, rec.value);
      recs := recs + [(cs[i].id, rec.value)];
    }
    assert cs[..|cs|] == cs;
    r := Some(recs);
  }

  function Column<V>(recs: seq<(string, ThermoStoich)>, sel: ThermoStoich -> V): (col: seq<V>)
    ensures |col| == |recs|
  {
    seq(|recs|, i requires 0 <= i < |recs| => sel(recs[i].1))
  }

  function DonorOf(t: ThermoStoich): Vec { t.donor }
  function AcceptorOf(t: ThermoStoich): Vec { t.acceptor }
  function CatOf(t: ThermoStoich): Vec { t.cat }
  function AnO2Of(t: ThermoStoich): Finite<Vec> { t.anO2 }
  function AnHCO3Of(t: ThermoStoich): Finite<Vec> { t.anHCO3 }
  function MetO2Of(t: ThermoStoich): Finite<Vec> { t.teem.metO2 }
  function MetHCO3Of(t: ThermoStoich): Finite<Vec> { t.teem.metHCO3 }
  function ThermoRowOf(t: ThermoStoich): seq<Finite<real>> { ThermoRow(t.teem) }
  function LambdaO2Of(t: ThermoStoich): Finite<real> { t.teem.lambdaO2 }

  /** `assigned_tbl[REQUIRED_COLUMNS]`: the element counts of each compound, in order. */
  function ElementCounts(cs: seq<Compound>): (counts: seq<Counts>)
    ensures |counts| == |cs| && forall i :: 0 <= i < |cs| ==> counts[i] == cs[i].peak.counts
  {
    seq(|cs|, i requires 0 <= i < |cs| => cs[i].peak.counts)
  }

  /** Every formula of a table keyed by the compounds' formulas is a key of `mf2id`. */
  lemma FormulaKeysKnown<V>(cs: seq<Compound>, vs: seq<V>)
    requires |cs| == |vs|
    ensures forall i :: 0 <= i < |FormulaTable(cs, vs)| ==> FormulaTable(cs, vs)[i].0 in Keys(Mf2Id(cs))
  {
    var table := FormulaTable(cs, vs);
    FormulaTableSpec(cs, vs);
    FormulaTableSpec(cs, Ids(cs));
    forall i | 0 <= i < |table|
      ensures table[i].0 in Keys(Mf2Id(cs))
    {
      assert Keys(table)[i] == table[i].0;
    }
  }

  /** `create_rxn_file_fba_model` on a table of reactions keyed by the formulas of `cs`, with
      `mf2id` built from `cs`: every formula of the table is known to `mf2id`, so the rows exist
      exactly when the table is not empty and every reaction in it is finite. */
  method FormulaReactionRows(show: real -> string, cs: seq<Compound>, vs: seq<Finite<Vec>>)
    returns (rows: Option<seq<(string, string)>>)
    requires |cs| == |vs|
    ensures rows.Some? <==>
      |FormulaTable(cs, vs)| > 0 &&
      forall i :: 0 <= i < |FormulaTable(cs, vs)| ==> FormulaTable(cs, vs)[i].1.Finite?
    ensures IsReactionFile(show, Mf2Id(cs), FormulaTable(cs, vs), rows)
  {
    var table := FormulaTable(cs, vs);
    FormulaKeysKnown(cs, vs);
    rows := ReactionRows(show, Mf2Id(cs), table);
  }

  /** The compounds file of an assigned table lists every compound in order, with its
      formula, then the shared species, and no two of its rows share an id. */
  lemma CompoundRowsOfAssigned(cs: seq<Compound>)
    requires DistinctIds(cs) && XIds(cs)
    ensures var rows := CompoundRows(Id2Mf(cs));
      |rows| == |cs| + |Cofactors| && rows[|cs|..] == Cofactors &&
      (forall i :: 0 <= i < |cs| ==> rows[i] == (InCytosol(cs[i].id), cs[i].mf)) &&
      (forall i, j :: 0 <= i < j < |rows| ==> rows[i].0 != rows[j].0)
  {
    Id2MfSpec(cs);
    CompoundRowIdsDistinct(Id2Mf(cs));
  }

  datatype Construction = Constructed(obj: FTICRResult) | RaisesInputTableFormat | RaisesKeyError

  class FTICRResult {
    // Set once by `__init__`.
    const tbl: Table
    const assignedTbl: seq<Compound>
    const id2mf: seq<(string, string)>
    const mf2id: seq<(string, string)>
    const numPeaks: nat
    const numCpds: nat

    // `all_stoich`, set by `run`; None until it has run.
    var allStoich: Option<seq<(string, ThermoStoich)>>

    /** The mapping tables are those of the assigned table, ids are distinct, and the results
        of `run`, once present, have one record per compound in order and the tables made
        from them. */
    ghost predicate Valid()
      reads this
    {
      MappingsValid() && ResultsValid()
    }

    /** The attributes `__init__` sets from the assigned table. */
    ghost predicate MappingsValid()
    {
      DistinctIds(assignedTbl) && XIds(assignedTbl) &&
      id2mf == Id2Mf(assignedTbl) && mf2id == Mf2Id(assignedTbl) && numCpds == |assignedTbl|
    }

    /** The batch results, once present, have one record per compound, in order. */
    ghost predicate ResultsValid()
      reads this`allStoich
    {
      allStoich.Some? ==>
        |allStoich.value| == |assignedTbl| &&
        forall i :: 0 <= i < |assignedTbl| ==> allStoich.value[i].0 == assignedTbl[i].id
    }

    /** A table `run` makes from the batch results: for each compound in order, the entry
        `sel` of its results keyed by its formula.  The attributes are stoichD = ResultTable(DonorOf),
        stoichA = ResultTable(AcceptorOf), stoichCat = ResultTable(CatOf), stoichAn_O2 =
        ResultTable(AnO2Of), stoichAn_HCO3 = ResultTable(AnHCO3Of), stoichMet_O2 =
        ResultTable(MetO2Of), stoichMet_HCO3 = ResultTable(MetHCO3Of) and thermo =
        ResultTable(ThermoRowOf). */
    function ResultTable<V>(sel: ThermoStoich -> V): seq<(string, V)>
      reads this
      requires ResultsValid() && allStoich.Some?
    {
      FormulaTable(assignedTbl, Column(allStoich.value, sel))
    }

    /** `__init__` on a table with the required columns and the Na and C13 columns.  The
        formula of each row comes from AssignFormula, as `tbl.apply(assign_formula)` does. */
    constructor (t: Table)
      requires IsValid(t) && "Na" in t.columns && "C13" in t.columns
      ensures Valid()
      ensures tbl == Table(t.columns, Dedup(t.peaks))
      ensures assignedTbl == Filter(t)
      ensures numPeaks == |t.peaks|
      ensures allStoich == None
    {
      tbl := Table(t.columns, Dedup(t.peaks));
      var kept: seq<Compound> := [];
      for i := 0 to |t.peaks|
        invariant kept == FilterPrefix(t, i)
      {
        var mf := AssignFormula(t.peaks[i].counts);
        if Keep(t.columns, t.peaks[i]) {
          kept := kept + [Compound(CpdId(i), mf, t.peaks[i])];
        }
      }
      FilterIdsDistinct(t);
      FilterXIds(t);
      assignedTbl := kept;
      id2mf := Id2Mf(kept);
      mf2id := Mf2Id(kept);
      numPeaks := |t.peaks|;
      numCpds := |kept|;
      allStoich := None;
    }

    /** Construction as the source does it: `isvalid` fails with an exception, and
        `drop_duplicates` on the Na and C13 columns raises KeyError when either is absent. */
    static method Create(t: Table) returns (r: Construction)
      ensures !IsValid(t) <==> r.RaisesInputTableFormat?
      ensures r.RaisesKeyError? <==> IsValid(t) && ("Na" !in t.columns || "C13" !in t.columns)
      ensures r.Constructed? ==>
        fresh(r.obj) && r.obj.Valid() && r.obj.assignedTbl == Filter(t) && r.obj.numPeaks == |t.peaks| &&
        r.obj.allStoich == None
    {
      if !IsValid(t) {
        return RaisesInputTableFormat;
      }
      if "Na" !in t.columns || "C13" !in t.columns {
        return RaisesKeyError;
      }
      var o := new FTICRResult(t);
      r := Constructed(o);
    }

    /** `run`: computes every compound's results, in order; the tables keyed by formula are
        ResultTable of them.  A compound without carbon makes the batch raise, and then
        nothing changes. */
    method Run(rtLn: NegReal) returns (ok: bool)
      requires Valid()
      modifies this`allStoich
      ensures Valid()
      ensures ok <==> forall i :: 0 <= i < |assignedTbl| ==> HasCarbon(assignedTbl[i])
      ensures !ok ==> allStoich == old(allStoich)
      ensures ok ==> allStoich == Some(Records(assignedTbl, rtLn))
    {
      var batch := BatchStoichiometries(assignedTbl, rtLn);
      if batch.None? {
        return false;
      }
      MapRowsIds(assignedTbl, RecordFn(rtLn));
      allStoich := batch;
      ok := true;
    }

    /** `create_cpd_file_fba_model`'s rows: one per entry of `id2mf`, then the shared species
        (appended one by one in the source, here in one step).  They are every compound of the assigned table in order, with its
        formula, then the shared species, and no two rows share an id. */
    method CompoundFileRows() returns (rows: seq<(string, string)>)
      requires MappingsValid()
      ensures rows == CompoundRows(id2mf)
      ensures |rows| == |assignedTbl| + |Cofactors| && rows[|assignedTbl|..] == Cofactors
      ensures forall i :: 0 <= i < |assignedTbl| ==> rows[i] == (InCytosol(assignedTbl[i].id), assignedTbl[i].mf)
      ensures forall i, j :: 0 <= i < j < |rows| ==> rows[i].0 != rows[j].0
    {
      rows := seq(|id2mf|, i requires 0 <= i < |id2mf| => (InCytosol(id2mf[i].0), Lookup(id2mf, id2mf[i].0)));
      rows := rows + Cofactors;
      CompoundRowsOfAssigned(assignedTbl);
    }

    /** `create_rxn_file_fba_model` on `stoichMet_O2`, the table `create_fba_model_files`
        writes: before `run` the attribute is missing (None); afterwards every formula of the
        table is known to `mf2id`, so the rows exist exactly when the table is not empty and
        every metabolic reaction is finite, one per formula in table order. */
    method ReactionFileRows(show: real -> string) returns (rows: Option<seq<(string, string)>>)
      requires Valid()
      ensures allStoich.None? ==> rows == None
      ensures allStoich.Some? ==>
        (rows.Some? <==>
           |ResultTable(MetO2Of)| > 0 &&
           forall i :: 0 <= i < |ResultTable(MetO2Of)| ==> ResultTable(MetO2Of)[i].1.Finite?) &&
        IsReactionFile(show, mf2id, ResultTable(MetO2Of), rows)
    {
      if allStoich.None? {
        return None;
      }
      assert ResultTable(MetO2Of) == FormulaTable(assignedTbl, Column(allStoich.value, MetO2Of));
      rows := FormulaReactionRows(show, assignedTbl, Column(allStoich.value, MetO2Of));
    }

    /** `average_by_lambda_bins`: the two assertions come first; before `run` there is no
        `thermo` attribute; then the bins are made from each compound's lambda_O2 (looked up in
        `all_stoich` by the compound's id, which is its position since ids follow the assigned
        table) and from the lambda_O2 column of `thermo`, which ThermoRow places at index 11,
        that is ResultTable(LambdaO2Of).  `pLo` and `pHi` are that column's `cutoff` and
        `100 - cutoff` percentiles, used only when the cutoff is positive. */
    method AverageByLambdaBins(nBins: int, cutoff: real, pLo: real, pHi: real)
      returns (r: Result<seq<BinRow>, BinError>)
      requires Valid()
      ensures allStoich.None? ==>
        r == if !(0.0 <= cutoff < 100.0) then Failure(CutoffOutOfRange)
             else if nBins <= 0 then Failure(NonPositiveBins)
             else Failure(NotRun)
      ensures allStoich.Some? ==>
        r == Binning.AverageByLambdaBins(ElementCounts(assignedTbl), Column(allStoich.value, LambdaO2Of),
                                         Values(ResultTable(LambdaO2Of)), nBins, cutoff, pLo, pHi)
    {
      if !(0.0 <= cutoff < 100.0) {
        return Failure(CutoffOutOfRange);
      }
      if nBins <= 0 {
        return Failure(NonPositiveBins);
      }
      if allStoich.None? {
        return Failure(NotRun);
      }
      var lambdaDist := Values(ResultTable(LambdaO2Of));
      var counts := ElementCounts(assignedTbl);
      var lambdas := Column(allStoich.value, LambdaO2Of);
      r := Binning.AverageByLambdaBins(counts, lambdas, lambdaDist, nBins, cutoff, pLo, pHi);
    }
  }
}
