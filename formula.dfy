/** Molecular-formula strings for CHNOPS compositions (`assign_formula` in `FTICRResult._filter`). */
module Formula {
  import opened Common
  import opened Text

  /** CHEMICAL_ELEMENTS, in this order; element columns of a table follow it too. */
  const Elements: string := "CHNOPS"

  /** One count per element of `Elements`. */
  type Counts = s: seq<int> | |s| == 6 witness [0, 0, 0, 0, 0, 0]

  predicate NonNegative(counts: Counts)
  {
    forall i :: 0 <= i < 6 ==> counts[i] >= 0
  }

  /** What one element adds to the formula: nothing for a count that is not positive, the bare
      symbol for a count of 1, the symbol followed by the decimal count otherwise. */
  function Part(symbol: char, n: int): string
  {
    if n <= 0 then "" else if n == 1 then [symbol] else [symbol] + NatToString(n)
  }

  /** The string accumulated after the loop has visited the first `k` elements. */
  function FormulaPrefix(counts: Counts, k: nat): string
    requires k <= 6
  {
    if k == 0 then "" else FormulaPrefix(counts, k - 1) + Part(Elements[k - 1], counts[k - 1])
  }

  function MolecularFormula(counts: Counts): string
  {
    FormulaPrefix(counts, 6)
  }

  /** `assign_formula`: walks the elements in order and appends each one's part. */
  method AssignFormula(counts: Counts) returns (mf: string)
    ensures mf == MolecularFormula(counts)
  {
    mf := "";
    for k := 0 to 6
      invariant mf == FormulaPrefix(counts, k)
    {
      var ele := Elements[k];
      ghost var before := mf;
      if counts[k] > 0 {
        if counts[k] == 1 {
          mf := mf + [ele];
        } else {
          mf := mf + ([ele] + NatToString(counts[k]));
        }
      }
      assert mf == before + Part(ele, counts[k]);
    }
  }

  // ---------------------------------------------------------------------------------------
  // Reading a formula back: a reference parser, used to show that the rendering loses nothing
  // for non-negative counts.

  /** The parts of the elements from index `k` on. */
  function FormulaSuffix(counts: Counts, k: nat): string
    requires k <= 6
    decreases 6 - k
  {
    if k == 6 then "" else Part(Elements[k], counts[k]) + FormulaSuffix(counts, k + 1)
  }

  /** The longest prefix of `s` made of digits. */
  function DigitPrefix(s: string): (ds: string)
    ensures AllDigits(ds) && |ds| <= |s| && ds == s[..|ds|]
  {
    if s != [] && IsDigit(s[0]) then [s[0]] + DigitPrefix(s[1..]) else []
  }

  /** Reads the counts of `Elements[k..]`, in order, each element optionally present and
      optionally followed by its count (an absent element counts 0, a bare symbol 1). */
  function ParseFrom(s: string, k: nat): (r: Option<seq<int>>)
    requires k <= 6
    ensures r.Some? ==> |r.value| == 6 - k
    decreases 6 - k
  {
    if k == 6 then (if s == "" then Some([]) else None)
    else if s != "" && s[0] == Elements[k] then
      var ds := DigitPrefix(s[1..]);
      var n := if ds == "" then 1 else ParseNat(ds);
      var rest := ParseFrom(s[1 + |ds|..], k + 1);
      if rest.Some? then Some([n] + rest.value) else None
    else
      var rest := ParseFrom(s, k + 1);
      if rest.Some? then Some([0] + rest.value) else None
  }

  function ParseFormula(s: string): (r: Option<Counts>)
  {
    var p := ParseFrom(s, 0);
    if p.Some? then var counts: Counts := p.value; Some(counts) else None
  }

  lemma ElementsDistinct(i: nat, j: nat)
    requires i < j < 6
    ensures Elements[i] != Elements[j] && !IsDigit(Elements[i]) && !IsDigit(Elements[j])
  {
  }

  /** The formula splits after any element into the parts before and after it. */
  lemma {:induction false} PrefixSuffix(counts: Counts, k: nat)
    requires k <= 6
    ensures FormulaPrefix(counts, k) + FormulaSuffix(counts, k) == FormulaSuffix(counts, 0)
  {
    if k > 0 {
      PrefixSuffix(counts, k - 1);
      var p := FormulaPrefix(counts, k - 1);
      var x := Part(Elements[k - 1], counts[k - 1]);
      var s := FormulaSuffix(counts, k);
      assert FormulaPrefix(counts, k) == p + x;
      assert FormulaSuffix(counts, k - 1) == x + s;
      assert (p + x) + s == p + (x + s);
    }
  }

  /** A non-empty suffix starts with the symbol of one of its elements. */
  lemma {:induction false} SuffixHead(counts: Counts, k: nat)
    requires k <= 6
    ensures FormulaSuffix(counts, k) == "" || exists j :: k <= j < 6 && FormulaSuffix(counts, k)[0] == Elements[j]
    decreases 6 - k
  {
    if k < 6 && counts[k] <= 0 {
      SuffixHead(counts, k + 1);
    }
  }

  lemma {:induction false} DigitPrefixOf(ds: string, rest: string)
    requires AllDigits(ds) && (rest == "" || !IsDigit(rest[0]))
    ensures DigitPrefix(ds + rest) == ds
  {
    if ds != [] {
      assert (ds + rest)[1..] == ds[1..] + rest;
      DigitPrefixOf(ds[1..], rest);
    }
  }

  /** One step of the parser over an element that is present. */
  lemma ParsePresent(s: string, k: nat, digits: string, rest: string, n: int, tail: seq<int>)
    requires k < 6 && AllDigits(digits) && (rest == "" || !IsDigit(rest[0]))
    requires s == [Elements[k]] + digits + rest
    requires n == if digits == "" then 1 else ParseNat(digits)
    requires ParseFrom(rest, k + 1) == Some(tail)
    ensures ParseFrom(s, k) == Some([n] + tail)
  {
    assert s[1..] == digits + rest;
    DigitPrefixOf(digits, rest);
    assert s[1 + |digits|..] == rest;
  }

  /** One step of the parser over an element that is absent. */
  lemma ParseAbsent(s: string, k: nat, tail: seq<int>)
    requires k < 6 && (s == "" || s[0] != Elements[k])
    requires ParseFrom(s, k + 1) == Some(tail)
    ensures ParseFrom(s, k) == Some([0] + tail)
  {
  }

  lemma {:induction false} ParseSuffix(counts: Counts, k: nat)
    requires k <= 6 && NonNegative(counts)
    ensures ParseFrom(FormulaSuffix(counts, k), k) == Some(counts[k..])
    decreases 6 - k
  {
    if k < 6 {
      ParseSuffix(counts, k + 1);
      var rest := FormulaSuffix(counts, k + 1);
      var tail := counts[k + 1..];
      SuffixHead(counts, k + 1);
      assert rest == "" || (rest[0] != Elements[k] && !IsDigit(rest[0])) by {
        if rest != "" {
          var j :| k + 1 <= j < 6 && rest[0] == Elements[j];
          ElementsDistinct(k, j);
        }
      }
      assert counts[k..] == [counts[k]] + tail;
      var s := FormulaSuffix(counts, k);
      assert s == Part(Elements[k], counts[k]) + rest;
      if counts[k] == 0 {
        assert s == rest;
        ParseAbsent(s, k, tail);
      } else if counts[k] == 1 {
        assert s == [Elements[k]] + "" + rest;
        ParsePresent(s, k, "", rest, 1, tail);
      } else {
        var digits := NatToString(counts[k]);
        assert s == [Elements[k]] + digits + rest;
        ParseNatToString(counts[k]);
        ParsePresent(s, k, digits, rest, counts[k], tail);
      }
    }
  }

  lemma WholePrefix(counts: Counts)
    ensures FormulaPrefix(counts, 6) == FormulaSuffix(counts, 0)
  {
    PrefixSuffix(counts, 6);
    assert FormulaSuffix(counts, 6) == "";
  }

  lemma ParseWhole(counts: Counts)
    requires NonNegative(counts)
    ensures ParseFrom(FormulaSuffix(counts, 0), 0) == Some(counts)
  {
    ParseSuffix(counts, 0);
    assert counts[0..] == counts;
  }

  /** Round trip: reading the rendered formula of a non-negative composition gives it back. */
  lemma FormulaRoundTrip(counts: Counts)
    requires NonNegative(counts)
    ensures ParseFormula(MolecularFormula(counts)) == Some(counts)
  {
    WholePrefix(counts);
    ParseWhole(counts);
  }

  /** Distinct non-negative compositions have distinct formulas. */
  lemma FormulaInjective(c1: Counts, c2: Counts)
    requires NonNegative(c1) && NonNegative(c2)
    ensures MolecularFormula(c1) == MolecularFormula(c2) <==> c1 == c2
  {
    FormulaRoundTrip(c1);
    FormulaRoundTrip(c2);
  }

  /** A count that is not positive leaves no trace in the formula, so compositions that differ
      only there (a negative count against zero) share one formula. */
  lemma {:induction false} FormulaOmitsNonPositive(counts: Counts, i: nat, k: nat)
    requires i < 6 && counts[i] <= 0 && k <= 6
    ensures FormulaPrefix(counts, k) == FormulaPrefix(counts[i := 0], k)
  {
    if k > 0 {
      FormulaOmitsNonPositive(counts, i, k - 1);
    }
  }
}
