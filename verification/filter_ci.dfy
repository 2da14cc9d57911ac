/**
  `filtered_data` of penguins/app.py: four masks applied one after another
  (species, island and sex compared after lower-casing both sides, then the
  inclusive mass range), and the whole unfiltered table returned when no
  row survives.
 */
module CaseInsensitiveFilter {
  import opened Wrappers
  import opened Frames
  import opened Text
  import opened Penguins

  /** `species.str.lower().isin(...)`: some checked species equals the row's up to case. */
  predicate SpeciesOk(r: Record, sel: Selection): (ok: bool)
    ensures ok <==> exists c :: c in sel.species && Lower(c) == Lower(r.species)
  {
    MatchesIgnoringCaseIff(r.species, sel.species);
    MatchesIgnoringCase(r.species, sel.species)
  }

  /** `island.str.lower().isin(...)`: some checked island equals the row's up to case. */
  predicate IslandOk(r: Record, sel: Selection): (ok: bool)
    ensures ok <==> exists c :: c in sel.islands && Lower(c) == Lower(r.island)
  {
    MatchesIgnoringCaseIff(r.island, sel.islands);
    MatchesIgnoringCase(r.island, sel.islands)
  }

  /**
    A missing sex lower-cases to NaN, which is never in the list of chosen
    strings; a present one passes when some checked sex equals it up to case.
   */
  predicate SexOk(r: Record, sel: Selection): (ok: bool)
    ensures ok <==> r.sex.Some? && exists c :: c in sel.sexes && Lower(c) == Lower(r.sex.value)
  {
    if r.sex.None? then false
    else
      MatchesIgnoringCaseIff(r.sex.value, sel.sexes);
      MatchesIgnoringCase(r.sex.value, sel.sexes)
  }

  /** The four tests together. */
  predicate Passes(r: Record, sel: Selection) {
    SpeciesOk(r, sel) && IslandOk(r, sel) && SexOk(r, sel) && MassOk(r, sel)
  }

  /** The four tests as row tests (the boolean series each line of the source builds). */
  function SpeciesMask(sel: Selection): Record -> bool { r => SpeciesOk(r, sel) }
  function IslandMask(sel: Selection): Record -> bool { r => IslandOk(r, sel) }
  function SexMask(sel: Selection): Record -> bool { r => SexOk(r, sel) }
  function MassMask(sel: Selection): Record -> bool { r => MassOk(r, sel) }
  function PassesMask(sel: Selection): Record -> bool { r => Passes(r, sel) }

  /**
    The table after the four masks, in the order the source applies them:
    only rows of the table that pass all four tests are left.
   */
  function Masked(df: seq<Record>, sel: Selection): (kept: seq<Record>)
    ensures |kept| <= |df|
    ensures forall r :: r in kept ==> r in df && Passes(r, sel)
  {
    var bySpecies := Where(df, SpeciesMask(sel));
    var byIsland := Where(bySpecies, IslandMask(sel));
    var bySex := Where(byIsland, SexMask(sel));
    Where(bySex, MassMask(sel))
  }

  /**
    `filtered_data()`: the masked table, or the whole table when the mask
    keeps nothing; so the result draws only on the table's rows and is
    never empty unless the table is.
   */
  function FilteredData(df: seq<Record>, sel: Selection): (result: seq<Record>)
    ensures |result| <= |df|
    ensures forall r :: r in result ==> r in df
    ensures result == [] ==> df == []
  {
    var kept := Masked(df, sel);
    if kept != [] then kept else df
  }

  /** Applying the four masks in sequence equals one mask with their conjunction. */
  lemma MaskedIsConjunction(df: seq<Record>, sel: Selection)
    ensures Masked(df, sel) == Where(df, PassesMask(sel))
  {
    var tests := Tests(sel);
    FourMasks(df, tests[0], tests[1], tests[2], tests[3]);
    forall r | r in df ensures AllOf(tests)(r) == PassesMask(sel)(r) {
      assert AllOf(tests)(r) == (tests[0](r) && tests[1](r) && tests[2](r) && tests[3](r));
    }
    WhereAgree(df, AllOf(tests), PassesMask(sel));
  }

  /** The four row tests, in the order the source applies them. */
  function Tests(sel: Selection): seq<Record -> bool> {
    [SpeciesMask(sel), IslandMask(sel), SexMask(sel), MassMask(sel)]
  }

  /**
    The masks may be applied in any order, any of them repeated, with the
    same result as the source's order.
   */
  lemma MaskOrderIrrelevant(df: seq<Record>, sel: Selection, order: seq<Record -> bool>)
    requires forall f :: f in order <==> f in Tests(sel)
    ensures WhereAll(df, order) == Masked(df, sel)
  {
    var tests := Tests(sel);
    WhereAllOrderFree(df, order, tests);
    WhereAllIsConjunction(df, tests);
    FourMasks(df, tests[0], tests[1], tests[2], tests[3]);
  }

  /** The mask keeps a row if and only if the row is in the table and passes all four tests. */
  lemma MaskedMembership(df: seq<Record>, sel: Selection, r: Record)
    ensures r in Masked(df, sel) <==> r in df && Passes(r, sel)
  {
    MaskedIsConjunction(df, sel);
    KeptIff(df, PassesMask(sel), r);
  }

  /** The mask keeps nothing exactly when no row of the table passes all four tests. */
  lemma MaskedEmptyIff(df: seq<Record>, sel: Selection)
    ensures Masked(df, sel) == [] <==> forall r :: r in df ==> !Passes(r, sel)
  {
    MaskedIsConjunction(df, sel);
    WhereEmpty(df, PassesMask(sel));
  }

  /**
    When some row passes, every returned row has its species and island
    among the chosen ones up to case, a present sex among the chosen ones up
    to case, and a present mass in `[lo, hi]`.
   */
  lemma KeptRowsSatisfySelection(df: seq<Record>, sel: Selection)
    requires exists x :: x in df && Passes(x, sel)
    ensures forall r :: r in FilteredData(df, sel) ==>
              && Lower(r.species) in LowerAll(sel.species)
              && Lower(r.island) in LowerAll(sel.islands)
              && r.sex.Some? && Lower(r.sex.value) in LowerAll(sel.sexes)
              && r.mass.Some? && sel.lo <= r.mass.value <= sel.hi
  {
    MaskedEmptyIff(df, sel);
    forall r | r in FilteredData(df, sel)
      ensures Passes(r, sel)
    {
      MaskedMembership(df, sel, r);
    }
  }

  /**
    When some row passes, a row is returned if and only if it is in the
    table and passes all four tests.
   */
  lemma FilteredDataMembership(df: seq<Record>, sel: Selection, r: Record)
    requires exists x :: x in df && Passes(x, sel)
    ensures r in FilteredData(df, sel) <==> r in df && Passes(r, sel)
  {
    MaskedEmptyIff(df, sel);
    MaskedMembership(df, sel, r);
  }

  /**
    The result in full: when some row passes, exactly the passing rows in
    their original order (repeats included); otherwise the whole table.
   */
  lemma FilteredDataIsConjunction(df: seq<Record>, sel: Selection)
    ensures FilteredData(df, sel)
         == if exists r :: r in df && Passes(r, sel) then Where(df, PassesMask(sel)) else df
  {
    MaskedEmptyIff(df, sel);
    MaskedIsConjunction(df, sel);
  }

  /** When no row passes all four tests, the whole unfiltered table comes back. */
  lemma FallbackToWholeTable(df: seq<Record>, sel: Selection)
    requires forall r :: r in df ==> !Passes(r, sel)
    ensures FilteredData(df, sel) == df
  {
    MaskedEmptyIff(df, sel);
  }

  /** A selection with an empty list or with `lo > hi` gives back the whole table. */
  lemma DegenerateSelectionFallsBack(df: seq<Record>, sel: Selection)
    requires Degenerate(sel)
    ensures FilteredData(df, sel) == df
  {
    forall r | r in df ensures !Passes(r, sel) {
    }
    FallbackToWholeTable(df, sel);
  }

  /** The result, in either case, is an order-preserving subsequence of the table. */
  lemma FilteredDataIsSubsequence(df: seq<Record>, sel: Selection)
    ensures IsSubsequence(FilteredData(df, sel), df)
  {
    MaskedIsConjunction(df, sel);
    WhereIsSubsequence(df, PassesMask(sel));
    SubsequenceOfSelf(df);
  }

  /** Filtering the result again with the same selection returns it unchanged, fallback included. */
  lemma FilteredDataIdempotent(df: seq<Record>, sel: Selection)
    ensures FilteredData(FilteredData(df, sel), sel) == FilteredData(df, sel)
  {
    var kept := Masked(df, sel);
    if kept != [] {
      MaskedIsConjunction(df, sel);
      MaskedIsConjunction(kept, sel);
      WhereIdempotent(df, PassesMask(sel));
    }
  }

  /** Widening the selection never removes a row from the mask's result. */
  lemma MaskedMonotone(df: seq<Record>, narrow: Selection, wide: Selection)
    requires Widens(narrow, wide)
    ensures IsSubsequence(Masked(df, narrow), Masked(df, wide))
  {
    forall r | r in df && Passes(r, narrow) ensures Passes(r, wide) {
      MatchesIgnoringCaseIff(r.species, narrow.species);
      MatchesIgnoringCaseIff(r.species, wide.species);
      MatchesIgnoringCaseIff(r.island, narrow.islands);
      MatchesIgnoringCaseIff(r.island, wide.islands);
      MatchesIgnoringCaseIff(r.sex.value, narrow.sexes);
      MatchesIgnoringCaseIff(r.sex.value, wide.sexes);
    }
    MaskedIsConjunction(df, narrow);
    MaskedIsConjunction(df, wide);
    WhereMonotone(df, PassesMask(narrow), PassesMask(wide));
  }

  /** Two sample rows and two selections, the second widening the first by "Adelie". */
  const AdelieRow := Record("Adelie", "Biscoe", Some("male"), Some(3750))
  const GentooRow := Record("Gentoo", "Biscoe", Some("female"), Some(5000))
  const Narrow := Selection(["Chinstrap"], ["Biscoe"], ["male", "female"], 2500, 6000)
  const Wide := Selection(["Chinstrap", "Adelie"], ["Biscoe"], ["male", "female"], 2500, 6000)

  /** No sample row is a Chinstrap, so the narrow selection falls back to the whole table. */
  lemma NarrowFallsBack()
    ensures FilteredData([AdelieRow, GentooRow], Narrow) == [AdelieRow, GentooRow]
  {
    assert Lower("Chinstrap")[0] == 'c' && Lower("Adelie")[0] == 'a' && Lower("Gentoo")[0] == 'g';
    assert LowerAll(Narrow.species) == [Lower("Chinstrap")];
    assert !Passes(AdelieRow, Narrow) && !Passes(GentooRow, Narrow);
    FallbackToWholeTable([AdelieRow, GentooRow], Narrow);
  }

  /** The wide selection keeps the Adelie row only. */
  lemma WideKeepsAdelie()
    ensures FilteredData([AdelieRow, GentooRow], Wide) == [AdelieRow]
  {
    var df := [AdelieRow, GentooRow];
    assert Lower("Chinstrap")[0] == 'c' && Lower("Adelie")[0] == 'a' && Lower("Gentoo")[0] == 'g';
    assert LowerAll(Wide.species) == [Lower("Chinstrap"), Lower("Adelie")];
    assert LowerAll(Wide.islands) == [Lower("Biscoe")];
    assert LowerAll(Wide.sexes) == [Lower("male"), Lower("female")];
    assert Passes(AdelieRow, Wide) && !Passes(GentooRow, Wide);
    MaskedIsConjunction(df, Wide);
    assert df[1..] == [GentooRow];
    assert Where(df[1..], PassesMask(Wide)) == [];
  }

  /**
    The returned value is not monotone in the selection: widening the
    species list turns the fallback (both rows) into a single row.
   */
  lemma FilteredDataNotMonotone()
    ensures Widens(Narrow, Wide)
    ensures !IsSubsequence(FilteredData([AdelieRow, GentooRow], Narrow), FilteredData([AdelieRow, GentooRow], Wide))
  {
    NarrowFallsBack();
    WideKeepsAdelie();
    if IsSubsequence([AdelieRow, GentooRow], [AdelieRow]) {
      SubsequenceNoLonger([AdelieRow, GentooRow], [AdelieRow]);
    }
  }

  /** A lower-case choice "adelie" keeps a row stored as "Adelie". */
  lemma CaseInsensitiveMatch()
    ensures var r := Record("Adelie", "Biscoe", Some("male"), Some(3750));
            var sel := Selection(["adelie"], ["Biscoe"], ["Male"], 3000, 4000);
            FilteredData([r], sel) == [r]
  {
    var r := Record("Adelie", "Biscoe", Some("male"), Some(3750));
    var sel := Selection(["adelie"], ["Biscoe"], ["Male"], 3000, 4000);
    assert Lower("adelie") == Lower("Adelie");
    assert Lower("male") == Lower("Male");
    assert LowerAll(sel.species) == [Lower("adelie")];
    assert LowerAll(sel.islands) == [Lower("Biscoe")];
    assert LowerAll(sel.sexes) == [Lower("Male")];
    assert Passes(r, sel);
    MaskedIsConjunction([r], sel);
    assert Where([r], PassesMask(sel)) == [r] by {
      assert [r][1..] == [];
    }
  }

  /**
    A row whose mass sits exactly on either end of the slider, and that
    passes the other three tests, is returned.
   */
  lemma BoundaryMassKept(r: Record, df: seq<Record>, sel: Selection)
    requires r in df && SpeciesOk(r, sel) && IslandOk(r, sel) && SexOk(r, sel)
    requires r.mass == Some(sel.lo) || r.mass == Some(sel.hi)
    requires sel.lo <= sel.hi
    ensures r in FilteredData(df, sel)
  {
    FilteredDataMembership(df, sel, r);
  }
}
