/**
  `filtered_data` of app.py: four masks applied one after another
  (species, island and sex by exact, case-sensitive membership, then the
  inclusive mass range), and an empty table returned when no row survives.
 */
module ExactFilter {
  import opened Wrappers
  import opened Frames
  import opened Penguins

  predicate SpeciesOk(r: Record, sel: Selection) {
    r.species in sel.species
  }

  predicate IslandOk(r: Record, sel: Selection) {
    r.island in sel.islands
  }

  /** `isin` never matches a missing sex. */
  predicate SexOk(r: Record, sel: Selection) {
    r.sex.Some? && r.sex.value in sel.sexes
  }

  /** The four tests together. */
  predicate Passes(r: Record, sel: Selection) {
    SpeciesOk(r, sel) && IslandOk(r, sel) && SexOk(r, sel) && MassOk(r, sel)
  }

  /** The four tests as row tests (the boolean series each line of the source builds). */
  function SpeciesMask(sel: Selection): Record -> bool { r => SpeciesOk(r, sel) }
  function IslandMask(sel: Selection): Record -> bool { r => IslandOk(r, sel) }
  function SexMask(sel: Selection): Record -> bool { r => SexOk(r, sel) }
  function MassMask(sel: Selection): Record -> bool { r => MassOk(r, sel) }
  function PassesMask(sel: Selection): Record -> bool { r => Passes(r, sel) }

  /**
    The table after the four masks, in the order the source applies them:
    only rows of the table that pass all four tests are left.
   */
  function Masked(df: seq<Record>, sel: Selection): (kept: seq<Record>)
    ensures |kept| <= |df|
    ensures forall r :: r in kept ==> r in df && Passes(r, sel)
  {
    var bySpecies := Where(df, SpeciesMask(sel));
    var byIsland := Where(bySpecies, IslandMask(sel));
    var bySex := Where(byIsland, SexMask(sel));
    Where(bySex, MassMask(sel))
  }

  /**
    `filtered_data()`: the masked table, or a fresh empty table when the
    mask keeps nothing; either way only rows of the table that pass all
    four tests are returned.
   */
  function FilteredData(df: seq<Record>, sel: Selection): (result: seq<Record>)
    ensures |result| <= |df|
    ensures forall r :: r in result ==> r in df && Passes(r, sel)
  {
    var kept := Masked(df, sel);
    if kept == [] then [] else kept
  }

  /** A row is returned if and only if it is in the table and passes all four tests. */
  lemma FilteredDataMembership(df: seq<Record>, sel: Selection, r: Record)
    ensures r in FilteredData(df, sel) <==> r in df && Passes(r, sel)
  {
    FilteredDataIsConjunction(df, sel);
    KeptIff(df, PassesMask(sel), r);
  }

  /**
    Every returned row has its species and island in the chosen lists by
    exact string equality, a present sex in the chosen list, and a present
    mass in `[lo, hi]`.
   */
  lemma KeptRowsSatisfySelection(df: seq<Record>, sel: Selection)
    ensures forall r :: r in FilteredData(df, sel) ==>
              && r.species in sel.species
              && r.island in sel.islands
              && r.sex.Some? && r.sex.value in sel.sexes
              && r.mass.Some? && sel.lo <= r.mass.value <= sel.hi
  {
    forall r | r in FilteredData(df, sel)
      ensures Passes(r, sel)
    {
      FilteredDataMembership(df, sel, r);
    }
  }

  /**
    The result is exactly the rows of the table that pass all four tests,
    in their original order: a subsequence, and the one the conjunction selects.
   */
  lemma FilteredDataIsConjunction(df: seq<Record>, sel: Selection)
    ensures FilteredData(df, sel) == Where(df, PassesMask(sel))
    ensures IsSubsequence(FilteredData(df, sel), df)
  {
    var tests := [SpeciesMask(sel), IslandMask(sel), SexMask(sel), MassMask(sel)];
    FourMasks(df, tests[0], tests[1], tests[2], tests[3]);
    assert Masked(df, sel) == Where(df, AllOf(tests));
    forall r | r in df ensures AllOf(tests)(r) == PassesMask(sel)(r) {
      assert AllOf(tests)(r) == (tests[0](r) && tests[1](r) && tests[2](r) && tests[3](r));
    }
    WhereAgree(df, AllOf(tests), PassesMask(sel));
    assert FilteredData(df, sel) == Masked(df, sel);
    WhereIsSubsequence(df, PassesMask(sel));
  }

  /** The result is empty exactly when no row passes; there is no fallback to the table. */
  lemma EmptyIffNothingPasses(df: seq<Record>, sel: Selection)
    ensures FilteredData(df, sel) == [] <==> forall r :: r in df ==> !Passes(r, sel)
  {
    FilteredDataIsConjunction(df, sel);
    WhereEmpty(df, PassesMask(sel));
  }

  /** A selection with an empty list or with `lo > hi` gives an empty result. */
  lemma DegenerateSelectionIsEmpty(df: seq<Record>, sel: Selection)
    requires Degenerate(sel)
    ensures FilteredData(df, sel) == []
  {
    EmptyIffNothingPasses(df, sel);
  }

  /** Filtering the result again with the same selection returns it unchanged. */
  lemma FilteredDataIdempotent(df: seq<Record>, sel: Selection)
    ensures FilteredData(FilteredData(df, sel), sel) == FilteredData(df, sel)
  {
    FilteredDataIsConjunction(df, sel);
    FilteredDataIsConjunction(FilteredData(df, sel), sel);
    WhereIdempotent(df, PassesMask(sel));
  }

  /** Widening the selection never removes a row from the result. */
  lemma FilteredDataMonotone(df: seq<Record>, narrow: Selection, wide: Selection)
    requires Widens(narrow, wide)
    ensures IsSubsequence(FilteredData(df, narrow), FilteredData(df, wide))
  {
    FilteredDataIsConjunction(df, narrow);
    FilteredDataIsConjunction(df, wide);
    WhereMonotone(df, PassesMask(narrow), PassesMask(wide));
  }

  /**
    For a row that passes the other three tests, the slider alone decides:
    it is returned exactly when its mass is present and lies in `[lo, hi]`,
    both ends included.
   */
  lemma MassRangeDecides(r: Record, df: seq<Record>, sel: Selection)
    requires r in df && SpeciesOk(r, sel) && IslandOk(r, sel) && SexOk(r, sel)
    ensures r in FilteredData(df, sel) <==> r.mass.Some? && sel.lo <= r.mass.value <= sel.hi
  {
    FilteredDataMembership(df, sel, r);
  }

  /** Two sample rows and a selection that checks Adelie, both islands, both sexes and 2500..6000 g. */
  const AdelieMale := Record("Adelie", "Biscoe", Some("Male"), Some(3750))
  const GentooFemale := Record("Gentoo", "Dream", Some("Female"), Some(5000))
  const AdelieAnywhere := Selection(["Adelie"], ["Biscoe", "Dream"], ["Male", "Female"], 2500, 6000)

  /** Of the two sample rows, only the Adelie one is returned. */
  lemma TwoRowScenario()
    ensures FilteredData([AdelieMale, GentooFemale], AdelieAnywhere) == [AdelieMale]
  {
    var df := [AdelieMale, GentooFemale];
    assert Passes(AdelieMale, AdelieAnywhere);
    assert !Passes(GentooFemale, AdelieAnywhere) by {
      assert "Gentoo"[0] != "Adelie"[0];
    }
    FilteredDataIsConjunction(df, AdelieAnywhere);
    assert df[1..] == [GentooFemale];
    assert Where(df[1..], PassesMask(AdelieAnywhere)) == [];
  }
}
