/**
  How the two `filtered_data` variants relate: the exact test of app.py
  never lets through a row the case-insensitive test of penguins/app.py
  stops, the two coincide on data already in lower case, and the exact test
  drops every row when the sidebar's sex labels are capitalised but the
  table's are not.
 */
module Variants {
  import opened Wrappers
  import opened Frames
  import opened Text
  import opened Penguins
  import ExactFilter
  import CaseInsensitiveFilter

  /** A row passing the exact tests also passes the case-insensitive ones. */
  lemma ExactPassImpliesCaseInsensitivePass(r: Record, sel: Selection)
    requires ExactFilter.Passes(r, sel)
    ensures CaseInsensitiveFilter.Passes(r, sel)
  {
    ExactMatchIgnoringCase(r.species, sel.species);
    ExactMatchIgnoringCase(r.island, sel.islands);
    ExactMatchIgnoringCase(r.sex.value, sel.sexes);
  }

  /** The exact result is a subsequence of the case-insensitive mask's result. */
  lemma ExactWithinCaseInsensitive(df: seq<Record>, sel: Selection)
    ensures IsSubsequence(ExactFilter.FilteredData(df, sel), CaseInsensitiveFilter.Masked(df, sel))
  {
    forall r | r in df && ExactFilter.Passes(r, sel) ensures CaseInsensitiveFilter.Passes(r, sel) {
      ExactPassImpliesCaseInsensitivePass(r, sel);
    }
    ExactFilter.FilteredDataIsConjunction(df, sel);
    CaseInsensitiveFilter.MaskedIsConjunction(df, sel);
    WhereMonotone(df, ExactFilter.PassesMask(sel), CaseInsensitiveFilter.PassesMask(sel));
  }

  /** Every string in the table's text columns and in the selection is already in lower case. */
  predicate AllLowerCase(df: seq<Record>, sel: Selection) {
    && (forall r :: r in df ==> Lower(r.species) == r.species && Lower(r.island) == r.island)
    && (forall r :: r in df && r.sex.Some? ==> Lower(r.sex.value) == r.sex.value)
    && (forall s :: s in sel.species ==> Lower(s) == s)
    && (forall s :: s in sel.islands ==> Lower(s) == s)
    && (forall s :: s in sel.sexes ==> Lower(s) == s)
  }

  /** On lower-case strings, matching ignoring case is plain membership. */
  lemma MatchOnLowerCase(value: string, chosen: seq<string>)
    requires Lower(value) == value
    requires forall s :: s in chosen ==> Lower(s) == s
    ensures MatchesIgnoringCase(value, chosen) <==> value in chosen
  {
    MatchesIgnoringCaseIff(value, chosen);
  }

  /**
    On lower-case data and choices the two variants differ only in the
    empty-result policy: penguins/app.py returns the table where app.py
    returns nothing.
   */
  lemma VariantsDifferOnlyWhenEmpty(df: seq<Record>, sel: Selection)
    requires AllLowerCase(df, sel)
    ensures CaseInsensitiveFilter.FilteredData(df, sel)
         == if ExactFilter.FilteredData(df, sel) == [] then df else ExactFilter.FilteredData(df, sel)
  {
    forall r | r in df ensures ExactFilter.Passes(r, sel) == CaseInsensitiveFilter.Passes(r, sel) {
      MatchOnLowerCase(r.species, sel.species);
      MatchOnLowerCase(r.island, sel.islands);
      if r.sex.Some? {
        MatchOnLowerCase(r.sex.value, sel.sexes);
      }
    }
    WhereAgree(df, ExactFilter.PassesMask(sel), CaseInsensitiveFilter.PassesMask(sel));
    ExactFilter.FilteredDataIsConjunction(df, sel);
    CaseInsensitiveFilter.MaskedIsConjunction(df, sel);
  }

  /** The sex labels app.py offers in its sidebar. */
  const CapitalisedSexes: seq<string> := ["Male", "Female"]

  /** Every present sex in the table is spelt in lower case, "male" or "female". */
  predicate LowerCaseSexColumn(df: seq<Record>) {
    forall r :: r in df && r.sex.Some? ==> r.sex.value == "male" || r.sex.value == "female"
  }

  /**
    As written: with the sex choices app.py offers and a table whose sexes
    are spelt in lower case, the exact filter returns nothing, whatever the
    other choices.
   */
  lemma ExactDropsLowerCaseSexes(df: seq<Record>, sel: Selection)
    requires LowerCaseSexColumn(df)
    requires forall s :: s in sel.sexes ==> s in CapitalisedSexes
    ensures ExactFilter.FilteredData(df, sel) == []
  {
    forall r | r in df ensures !ExactFilter.SexOk(r, sel) {
      if r.sex.Some? {
        assert r.sex.value[0] != 'M' && r.sex.value[0] != 'F';
        assert "Male"[0] == 'M' && "Female"[0] == 'F';
      }
    }
    ExactFilter.EmptyIffNothingPasses(df, sel);
  }

  /**
    Corrected (the case-insensitive test of penguins/app.py): with both
    capitalised choices checked, every row whose sex is present passes the
    sex test, so a row that also passes the other three tests is returned.
   */
  lemma CaseInsensitiveKeepsLowerCaseSexes(df: seq<Record>, sel: Selection)
    requires LowerCaseSexColumn(df)
    requires sel.sexes == CapitalisedSexes
    ensures forall r :: r in df ==> (CaseInsensitiveFilter.SexOk(r, sel) <==> r.sex.Some?)
    ensures forall r ::
              (r in df && r.sex.Some? && CaseInsensitiveFilter.SpeciesOk(r, sel)
               && CaseInsensitiveFilter.IslandOk(r, sel) && MassOk(r, sel))
              ==> r in CaseInsensitiveFilter.FilteredData(df, sel)
  {
    assert LowerAll(sel.sexes) == ["male", "female"] by {
      assert Lower("Male") == "male" && Lower("Female") == "female";
    }
    assert Lower("male") == "male" && Lower("female") == "female";
    forall r | r in df && r.sex.Some? ensures CaseInsensitiveFilter.SexOk(r, sel) {
      assert Lower(r.sex.value) in ["male", "female"];
    }
    forall r | r in df && r.sex.Some? && CaseInsensitiveFilter.SpeciesOk(r, sel)
               && CaseInsensitiveFilter.IslandOk(r, sel) && MassOk(r, sel)
      ensures r in CaseInsensitiveFilter.FilteredData(df, sel)
    {
      assert CaseInsensitiveFilter.Passes(r, sel);
      CaseInsensitiveFilter.FilteredDataMembership(df, sel, r);
    }
  }
}
