/**
  The penguin table as the filter sees it, and the user's filter selection.
  Only the columns the filter reads are kept; a missing value (pandas NaN)
  is `None`.
 */
module Penguins {
  import opened Wrappers

  /** One row of the table: species, island, sex and body mass in grams. */
  datatype Record = Record(species: string, island: string, sex: Option<string>, mass: Option<int>)

  /**
    One snapshot of the sidebar: the checked species, islands and sexes,
    and the two ends `(lo, hi)` of the mass slider.
   */
  datatype Selection = Selection(species: seq<string>, islands: seq<string>, sexes: seq<string>, lo: int, hi: int)

  /**
    `(body_mass_g <= hi) & (body_mass_g >= lo)`: both ends inclusive; a
    missing mass compares false and fails. Both variants share this test.
   */
  predicate MassOk(r: Record, sel: Selection): (ok: bool)
    ensures ok ==> r.mass.Some? && sel.lo <= sel.hi
    ensures (r.mass == Some(sel.lo) || r.mass == Some(sel.hi)) && sel.lo <= sel.hi ==> ok
  {
    r.mass.Some? && r.mass.value <= sel.hi && r.mass.value >= sel.lo
  }

  /** `wide` checks at least everything `narrow` checks and its mass range contains `narrow`'s. */
  predicate Widens(narrow: Selection, wide: Selection) {
    && (forall s :: s in narrow.species ==> s in wide.species)
    && (forall s :: s in narrow.islands ==> s in wide.islands)
    && (forall s :: s in narrow.sexes ==> s in wide.sexes)
    && wide.lo <= narrow.lo
    && narrow.hi <= wide.hi
  }

  /** A selection that nothing can pass: a list with nothing checked, or a mass range with `lo > hi`. */
  predicate Degenerate(sel: Selection) {
    sel.species == [] || sel.islands == [] || sel.sexes == [] || sel.lo > sel.hi
  }
}
