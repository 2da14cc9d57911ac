/**
  The sidebar's choices as penguins/app.py derives them from the table when
  it starts: the distinct species, islands and (present) sexes in sorted
  order, and the smallest and largest body mass.
 */
module Choices {
  import opened Wrappers
  import opened Text
  import opened Penguins
  import CaseInsensitiveFilter

  /** Strictly increasing in Python's string order, hence also free of repeats. */
  predicate StrictlySorted(s: seq<string>) {
    forall i, j :: 0 <= i < j < |s| ==> Below(s[i], s[j])
  }

  /** `x` added to a sorted list of distinct strings, at its place, unless it is already there. */
  function Insert(x: string, s: seq<string>): seq<string> {
    if s == [] then [x]
    else if x == s[0] then s
    else if Below(x, s[0]) then [x] + s
    else [s[0]] + Insert(x, s[1..])
  }

  /** `sorted(values.unique())`: strictly sorted, and holding exactly the values given, each once. */
  function SortedDistinct(values: seq<string>): (r: seq<string>)
    ensures StrictlySorted(r)
    ensures forall y :: y in r <==> y in values
  {
    if values == [] then []
    else
      var rest := SortedDistinct(values[1..]);
      InsertSorted(values[0], rest);
      assert values == [values[0]] + values[1..];
      Insert(values[0], rest)
  }

  /** Inserting keeps the list strictly sorted and adds exactly `x`. */
  lemma {:induction false} InsertSorted(x: string, s: seq<string>)
    requires StrictlySorted(s)
    ensures StrictlySorted(Insert(x, s))
    ensures forall y :: y in Insert(x, s) <==> y in s || y == x
  {
    if s == [] {
    } else if x == s[0] {
    } else if Below(x, s[0]) {
      forall j | 0 <= j < |s| ensures Below(x, s[j]) {
        if j > 0 { BelowTransitive(x, s[0], s[j]); }
      }
    } else {
      BelowTotal(x, s[0]);
      InsertSorted(x, s[1..]);
      var rest := Insert(x, s[1..]);
      forall j | 0 <= j < |rest| ensures Below(s[0], rest[j]) {
        assert rest[j] in rest;
      }
      assert s == [s[0]] + s[1..];
    }
  }

  /** Two strictly sorted lists with the same members are equal, so the contract of `SortedDistinct` pins its result down. */
  lemma {:induction false} StrictlySortedUnique(a: seq<string>, b: seq<string>)
    requires StrictlySorted(a) && StrictlySorted(b)
    requires forall y :: y in a <==> y in b
    ensures a == b
  {
    assert a != [] ==> a[0] in b;
    assert b != [] ==> b[0] in a;
    if a != [] && b != [] {
      if a[0] != b[0] {
        var i :| 0 <= i < |b| && b[i] == a[0];
        var j :| 0 <= j < |a| && a[j] == b[0];
        BelowIrreflexive(a[0]);
        BelowIrreflexive(b[0]);
        if i > 0 && j > 0 {
          BelowTransitive(a[0], b[0], a[0]);
        }
        assert false;
      }
      forall y ensures y in a[1..] <==> y in b[1..] {
        if y in a[1..] {
          var k :| 1 <= k < |a| && a[k] == y;
          BelowIrreflexive(a[0]);
          assert y != a[0];
          assert y in b;
        }
        if y in b[1..] {
          var k :| 1 <= k < |b| && b[k] == y;
          BelowIrreflexive(b[0]);
          assert y != b[0];
          assert y in a;
        }
      }
      StrictlySortedUnique(a[1..], b[1..]);
      assert a == [a[0]] + a[1..] && b == [b[0]] + b[1..];
    }
  }

  /** The species column. */
  function SpeciesColumn(df: seq<Record>): seq<string> {
    seq(|df|, i requires 0 <= i < |df| => df[i].species)
  }

  /** The island column. */
  function IslandColumn(df: seq<Record>): seq<string> {
    seq(|df|, i requires 0 <= i < |df| => df[i].island)
  }

  /** The species column holds exactly the species found in some row. */
  lemma SpeciesColumnValues(df: seq<Record>)
    ensures forall s :: s in SpeciesColumn(df) <==> exists r :: r in df && r.species == s
  {
    forall s | exists r :: r in df && r.species == s ensures s in SpeciesColumn(df) {
      var r :| r in df && r.species == s;
      var i :| 0 <= i < |df| && df[i] == r;
      assert SpeciesColumn(df)[i] == s;
    }
  }

  /** The island column holds exactly the islands found in some row. */
  lemma IslandColumnValues(df: seq<Record>)
    ensures forall s :: s in IslandColumn(df) <==> exists r :: r in df && r.island == s
  {
    forall s | exists r :: r in df && r.island == s ensures s in IslandColumn(df) {
      var r :| r in df && r.island == s;
      var i :| 0 <= i < |df| && df[i] == r;
      assert IslandColumn(df)[i] == s;
    }
  }

  /** `df['sex'].dropna()`: exactly the sexes of the rows whose sex is not missing. */
  function PresentSexes(df: seq<Record>): (sexes: seq<string>)
    ensures forall s :: s in sexes <==> exists r :: r in df && r.sex == Some(s)
  {
    if df == [] then []
    else
      var rest := PresentSexes(df[1..]);
      assert forall r :: r in df <==> r == df[0] || r in df[1..];
      (if df[0].sex.Some? then [df[0].sex.value] else []) + rest
  }

  /** `species_choices`: the distinct species of the table, sorted. */
  function SpeciesChoices(df: seq<Record>): (choices: seq<string>)
    ensures StrictlySorted(choices)
    ensures forall s :: s in choices <==> exists r :: r in df && r.species == s
  {
    SpeciesColumnValues(df);
    SortedDistinct(SpeciesColumn(df))
  }

  /** `island_choices`: the distinct islands of the table, sorted. */
  function IslandChoices(df: seq<Record>): (choices: seq<string>)
    ensures StrictlySorted(choices)
    ensures forall s :: s in choices <==> exists r :: r in df && r.island == s
  {
    IslandColumnValues(df);
    SortedDistinct(IslandColumn(df))
  }

  /** `sex_choices`: the distinct present sexes, sorted; a missing sex is never offered. */
  function SexChoices(df: seq<Record>): (choices: seq<string>)
    ensures StrictlySorted(choices)
    ensures forall s :: s in choices <==> exists r :: r in df && r.sex == Some(s)
  {
    SortedDistinct(PresentSexes(df))
  }

  /** `mass_min`: the smallest present mass, `None` when every mass is missing. */
  function MinMass(df: seq<Record>): (m: Option<int>)
    ensures m.None? <==> forall r :: r in df ==> r.mass.None?
    ensures m.Some? ==> exists r :: r in df && r.mass == m
    ensures m.Some? ==> forall r :: r in df && r.mass.Some? ==> m.value <= r.mass.value
  {
    if df == [] then None
    else
      var rest := MinMass(df[1..]);
      assert forall r :: r in df[1..] ==> r in df;
      assert forall r :: r in df ==> r == df[0] || r in df[1..];
      match (df[0].mass, rest)
      case (None, _) => rest
      case (Some(x), None) => Some(x)
      case (Some(x), Some(y)) => Some(if x <= y then x else y)
  }

  /** `mass_max`: the largest present mass, `None` when every mass is missing. */
  function MaxMass(df: seq<Record>): (m: Option<int>)
    ensures m.None? <==> forall r :: r in df ==> r.mass.None?
    ensures m.Some? ==> exists r :: r in df && r.mass == m
    ensures m.Some? ==> forall r :: r in df && r.mass.Some? ==> r.mass.value <= m.value
  {
    if df == [] then None
    else
      var rest := MaxMass(df[1..]);
      assert forall r :: r in df[1..] ==> r in df;
      assert forall r :: r in df ==> r == df[0] || r in df[1..];
      match (df[0].mass, rest)
      case (None, _) => rest
      case (Some(x), None) => Some(x)
      case (Some(x), Some(y)) => Some(if x >= y then x else y)
  }

  /**
    With every sex choice checked and the slider at its full range (the
    sidebar's initial sex and mass values), the sex and mass tests of the
    case-insensitive filter let through exactly the rows whose sex and mass
    are present.
   */
  lemma FullRangeKeepsCompleteRows(df: seq<Record>, sel: Selection)
    requires sel.sexes == SexChoices(df)
    requires MinMass(df) == Some(sel.lo) && MaxMass(df) == Some(sel.hi)
    ensures forall r :: r in df ==>
              (CaseInsensitiveFilter.SexOk(r, sel) && MassOk(r, sel) <==> r.sex.Some? && r.mass.Some?)
  {
    forall r | r in df && r.sex.Some? ensures CaseInsensitiveFilter.SexOk(r, sel) {
      ExactMatchIgnoringCase(r.sex.value, sel.sexes);
    }
  }
}
