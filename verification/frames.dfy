/**
  Row selection on a table, the way pandas does it with a boolean mask:
  `df[mask]` keeps the rows whose mask entry is true, in their original
  order, and never changes `df` itself. A table is a sequence of rows.
 */
module Frames {

  /** `xs[m]`: boolean-mask indexing. */
  function Select<T>(xs: seq<T>, m: seq<bool>): (r: seq<T>)
    requires |m| == |xs|
    ensures |r| <= |xs|
    ensures forall x :: x in r ==> x in xs
  {
    if xs == [] then [] else (if m[0] then [xs[0]] else []) + Select(xs[1..], m[1..])
  }

  /** The mask a row test produces over a table (`test(df)` as a boolean series). */
  function MaskOf<T>(xs: seq<T>, test: T -> bool): seq<bool> {
    seq(|xs|, i requires 0 <= i < |xs| => test(xs[i]))
  }

  /** `a` is an order-preserving subsequence of `b`: some boolean mask over `b` selects exactly `a`. */
  ghost predicate IsSubsequence<T>(a: seq<T>, b: seq<T>) {
    exists m: seq<bool> :: |m| == |b| && Select(b, m) == a
  }

  /** `df[test(df)]`: the rows of `xs` that pass `test`. */
  function Where<T>(xs: seq<T>, test: T -> bool): (r: seq<T>)
    ensures |r| <= |xs|
    ensures forall x :: x in r ==> x in xs && test(x)
  {
    if xs == [] then []
    else
      var rest := Where(xs[1..], test);
      assert forall x :: x in xs[1..] ==> x in xs;
      (if test(xs[0]) then [xs[0]] else []) + rest
  }

  /** Filtering by a test is indexing with the mask of that test. */
  lemma {:induction false} WhereIsMaskSelection<T>(xs: seq<T>, test: T -> bool)
    ensures Where(xs, test) == Select(xs, MaskOf(xs, test))
  {
    if xs != [] {
      assert MaskOf(xs, test)[1..] == MaskOf(xs[1..], test);
      WhereIsMaskSelection(xs[1..], test);
    }
  }

  /** A filtered table is an order-preserving subsequence of the table it was taken from. */
  lemma WhereIsSubsequence<T>(xs: seq<T>, test: T -> bool)
    ensures IsSubsequence(Where(xs, test), xs)
  {
    WhereIsMaskSelection(xs, test);
  }

  /** A row is kept if and only if it is in the table and passes the test. */
  lemma {:induction false} KeptIff<T>(xs: seq<T>, test: T -> bool, x: T)
    ensures x in Where(xs, test) <==> x in xs && test(x)
  {
    if xs != [] {
      KeptIff(xs[1..], test, x);
      assert xs == [xs[0]] + xs[1..];
    }
  }

  /** `KeptIff` for every row at once. */
  lemma WhereMembership<T>(xs: seq<T>, test: T -> bool)
    ensures forall x :: x in Where(xs, test) <==> x in xs && test(x)
  {
    forall x ensures x in Where(xs, test) <==> x in xs && test(x) {
      KeptIff(xs, test, x);
    }
  }

  /** Filtering keeps the whole table exactly when every row passes. */
  lemma {:induction false} WhereKeepsAll<T>(xs: seq<T>, test: T -> bool)
    ensures Where(xs, test) == xs <==> forall x :: x in xs ==> test(x)
  {
    if xs != [] {
      WhereKeepsAll(xs[1..], test);
      WhereMembership(xs, test);
      WhereIsMaskSelection(xs[1..], test);
      assert xs == [xs[0]] + xs[1..];
      if !test(xs[0]) {
        assert |Where(xs, test)| < |xs|;
      }
    }
  }

  /** Filtering leaves nothing exactly when no row passes. */
  lemma WhereEmpty<T>(xs: seq<T>, test: T -> bool)
    ensures Where(xs, test) == [] <==> forall x :: x in xs ==> !test(x)
  {
    WhereMembership(xs, test);
    if Where(xs, test) != [] {
      assert Where(xs, test)[0] in Where(xs, test);
    }
  }

  /** Two tests that agree on every row of the table select the same rows. */
  lemma {:induction false} WhereAgree<T>(xs: seq<T>, p: T -> bool, q: T -> bool)
    requires forall x :: x in xs ==> p(x) == q(x)
    ensures Where(xs, p) == Where(xs, q)
  {
    if xs != [] {
      assert xs[0] in xs;
      assert forall x :: x in xs[1..] ==> x in xs;
      WhereAgree(xs[1..], p, q);
    }
  }

  /** The row test that passes when both `p` and `q` pass (the `&` of two masks). */
  function Both<T>(p: T -> bool, q: T -> bool): T -> bool {
    x => p(x) && q(x)
  }

  /** Masking twice in a row equals masking once with the conjunction of the two tests. */
  lemma {:induction false} WhereThenWhere<T>(xs: seq<T>, p: T -> bool, q: T -> bool)
    ensures Where(Where(xs, p), q) == Where(xs, Both(p, q))
  {
    if xs != [] {
      WhereThenWhere(xs[1..], p, q);
      var rest := Where(xs[1..], p);
      if p(xs[0]) {
        assert Where(xs, p) == [xs[0]] + rest;
        assert ([xs[0]] + rest)[1..] == rest;
      } else {
        assert Where(xs, p) == rest;
      }
    }
  }

  /** Applying a mask to its own result changes nothing. */
  lemma {:induction false} WhereIdempotent<T>(xs: seq<T>, test: T -> bool)
    ensures Where(Where(xs, test), test) == Where(xs, test)
  {
    WhereKeepsAll(Where(xs, test), test);
  }

  /** A test that lets through at least the rows another lets through keeps a supersequence. */
  lemma WhereMonotone<T>(xs: seq<T>, narrow: T -> bool, wide: T -> bool)
    requires forall x :: x in xs ==> narrow(x) ==> wide(x)
    ensures IsSubsequence(Where(xs, narrow), Where(xs, wide))
  {
    WhereThenWhere(xs, wide, narrow);
    WhereAgree(xs, Both(wide, narrow), narrow);
    WhereIsSubsequence(Where(xs, wide), narrow);
  }

  /** Every table is a subsequence of itself (the all-true mask). */
  lemma SubsequenceOfSelf<T>(xs: seq<T>)
    ensures IsSubsequence(xs, xs)
  {
    WhereKeepsAll(xs, _ => true);
    WhereIsSubsequence(xs, _ => true);
  }

  /** A subsequence is never longer than the table it comes from. */
  lemma SubsequenceNoLonger<T>(a: seq<T>, b: seq<T>)
    requires IsSubsequence(a, b)
    ensures |a| <= |b|
  {
    var m: seq<bool> :| |m| == |b| && Select(b, m) == a;
  }

  /** The row test that passes when every test of `tests` passes (the `&` of several masks). */
  function AllOf<T>(tests: seq<T -> bool>): T -> bool {
    x => forall i :: 0 <= i < |tests| ==> tests[i](x)
  }

  /** The masks of `tests` applied one after another, first to last. */
  function WhereAll<T>(xs: seq<T>, tests: seq<T -> bool>): seq<T>
    decreases |tests|
  {
    if tests == [] then xs else WhereAll(Where(xs, tests[0]), tests[1..])
  }

  /** Masks applied in sequence equal one mask by the conjunction of all of them. */
  lemma {:induction false} WhereAllIsConjunction<T>(xs: seq<T>, tests: seq<T -> bool>)
    ensures WhereAll(xs, tests) == Where(xs, AllOf(tests))
    decreases |tests|
  {
    if tests == [] {
      WhereKeepsAll(xs, AllOf(tests));
    } else {
      var rest := tests[1..];
      WhereAllIsConjunction(Where(xs, tests[0]), rest);
      WhereThenWhere(xs, tests[0], AllOf(rest));
      forall x | x in xs ensures Both(tests[0], AllOf(rest))(x) == AllOf(tests)(x) {
        if AllOf(tests)(x) {
          forall i | 0 <= i < |rest| ensures rest[i](x) {
            assert rest[i] == tests[i + 1];
          }
        }
        if Both(tests[0], AllOf(rest))(x) {
          forall i | 0 <= i < |tests| ensures tests[i](x) {
            if i > 0 { assert tests[i] == rest[i - 1]; }
          }
        }
      }
      WhereAgree(xs, Both(tests[0], AllOf(rest)), AllOf(tests));
    }
  }

  /** Four masks in sequence, the shape of both `filtered_data` functions, equal one conjunction mask. */
  lemma FourMasks<T>(xs: seq<T>, a: T -> bool, b: T -> bool, c: T -> bool, d: T -> bool)
    ensures Where(Where(Where(Where(xs, a), b), c), d) == Where(xs, AllOf([a, b, c, d]))
  {
    var tests := [a, b, c, d];
    var ab := Where(Where(xs, a), b);
    var abc := Where(ab, c);
    assert WhereAll(abc, [d]) == Where(abc, d) by {
      assert [d][1..] == [];
    }
    assert WhereAll(ab, [c, d]) == WhereAll(abc, [d]) by {
      assert [c, d][1..] == [d];
    }
    assert WhereAll(Where(xs, a), [b, c, d]) == WhereAll(ab, [c, d]) by {
      assert [b, c, d][1..] == [c, d];
    }
    assert WhereAll(xs, tests) == WhereAll(Where(xs, a), [b, c, d]) by {
      assert tests[1..] == [b, c, d];
    }
    WhereAllIsConjunction(xs, tests);
  }

  /**
    The order of the masks does not matter: two lists holding the same
    tests, in any order and with any repetition, select the same rows.
   */
  lemma WhereAllOrderFree<T>(xs: seq<T>, s: seq<T -> bool>, t: seq<T -> bool>)
    requires forall f :: f in s <==> f in t
    ensures WhereAll(xs, s) == WhereAll(xs, t)
  {
    WhereAllIsConjunction(xs, s);
    WhereAllIsConjunction(xs, t);
    forall x | x in xs ensures AllOf(s)(x) == AllOf(t)(x) {
      if AllOf(s)(x) {
        forall i | 0 <= i < |t| ensures t[i](x) {
          assert t[i] in s;
        }
      }
      if AllOf(t)(x) {
        forall i | 0 <= i < |s| ensures s[i](x) {
          assert s[i] in t;
        }
      }
    }
    WhereAgree(xs, AllOf(s), AllOf(t));
  }
}
