/**
  The two string operations the dashboard relies on: lower-casing (Python's
  `str.lower`, restricted here to ASCII letters) and Python's `<` on strings,
  which orders by code point, lexicographically, as `sorted` uses it.
 */
module Text {

  /** One character lower-cased: 'A'..'Z' become 'a'..'z', everything else is kept. */
  function LowerChar(c: char): char {
    if 'A' <= c <= 'Z' then (c as int + 32) as char else c
  }

  /**
    `s.lower()`: the same length, no upper-case letter left, every
    upper-case letter replaced by its lower-case partner (32 code points on)
    and every other character kept where it was.
   */
  function Lower(s: string): (t: string)
    ensures |t| == |s|
    ensures forall i :: 0 <= i < |t| ==> !('A' <= t[i] <= 'Z')
    ensures forall i :: 0 <= i < |s| && !('A' <= s[i] <= 'Z') ==> t[i] == s[i]
    ensures forall i :: 0 <= i < |s| && 'A' <= s[i] <= 'Z' ==> t[i] as int == s[i] as int + 32
  {
    seq(|s|, i requires 0 <= i < |s| => LowerChar(s[i]))
  }

  /** `[c.lower() for c in chosen]` */
  function LowerAll(chosen: seq<string>): seq<string> {
    seq(|chosen|, i requires 0 <= i < |chosen| => Lower(chosen[i]))
  }

  /** `value.lower() in [c.lower() for c in chosen]`: the membership test of a lower-cased column. */
  predicate MatchesIgnoringCase(value: string, chosen: seq<string>) {
    Lower(value) in LowerAll(chosen)
  }

  /** A lower-cased string has no upper-case letter left, so lower-casing it again changes nothing. */
  lemma LowerIdempotent(s: string)
    ensures Lower(Lower(s)) == Lower(s)
  {
  }

  /** The case-insensitive membership test holds exactly when some chosen string equals the value up to case. */
  lemma MatchesIgnoringCaseIff(value: string, chosen: seq<string>)
    ensures MatchesIgnoringCase(value, chosen) <==> exists c :: c in chosen && Lower(c) == Lower(value)
  {
    if MatchesIgnoringCase(value, chosen) {
      var i :| 0 <= i < |chosen| && LowerAll(chosen)[i] == Lower(value);
      assert chosen[i] in chosen;
    }
    if c :| c in chosen && Lower(c) == Lower(value) {
      var i :| 0 <= i < |chosen| && chosen[i] == c;
      assert LowerAll(chosen)[i] == Lower(value);
    }
  }

  /** An exact member of the chosen list also matches ignoring case. */
  lemma ExactMatchIgnoringCase(value: string, chosen: seq<string>)
    requires value in chosen
    ensures MatchesIgnoringCase(value, chosen)
  {
    MatchesIgnoringCaseIff(value, chosen);
  }

  /** Python's `a < b` on strings: lexicographic by code point, a proper prefix comes first. */
  predicate Below(a: string, b: string) {
    if a == [] then b != []
    else if b == [] then false
    else if a[0] != b[0] then a[0] < b[0]
    else Below(a[1..], b[1..])
  }

  /** No string is below itself. */
  lemma {:induction false} BelowIrreflexive(a: string)
    ensures !Below(a, a)
  {
    if a != [] {
      BelowIrreflexive(a[1..]);
    }
  }

  /** `Below` is transitive. */
  lemma {:induction false} BelowTransitive(a: string, b: string, c: string)
    requires Below(a, b) && Below(b, c)
    ensures Below(a, c)
  {
    if a != [] && b != [] && c != [] && a[0] == b[0] && b[0] == c[0] {
      BelowTransitive(a[1..], b[1..], c[1..]);
    }
  }

  /** Any two different strings are ordered one way or the other. */
  lemma {:induction false} BelowTotal(a: string, b: string)
    requires a != b
    ensures Below(a, b) || Below(b, a)
  {
    if a != [] && b != [] && a[0] == b[0] {
      assert a == [a[0]] + a[1..] && b == [b[0]] + b[1..];
      BelowTotal(a[1..], b[1..]);
    }
  }
}
