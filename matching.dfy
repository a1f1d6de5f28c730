/** The text filters of both list queries. The services turn a filter value
    `x` into the SQL condition `ILIKE '%x%'`: the column contains `x` as a
    substring, ignoring letter case. */
module Matching {
  import opened Common

  /** Lower-case folding of one character (ASCII letters only). */
  function Lower(c: char): char {
    if 'A' <= c <= 'Z' then (c as int + 32) as char else c
  }

  function Fold(s: string): string {
    seq(|s|, i requires 0 <= i < |s| => Lower(s[i]))
  }

  /** `p` occurs in `s` starting at position `i`. */
  predicate OccursAt(s: string, p: string, i: int) {
    0 <= i && i + |p| <= |s| && s[i..i + |p|] == p
  }

  /** Substring search, trying each start position from the left. */
  predicate Contains(s: string, p: string)
    decreases |s|
  {
    if |p| > |s| then false
    else if s[..|p|] == p then true
    else Contains(s[1..], p)
  }

  /** The search finds `p` exactly when `p` occurs somewhere in `s`. */
  lemma {:induction false} ContainsIffOccurs(s: string, p: string)
    ensures Contains(s, p) <==> exists i :: OccursAt(s, p, i)
  {
    if |p| > |s| {
    } else if s[..|p|] == p {
      assert OccursAt(s, p, 0);
    } else {
      ContainsIffOccurs(s[1..], p);
      if i :| OccursAt(s, p, i) {
        assert i != 0;
        assert s[1..][i - 1..i - 1 + |p|] == s[i..i + |p|];
        assert OccursAt(s[1..], p, i - 1);
      }
      if j :| OccursAt(s[1..], p, j) {
        assert s[j + 1..j + 1 + |p|] == s[1..][j..j + |p|];
        assert OccursAt(s, p, j + 1);
      }
    }
  }

  /** `text ILIKE '%pattern%'`, with `%` and `_` in the pattern taken literally. */
  predicate ContainsIgnoreCase(text: string, pattern: string) {
    Contains(Fold(text), Fold(pattern))
  }

  /** The pattern equals, up to letter case, the window of the text that
      starts at `i`. */
  predicate MatchesAt(text: string, pattern: string, i: int) {
    0 <= i && i + |pattern| <= |text| && Fold(text[i..i + |pattern|]) == Fold(pattern)
  }

  /** The match holds exactly when some window of the text equals the
      pattern up to letter case. */
  lemma ContainsIgnoreCaseIffWindow(text: string, pattern: string)
    ensures ContainsIgnoreCase(text, pattern) <==> exists i :: MatchesAt(text, pattern, i)
  {
    ContainsIffOccurs(Fold(text), Fold(pattern));
    if i :| OccursAt(Fold(text), Fold(pattern), i) {
      assert Fold(text)[i..i + |pattern|] == Fold(text[i..i + |pattern|]);
      assert MatchesAt(text, pattern, i);
    }
    if i :| MatchesAt(text, pattern, i) {
      assert Fold(text)[i..i + |pattern|] == Fold(text[i..i + |pattern|]);
      assert OccursAt(Fold(text), Fold(pattern), i);
    }
  }

  /** One optional text filter of a list query. A filter that is absent or
      empty (a falsy string) adds no condition; otherwise the field must
      contain it, ignoring case. */
  predicate TextFilter(filter: Option<string>, field: string): (r: bool)
    ensures filter.None? || filter.value == [] ==> r
    ensures filter.Some? && filter.value != [] ==> (r <==> exists i :: MatchesAt(field, filter.value, i))
  {
    match filter
    case None => true
    case Some(p) =>
      if p == [] then true
      else
        ContainsIgnoreCaseIffWindow(field, p);
        ContainsIgnoreCase(field, p)
  }

  /** Upper- and lower-case spellings of a filter select the same records. */
  lemma {:induction false} TextFilterIgnoresCase(pattern: string, field: string)
    ensures TextFilter(Some(pattern), field) == TextFilter(Some(Fold(pattern)), field)
  {
    forall i | 0 <= i < |pattern| ensures Fold(Fold(pattern))[i] == Fold(pattern)[i] {
    }
    assert Fold(Fold(pattern)) == Fold(pattern);
  }
}
