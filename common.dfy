/** Small shared vocabulary: optional values, C error numbers and the
    ASCII case folding that `strcasecmp` performs. */
module Common {

  datatype Option<+T> = None | Some(value: T)

  /** Error numbers as Linux defines them; only the ones the core returns. */
  const EOK: int := 0
  const ENOENT: int := 2
  const EIO: int := 5
  const EEXIST: int := 17

  /** `tolower` in the C locale: only 'A'..'Z' are folded. */
  function Lower(c: char): (r: char)
    ensures 'A' <= c <= 'Z' ==> r as int == c as int + 32
    ensures !('A' <= c <= 'Z') ==> r == c
  {
    if 'A' <= c <= 'Z' then (c as int + 32) as char else c
  }

  /** `strcasecmp(a, b) == 0`: the strings have the same length and agree
      at every position once both characters are folded. */
  predicate EqualsIgnoreCase(a: string, b: string)
    ensures EqualsIgnoreCase(a, b) ==> |a| == |b|
  {
    if a == [] then b == []
    else b != [] && Lower(a[0]) == Lower(b[0]) && EqualsIgnoreCase(a[1..], b[1..])
  }

  /** The string with every character folded. */
  function Folded(s: string): (r: string)
    ensures |r| == |s|
    ensures forall i :: 0 <= i < |s| ==> r[i] == Lower(s[i])
  {
    seq(|s|, i requires 0 <= i < |s| => Lower(s[i]))
  }

  /** Comparing ignoring case is comparing the folded strings. */
  lemma {:induction false} EqualsIgnoreCaseIsFoldedEquality(a: string, b: string)
    ensures EqualsIgnoreCase(a, b) <==> Folded(a) == Folded(b)
  {
    if a != [] && b != [] {
      EqualsIgnoreCaseIsFoldedEquality(a[1..], b[1..]);
      assert Folded(a) == [Lower(a[0])] + Folded(a[1..]);
      assert Folded(b) == [Lower(b[0])] + Folded(b[1..]);
    }
  }

  /** Folding leaves no ASCII capital behind, so folding again changes
      nothing, and a string equals its folded form ignoring case. */
  lemma FoldedIsCaseless(s: string)
    ensures forall i :: 0 <= i < |Folded(s)| ==> !('A' <= Folded(s)[i] <= 'Z')
    ensures Folded(Folded(s)) == Folded(s)
    ensures EqualsIgnoreCase(s, Folded(s))
  {
    assert Folded(Folded(s)) == Folded(s);
    EqualsIgnoreCaseIsFoldedEquality(s, Folded(s));
  }

  /** Every string equals itself ignoring case. */
  lemma {:induction false} EqualsIgnoreCaseReflexive(s: string)
    ensures EqualsIgnoreCase(s, s)
  {
    if s != [] {
      EqualsIgnoreCaseReflexive(s[1..]);
    }
  }

  /** Strings equal ignoring case compare alike, ignoring case, with every third string. */
  lemma SameCaseClass(s: string, t: string, u: string)
    requires EqualsIgnoreCase(s, t)
    ensures EqualsIgnoreCase(s, u) <==> EqualsIgnoreCase(t, u)
  {
    EqualsIgnoreCaseIsFoldedEquality(s, t);
    EqualsIgnoreCaseIsFoldedEquality(s, u);
    EqualsIgnoreCaseIsFoldedEquality(t, u);
  }
}
