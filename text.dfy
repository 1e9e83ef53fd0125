// String operations the bot's handlers use: prefix test, substring
// search and lower-casing, on strings as sequences of characters.

module Text {

  /** `s.startswith(prefix)`: an exact, case-sensitive prefix comparison. */
  predicate StartsWith(s: string, prefix: string)
  {
    |prefix| <= |s| && s[..|prefix|] == prefix
  }

  /** `s` starts with `prefix` exactly when `s` is `prefix` followed by some rest. */
  lemma StartsWithIffConcat(s: string, prefix: string)
    ensures StartsWith(s, prefix) <==> exists rest :: s == prefix + rest
  {
    if StartsWith(s, prefix) {
      assert s == prefix + s[|prefix|..];
    }
    forall rest | s == prefix + rest
      ensures StartsWith(s, prefix)
    {
      assert s[..|prefix|] == prefix;
    }
  }

  /** `w` occurs in `s` starting at position `i`. */
  ghost predicate OccursAt(s: string, w: string, i: int)
  {
    0 <= i && i + |w| <= |s| && s[i..i + |w|] == w
  }

  /** `w in s` for strings: tries every start position of `s`, left to right. */
  function Contains(s: string, w: string): (found: bool)
    ensures found ==> |w| <= |s|
    decreases |s|
  {
    StartsWith(s, w) || (s != [] && Contains(s[1..], w))
  }

  /** A match found by the search is a match at some position. */
  lemma {:induction false} ContainsOccurs(s: string, w: string) returns (i: nat)
    requires Contains(s, w)
    ensures OccursAt(s, w, i)
    decreases |s|
  {
    if StartsWith(s, w) {
      i := 0;
    } else {
      var j := ContainsOccurs(s[1..], w);
      assert s[1..][j..j + |w|] == s[j + 1..j + 1 + |w|];
      i := j + 1;
    }
  }

  /** A match at any position is found by the search. */
  lemma {:induction false} OccursContains(s: string, w: string, i: int)
    requires OccursAt(s, w, i)
    ensures Contains(s, w)
    decreases i
  {
    if i == 0 {
      assert s[..|w|] == w;
    } else {
      assert s[1..][i - 1..i - 1 + |w|] == s[i..i + |w|];
      OccursContains(s[1..], w, i - 1);
    }
  }

  /** The search agrees with the positional definition of a substring. */
  lemma ContainsIffOccurs(s: string, w: string)
    ensures Contains(s, w) <==> exists i :: OccursAt(s, w, i)
  {
    if Contains(s, w) {
      var i := ContainsOccurs(s, w);
    }
    forall i | OccursAt(s, w, i)
      ensures Contains(s, w)
    {
      OccursContains(s, w, i);
    }
  }

  /** Whoever contains `u + v` contains `u`: a keyword's prefix is found wherever the keyword is. */
  lemma ContainsPrefixOf(s: string, u: string, v: string)
    requires Contains(s, u + v)
    ensures Contains(s, u)
  {
    ContainsIffOccurs(s, u + v);
    var i :| OccursAt(s, u + v, i);
    assert s[i..i + |u|] == s[i..i + |u + v|][..|u|] == (u + v)[..|u|] == u;
    assert OccursAt(s, u, i);
    ContainsIffOccurs(s, u);
  }

  /** ASCII lower-casing of one character; every other character is left alone. */
  function LowerChar(c: char): char
  {
    if 'A' <= c <= 'Z' then (c as int - 'A' as int + 'a' as int) as char else c
  }

  /** `s.lower()`, restricted to the ASCII letters. */
  function Lower(s: string): (lowered: string)
    ensures |lowered| == |s|
    ensures forall i :: 0 <= i < |s| ==> !('A' <= lowered[i] <= 'Z')
    ensures forall i :: 0 <= i < |s| && !('A' <= s[i] <= 'Z') ==> lowered[i] == s[i]
    ensures forall i :: 0 <= i < |s| && 'A' <= s[i] <= 'Z' ==> lowered[i] as int == s[i] as int + 32
  {
    seq(|s|, i requires 0 <= i < |s| => LowerChar(s[i]))
  }

  /** Lower-casing works character by character, so it commutes with slicing. */
  lemma LowerSlice(s: string, i: int, j: int)
    requires 0 <= i <= j <= |s|
    ensures Lower(s)[i..j] == Lower(s[i..j])
  {
  }

  /** A substring of `s` lower-cases to a substring of the lower-cased `s`. */
  lemma ContainsLowered(s: string, w: string)
    requires Contains(s, w)
    ensures Contains(Lower(s), Lower(w))
  {
    ContainsIffOccurs(s, w);
    var i :| OccursAt(s, w, i);
    LowerSlice(s, i, i + |w|);
    assert OccursAt(Lower(s), Lower(w), i);
    ContainsIffOccurs(Lower(s), Lower(w));
  }
}
