/**
 * The string operations the drop check applies: `str.lower()` for the
 * case-insensitive match and the ledger key, `split('.')[0]` and
 * `replace("Z", "+00:00")` for the end time.
 */
module Text {

  /** Python's `lower()` on one character, restricted to ASCII letters. */
  function LowerChar(c: char): (r: char)
    ensures 'A' <= c <= 'Z' ==> 'a' <= r <= 'z' && r as int == c as int + 32
    ensures !('A' <= c <= 'Z') ==> r == c
    ensures !('A' <= r <= 'Z')
  {
    if 'A' <= c <= 'Z' then (c as int + 32) as char else c
  }

  predicate IsLower(s: string) {
    forall i :: 0 <= i < |s| ==> !('A' <= s[i] <= 'Z')
  }

  /** `s.lower()`: every character lowered, length and positions kept. */
  function Lower(s: string): (r: string)
    ensures |r| == |s|
    ensures forall i :: 0 <= i < |s| ==> r[i] == LowerChar(s[i])
    ensures IsLower(r)
  {
    if s == [] then [] else [LowerChar(s[0])] + Lower(s[1..])
  }

  /** Lowering twice is lowering once, so the ledger key is already its own lower form. */
  lemma LowerIdempotent(s: string)
    ensures Lower(Lower(s)) == Lower(s)
  {
    var l := Lower(s);
    assert forall i :: 0 <= i < |l| ==> LowerChar(l[i]) == l[i];
  }

  /** Lowering changes nothing in a string that has no upper-case ASCII letter. */
  lemma LowerOfLower(s: string)
    requires IsLower(s)
    ensures Lower(s) == s
  {
  }

  /** The match of app.py line 145: both names lowered, then compared. */
  predicate SameGame(apiGame: string, gameName: string) {
    Lower(apiGame) == Lower(gameName)
  }

  /** The match is an equivalence: reflexive, symmetric and transitive. */
  lemma SameGameIsEquivalence(a: string, b: string, c: string)
    ensures SameGame(a, a)
    ensures SameGame(a, b) ==> SameGame(b, a)
    ensures SameGame(a, b) && SameGame(b, c) ==> SameGame(a, c)
  {
  }

  /** Names that differ only in ASCII letter case match. */
  lemma SameGameIgnoresCase(a: string, b: string)
    requires |a| == |b|
    requires forall i :: 0 <= i < |a| ==> LowerChar(a[i]) == LowerChar(b[i])
    ensures SameGame(a, b)
  {
    assert Lower(a) == Lower(b);
  }

  /** Names of different lengths never match (lowering keeps the length). */
  lemma SameGameSameLength(a: string, b: string)
    requires SameGame(a, b)
    ensures |a| == |b|
  {
    assert |Lower(a)| == |Lower(b)|;
  }

  /**
   * `s.split(c)[0]`: the longest prefix of `s` without `c`; the whole
   * string when `c` does not occur.
   */
  function BeforeFirst(s: string, c: char): (r: string)
    ensures |r| <= |s| && r == s[..|r|]
    ensures c !in r
    ensures |r| < |s| ==> s[|r|] == c
    ensures c !in s ==> r == s
  {
    if s == [] then []
    else if s[0] == c then []
    else [s[0]] + BeforeFirst(s[1..], c)
  }

  /** Whatever follows the first `c` is dropped: `(a + [c] + b).split(c)[0] == a`. */
  lemma {:induction false} BeforeFirstCut(a: string, c: char, b: string)
    requires c !in a
    ensures BeforeFirst(a + [c] + b, c) == a
  {
    if a != [] {
      assert (a + [c] + b)[1..] == a[1..] + [c] + b;
      BeforeFirstCut(a[1..], c, b);
      assert a == [a[0]] + a[1..];
    }
  }

  /** `s.replace(c, rep)`: every occurrence of the character `c` replaced. */
  function ReplaceAll(s: string, c: char, rep: string): (r: string)
    ensures c !in s ==> r == s
    ensures c !in rep ==> c !in r
    ensures forall x :: x in r ==> x in s || x in rep
  {
    if s == [] then []
    else if s[0] == c then rep + ReplaceAll(s[1..], c, rep)
    else [s[0]] + ReplaceAll(s[1..], c, rep)
  }

  /** Replacement works piecewise: it distributes over concatenation. */
  lemma {:induction false} ReplaceAllAppend(a: string, b: string, c: char, rep: string)
    ensures ReplaceAll(a + b, c, rep) == ReplaceAll(a, c, rep) + ReplaceAll(b, c, rep)
  {
    if a != [] {
      assert (a + b)[1..] == a[1..] + b;
      ReplaceAllAppend(a[1..], b, c, rep);
    } else {
      assert a + b == b;
    }
  }
}
