/**
 Case-insensitive substring search on log lines, as used by
 `String.contains(other, ignoreCase = true)`: the pattern is compared with
 each region of the line character by character, ignoring letter case.
 Case folding is modelled for ASCII letters only.
 */
module Text {

  /** ASCII upper-case letters become lower-case; every other character is kept. */
  function LowerChar(c: char): char
  {
    if 'A' <= c <= 'Z' then (c as int + 32) as char else c
  }

  /** The string with every ASCII letter in lower case. */
  function Lower(s: string): (r: string)
    ensures |r| == |s|
    ensures forall i :: 0 <= i < |s| ==> r[i] == LowerChar(s[i])
  {
    seq(|s|, i requires 0 <= i < |s| => LowerChar(s[i]))
  }

  /** `p` occurs in `s` starting at index `i`. */
  ghost predicate OccursAt(s: string, p: string, i: int)
  {
    0 <= i && i + |p| <= |s| && s[i..i + |p|] == p
  }

  /** `s` begins with `p`, ignoring letter case. */
  predicate RegionMatches(s: string, p: string)
    decreases |p|
  {
    p == [] || (s != [] && LowerChar(s[0]) == LowerChar(p[0]) && RegionMatches(s[1..], p[1..]))
  }

  /** `s.contains(p, ignoreCase = true)`: `p` matches at the start of `s` or of one of its suffixes. */
  predicate ContainsIgnoreCase(s: string, p: string)
    decreases |s|
  {
    RegionMatches(s, p) || (s != [] && ContainsIgnoreCase(s[1..], p))
  }

  /** A region match is a prefix of the lower-cased string. */
  lemma {:induction false} RegionMatchesIsLowerPrefix(s: string, p: string)
    ensures RegionMatches(s, p) <==> |p| <= |s| && Lower(s)[..|p|] == Lower(p)
    decreases |p|
  {
    if p != [] && s != [] {
      RegionMatchesIsLowerPrefix(s[1..], p[1..]);
      var ls, lp := Lower(s), Lower(p);
      assert Lower(s[1..]) == ls[1..];
      assert Lower(p[1..]) == lp[1..];
      if |p| <= |s| && ls[..|p|] == lp {
        assert LowerChar(s[0]) == ls[..|p|][0] == LowerChar(p[0]);
        assert ls[1..][..|p| - 1] == ls[..|p|][1..];
      }
      if RegionMatches(s, p) {
        assert ls[..|p|] == [ls[0]] + ls[1..][..|p| - 1];
        assert lp == [lp[0]] + lp[1..];
      }
    }
  }

  /** An occurrence past the first character is an occurrence in the tail. */
  lemma OccursInTail(s: string, p: string, i: int)
    requires 0 < i && OccursAt(s, p, i)
    ensures OccursAt(s[1..], p, i - 1)
  {
    assert s[1..][i - 1..i - 1 + |p|] == s[i..i + |p|];
  }

  /**
   The search finds `p` exactly when the lower-cased `p` occurs somewhere in
   the lower-cased `s`: the search is the ASCII-lower-case substring test.
   */
  lemma {:induction false} ContainsIgnoreCaseIffOccurs(s: string, p: string)
    ensures ContainsIgnoreCase(s, p) ==> exists i :: OccursAt(Lower(s), Lower(p), i)
    ensures (exists i :: OccursAt(Lower(s), Lower(p), i)) ==> ContainsIgnoreCase(s, p)
    decreases |s|
  {
    var ls, lp := Lower(s), Lower(p);
    RegionMatchesIsLowerPrefix(s, p);
    if s != [] {
      ContainsIgnoreCaseIffOccurs(s[1..], p);
      assert Lower(s[1..]) == ls[1..];
    }
    if ContainsIgnoreCase(s, p) {
      if RegionMatches(s, p) {
        assert ls[..|lp|] == ls[0..0 + |lp|];
        assert OccursAt(ls, lp, 0);
      } else {
        var j :| OccursAt(Lower(s[1..]), lp, j);
        assert ls[j + 1..j + 1 + |lp|] == ls[1..][j..j + |lp|];
        assert OccursAt(ls, lp, j + 1);
      }
    }
    forall i | OccursAt(ls, lp, i) ensures ContainsIgnoreCase(s, p) {
      if i == 0 {
        assert ls[..|lp|] == ls[0..0 + |lp|];
      } else {
        OccursInTail(ls, lp, i);
      }
    }
  }

  /** A line shorter than the pattern never contains it. */
  lemma {:induction false} ShortLineNoMatch(s: string, p: string)
    requires |s| < |p|
    ensures !ContainsIgnoreCase(s, p)
  {
    ContainsIgnoreCaseIffOccurs(s, p);
  }

  /** A match of `p` starting at index `i` of `s` is found by the search. */
  lemma {:induction false} MatchAtIndex(s: string, p: string, i: nat)
    requires i <= |s|
    requires RegionMatches(s[i..], p)
    ensures ContainsIgnoreCase(s, p)
    decreases i
  {
    if i == 0 {
      assert s[0..] == s;
    } else {
      assert s[1..][i - 1..] == s[i..];
      MatchAtIndex(s[1..], p, i - 1);
    }
  }
}
