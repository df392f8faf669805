/** The string operations of Python's `str` that the application uses:
    `strip`, `lower`, `startswith`, `endswith`, `in` and `replace(pattern, "")`. */
module Text {

  /** Python's `str.isspace` for one character: the characters `str.strip()` removes. */
  predicate IsSpace(c: char)
  {
    c == ' ' || ('\t' <= c <= '\r') || ('\U{1C}' <= c <= '\U{1F}') ||
    c == '\U{85}' || c == '\U{A0}' || c == '\U{1680}' || ('\U{2000}' <= c <= '\U{200A}') ||
    c == '\U{2028}' || c == '\U{2029}' || c == '\U{202F}' || c == '\U{205F}' || c == '\U{3000}'
  }

  predicate AllSpace(s: string)
  {
    forall i :: 0 <= i < |s| ==> IsSpace(s[i])
  }

  /** How many white-space characters `s.lstrip()` removes from the front of `s`. */
  function LeadingSpaces(s: string): (n: nat)
    ensures n <= |s|
    ensures forall i :: 0 <= i < n ==> IsSpace(s[i])
    ensures n < |s| ==> !IsSpace(s[n])
    decreases |s|
  {
    if s != [] && IsSpace(s[0]) then
      var m := LeadingSpaces(s[1..]);
      assert forall i :: 0 <= i < m + 1 ==> IsSpace(s[i]) by {
        forall i | 0 <= i < m + 1 ensures IsSpace(s[i]) {
          if i > 0 {
            assert s[i] == s[1..][i - 1];
          }
        }
      }
      assert m + 1 < |s| ==> s[m + 1] == s[1..][m];
      m + 1
    else 0
  }

  /** How many white-space characters `s.rstrip()` removes from the end of `s`. */
  function TrailingSpaces(s: string): (n: nat)
    ensures n <= |s|
    ensures forall i :: |s| - n <= i < |s| ==> IsSpace(s[i])
    ensures n < |s| ==> !IsSpace(s[|s| - 1 - n])
    decreases |s|
  {
    if s != [] && IsSpace(s[|s| - 1]) then
      var init := s[..|s| - 1];
      var m := TrailingSpaces(init);
      assert forall i :: |s| - (m + 1) <= i < |s| ==> IsSpace(s[i]) by {
        forall i | |s| - (m + 1) <= i < |s| ensures IsSpace(s[i]) {
          if i < |s| - 1 {
            assert s[i] == init[i];
          }
        }
      }
      assert m + 1 < |s| ==> s[|s| - 2 - m] == init[|init| - 1 - m];
      m + 1
    else 0
  }

  /** `s.strip()`: never longer than `s`, and neither starting nor ending with white space. */
  function Strip(s: string): (r: string)
    ensures |r| <= |s|
    ensures r != [] ==> !IsSpace(r[0]) && !IsSpace(r[|r| - 1])
  {
    var a := LeadingSpaces(s);
    var l := s[a..];
    var b := TrailingSpaces(l);
    assert a < |s| ==> l[0] == s[a];
    l[..|l| - b]
  }

  /** `strip` removes white space only: the input is the result with white space on either side. */
  lemma StripParts(s: string) returns (w1: string, w2: string)
    ensures AllSpace(w1) && AllSpace(w2)
    ensures s == w1 + Strip(s) + w2
  {
    var a := LeadingSpaces(s);
    var l := s[a..];
    var b := TrailingSpaces(l);
    w1, w2 := s[..a], l[|l| - b..];
    assert AllSpace(w2) by {
      forall i | 0 <= i < |w2| ensures IsSpace(w2[i]) {
        assert w2[i] == l[|l| - b + i];
      }
    }
    CutThree(s, a, b);
  }

  /** Cutting `a` elements off the front and then `b` off the back splits a sequence in three. */
  lemma CutThree<T>(s: seq<T>, a: nat, b: nat)
    requires a <= |s| && b <= |s| - a
    ensures s == s[..a] + s[a..][..|s| - a - b] + s[a..][|s| - a - b..]
  {
    var l := s[a..];
    assert l[..|l| - b] + l[|l| - b..] == l;
    assert s[..a] + l == s;
  }

  /** `strip` gives the empty string exactly for an all-white-space input, so a
      non-empty result is a text that does not start or end with white space. */
  lemma StripEmpty(s: string)
    ensures Strip(s) == [] <==> AllSpace(s)
    ensures Strip(s) != [] ==> !IsSpace(Strip(s)[0]) && !IsSpace(Strip(s)[|Strip(s)| - 1])
  {
    var a := LeadingSpaces(s);
    var l := s[a..];
    var b := TrailingSpaces(l);
    if a < |s| {
      assert l[0] == s[a];
      assert b < |l|;
      assert Strip(s)[0] == l[0];
      assert Strip(s)[|Strip(s)| - 1] == l[|l| - 1 - b];
    }
  }

  /** White space around a text whose ends are not white space is exactly what `strip` removes. */
  lemma StripSurroundingSpace(w1: string, s: string, w2: string)
    requires AllSpace(w1) && AllSpace(w2)
    requires s != [] ==> !IsSpace(s[0]) && !IsSpace(s[|s| - 1])
    ensures Strip(w1 + s + w2) == s
  {
    var t := w1 + s + w2;
    if s == [] {
      assert AllSpace(t) by {
        forall i | 0 <= i < |t| ensures IsSpace(t[i]) {
          if i < |w1| { assert t[i] == w1[i]; } else { assert t[i] == w2[i - |w1|]; }
        }
      }
      StripEmpty(t);
    } else {
      var a := LeadingSpaces(t);
      assert t[|w1|] == s[0];
      assert a == |w1|;
      var l := t[a..];
      assert l == s + w2;
      var b := TrailingSpaces(l);
      assert l[|s| - 1] == s[|s| - 1];
      assert b == |w2|;
      assert l[..|l| - b] == s;
    }
  }


  /** Python's `str.lower` on one character, restricted to the ASCII letters. */
  function LowerChar(c: char): char
  {
    if 'A' <= c <= 'Z' then (c as int + 32) as char else c
  }

  /** `s.lower()` */
  function Lower(s: string): (r: string)
    ensures |r| == |s|
    ensures forall i :: 0 <= i < |s| ==>
      if 'A' <= s[i] <= 'Z' then r[i] as int == s[i] as int + 32 && 'a' <= r[i] <= 'z' else r[i] == s[i]
    ensures forall i :: 0 <= i < |r| ==> !('A' <= r[i] <= 'Z')
  {
    seq(|s|, i requires 0 <= i < |s| => LowerChar(s[i]))
  }

  lemma LowerIdempotent(s: string)
    ensures Lower(Lower(s)) == Lower(s)
  {
  }

  /** `s.startswith(p)` */
  predicate StartsWith(s: string, p: string)
  {
    |p| <= |s| && s[..|p|] == p
  }

  /** `s.endswith(p)` */
  predicate EndsWith(s: string, p: string)
  {
    |p| <= |s| && s[|s| - |p|..] == p
  }

  /** `t in s`: `t` occurs in `s` as a contiguous substring. */
  predicate Contains(s: string, t: string)
    ensures Contains(s, t) ==> |t| <= |s|
    decreases |s|
  {
    StartsWith(s, t) || (s != [] && Contains(s[1..], t))
  }

  /** The stripped text is a piece of the original one. */
  lemma StripInside(s: string)
    ensures Contains(s, Strip(s))
  {
    var a := LeadingSpaces(s);
    var l := s[a..];
    var n := |l| - TrailingSpaces(l);
    PrefixOfSuffix(s, a, n);
    ContainsAt(s, Strip(s), a);
  }

  lemma PrefixOfSuffix(s: string, k: nat, n: nat)
    requires k + n <= |s|
    ensures s[k..][..n] == s[k..k + n]
  {
  }

  /** The occurrence of `t` at position `k` is found by `Contains`. */
  lemma {:induction false} ContainsAt(s: string, t: string, k: nat)
    requires k + |t| <= |s| && s[k..k + |t|] == t
    ensures Contains(s, t)
    decreases k
  {
    if k > 0 {
      assert s[1..][k - 1..k - 1 + |t|] == s[k..k + |t|];
      ContainsAt(s[1..], t, k - 1);
    }
  }

  /** `t` occurs in `s` starting at position `k`. */
  predicate OccursAt(s: string, t: string, k: nat)
  {
    k + |t| <= |s| && s[k..k + |t|] == t
  }

  /** Conversely, `Contains` finds only real occurrences: together with `ContainsAt`
      this characterises `in` both ways. */
  lemma {:induction false} ContainsOccurs(s: string, t: string)
    requires Contains(s, t)
    ensures exists k: nat :: OccursAt(s, t, k)
    decreases |s|
  {
    if StartsWith(s, t) {
      assert OccursAt(s, t, 0);
    } else {
      ContainsOccurs(s[1..], t);
      var k: nat :| OccursAt(s[1..], t, k);
      assert s[k + 1..k + 1 + |t|] == s[1..][k..k + |t|];
      assert OccursAt(s, t, k + 1);
    }
  }

  /** Every string contains the empty string, so an empty search keeps every row. */
  lemma ContainsEmpty(s: string)
    ensures Contains(s, "")
  {
  }

  /** `s.replace(pat, "")`: every non-overlapping occurrence of `pat`, scanning
      from the left, is deleted. */
  function RemoveAll(s: string, pat: string): (r: string)
    requires pat != []
    ensures |r| <= |s|
    decreases |s|
  {
    if |s| < |pat| then s
    else if s[..|pat|] == pat then RemoveAll(s[|pat|..], pat)
    else [s[0]] + RemoveAll(s[1..], pat)
  }

  /** Deleting `pat` from `x + pat` gives back `x` when no occurrence of `pat` can
      start inside `x`, which holds when `x` never contains the first character of `pat`. */
  lemma {:induction false} RemoveAllOfSuffix(x: string, pat: string)
    requires pat != []
    requires forall i :: 0 <= i < |x| ==> x[i] != pat[0]
    ensures RemoveAll(x + pat, pat) == x
    decreases |x|
  {
    var s := x + pat;
    if x == [] {
      assert s == pat;
      assert s[|pat|..] == [];
    } else {
      assert s[0] == x[0];
      assert s[..|pat|] != pat by { assert s[..|pat|][0] == x[0]; }
      assert s[1..] == x[1..] + pat;
      RemoveAllOfSuffix(x[1..], pat);
      assert [x[0]] + x[1..] == x;
    }
  }

  /** An occurrence of `pat` at the front is deleted. */
  lemma RemoveAllLeading(pat: string, t: string)
    requires pat != []
    ensures RemoveAll(pat + t, pat) == RemoveAll(t, pat)
  {
    var s := pat + t;
    assert s[..|pat|] == pat && s[|pat|..] == t;
  }

  /** A first character that cannot start `pat` is kept. */
  lemma RemoveAllKeeps(c: char, t: string, pat: string)
    requires pat != [] && c != pat[0]
    ensures RemoveAll([c] + t, pat) == [c] + RemoveAll(t, pat)
  {
    var s := [c] + t;
    if |s| >= |pat| {
      assert s[..|pat|][0] == c;
      assert s[1..] == t;
    }
  }
}
