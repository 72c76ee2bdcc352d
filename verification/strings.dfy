/** Substring search over `seq<char>`, the meaning of Python's `t in s` on strings. */
module Strings {
  import opened Wrappers

  /** `t` occurs in `s` starting at index `i`. */
  predicate OccursAt(s: string, t: string, i: nat)
  {
    i + |t| <= |s| && s[i..i + |t|] == t
  }

  /** The first index at or after `i` where `t` occurs in `s`, if any. */
  function FindFrom(s: string, t: string, i: nat): (r: Option<nat>)
    ensures r.Some? ==> i <= r.value && OccursAt(s, t, r.value)
    ensures r.Some? ==> forall k: nat :: i <= k < r.value ==> !OccursAt(s, t, k)
    ensures r.None? ==> forall k: nat :: i <= k ==> !OccursAt(s, t, k)
    decreases |s| - i
  {
    if i + |t| > |s| then None
    else if s[i..i + |t|] == t then Some(i)
    else FindFrom(s, t, i + 1)
  }

  /** Python's `t in s`: `t` occurs somewhere in `s`. */
  predicate Contains(s: string, t: string)
  {
    FindFrom(s, t, 0).Some?
  }

  /** The search finds the earliest occurrence: an occurrence at `m` with none
      before it is what the search returns. */
  lemma FindFirstAt(s: string, t: string, m: nat)
    requires OccursAt(s, t, m)
    requires forall k: nat :: k < m ==> !OccursAt(s, t, k)
    ensures FindFrom(s, t, 0) == Some(m)
  {
  }

  /** Containing a string means containing each of its prefixes. */
  lemma ContainsPrefix(s: string, t: string, u: string)
    requires Contains(s, t + u)
    ensures Contains(s, t)
  {
    var k := FindFrom(s, t + u, 0).value;
    assert s[k..k + |t|] == s[k..k + |t + u|][..|t|];
    assert (t + u)[..|t|] == t;
    assert OccursAt(s, t, k);
  }

  /** A string embedded at index `|p|` of `p + t + q` is contained in it. */
  lemma ContainsEmbedded(p: string, t: string, q: string)
    ensures Contains(p + t + q, t)
  {
    var s := p + t + q;
    assert s[|p|..|p| + |t|] == t;
    assert OccursAt(s, t, |p|);
  }

  /** A character of a contained string is a character of the containing one. */
  lemma ContainsChar(s: string, t: string, c: char)
    requires Contains(s, t) && c in t
    ensures c in s
  {
    var k := FindFrom(s, t, 0).value;
    var j :| 0 <= j < |t| && t[j] == c;
    assert s[k..k + |t|][j] == c;
  }
}
