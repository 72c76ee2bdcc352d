/** Rule tags: the comment `dfm_rule_<name>` that ties a NAT rule to a
    container, and the two ways a name is read back from a saved rule line. */
module Tags {
  import opened Wrappers
  import opened Strings

  /** The marker every tag begins with; a line containing it is owned by the daemon. */
  const Marker: string := "dfm_rule_"

  /** The tag of container `name`. */
  function Tag(name: string): (t: string)
    ensures |t| == |Marker| + |name|
    ensures t[..|Marker|] == Marker && t[|Marker|..] == name
  {
    Marker + name
  }

  /** A rule line carries the marker somewhere, so the daemon treats it as its own. */
  predicate Owned(line: string)
  {
    Contains(line, Marker)
  }

  /** Where the lazy group of `dfm_rule_(.*?) ` that starts at `j` closes: the
      first space at or after `j`, unless a newline (which `.` does not match)
      or the end of the line comes first. */
  function LazyClose(line: string, j: nat): (r: Option<nat>)
    ensures r.Some? ==> j <= r.value < |line| && line[r.value] == ' '
    ensures r.Some? ==> forall k :: j <= k < r.value ==> line[k] != ' ' && line[k] != '\n'
    decreases |line| - j
  {
    if j >= |line| then None
    else if line[j] == ' ' then Some(j)
    else if line[j] == '\n' then None
    else LazyClose(line, j + 1)
  }

  /** `re.search("dfm_rule_(.*?) ", line).group(1)` tried at start positions
      `i`, `i + 1`, ...: the first start where the whole pattern matches wins. */
  function SearchFrom(line: string, i: nat): (r: Option<string>)
    ensures r.Some? ==> ' ' !in r.value && '\n' !in r.value
    ensures r.Some? ==> Contains(line, Tag(r.value) + " ")
    decreases |line| + 1 - i
  {
    if i > |line| then None
    else if OccursAt(line, Marker, i) && LazyClose(line, i + |Marker|).Some? then
      var e := LazyClose(line, i + |Marker|).value;
      var name := line[i + |Marker|..e];
      assert line[i..e + 1] == line[i..i + |Marker|] + name + line[e..e + 1];
      assert OccursAt(line, Tag(name) + " ", i);
      Some(name)
    else SearchFrom(line, i + 1)
  }

  /** The name group of the regular-expression search, or None when the search fails. */
  function SearchGroup(line: string): (r: Option<string>)
    ensures r.Some? ==> ' ' !in r.value && '\n' !in r.value
    ensures r.Some? ==> Contains(line, Tag(r.value) + " ")
  {
    SearchFrom(line, 0)
  }

  /** Reference reading of a rule line: the text between the first marker and
      the next space after it. */
  function ExtractName(line: string): (r: Option<string>)
    ensures r.Some? ==> Contains(line, Tag(r.value) + " ")
  {
    match FindFrom(line, Marker, 0)
    case None => None
    case Some(i) =>
      match FindFrom(line, " ", i + |Marker|)
      case None => None
      case Some(j) =>
        var name := line[i + |Marker|..j];
        assert line[i..j + 1] == line[i..i + |Marker|] + name + line[j..j + 1];
        assert OccursAt(line, Tag(name) + " ", i);
        Some(name)
  }

  /** On a line without newlines, the lazy group closes at the first space. */
  lemma {:induction false} LazyCloseIsFindSpace(line: string, j: nat)
    requires '\n' !in line
    ensures LazyClose(line, j) == FindFrom(line, " ", j)
    decreases |line| - j
  {
    if j < |line| {
      assert line[j..j + 1] == " " <==> line[j] == ' ';
      if line[j] != ' ' {
        assert line[j] in line;
        LazyCloseIsFindSpace(line, j + 1);
      }
    }
  }

  /** Start positions where the marker does not occur are skipped by the search. */
  lemma {:induction false} SearchSkips(line: string, i: nat, m: nat)
    requires i <= m <= |line| + 1
    requires forall k: nat :: i <= k < m ==> !OccursAt(line, Marker, k)
    ensures SearchFrom(line, i) == SearchFrom(line, m)
    decreases m - i
  {
    if i < m {
      assert !OccursAt(line, Marker, i);
      SearchSkips(line, i + 1, m);
    }
  }

  /** With no space at or after `j` and no newline, no start from `j - |Marker|` on matches. */
  lemma {:induction false} SearchNoSpace(line: string, i: nat, j: nat)
    requires '\n' !in line
    requires FindFrom(line, " ", j).None?
    requires j <= i + |Marker|
    ensures SearchFrom(line, i) == None
    decreases |line| + 1 - i
  {
    if i <= |line| {
      LazyCloseIsFindSpace(line, i + |Marker|);
      SearchNoSpace(line, i + 1, j);
    }
  }

  /** The non-greedy regular expression reads the same name as "first marker
      up to the next space" on every line without a newline, which is every
      line `splitlines` produces. */
  lemma SearchAgreesWithFirstMarker(line: string)
    requires '\n' !in line
    ensures SearchGroup(line) == ExtractName(line)
  {
    match FindFrom(line, Marker, 0)
    case None =>
      SearchSkips(line, 0, |line| + 1);
    case Some(i) =>
      SearchSkips(line, 0, i);
      LazyCloseIsFindSpace(line, i + |Marker|);
      if LazyClose(line, i + |Marker|).None? {
        SearchNoSpace(line, i + 1, i + |Marker|);
      }
  }

  /** No character of the marker after its first is its first character `d`,
      so an occurrence cannot start inside `p` and run into a following tag. */
  lemma MarkerStartsOnce()
    ensures forall k :: 0 < k < |Marker| ==> Marker[k] != Marker[0]
  {
  }

  /** The first marker of `p + Tag(n) + rest` is the tag's own when `p` has none. */
  lemma FirstMarkerIsTag(p: string, n: string, rest: string)
    requires !Contains(p, Marker)
    ensures FindFrom(p + Tag(n) + rest, Marker, 0) == Some(|p|)
  {
    var line := p + Tag(n) + rest;
    assert line[|p|..|p| + |Marker|] == Marker;
    forall k: nat | k < |p|
      ensures !OccursAt(line, Marker, k)
    {
      if k + |Marker| <= |p| {
        assert line[k..k + |Marker|] == p[k..k + |Marker|];
        assert !OccursAt(p, Marker, k);
      } else if k + |Marker| <= |line| {
        MarkerStartsOnce();
        assert line[|p|] == Marker[0];
        assert line[k..k + |Marker|][|p| - k] == line[|p|];
        assert Marker[|p| - k] != Marker[0];
      }
    }
    FindFirstAt(line, Marker, |p|);
  }

  /** Tag round trip: a line `p + Tag(n) + " " + s` whose prefix has no marker
      and whose name has no space reads back as `n`. */
  lemma ExtractRoundTrip(p: string, n: string, s: string)
    requires !Contains(p, Marker)
    requires ' ' !in n
    ensures ExtractName(p + Tag(n) + " " + s) == Some(n)
  {
    var line := p + Tag(n) + " " + s;
    assert line == p + Tag(n) + (" " + s);
    FirstMarkerIsTag(p, n, " " + s);
    var b := |p| + |Marker|;
    var e := b + |n|;
    assert line[b..e] == n;
    assert line[e..e + 1] == " ";
    forall k: nat | b <= k < e
      ensures !OccursAt(line, " ", k)
    {
      assert line[k] == n[k - b];
      assert line[k..k + 1][0] == line[k];
    }
    assert OccursAt(line, " ", e);
    assert FindFrom(line, " ", b) == Some(e);
  }

  /** The same round trip through the regular-expression search the prune uses. */
  lemma SearchRoundTrip(p: string, n: string, s: string)
    requires !Contains(p, Marker)
    requires ' ' !in n
    requires '\n' !in p && '\n' !in n && '\n' !in s
    ensures SearchGroup(p + Tag(n) + " " + s) == Some(n)
  {
    var line := p + Tag(n) + " " + s;
    assert '\n' !in line by {
      assert '\n' !in Marker;
      assert forall c :: c in line ==> c in p || c in Marker || c in n || c == ' ' || c in s;
    }
    ExtractRoundTrip(p, n, s);
    SearchAgreesWithFirstMarker(line);
  }

  /** Every tag carries the marker, so a line holding some tag is owned. */
  lemma TaggedIsOwned(line: string, name: string)
    requires Contains(line, Tag(name))
    ensures Owned(line)
  {
    ContainsPrefix(line, Marker, name);
  }
}
