/**
 * Resource paths and the wildcard path matcher (v1/resource.go).
 *
 * A path is split into components at '/'. The matcher walks a pattern and a
 * candidate one component at a time; `Match` below is the reference
 * definition of what that walk decides, stated on the two component lists.
 */
module Resources {
  import opened Text

  type Path = string

  const Wildcard: string := "*"
  const Separator: char := '/'

  const MatchOptionNone: int := 0
  const MatchOptionEncompass: int := 1

  /**
   * `options & MatchOptionEncompass == MatchOptionEncompass`; on Go's
   * two's-complement ints, `x & 1` is Dafny's (Euclidean) `x % 2`.
   */
  predicate Encompassing(options: int)
  {
    options % 2 == MatchOptionEncompass
  }

  /**
   * What `component` returns: the text before the first separator, the text
   * after it, and whether there was a component at all.
   */
  function FirstComponent(q: string): (r: (string, string, bool))
    ensures r.2 <==> q != ""
    ensures Separator !in r.0
    ensures r.2 ==> q == r.0 + [Separator] + r.1 || (q == r.0 && r.1 == "")
    ensures !r.2 ==> r.0 == "" && r.1 == ""
  {
    if q == "" then ("", "", false)
    else
      var i := IndexOf(q, Separator);
      if i < 0 then (q, "", true)
      else
        assert q == q[..i] + [Separator] + q[i + 1..];
        (q[..i], q[i + 1..], true)
  }

  /** Obtain the first component of `q`, character by character. */
  method Component(q: string) returns (c: string, rest: string, ok: bool)
    ensures (c, rest, ok) == FirstComponent(q)
  {
    c := "";
    if |q| < 1 {
      return c, "", false;
    }
    var i := 0;
    while i < |q|
      invariant 0 <= i <= |q|
      invariant c == q[..i]
      invariant Separator !in c
    {
      var r := q[i];
      i := i + 1;
      if r == Separator {
        IndexOfAt(q, Separator, i - 1);
        return c, q[i..], true;
      } else {
        c := c + [r];
      }
    }
    assert q[..i] == q;
    return c, "", true;
  }

  /** The components `component` yields when applied until it reports none. */
  function Components(q: string): (r: seq<string>)
    ensures r == [] <==> q == ""
    decreases |q|
  {
    var (c, rest, ok) := FirstComponent(q);
    if !ok then [] else [c] + Components(rest)
  }

  /** One pattern component accepts one candidate component. */
  predicate SegmentMatches(p: string, c: string)
  {
    p == Wildcard || EqualFold(p, c)
  }

  /**
   * Component lists match when every pattern component accepts the candidate
   * component at the same position, the candidate is at least as long, and a
   * longer candidate is absorbed only by a trailing wildcard or when
   * encompassing.
   */
  predicate MatchComponents(ps: seq<string>, cs: seq<string>, enc: bool)
  {
    && |ps| <= |cs|
    && (forall i :: 0 <= i < |ps| ==> SegmentMatches(ps[i], cs[i]))
    && (|ps| == |cs| || enc || (0 < |ps| && ps[|ps| - 1] == Wildcard))
  }

  /**
   * Reference definition of Path.MatchesWithOptions: the empty pattern
   * matches nothing, the pattern "*" matches everything, the empty candidate
   * matches nothing else, and otherwise the component lists decide.
   */
  predicate Match(pattern: Path, candidate: Path, enc: bool)
  {
    if pattern == "" then false
    else if pattern == Wildcard then true
    else if candidate == "" then false
    else MatchComponents(Components(pattern), Components(candidate), enc)
  }

  /** Some member of the set matches. */
  predicate AnyMatches(s: seq<Path>, z: Path, enc: bool)
  {
    exists i :: 0 <= i < |s| && Match(s[i], z, enc)
  }

  /** Path.MatchesWithOptions: the component-by-component walk. */
  method MatchesWithOptions(q: Path, z: Path, options: int) returns (m: bool)
    ensures m == Match(q, z, Encompassing(options))
  {
    var a, b := q, z;
    var enc := Encompassing(options);
    if a == "" {
      return false;
    } else if a == Wildcard {
      return true;
    } else if b == "" {
      return false;
    }
    ghost var ps, cs := Components(q), Components(z);
    assert Match(q, z, enc) == MatchComponents(ps, cs, enc);
    ghost var k := 0;
    var wc := false;
    while true
      invariant 0 <= k <= |ps| && k <= |cs|
      invariant Components(a) == ps[k..] && Components(b) == cs[k..]
      invariant forall i :: 0 <= i < k ==> SegmentMatches(ps[i], cs[i])
      invariant wc <==> 0 < k && ps[k - 1] == Wildcard
      decreases |a|
    {
      var ca, cb;
      var aok, bok;
      ghost var a0, b0 := a, b;
      ca, a, aok := Component(a);
      cb, b, bok := Component(b);
      if !aok && !bok {
        WalkEnds(ps, cs, k, enc, wc, true);
        return true;
      } else if !aok && bok {
        WalkEnds(ps, cs, k, enc, wc, wc || enc);
        return wc || enc;
      } else if aok && !bok {
        WalkEnds(ps, cs, k, enc, wc, false);
        return false;
      }
      assert ps[k..] == [ca] + Components(a) && cs[k..] == [cb] + Components(b);
      assert ps[k] == ca && cs[k] == cb;
      assert ps[k + 1..] == ps[k..][1..] && cs[k + 1..] == cs[k..][1..];
      wc := ca == Wildcard;
      if !wc && !EqualFold(ca, cb) {
        assert !SegmentMatches(ps[k], cs[k]);
        return false;
      }
      k := k + 1;
    }
  }

  /** When one side of the walk runs out, the walk's answer is the reference answer. */
  lemma WalkEnds(ps: seq<string>, cs: seq<string>, k: nat, enc: bool, wc: bool, answer: bool)
    requires k <= |ps| && k <= |cs| && (k == |ps| || k == |cs|)
    requires forall i :: 0 <= i < k ==> SegmentMatches(ps[i], cs[i])
    requires wc <==> 0 < k && ps[k - 1] == Wildcard
    requires answer == (if k == |ps| && k == |cs| then true else if k == |ps| then wc || enc else false)
    ensures answer == MatchComponents(ps, cs, enc)
  {
  }

  /** Path.Matches: matching without options. */
  method Matches(q: Path, z: Path) returns (m: bool)
    ensures m == Match(q, z, false)
  {
    m := MatchesWithOptions(q, z, MatchOptionNone);
  }

  /** Path.MatchesString: a path and a string are the same thing here. */
  method MatchesString(q: Path, a: string) returns (m: bool)
    ensures m == Match(q, a, false)
  {
    m := Matches(q, a);
  }

  /** Path.MatchesStringWithOptions. */
  method MatchesStringWithOptions(q: Path, a: string, options: int) returns (m: bool)
    ensures m == Match(q, a, Encompassing(options))
  {
    m := MatchesWithOptions(q, a, options);
  }

  /** PathSet.MatchesWithOptions: search the set, stopping at the first match. */
  method PathSetMatchesWithOptions(s: seq<Path>, z: Path, options: int) returns (m: bool)
    ensures m <==> exists i :: 0 <= i < |s| && Match(s[i], z, Encompassing(options))
  {
    for i := 0 to |s|
      invariant forall j :: 0 <= j < i ==> !Match(s[j], z, Encompassing(options))
    {
      var e := MatchesWithOptions(s[i], z, options);
      if e {
        return true;
      }
    }
    return false;
  }

  /** PathSet.Matches. */
  method PathSetMatches(s: seq<Path>, z: Path) returns (m: bool)
    ensures m <==> exists i :: 0 <= i < |s| && Match(s[i], z, false)
  {
    for i := 0 to |s|
      invariant forall j :: 0 <= j < i ==> !Match(s[j], z, false)
    {
      var e := Matches(s[i], z);
      if e {
        return true;
      }
    }
    return false;
  }

  /** PathSet.MatchesString. */
  method PathSetMatchesString(s: seq<Path>, a: string) returns (m: bool)
    ensures m <==> AnyMatches(s, a, false)
  {
    for i := 0 to |s|
      invariant forall j :: 0 <= j < i ==> !Match(s[j], a, false)
    {
      var e := MatchesString(s[i], a);
      if e {
        return true;
      }
    }
    return false;
  }

  /** PathSet.MatchesStringWithOptions. */
  method PathSetMatchesStringWithOptions(s: seq<Path>, a: string, options: int) returns (m: bool)
    ensures m <==> AnyMatches(s, a, Encompassing(options))
  {
    for i := 0 to |s|
      invariant forall j :: 0 <= j < i ==> !Match(s[j], a, Encompassing(options))
    {
      var e := MatchesStringWithOptions(s[i], a, options);
      if e {
        return true;
      }
    }
    return false;
  }

  // ---------------------------------------------------------------------
  // Properties of the matcher
  // ---------------------------------------------------------------------

  /**
   * The pattern alone: "" matches nothing, "*" matches every candidate
   * (including ""), and no other pattern matches the empty candidate.
   */
  lemma PatternAlone(p: Path, c: Path, enc: bool)
    ensures !Match("", c, enc)
    ensures Match(Wildcard, c, enc)
    ensures p != "" && p != Wildcard ==> !Match(p, "", enc)
  {
  }

  /** Encompassing only adds matches. */
  lemma EncompassMonotone(p: Path, c: Path)
    ensures Match(p, c, false) ==> Match(p, c, true)
  {
  }

  /** A single trailing separator adds no component to a non-empty path. */
  lemma {:induction false} ComponentsTrailingSlash(q: string)
    requires q != "" && q[|q| - 1] != Separator
    ensures Components(q + [Separator]) == Components(q)
    decreases |q|
  {
    var i := IndexOf(q, Separator);
    var q' := q + [Separator];
    if i < 0 {
      IndexOfAt(q', Separator, |q|);
      assert q'[..|q|] == q;
      assert FirstComponent(q') == (q, "", true);
    } else {
      IndexOfAt(q', Separator, i);
      assert q'[..i] == q[..i];
      assert q'[i + 1..] == q[i + 1..] + [Separator];
      assert q[i + 1..] != "";
      ComponentsTrailingSlash(q[i + 1..]);
    }
  }

  /**
   * Appending one '/' to a pattern (other than "" and "*") or to a non-empty
   * candidate, neither ending in '/', does not change the outcome.
   */
  lemma TrailingSlashIrrelevant(p: Path, c: Path, enc: bool)
    requires p != "" && p != Wildcard && p[|p| - 1] != Separator
    requires c != "" && c[|c| - 1] != Separator
    ensures Match(p + [Separator], c, enc) == Match(p, c, enc)
    ensures Match(p, c + [Separator], enc) == Match(p, c, enc)
  {
    ComponentsTrailingSlash(p);
    ComponentsTrailingSlash(c);
    assert p + [Separator] != Wildcard;
  }
}
