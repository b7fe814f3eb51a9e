/**
 * Scopes: an action list qualified by a resource name, with the text form
 * "read,write:resource", the satisfaction relation between granted and
 * required scopes, and the merging of scope lists (v1/scope.go).
 */
module Scopes {
  import opened Wrappers
  import opened Errors
  import opened Text
  import opened Actions

  datatype Scope = Scope(actions: seq<Action>, resource: string)

  /** NewScope. */
  function NewScope(r: string, a: seq<Action>): (s: Scope)
    ensures s.resource == r && s.actions == a
  {
    Scope(a, r)
  }

  // ---------------------------------------------------------------------
  // Parsing

  /** The actions a scope text may name. */
  predicate IsNamed(w: string)
  {
    w == Read || w == Write || w == Delete || w == List
  }

  /** A segment of the action list the parser accepts: empty, a named action, or `*`. */
  predicate Known(w: string)
  {
    w == "" || IsNamed(w) || w == Every
  }

  predicate AllKnown(segs: seq<string>)
  {
    forall i :: 0 <= i < |segs| ==> Known(segs[i])
  }

  /**
   * The text holding the action list: before the first `:`, or, when there
   * is none, before the last `,`; without either there is no action list.
   */
  function ActionText(s: string): string
  {
    if ':' in s then s[..IndexOf(s, ':')]
    else if ',' in s then s[..LastIndexOf(s, ',')]
    else ""
  }

  /**
   * The text the parser leaves as the resource: after the first `:`, or,
   * when there is none, after the last `,`; without either, all of it.
   */
  function ResourceText(s: string): string
  {
    if ':' in s then s[IndexOf(s, ':') + 1..]
    else if ',' in s then s[LastIndexOf(s, ',') + 1..]
    else s
  }

  /** The named actions among some segments, in order. */
  function NamedActions(segs: seq<string>): seq<Action>
    decreases |segs|
  {
    if segs == [] then []
    else
      var w := segs[|segs| - 1];
      NamedActions(segs[..|segs| - 1]) + (if IsNamed(w) then [w] else [])
  }

  /** The named actions are exactly the named segments. */
  lemma {:induction false} NamedActionsMeaning(segs: seq<string>)
    ensures forall a :: a in NamedActions(segs) <==> IsNamed(a) && a in segs
    decreases |segs|
  {
    if segs != [] {
      NamedActionsMeaning(segs[..|segs| - 1]);
      assert segs == segs[..|segs| - 1] + [segs[|segs| - 1]];
    }
  }

  /**
   * What parseActions yields for a text: the comma-separated segments of the
   * action text must all be known (empty ones are ignored); if `*` is among
   * them the actions are exactly `*`, otherwise the named ones in order;
   * the rest of the text is left for the resource.
   */
  function ParsedActions(s: string): Result<(seq<Action>, string), Error>
  {
    var segs := Split(ActionText(s), ',');
    if !AllKnown(segs) then Failure(InvalidAction)
    else if Every in segs then Success(([Every], ResourceText(s)))
    else Success((NamedActions(segs), ResourceText(s)))
  }

  /**
   * The parse fails exactly on an unknown segment; `*` anywhere makes the
   * actions exactly `*`; otherwise they are the named segments.
   */
  lemma ParsedActionsMeaning(s: string)
    ensures var r := ParsedActions(s);
      (r.Failure? <==> !AllKnown(Split(ActionText(s), ','))) &&
      (r.Failure? ==> r.error == InvalidAction) &&
      (r.Success? ==> r.value.1 == ResourceText(s)) &&
      (r.Success? && Every in Split(ActionText(s), ',') ==> r.value.0 == [Every]) &&
      (r.Success? && Every !in Split(ActionText(s), ',') ==>
        forall a :: a in r.value.0 <==> IsNamed(a) && a in Split(ActionText(s), ','))
  {
    NamedActionsMeaning(Split(ActionText(s), ','));
  }

  /** Appending a segment appends its action when it names one. */
  lemma NamedSnoc(segs: seq<string>, w: string)
    ensures NamedActions(segs + [w]) == NamedActions(segs) + (if IsNamed(w) then [w] else [])
  {
    assert (segs + [w])[..|segs|] == segs;
  }

  /**
   * `p` is the text the parser has consumed: the segments `segs`, each
   * followed by its `,`.
   */
  ghost predicate Consumed(p: string, segs: seq<string>)
  {
    (forall i :: 0 <= i < |segs| ==> ',' !in segs[i]) &&
    (if segs == [] then p == [] else p == Join(segs, [',']) + [','])
  }

  /** Consuming one more segment and its `,`. */
  lemma ConsumeSegment(p: string, segs: seq<string>, w: string)
    requires Consumed(p, segs) && ',' !in w
    ensures Consumed(p + w + [','], segs + [w])
    ensures Split(p + w, ',') == segs + [w]
  {
    SplitNone(w, ',');
    if segs == [] {
      assert p + w + [','] == Join([w], [',']) + [','];
      assert p + w == w;
    } else {
      JoinSnoc(segs, w, [',']);
      SplitJoin(segs, ',');
      SplitAppend(Join(segs, [',']), w, ',');
    }
  }

  /** With the action text's segments known, the parse result follows. */
  lemma ParsedFrom(s: string, segs: seq<string>, rest: string)
    requires Split(ActionText(s), ',') == segs && ResourceText(s) == rest
    requires AllKnown(segs)
    ensures ParsedActions(s) == Success((if Every in segs then [Every] else NamedActions(segs), rest))
  {
  }

  /** The text up to the first delimiter, the delimiter, and what follows it. */
  lemma Delimited(s: string, x: int)
    requires 0 <= x == IndexAny(s, {',', ':'})
    ensures ',' !in s[..x] && ':' !in s[..x] && (s[x] == ',' || s[x] == ':')
    ensures s == s[..x] + [s[x]] + s[x + 1..]
  {
  }

  /** The consumed text, then the segment and its delimiter, then the rest. */
  lemma Regroup<T>(s0: seq<T>, p: seq<T>, s: seq<T>, x: nat)
    requires s0 == p + s && x < |s|
    ensures s0 == (p + s[..x]) + [s[x]] + s[x + 1..]
  {
    assert s == s[..x] + [s[x]] + s[x + 1..];
  }

  /**
   * When the text up to a delimiter holds no `:`, the action text extends
   * it: it ends at that delimiter, or runs on past a `,`.
   */
  lemma ActionTextFrom(s0: string, u: string, d: char, rest: string) returns (more: string)
    requires ':' !in u && (d == ',' || d == ':') && s0 == u + [d] + rest
    ensures ActionText(s0) == u || (d == ',' && ActionText(s0) == u + [','] + more)
  {
    Around(u, d, rest);
    more := [];
    var e := if ':' in s0 then IndexOf(s0, ':') else LastIndexOf(s0, ',');
    assert ActionText(s0) == s0[..e];
    assert e >= |u|;
    if e > |u| {
      PrefixPast(u, d, rest, e);
      more := rest[..e - |u| - 1];
    }
  }

  /** A segment of a text is a segment of any text it extends past a `,`. */
  lemma SegmentKept(u: string, w: string, t: string, more: string)
    requires w in Split(u, ',')
    requires t == u || t == u + [','] + more
    ensures w in Split(t, ',')
  {
    if t != u {
      SplitAppend(u, more, ',');
    }
  }

  /** A segment the loop reads before it stops is a segment of the action text. */
  lemma SegmentOfActionText(s0: string, p: string, segs: seq<string>, s: string, x: int)
    requires Consumed(p, segs) && ':' !in p && s0 == p + s
    requires 0 <= x == IndexAny(s, {',', ':'})
    requires !Known(s[..x])
    ensures ParsedActions(s0) == Failure(InvalidAction)
  {
    Delimited(s, x);
    var w, rest := s[..x], s[x + 1..];
    ConsumeSegment(p, segs, w);
    Regroup(s0, p, s, x);
    var more := ActionTextFrom(s0, p + w, s[x], rest);
    SegmentKept(p + w, w, ActionText(s0), more);
  }

  /** The loop stops at a `:`: the action text ends there. */
  lemma ColonEnds(s0: string, p: string, segs: seq<string>, s: string, x: int)
    requires Consumed(p, segs) && ':' !in p && s0 == p + s
    requires 0 <= x == IndexAny(s, {',', ':'}) && s[x] == ':'
    requires AllKnown(segs + [s[..x]])
    ensures ParsedActions(s0) ==
      Success((if Every in segs + [s[..x]] then [Every] else NamedActions(segs + [s[..x]]), s[x + 1..]))
  {
    Delimited(s, x);
    var w, rest := s[..x], s[x + 1..];
    ConsumeSegment(p, segs, w);
    Regroup(s0, p, s, x);
    Around(p + w, ':', rest);
    IndexOfAt(s0, ':', |p + w|);
    ParsedFrom(s0, segs + [w], rest);
  }

  /** The loop passes a `,`: one more segment is consumed. */
  lemma CommaStep(s0: string, p: string, segs: seq<string>, s: string, x: int)
    requires Consumed(p, segs) && ':' !in p && s0 == p + s
    requires 0 <= x == IndexAny(s, {',', ':'}) && s[x] == ','
    ensures var p' := p + s[..x] + [','];
      Consumed(p', segs + [s[..x]]) && ':' !in p' && s0 == p' + s[x + 1..]
  {
    Delimited(s, x);
    ConsumeSegment(p, segs, s[..x]);
    Regroup(s0, p, s, x);
  }

  /** The loop stops without a delimiter: the action text is what was consumed. */
  lemma NoDelimiterEnds(s: string, p: string, segs: seq<string>, rest: string)
    requires Consumed(p, segs)
    requires ':' !in p && ':' !in rest && ',' !in rest
    requires s == p + rest
    requires AllKnown(segs)
    ensures ParsedActions(s) == Success((if Every in segs then [Every] else NamedActions(segs), rest))
  {
    if segs != [] {
      assert s[|p| - 1] == ',' && s[|p|..] == rest && s[..|p| - 1] == Join(segs, [',']);
      LastIndexOfAt(s, ',', |p| - 1);
      SplitJoin(segs, ',');
      ParsedFrom(s, segs, rest);
    } else {
      assert s == rest;
      assert NamedActions([[]]) == NamedActions([]) + [];
      ParsedFrom(s, [[]], rest);
    }
  }

  /**
   * parseActions: reads comma-separated action names up to the first `:`
   * (or, without one, up to the last `,`) and returns them with the rest of
   * the text.
   */
  method ParseActions(s0: string) returns (r: Result<(seq<Action>, string), Error>)
    ensures r == ParsedActions(s0)
  {
    var a: seq<Action> := [];
    var every := false;
    var s := s0;
    ghost var p: string := [];
    ghost var segs: seq<string> := [];
    while true
      invariant s0 == p + s
      invariant ':' !in p
      invariant Consumed(p, segs)
      invariant AllKnown(segs)
      invariant every <==> Every in segs
      invariant a == NamedActions(segs)
      decreases |s|
    {
      var x := IndexAny(s, {',', ':'});
      if x < 0 {
        break;
      }
      var w := s[..x];
      if w == "" {
      } else if w == Read || w == Write || w == Delete || w == List {
        a := a + [w];
      } else if w == Every {
        every := true;
      } else {
        SegmentOfActionText(s0, p, segs, s, x);
        return Failure(InvalidAction);
      }
      NamedSnoc(segs, w);
      assert a == NamedActions(segs + [w]);
      assert every <==> Every in segs + [w];
      if s[x] == ':' {
        ColonEnds(s0, p, segs, s, x);
        s := s[x + 1..];
        if every {
          return Success(([Every], s));
        } else {
          return Success((a, s));
        }
      }
      CommaStep(s0, p, segs, s, x);
      p, segs, s := p + w + [','], segs + [w], s[x + 1..];
    }
    NoDelimiterEnds(s0, p, segs, s);
    if every {
      r := Success(([Every], s));
    } else {
      r := Success((a, s));
    }
  }

  /**
   * ParseScope: the action list, then a resource that must not be empty.
   */
  function ParseScope(s: string): (r: Result<Scope, Error>)
    ensures r.Failure? ==> r.error == InvalidAction || r.error == EmptyResource
    ensures r.Failure? <==> ParsedActions(s).Failure? || ResourceText(s) == ""
    ensures r.Success? ==> r.value.resource == ResourceText(s) && r.value.resource != ""
    ensures r.Success? ==> forall i :: 0 <= i < |r.value.actions| ==> IsNamed(r.value.actions[i]) || r.value.actions[i] == Every
    ensures r.Success? && Every in r.value.actions ==> r.value.actions == [Every]
  {
    ParsedActionsMeaning(s);
    NamedActionsMeaning(Split(ActionText(s), ','));
    match ParsedActions(s)
    case Failure(e) => Failure(e)
    case Success((a, rest)) =>
      assert forall i :: 0 <= i < |a| ==> a[i] in a;
      if rest == "" then Failure(EmptyResource) else Success(Scope(a, rest))
  }

  /** Without a `:`, the resource is whatever follows the last `,`. */
  lemma ResourceAfterLastComma(s: string)
    requires ':' !in s && ',' in s
    ensures ResourceText(s) == s[LastIndexOf(s, ',') + 1..]
    ensures ',' !in ResourceText(s)
  {
  }

  // ---------------------------------------------------------------------
  // Text form

  /**
   * The text of a scope: the actions joined by `,` (only `*` when the list
   * holds `*`), a `:` when there are actions, then the resource.
   */
  function ScopeText(sc: Scope): string
  {
    (if Every in sc.actions then Every else Join(sc.actions, ","))
    + (if sc.actions != [] then ":" else "")
    + sc.resource
  }

  /**
   * Scope.String: writes the actions separated by `,`, starting over with
   * `*` alone when it meets `*`, then `:` and the resource.
   */
  method ScopeString(sc: Scope) returns (t: string)
    ensures t == ScopeText(sc)
  {
    var b := "";
    for i := 0 to |sc.actions|
      invariant Every !in sc.actions[..i]
      invariant b == Join(sc.actions[..i], ",")
    {
      var a := sc.actions[i];
      if a == Every {
        b := Every;
        break;
      }
      if i > 0 {
        JoinSnoc(sc.actions[..i], a, ",");
        b := b + ",";
      }
      assert sc.actions[..i + 1] == sc.actions[..i] + [a];
      b := b + a;
    }
    if |sc.actions| > 0 {
      b := b + ":";
    }
    assert sc.actions[..|sc.actions|] == sc.actions;
    t := b + sc.resource;
  }

  /** No action the parser accepts holds a delimiter. */
  lemma KnownHasNoDelimiter(w: string)
    requires IsNamed(w) || w == Every
    ensures ',' !in w && ':' !in w
  {
  }

  /** Joining delimiter-free actions with `,` gives a text without `:`. */
  lemma {:induction false} JoinHasNoColon(parts: seq<string>)
    requires forall i :: 0 <= i < |parts| ==> ':' !in parts[i]
    ensures ':' !in Join(parts, ",")
    decreases |parts|
  {
    if |parts| > 1 {
      JoinHasNoColon(parts[1..]);
    }
  }

  /** A list of named actions is its own list of named actions. */
  lemma {:induction false} NamedActionsOfNamed(segs: seq<string>)
    requires forall i :: 0 <= i < |segs| ==> IsNamed(segs[i])
    ensures NamedActions(segs) == segs
    decreases |segs|
  {
    if segs != [] {
      NamedActionsOfNamed(segs[..|segs| - 1]);
      assert segs == segs[..|segs| - 1] + [segs[|segs| - 1]];
    }
  }

  /**
   * A scope with actions the parser accepts and a resource reads back from
   * its text; an action list holding `*` reads back as `*` alone.
   */
  lemma ScopeRoundTrip(sc: Scope)
    requires sc.actions != [] && sc.resource != ""
    requires forall i :: 0 <= i < |sc.actions| ==> IsNamed(sc.actions[i]) || sc.actions[i] == Every
    ensures ParseScope(ScopeText(sc)) ==
      Success(Scope(if Every in sc.actions then [Every] else sc.actions, sc.resource))
  {
    var head := if Every in sc.actions then Every else Join(sc.actions, ",");
    forall i | 0 <= i < |sc.actions|
      ensures ',' !in sc.actions[i] && ':' !in sc.actions[i]
    {
      KnownHasNoDelimiter(sc.actions[i]);
    }
    JoinHasNoColon(sc.actions);
    var text := ScopeText(sc);
    assert text == head + [':'] + sc.resource;
    assert text[|head|] == ':' && text[..|head|] == head && text[|head| + 1..] == sc.resource;
    IndexOfAt(text, ':', |head|);
    assert ActionText(text) == head && ResourceText(text) == sc.resource;
    if Every in sc.actions {
      SplitNone(Every, ',');
      ParsedFrom(text, [Every], sc.resource);
    } else {
      SplitJoin(sc.actions, ',');
      NamedActionsOfNamed(sc.actions);
      ParsedFrom(text, sc.actions, sc.resource);
    }
  }

  // ---------------------------------------------------------------------
  // Satisfaction

  /** Every required action is contained, wildcard-aware, in the granted list. */
  function ContainsAll(granted: seq<Action>, required: seq<Action>): (b: bool)
    ensures b <==> forall i :: 0 <= i < |required| ==> Every in granted || required[i] in granted
    decreases |required|
  {
    if required == [] then true
    else Contains(granted, required[0]) && ContainsAll(granted, required[1..])
  }

  /**
   * Scope.Satisfies: a granted scope `s` satisfies a required scope `r` when
   * both name actions and a resource, the resources are the same string, and
   * every required action is granted.
   */
  function Satisfies(s: Scope, r: Scope): (b: bool)
    ensures b <==>
      r.actions != [] && r.resource != "" && s.actions != [] && s.resource != "" &&
      s.resource == r.resource &&
      forall i :: 0 <= i < |r.actions| ==> Every in s.actions || r.actions[i] in s.actions
  {
    if |r.actions| < 1 || r.resource == "" then false
    else if |s.actions| < 1 || s.resource == "" then false
    else if s.resource != r.resource then false
    else ContainsAll(s.actions, r.actions)
  }

  /** Satisfaction chains: a scope that satisfies a satisfying scope satisfies what it satisfies. */
  lemma SatisfiesTransitive(a: Scope, b: Scope, c: Scope)
    requires Satisfies(a, b) && Satisfies(b, c)
    ensures Satisfies(a, c)
  {
    forall i | 0 <= i < |c.actions|
      ensures Every in a.actions || c.actions[i] in a.actions
    {
      if Every !in a.actions {
        assert Every !in b.actions;
        assert c.actions[i] in b.actions;
        var j :| 0 <= j < |b.actions| && b.actions[j] == c.actions[i];
      }
    }
  }

  /**
   * Requiring `*` is satisfied only by granting `*`; granting `*` satisfies
   * every requirement with actions on the same resource.
   */
  lemma WildcardSatisfaction(s: Scope, r: Scope)
    ensures Satisfies(s, r) && Every in r.actions ==> Every in s.actions
    ensures Every in s.actions && s.resource != "" && s.resource == r.resource && r.actions != [] ==>
      Satisfies(s, r)
  {
  }

  /** A well-formed scope satisfies itself. */
  lemma SatisfiesReflexive(s: Scope)
    requires s.actions != [] && s.resource != ""
    ensures Satisfies(s, s)
  {
    assert forall i :: 0 <= i < |s.actions| ==> s.actions[i] in s.actions;
  }

  /** Some granted scope satisfies `x` on its own. */
  function AnySatisfies(s: seq<Scope>, x: Scope): (b: bool)
    ensures b <==> exists j :: 0 <= j < |s| && Satisfies(s[j], x)
    decreases |s|
  {
    if s == [] then false
    else if Satisfies(s[0], x) then true
    else
      var b := AnySatisfies(s[1..], x);
      assert forall j :: 1 <= j < |s| ==> s[j] == s[1..][j - 1];
      b
  }

  /**
   * Scopes.Satisfies: each required scope is satisfied by a single granted
   * scope; nothing is required of an empty list of requirements.
   */
  function ScopesSatisfy(s: seq<Scope>, req: seq<Scope>): (b: bool)
    ensures b <==> forall i :: 0 <= i < |req| ==> exists j :: 0 <= j < |s| && Satisfies(s[j], req[i])
    decreases |req|
  {
    if req == [] then true
    else AnySatisfies(s, req[0]) && ScopesSatisfy(s, req[1..])
  }

  /**
   * Grants are not pooled: read on "a" and write on "a", granted separately,
   * do not satisfy one requirement of read and write on "a".
   */
  lemma NoPooling()
    ensures !ScopesSatisfy([Scope([Read], "a"), Scope([Write], "a")], [Scope([Read, Write], "a")])
  {
    var g0, g1 := Scope([Read], "a"), Scope([Write], "a");
    var r := Scope([Read, Write], "a");
    assert r.actions[1] !in g0.actions;
    assert r.actions[0] !in g1.actions;
    assert !Satisfies(g0, r) && !Satisfies(g1, r);
    assert !AnySatisfies([g0, g1], r);
  }

  // ---------------------------------------------------------------------
  // Merging

  /** The actions of a list, as a set. */
  function Elems(q: seq<Action>): set<Action>
  {
    set x | x in q
  }

  predicate Distinct(q: seq<Action>)
  {
    forall i, j :: 0 <= i < j < |q| ==> q[i] != q[j]
  }

  /** The resources named in a list of scopes. */
  ghost function ResourcesOf(s: seq<Scope>): set<string>
    decreases |s|
  {
    if s == [] then {} else ResourcesOf(s[..|s| - 1]) + {s[|s| - 1].resource}
  }

  lemma ResourcesStep(s: seq<Scope>, i: nat)
    requires i < |s|
    ensures ResourcesOf(s[..i + 1]) == ResourcesOf(s[..i]) + {s[i].resource}
  {
    assert s[..i + 1][..i] == s[..i];
  }

  lemma {:induction false} ResourcesMeaning(s: seq<Scope>, k: string)
    ensures k in ResourcesOf(s) <==> exists j :: 0 <= j < |s| && s[j].resource == k
    decreases |s|
  {
    if s != [] {
      var p := s[..|s| - 1];
      ResourcesMeaning(p, k);
      if k in ResourcesOf(p) {
        var j :| 0 <= j < |p| && p[j].resource == k;
        assert s[j] == p[j];
      }
      if exists j :: 0 <= j < |s| && s[j].resource == k {
        var j :| 0 <= j < |s| && s[j].resource == k;
        if j < |p| {
          assert p[j] == s[j];
        }
      }
    }
  }

  /** Every action granted on resource `k` by some scope of the list. */
  ghost function Granted(s: seq<Scope>, k: string): set<Action>
    decreases |s|
  {
    if s == [] then {}
    else
      var last := s[|s| - 1];
      Granted(s[..|s| - 1], k) + (if last.resource == k then Elems(last.actions) else {})
  }

  /** A set of actions holding `*` stands for `*` alone. */
  function Collapse(g: set<Action>): (c: set<Action>)
    ensures Every in g ==> c == {Every}
    ensures Every !in g ==> c == g
  {
    if Every in g then {Every} else g
  }

  /**
   * What a merge of `s` must list: for each resource, the actions granted on
   * it, with `*` standing alone.
   */
  ghost function View(s: seq<Scope>): map<string, set<Action>>
  {
    map k | k in ResourcesOf(s) :: Collapse(Granted(s, k))
  }

  /**
   * `r` lists `view`, in some order: one scope per resource of the view, each
   * with distinct actions forming the view's action set for that resource.
   */
  ghost predicate Lists(r: seq<Scope>, view: map<string, set<Action>>)
  {
    Partial(r, view) && ResourcesOf(r) == view.Keys
  }

  /**
   * Part of a listing, built one scope at a time: each scope an entry of the
   * view, for a resource not listed before it.
   */
  ghost predicate Partial(r: seq<Scope>, view: map<string, set<Action>>)
    decreases |r|
  {
    if r == [] then true
    else
      var p, e := r[..|r| - 1], r[|r| - 1];
      Partial(p, view) && Entry(e, view) && e.resource !in ResourcesOf(p)
  }

  /** A part of a listing has distinct resources, and each scope is an entry of the view. */
  lemma {:induction false} PartialMeaning(r: seq<Scope>, view: map<string, set<Action>>)
    requires Partial(r, view)
    ensures forall i, j :: 0 <= i < j < |r| ==> r[i].resource != r[j].resource
    ensures forall i :: 0 <= i < |r| ==> Entry(r[i], view)
    decreases |r|
  {
    if r != [] {
      var p, e := r[..|r| - 1], r[|r| - 1];
      PartialMeaning(p, view);
      assert forall i :: 0 <= i < |p| ==> r[i] == p[i];
      forall i | 0 <= i < |p| ensures r[i].resource != e.resource {
        ResourcesMeaning(p, e.resource);
      }
    }
  }

  /** One scope of a listing: its resource is in the view, with exactly the view's actions. */
  ghost predicate Entry(e: Scope, view: map<string, set<Action>>)
  {
    e.resource in view && Distinct(e.actions) && Elems(e.actions) == view[e.resource]
  }

  /**
   * The actions collected so far for one resource, against everything granted
   * on it so far: nothing repeated, nothing invented, and the same once `*`
   * is taken to stand alone.
   */
  ghost predicate Absorbed(acc: seq<Action>, g: set<Action>)
  {
    Distinct(acc) && Elems(acc) <= g && Collapse(Elems(acc)) == Collapse(g)
  }

  lemma ElemsAppend(acc: seq<Action>, x: Action)
    ensures Elems(acc + [x]) == Elems(acc) + {x}
  {
  }

  /** Adding an action the list does not contain, wildcard-aware, keeps it absorbed. */
  lemma AbsorbOne(acc: seq<Action>, g: set<Action>, x: Action)
    requires Absorbed(acc, g)
    ensures Absorbed(if Contains(acc, x) then acc else acc + [x], g + {x})
  {
    ElemsAppend(acc, x);
    if Every !in g {
      assert Every !in Elems(acc);
      assert Elems(acc) == g;
    } else {
      assert Every in Elems(acc);
    }
  }

  lemma GrantedStep(s: seq<Scope>, i: nat, k: string)
    requires i < |s|
    ensures Granted(s[..i + 1], k) ==
      Granted(s[..i], k) + (if s[i].resource == k then Elems(s[i].actions) else {})
  {
    assert s[..i + 1][..i] == s[..i];
  }

  lemma {:induction false} GrantedNone(s: seq<Scope>, k: string)
    requires k !in ResourcesOf(s)
    ensures Granted(s, k) == {}
    decreases |s|
  {
    if s != [] {
      GrantedNone(s[..|s| - 1], k);
    }
  }

  /** One action of a scope, added to the list collected for its resource. */
  lemma AbsorbAt(acc: seq<Action>, g: set<Action>, q: seq<Action>, j: nat)
    requires j < |q| && Absorbed(acc, g + Elems(q[..j]))
    ensures Absorbed(if Contains(acc, q[j]) then acc else acc + [q[j]], g + Elems(q[..j + 1]))
  {
    var before := g + Elems(q[..j]);
    AbsorbOne(acc, before, q[j]);
    ElemsSnoc(q, j);
    assert before + {q[j]} == g + Elems(q[..j + 1]);
  }

  lemma ElemsSnoc(q: seq<Action>, j: nat)
    requires j < |q|
    ensures Elems(q[..j + 1]) == Elems(q[..j]) + {q[j]}
  {
    assert q[..j + 1] == q[..j] + [q[j]];
  }

  /** One scope, merged into the map of resources. */
  lemma MapStep(s: seq<Scope>, i: nat, m: map<string, seq<Action>>, acc: seq<Action>, m': map<string, seq<Action>>)
    requires i < |s| && m.Keys == ResourcesOf(s[..i])
    requires forall k :: k in m ==> Absorbed(m[k], Granted(s[..i], k))
    requires Absorbed(acc, Granted(s[..i], s[i].resource) + Elems(s[i].actions[..|s[i].actions|]))
    requires m' == m[s[i].resource := acc]
    ensures m'.Keys == ResourcesOf(s[..i + 1])
    ensures forall k :: k in m' ==> Absorbed(m'[k], Granted(s[..i + 1], k))
  {
    assert s[i].actions[..|s[i].actions|] == s[i].actions;
    forall k | k in m'
      ensures Absorbed(m'[k], Granted(s[..i + 1], k))
    {
      GrantedStep(s, i, k);
    }
    ResourcesStep(s, i);
  }

  /**
   * Scopes.Merged: one scope per resource, carrying the distinct actions
   * granted on it, or `*` alone when `*` is among them. The order of the
   * scopes follows a map's iteration order and is left open.
   */
  method Merged(s: seq<Scope>) returns (r: seq<Scope>)
    ensures Lists(r, View(s))
  {
    var m: map<string, seq<Action>> := map[];
    for i := 0 to |s|
      invariant m.Keys == ResourcesOf(s[..i])
      invariant forall k :: k in m ==> Absorbed(m[k], Granted(s[..i], k))
    {
      var e := s[i];
      var acc: seq<Action> := [];
      if e.resource in m {
        acc := m[e.resource];
      } else {
        GrantedNone(s[..i], e.resource);
      }
      for j := 0 to |e.actions|
        invariant Absorbed(acc, Granted(s[..i], e.resource) + Elems(e.actions[..j]))
      {
        var x := e.actions[j];
        AbsorbAt(acc, Granted(s[..i], e.resource), e.actions, j);
        if !Contains(acc, x) {
          acc := acc + [x];
        }
      }
      var m' := m[e.resource := acc];
      MapStep(s, i, m, acc, m');
      m := m';
    }
    assert s[..|s|] == s;
    MapWrites(m, s);
    r := Listing(m, View(s));
  }

  /**
   * The map of collected actions writes out `view`: the same resources, and
   * for each one distinct actions that, with `*` standing alone, are the
   * view's actions.
   */
  ghost predicate Writes(m: map<string, seq<Action>>, view: map<string, set<Action>>)
  {
    m.Keys == view.Keys && forall k :: k in m ==> Distinct(m[k]) && Collapse(Elems(m[k])) == view[k]
  }

  /** The map the first half of Scopes.Merged collects writes out the view of the scopes. */
  lemma MapWrites(m: map<string, seq<Action>>, s: seq<Scope>)
    requires m.Keys == ResourcesOf(s)
    requires forall k :: k in m ==> Absorbed(m[k], Granted(s, k))
    ensures Writes(m, View(s))
  {
  }

  /** The scope written out for one resource of the map: `*` alone, or the actions as collected. */
  lemma CollapsedEntry(v: seq<Action>)
    requires Distinct(v)
    ensures var a := if Contains(v, Every) then [Every] else v;
      Distinct(a) && Elems(a) == Collapse(Elems(v))
  {
    if !Contains(v, Every) {
      assert Every !in Elems(v);
    }
  }

  /** A listing grows by an entry for a resource it does not list yet. */
  lemma PartialSnoc(r: seq<Scope>, e: Scope, view: map<string, set<Action>>)
    requires Partial(r, view) && Entry(e, view) && e.resource !in ResourcesOf(r)
    ensures Partial(r + [e], view)
    ensures ResourcesOf(r + [e]) == ResourcesOf(r) + {e.resource}
  {
    assert (r + [e])[..|r|] == r;
  }

  lemma SetPrefix<T>(r: seq<T>, i: nat, e: T)
    requires i < |r|
    ensures r[i := e][..i + 1] == r[..i] + [e]
  {
  }

  /** One step of writing out the map: the scope for a resource not yet written. */
  lemma ListingStep(m: map<string, seq<Action>>, view: map<string, set<Action>>, r: seq<Scope>, i: nat,
                    done: seq<Scope>, keys: set<string>, k: string, v: seq<Action>, e: Scope)
    requires Writes(m, view) && keys <= m.Keys && k in keys && v == m[k]
    requires e == if Contains(v, Every) then Scope([Every], k) else Scope(v, k)
    requires Partial(done, view) && ResourcesOf(done) == m.Keys - keys
    requires i < |r| && done == r[..i]
    ensures Partial(done + [e], view)
    ensures ResourcesOf(done + [e]) == m.Keys - (keys - {k})
    ensures r[i := e][..i + 1] == done + [e]
  {
    SetPrefix(r, i, e);
    CollapsedEntry(v);
    PartialSnoc(done, e, view);
    assert m.Keys - (keys - {k}) == (m.Keys - keys) + {k};
  }

  /** Once every resource is written, the scopes list the view. */
  lemma ListingDone(m: map<string, seq<Action>>, view: map<string, set<Action>>, r: seq<Scope>, done: seq<Scope>)
    requires Writes(m, view)
    requires Partial(done, view) && ResourcesOf(done) == m.Keys
    requires done == r[..|r|]
    ensures Lists(r, view)
  {
    assert r[..|r|] == r;
  }

  /** The second half of Scopes.Merged: the map of resources, written out as scopes. */
  method Listing(m: map<string, seq<Action>>, ghost view: map<string, set<Action>>) returns (r: seq<Scope>)
    requires Writes(m, view)
    ensures Lists(r, view)
  {
    r := seq(|m.Keys|, _ => Scope([], ""));
    var keys := m.Keys;
    var i := 0;
    ghost var done: seq<Scope> := [];
    while keys != {}
      invariant keys <= m.Keys
      invariant i + |keys| == |r| == |m.Keys|
      invariant done == r[..i]
      invariant Partial(done, view)
      invariant ResourcesOf(done) == m.Keys - keys
      decreases |keys|
    {
      var k :| k in keys;
      var v := m[k];
      var e := if Contains(v, Every) then Scope([Every], k) else Scope(v, k);
      ListingStep(m, view, r, i, done, keys, k, v, e);
      r := r[i := e];
      done := done + [e];
      keys := keys - {k};
      i := i + 1;
    }
    ListingDone(m, view, r, done);
  }

  /** Everything a scope grants is granted on its resource by the list. */
  lemma {:induction false} GrantedCovers(s: seq<Scope>, j: nat)
    requires j < |s|
    ensures Elems(s[j].actions) <= Granted(s, s[j].resource)
    decreases |s|
  {
    if j < |s| - 1 {
      GrantedCovers(s[..|s| - 1], j);
      assert s[..|s| - 1][j] == s[j];
    }
  }

  /** In a list with distinct resources, a resource is granted what its one scope lists. */
  lemma {:induction false} GrantedUnique(r: seq<Scope>, i: nat)
    requires i < |r|
    requires forall a, b :: 0 <= a < b < |r| ==> r[a].resource != r[b].resource
    ensures Granted(r, r[i].resource) == Elems(r[i].actions)
    decreases |r|
  {
    var p := r[..|r| - 1];
    var k := r[i].resource;
    if i == |r| - 1 {
      forall j | 0 <= j < |p| ensures p[j].resource != k {
        assert p[j] == r[j];
      }
      ResourcesMeaning(p, k);
      GrantedNone(p, k);
    } else {
      assert p[i] == r[i];
      GrantedUnique(p, i);
    }
  }

  /** Merging a merged list changes nothing: it grants what the unmerged list did. */
  lemma MergedIdempotent(s: seq<Scope>, r: seq<Scope>)
    requires Lists(r, View(s))
    ensures View(r) == View(s)
  {
    PartialMeaning(r, View(s));
    forall k | k in ResourcesOf(r) ensures Collapse(Granted(r, k)) == View(s)[k] {
      ResourcesMeaning(r, k);
      var i :| 0 <= i < |r| && r[i].resource == k;
      GrantedUnique(r, i);
      assert Entry(r[i], View(s));
    }
  }

  lemma {:induction false} ConcatGrants(a: seq<Scope>, b: seq<Scope>, k: string)
    ensures Granted(a + b, k) == Granted(a, k) + Granted(b, k)
    ensures ResourcesOf(a + b) == ResourcesOf(a) + ResourcesOf(b)
    decreases |b|
  {
    if b == [] {
      assert a + b == a;
    } else {
      var q := b[..|b| - 1];
      assert (a + b)[..|a + b| - 1] == a + q;
      ConcatGrants(a, q, k);
    }
  }

  /** The order in which two lists are merged does not matter. */
  lemma MergeCommutes(a: seq<Scope>, b: seq<Scope>)
    ensures View(a + b) == View(b + a)
  {
    forall k ensures Granted(a + b, k) == Granted(b + a, k)
      && ResourcesOf(a + b) == ResourcesOf(b + a)
    {
      ConcatGrants(a, b, k);
      ConcatGrants(b, a, k);
    }
  }

  /**
   * Merging loses no grant: whatever the unmerged scopes satisfy, the merged
   * ones satisfy too.
   */
  lemma MergedKeepsGrants(s: seq<Scope>, r: seq<Scope>, req: seq<Scope>)
    requires Lists(r, View(s)) && ScopesSatisfy(s, req)
    ensures ScopesSatisfy(r, req)
  {
    PartialMeaning(r, View(s));
    forall i | 0 <= i < |req| ensures exists j :: 0 <= j < |r| && Satisfies(r[j], req[i]) {
      var x := req[i];
      var j :| 0 <= j < |s| && Satisfies(s[j], x);
      var k := s[j].resource;
      ResourcesMeaning(s, k);
      ResourcesMeaning(r, k);
      var l :| 0 <= l < |r| && r[l].resource == k;
      assert Entry(r[l], View(s));
      GrantedCovers(s, j);
      var g := Granted(s, k);
      if Every in g {
        assert r[l].actions[0] in Elems(r[l].actions);
        assert Every in r[l].actions;
      } else {
        assert s[j].actions[0] in Elems(r[l].actions);
        forall a | 0 <= a < |x.actions| ensures x.actions[a] in r[l].actions {
          assert x.actions[a] in Elems(s[j].actions);
        }
      }
      assert Satisfies(r[l], x);
    }
  }

  /**
   * Merging does pool grants: read and write on "a", granted separately,
   * satisfy a requirement of both once merged.
   */
  lemma MergePools(r: seq<Scope>)
    requires Lists(r, View([Scope([Read], "a"), Scope([Write], "a")]))
    ensures ScopesSatisfy(r, [Scope([Read, Write], "a")])
  {
    var s := [Scope([Read], "a"), Scope([Write], "a")];
    PartialMeaning(r, View(s));
    assert s[..0] == [] && s[..2] == s;
    GrantedStep(s, 0, "a");
    GrantedStep(s, 1, "a");
    ResourcesStep(s, 0);
    ResourcesStep(s, 1);
    assert Elems([Read]) == {Read} && Elems([Write]) == {Write};
    assert Granted(s, "a") == {Read, Write};
    assert ResourcesOf(s) == {"a"};
    ResourcesMeaning(r, "a");
    var l :| 0 <= l < |r| && r[l].resource == "a";
    assert Entry(r[l], View(s));
    assert Elems(r[l].actions) == {Read, Write};
    assert Read in r[l].actions && Write in r[l].actions;
    assert Satisfies(r[l], Scope([Read, Write], "a"));
  }

  /** Scopes.Merge: the two lists, one after the other, merged. */
  method Merge(s: seq<Scope>, a: seq<Scope>) returns (r: seq<Scope>)
    ensures Lists(r, View(s + a))
    ensures Lists(r, View(a + s))
  {
    var m := s + a;
    r := Merged(m);
    MergeCommutes(s, a);
  }

  /** All the lists of `ss`, one after the other. */
  function Concat(ss: seq<seq<Scope>>): seq<Scope>
    decreases |ss|
  {
    if ss == [] then [] else Concat(ss[..|ss| - 1]) + ss[|ss| - 1]
  }

  /**
   * Scopes.Union: all the lists merged; no scopes at all give none (nil in
   * scope.go, not told apart from an empty list here).
   */
  method Union(ss: seq<seq<Scope>>) returns (r: seq<Scope>)
    ensures Lists(r, View(Concat(ss)))
    ensures Concat(ss) == [] ==> r == []
  {
    var m: seq<Scope> := [];
    for i := 0 to |ss|
      invariant m == Concat(ss[..i])
    {
      assert ss[..i + 1][..i] == ss[..i];
      m := m + ss[i];
    }
    assert ss[..|ss|] == ss;
    if m == [] {
      r := [];
      assert ResourcesOf(m) == {};
    } else {
      r := Merged(m);
    }
  }
}
