/**
 * A domain: the context in which access is granted, written as a path of
 * typed components such as workspace:1/project:2. Unlike a realm, every
 * component is written with its `:` and must be read with one.
 */
module Domains {
  import opened Wrappers
  import opened Errors
  import opened Text
  import opened Percent
  import opened TypedPaths

  /** One component of a domain: its type (Go's `Component.Type`) and its name. */
  datatype Component = Component(kind: Octets, name: Octets)

  type Domain = seq<Component>

  /** Component.MarshalText: the escaped type, `:`, the escaped name. */
  function ComponentText(c: Component): Octets
  {
    Escape(c.kind) + [':'] + Escape(c.name)
  }

  /**
   * Component.UnmarshalText: the type before the first `:` and the name
   * after it. No `:`, or a bad escape on either side, gives InvalidDomain.
   */
  function ParseComponent(v: Octets): (r: Result<Component, Error>)
    ensures r.Failure? ==> r.error == InvalidDomain
    ensures ':' !in v ==> r == Failure(InvalidDomain)
  {
    var x := IndexOf(v, ':');
    if x < 0 then Failure(InvalidDomain)
    else
      match Unescape(v[..x])
      case None => Failure(InvalidDomain)
      case Some(t) =>
        match Unescape(v[x + 1..])
        case None => Failure(InvalidDomain)
        case Some(n) => Success(Component(t, n))
  }

  /**
   * A component whose type holds no `:` reads back from its text, even when
   * its name holds `:`; its text holds no `/` and is never empty.
   */
  lemma ComponentRoundTrip(c: Component)
    requires ':' !in c.kind
    ensures ParseComponent(ComponentText(c)) == Success(c)
    ensures '/' !in ComponentText(c) && ComponentText(c) != []
  {
    var k := Escape(c.kind);
    EscapeDelimiters(c.kind);
    EscapeDelimiters(c.name);
    UnescapeEscape(c.kind);
    UnescapeEscape(c.name);
    var t := ComponentText(c);
    IndexOfAt(t, ':', |k|);
    assert t[..|k|] == k && t[|k| + 1..] == Escape(c.name);
  }

  /**
   * A component fails to read exactly when it has no `:`, or its type part or
   * its name part holds a `%` without two hexadecimal digits after it.
   */
  lemma ComponentFails(v: Octets)
    ensures var x := IndexOf(v, ':');
      ParseComponent(v).Failure? <==> x < 0 || BadEscape(v[..x]) || BadEscape(v[x + 1..])
  {
    var x := IndexOf(v, ':');
    if x >= 0 {
      UnescapeFails(v[..x]);
      UnescapeFails(v[x + 1..]);
    }
  }

  /** Domain.MarshalText, specified: the component texts joined by `/`. */
  function DomainText(d: Domain): Octets
  {
    Join<Octet>(Texts(d, ComponentText), ['/'])
  }

  /** Domain.MarshalText: writes the components one after the other, `/` between them. */
  method MarshalText(d: Domain) returns (t: Octets)
    ensures t == DomainText(d)
  {
    t := [];
    for i := 0 to |d|
      invariant t == DomainText(d[..i])
    {
      if i > 0 {
        t := t + ['/'];
      }
      t := t + ComponentText(d[i]);
      JoinTextsSnoc(d, ComponentText, i);
    }
    assert d[..|d|] == d;
  }

  /** The written domain holds neither `/` nor `?` inside a component. */
  lemma ComponentEscapes(c: Component)
    ensures '/' !in ComponentText(c) && '?' !in ComponentText(c)
  {
    EscapeDelimiters(c.kind);
    EscapeDelimiters(c.name);
    EscapeNoQuery(c.kind);
    EscapeNoQuery(c.name);
  }

  /** ParseDomain / Domain.UnmarshalText, specified: the pieces between `/`, each a component. */
  function ParseDomain(text: Octets): Result<Domain, Error>
  {
    ParseEach(Pieces<Octet>(text, '/'), ParseComponent)
  }

  /**
   * Domain.UnmarshalText: takes components off the front of the text until
   * nothing is left. A failing component fails the whole text, and no domain
   * is produced (domain.go's receiver keeps its value).
   */
  method UnmarshalText(text: Octets) returns (r: Result<Domain, Error>)
    ensures r == ParseDomain(text)
    ensures r.Failure? ==> r.error == InvalidDomain
    ensures text == [] ==> r == Success([])
  {
    var p: Domain := [];
    var s := text;
    PrefixedNothing(ParseDomain(text));
    while |s| > 0
      invariant ParseDomain(text) == Prefixed(p, ParseEach(Pieces<Octet>(s, '/'), ParseComponent))
      decreases |s|
    {
      var v: Octets;
      var s': Octets;
      var x := IndexOf(s, '/');
      if x < 0 {
        v, s' := s, [];
      } else {
        v, s' := s[..x], s[x + 1..];
      }
      PiecesFront<Octet>(s, '/', x, v, s');
      ParseFront(p, v, Pieces<Octet>(s', '/'), ParseComponent);
      var c := ParseComponent(v);
      if c.Failure? {
        return Failure(c.error);
      }
      p := p + [c.value];
      s := s';
    }
    assert p + [] == p;
    return Success(p);
  }

  /** Reading a written domain gives it back whenever no type holds `:`. */
  lemma DomainRoundTrip(d: Domain)
    requires forall i :: 0 <= i < |d| ==> ':' !in d[i].kind
    ensures ParseDomain(DomainText(d)) == Success(d)
  {
    forall i | 0 <= i < |d|
      ensures ParseComponent(ComponentText(d[i])) == Success(d[i]) && '/' !in ComponentText(d[i])
    {
      ComponentRoundTrip(d[i]);
    }
    if d != [] {
      ComponentRoundTrip(d[|d| - 1]);
    }
    PathRoundTrip(d, ComponentText, ParseComponent);
  }

  /** A text of one component whose name holds a bad escape is no domain. */
  lemma BadNameFails(t: Octets, x: nat)
    requires x < |t| && t[x] == ':' && ':' !in t[..x] && '/' !in t && BadEscape(t[x + 1..])
    ensures ParseDomain(t) == Failure(InvalidDomain)
  {
    IndexOfAt(t, ':', x);
    assert Pieces<Octet>(t, '/') == [t];
    ComponentFails(t);
  }

  /** The text "invalid:%%%encoding" is no domain. */
  lemma InvalidEncoding()
    ensures ParseDomain("invalid:%%%encoding") == Failure(InvalidDomain)
  {
    var t: Octets := "invalid:%%%encoding";
    assert BadEscapeAt(t[8..], 0);
    BadNameFails(t, 7);
  }

  /** A piece without `:` anywhere in the text fails the whole domain. */
  lemma MissingDelimiter(text: Octets, i: nat)
    requires i < |Pieces<Octet>(text, '/')| && ':' !in Pieces<Octet>(text, '/')[i]
    ensures ParseDomain(text) == Failure(InvalidDomain)
  {
    var ps := Pieces<Octet>(text, '/');
    assert ParseComponent(ps[i]).Failure?;
  }
}
