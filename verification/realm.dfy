/**
 * A realm: the context in which access is granted, written as a path of
 * typed elements such as workspace:1/project:2. An element without a name
 * is written as its type alone.
 */
module Realms {
  import opened Wrappers
  import opened Errors
  import opened Text
  import opened Percent
  import opened TypedPaths

  /** One element of a realm: its type (Go's `Element.Type`) and its name. */
  datatype Element = Element(kind: Octets, name: Octets)

  type Realm = seq<Element>

  const ZeroElement := Element([], [])

  /** Element.Equals: the same type and the same name. */
  function Equals(c: Element, v: Element): (b: bool)
    ensures b <==> c == v
  {
    c.kind == v.kind && c.name == v.name
  }

  /**
   * Realm.Contains: `v` has at least as many elements as `r`, and agrees
   * with it element by element, so `r` is a prefix of `v`.
   */
  function Contains(r: Realm, v: Realm): (b: bool)
    ensures b <==> |r| <= |v| && v[..|r|] == r
  {
    if |v| < |r| then false else AgreeFrom(r, v, 0)
  }

  /** Elements `i` onwards of `r` equal those of `v`. */
  function AgreeFrom(r: Realm, v: Realm, i: nat): (b: bool)
    requires |r| <= |v| && i <= |r|
    ensures b <==> forall j :: i <= j < |r| ==> r[j] == v[j]
    decreases |r| - i
  {
    if i == |r| then true else Equals(r[i], v[i]) && AgreeFrom(r, v, i + 1)
  }

  /** The empty realm contains every realm, itself included. */
  lemma ContainsEmpty(v: Realm)
    ensures Contains([], v)
  {
  }

  /** Containment is reflexive and transitive. */
  lemma ContainsOrder(a: Realm, b: Realm, c: Realm)
    ensures Contains(a, a)
    ensures Contains(a, b) && Contains(b, c) ==> Contains(a, c)
  {
    assert a[..|a|] == a;
    if Contains(a, b) && Contains(b, c) {
      assert c[..|a|] == c[..|b|][..|a|];
    }
  }

  /** Realm.Shift: the first element and the rest; the zero element and nothing for the empty realm. */
  function Shift(r: Realm): (res: (Element, Realm))
    ensures r != [] ==> [res.0] + res.1 == r
    ensures r == [] ==> res == (ZeroElement, [])
  {
    if |r| > 0 then (r[0], r[1..]) else (ZeroElement, [])
  }

  /** Element.MarshalText: the escaped type, then `:` and the escaped name when there is a name. */
  function ElementText(c: Element): Octets
  {
    if c.name != [] then Escape(c.kind) + [':'] + Escape(c.name) else Escape(c.kind)
  }

  /**
   * Element.UnmarshalText: the type before the first `:` and the name after
   * it; no `:`, or nothing after it, gives an empty name. A bad escape in
   * either part gives InvalidRealm.
   */
  function ParseElement(v: Octets): (r: Result<Element, Error>)
    ensures r.Failure? ==> r.error == InvalidRealm
  {
    var x := IndexOf(v, ':');
    var l: Octets := if x >= 0 then v[..x] else v;
    var rest: Octets := if x >= 0 then v[x + 1..] else [];
    match Unescape(l)
    case None => Failure(InvalidRealm)
    case Some(t) =>
      if rest != [] then
        match Unescape(rest)
        case None => Failure(InvalidRealm)
        case Some(n) => Success(Element(t, n))
      else Success(Element(t, []))
  }

  /**
   * An element fails to read exactly when its type part, or its name part,
   * holds a `%` without two hexadecimal digits after it.
   */
  lemma ElementFails(v: Octets)
    ensures var x := IndexOf(v, ':');
      ParseElement(v).Failure? <==>
        BadEscape(if x >= 0 then v[..x] else v) || (x >= 0 && BadEscape(v[x + 1..]))
  {
    var x := IndexOf(v, ':');
    UnescapeFails(if x >= 0 then v[..x] else v);
    if x >= 0 {
      UnescapeFails(v[x + 1..]);
    }
  }

  /** A type alone, escaped, reads back as an element without a name. */
  lemma ParseBare(kind: Octets)
    requires ':' !in kind
    ensures ParseElement(Escape(kind)) == Success(Element(kind, []))
  {
    EscapeDelimiters(kind);
    UnescapeEscape(kind);
  }

  /** A type and a name, escaped and joined by `:`, read back as that element. */
  lemma ParseNamed(kind: Octets, name: Octets)
    requires ':' !in kind && name != []
    ensures ParseElement(Escape(kind) + [':'] + Escape(name)) == Success(Element(kind, name))
  {
    var k, n := Escape(kind), Escape(name);
    EscapeDelimiters(kind);
    EscapeDelimiters(name);
    UnescapeEscape(kind);
    UnescapeEscape(name);
    Around(k, ':', n);
    IndexOfAt(k + [':'] + n, ':', |k|);
  }

  /**
   * An element whose type holds no `:` reads back from its text; its text
   * holds no `/`, and is empty only for the zero element.
   */
  lemma ElementRoundTrip(c: Element)
    requires ':' !in c.kind
    ensures ParseElement(ElementText(c)) == Success(c)
    ensures '/' !in ElementText(c)
    ensures ElementText(c) == [] <==> c == ZeroElement
  {
    ElementParses(c);
    ElementDelimiters(c);
  }

  lemma ElementParses(c: Element)
    requires ':' !in c.kind
    ensures ParseElement(ElementText(c)) == Success(c)
  {
    if c.name != [] {
      ParseNamed(c.kind, c.name);
    } else {
      ParseBare(c.kind);
    }
  }

  lemma ElementDelimiters(c: Element)
    ensures '/' !in ElementText(c)
    ensures ElementText(c) == [] <==> c == ZeroElement
  {
    EscapeDelimiters(c.kind);
    EscapeDelimiters(c.name);
  }

  /** A type holding `:` is written exactly like a type and a name. */
  lemma ColonText(a: Octets, b: Octets)
    requires b != []
    ensures ElementText(Element(a + [':'] + b, [])) == ElementText(Element(a, b))
  {
    var colon: Octets := [':'];
    assert Escape(colon) == colon by {
      assert colon[1..] == [];
    }
    EscapeAppend(a, colon);
    EscapeAppend(a + colon, b);
    var ea, eb := Escape(a), Escape(b);
    assert Escape(a + colon + b) == ea + colon + eb;
  }

  /** A `:` in a type is read as the start of the name. */
  lemma ColonInType(a: Octets, b: Octets)
    requires ':' !in a && b != []
    ensures ParseElement(ElementText(Element(a + [':'] + b, []))) == Success(Element(a, b))
  {
    ColonText(a, b);
    ElementRoundTrip(Element(a, b));
  }

  /** Realm.MarshalText, specified: the element texts joined by `/`. */
  function RealmText(d: Realm): Octets
  {
    Join<Octet>(Texts(d, ElementText), ['/'])
  }

  /** Realm.MarshalText: writes the elements one after the other, `/` between them. */
  method MarshalText(d: Realm) returns (t: Octets)
    ensures t == RealmText(d)
  {
    t := [];
    for i := 0 to |d|
      invariant t == RealmText(d[..i])
    {
      if i > 0 {
        t := t + ['/'];
      }
      t := t + ElementText(d[i]);
      JoinTextsSnoc(d, ElementText, i);
    }
    assert d[..|d|] == d;
  }

  /** ParseRealm / Realm.UnmarshalText, specified: the pieces between `/`, each an element. */
  function ParseRealm(text: Octets): Result<Realm, Error>
  {
    ParseEach(Pieces<Octet>(text, '/'), ParseElement)
  }

  /**
   * Realm.UnmarshalText: takes elements off the front of the text until
   * nothing is left. A failing element fails the whole text, and no realm is
   * produced (realm.go's receiver keeps its value).
   */
  method UnmarshalText(text: Octets) returns (r: Result<Realm, Error>)
    ensures r == ParseRealm(text)
    ensures r.Failure? ==> r.error == InvalidRealm
    ensures text == [] ==> r == Success([])
  {
    var p: Realm := [];
    var s := text;
    PrefixedNothing(ParseRealm(text));
    while |s| > 0
      invariant ParseRealm(text) == Prefixed(p, ParseEach(Pieces<Octet>(s, '/'), ParseElement))
      decreases |s|
    {
      var v: Octets;
      var s': Octets;
      var x := IndexOf(s, '/');
      if x < 0 {
        v, s' := s, [];
      } else {
        v, s' := s[..x], s[x + 1..];
      }
      PiecesFront<Octet>(s, '/', x, v, s');
      ParseFront(p, v, Pieces<Octet>(s', '/'), ParseElement);
      var c := ParseElement(v);
      if c.Failure? {
        return Failure(c.error);
      }
      p := p + [c.value];
      s := s';
    }
    assert p + [] == p;
    return Success(p);
  }

  /**
   * Reading a written realm gives it back, provided no type holds `:` and
   * the last element is not the zero element (whose empty text would be
   * lost after the final `/`).
   */
  lemma RealmRoundTrip(d: Realm)
    requires forall i :: 0 <= i < |d| ==> ':' !in d[i].kind
    requires d != [] ==> d[|d| - 1] != ZeroElement
    ensures ParseRealm(RealmText(d)) == Success(d)
  {
    forall i | 0 <= i < |d|
      ensures ParseElement(ElementText(d[i])) == Success(d[i]) && '/' !in ElementText(d[i])
    {
      ElementRoundTrip(d[i]);
    }
    if d != [] {
      ElementRoundTrip(d[|d| - 1]);
    }
    PathRoundTrip(d, ElementText, ParseElement);
  }

  /** A trailing zero element is written as a final `/` and read back as nothing. */
  lemma TrailingZeroLost(c: Element)
    requires ':' !in c.kind && c != ZeroElement
    ensures ParseRealm(RealmText([c, ZeroElement])) == Success([c])
  {
    ElementRoundTrip(c);
    ElementRoundTrip(ZeroElement);
    var t := ElementText(c);
    assert Texts([c, ZeroElement], ElementText) == [t, []];
    PiecesDropEmptyLast<Octet>(t, '/');
    ParseOne(t, ParseElement);
  }

  /** A text of one element whose name holds a bad escape is no realm. */
  lemma BadNameFails(t: Octets, x: nat)
    requires x < |t| && t[x] == ':' && ':' !in t[..x] && '/' !in t && BadEscape(t[x + 1..])
    ensures ParseRealm(t) == Failure(InvalidRealm)
  {
    IndexOfAt(t, ':', x);
    assert Pieces<Octet>(t, '/') == [t];
    ElementFails(t);
  }

  /** The text "invalid:%%%encoding" is no realm. */
  lemma InvalidEncoding()
    ensures ParseRealm("invalid:%%%encoding") == Failure(InvalidRealm)
  {
    var t: Octets := "invalid:%%%encoding";
    assert BadEscapeAt(t[8..], 0);
    BadNameFails(t, 7);
  }

  /** A type alone, with nothing to unescape. */
  lemma ParsePlain(w: Octets)
    requires ':' !in w && '%' !in w
    ensures ParseElement(w) == Success(Element(w, []))
  {
    UnescapePlain(w);
  }

  /**
   * Text without `:` is a path of types without names, so
   * "no/component/delimiter" is a realm of three elements.
   */
  lemma TypesOnly(ws: seq<Octets>)
    requires forall i :: 0 <= i < |ws| ==> ws[i] != [] && ':' !in ws[i] && '/' !in ws[i] && '%' !in ws[i]
    ensures var r := ParseRealm(Join<Octet>(ws, ['/']));
      r.Success? && |r.value| == |ws| && forall i :: 0 <= i < |ws| ==> r.value[i] == Element(ws[i], [])
  {
    PiecesJoin<Octet>(ws, '/');
    forall i | 0 <= i < |ws| ensures ParseElement(ws[i]) == Success(Element(ws[i], [])) {
      ParsePlain(ws[i]);
    }
  }
}
