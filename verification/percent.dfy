/**
 * Percent-encoding of one path segment (section 2.1 of RFC 3986), with the
 * character set that Go's url.PathEscape keeps literal: letters, digits,
 * the unreserved marks - _ . ~ and the sub-delimiters $ & + : = @. The
 * segment delimiters / ; , ? and every other octet are written as %XX with
 * upper-case hexadecimal digits.
 */
module Percent {
  import opened Wrappers
  import opened Text

  /** A character standing for one octet of a byte string. */
  type Octet = c: char | c < 256 as char

  type Octets = seq<Octet>

  /** The upper-case hexadecimal digit for a value below 16. */
  function HexDigit(d: nat): (c: char)
    requires d < 16
    ensures IsUpperHex(c)
  {
    if d < 10 then ('0' as nat + d) as char else ('A' as nat + d - 10) as char
  }

  predicate IsUpperHex(c: char)
  {
    '0' <= c <= '9' || 'A' <= c <= 'F'
  }

  predicate IsAlnum(c: char)
  {
    'a' <= c <= 'z' || 'A' <= c <= 'Z' || '0' <= c <= '9'
  }

  /** The octets a path segment carries literally. */
  predicate Literal(c: char)
  {
    IsAlnum(c) || c == '-' || c == '_' || c == '.' || c == '~' ||
    c == '$' || c == '&' || c == '+' || c == ':' || c == '=' || c == '@'
  }

  /** The value of a hexadecimal digit of either case. */
  function HexValue(c: char): (v: Option<nat>)
    ensures v.Some? <==> '0' <= c <= '9' || 'a' <= c <= 'f' || 'A' <= c <= 'F'
    ensures v.Some? ==> v.value < 16 && HexDigit(v.value) == UpperChar(c)
  {
    if '0' <= c <= '9' then Some(c as nat - '0' as nat)
    else if 'a' <= c <= 'f' then Some(c as nat - 'a' as nat + 10)
    else if 'A' <= c <= 'F' then Some(c as nat - 'A' as nat + 10)
    else None
  }

  /** One octet, escaped. */
  function EscapeOctet(c: Octet): (e: Octets)
    ensures Literal(c) ==> e == [c]
    ensures !Literal(c) ==> |e| == 3 && e[0] == '%' && IsUpperHex(e[1]) && IsUpperHex(e[2])
  {
    if Literal(c) then [c]
    else ['%', HexDigit(c as nat / 16), HexDigit(c as nat % 16)]
  }

  /** url.PathEscape: every octet escaped in turn. */
  function Escape(s: Octets): Octets
    decreases |s|
  {
    if s == [] then [] else EscapeOctet(s[0]) + Escape(s[1..])
  }

  /**
   * url.PathUnescape: each %XX becomes the octet XX; a `%` not followed by
   * two hexadecimal digits makes the whole text invalid.
   */
  function Unescape(s: Octets): Option<Octets>
    decreases |s|
  {
    if s == [] then Some([])
    else if s[0] == '%' then
      if |s| < 3 || HexValue(s[1]).None? || HexValue(s[2]).None? then None
      else
        var c := (HexValue(s[1]).value * 16 + HexValue(s[2]).value) as char;
        match Unescape(s[3..])
        case None => None
        case Some(t) => Some([c] + t)
    else
      match Unescape(s[1..])
      case None => None
      case Some(t) => Some([s[0]] + t)
  }

  /** Each hexadecimal digit reads back as its value. */
  lemma HexDigitValue(d: nat)
    requires d < 16
    ensures HexValue(HexDigit(d)) == Some(d)
  {
  }

  /** One escaped octet, in front of any text, unescapes back to that octet. */
  lemma UnescapeOctet(c: Octet, rest: Octets)
    ensures Unescape(EscapeOctet(c) + rest) ==
      match Unescape(rest)
      case None => None
      case Some(t) => Some([c] + t)
  {
    var t := EscapeOctet(c) + rest;
    if Literal(c) {
      assert t[0] == c && t[1..] == rest;
    } else {
      var hi, lo := c as nat / 16, c as nat % 16;
      HexDigitValue(hi);
      HexDigitValue(lo);
      assert t[1] == HexDigit(hi) && t[2] == HexDigit(lo) && t[3..] == rest;
      assert hi * 16 + lo == c as nat;
    }
  }

  /** Unescaping undoes escaping. */
  lemma {:induction false} UnescapeEscape(s: Octets)
    ensures Unescape(Escape(s)) == Some(s)
    decreases |s|
  {
    if s != [] {
      UnescapeEscape(s[1..]);
      UnescapeOctet(s[0], Escape(s[1..]));
      assert [s[0]] + s[1..] == s;
    }
  }

  /** An escaped octet is no delimiter other than `:`, and `:` only for itself. */
  lemma OctetDelimiters(c: Octet)
    ensures var e := EscapeOctet(c);
      '/' !in e && '?' !in e && (':' in e <==> c == ':')
  {
    var e := EscapeOctet(c);
    if !Literal(c) {
      assert e == [e[0], e[1], e[2]];
    }
  }

  /**
   * The escaped text holds no `/`, and holds a `:` exactly where the
   * unescaped text does: `:` passes through and escapes produce only `%` and
   * hexadecimal digits. The empty text alone escapes to the empty text.
   */
  lemma {:induction false} EscapeDelimiters(s: Octets)
    ensures '/' !in Escape(s)
    ensures ':' in Escape(s) <==> ':' in s
    ensures Escape(s) == [] <==> s == []
    decreases |s|
  {
    if s != [] {
      EscapeDelimiters(s[1..]);
      OctetDelimiters(s[0]);
      assert ':' in s <==> s[0] == ':' || ':' in s[1..];
    }
  }

  /** Escaping works octet by octet, so it distributes over concatenation. */
  lemma {:induction false} EscapeAppend(a: Octets, b: Octets)
    ensures Escape(a + b) == Escape(a) + Escape(b)
    decreases |a|
  {
    if a != [] {
      assert (a + b)[0] == a[0] && (a + b)[1..] == a[1..] + b;
      EscapeAppend(a[1..], b);
    } else {
      assert a + b == b;
    }
  }

  /** A text with no `%` unescapes to itself. */
  lemma {:induction false} UnescapePlain(s: Octets)
    requires '%' !in s
    ensures Unescape(s) == Some(s)
    decreases |s|
  {
    if s != [] {
      UnescapePlain(s[1..]);
      assert [s[0]] + s[1..] == s;
    }
  }

  /** A `%` at `i` that is not followed by two hexadecimal digits. */
  predicate BadEscapeAt(s: Octets, i: int)
  {
    0 <= i < |s| && s[i] == '%' &&
    !(i + 2 < |s| && HexValue(s[i + 1]).Some? && HexValue(s[i + 2]).Some?)
  }

  /** The text holds a `%` that does not start an escape. */
  predicate BadEscape(s: Octets)
  {
    exists i :: 0 <= i < |s| && BadEscapeAt(s, i)
  }

  /** Unescaping fails exactly on a text holding a `%` without two hexadecimal digits after it. */
  lemma {:induction false} UnescapeFails(s: Octets)
    ensures Unescape(s).None? <==> BadEscape(s)
    decreases |s|
  {
    if s == [] {
    } else if BadEscapeAt(s, 0) {
    } else if s[0] == '%' {
      var t := s[3..];
      UnescapeFails(t);
      assert forall k :: 0 <= k < |t| ==> t[k] == s[k + 3];
      if BadEscape(t) {
        var j :| 0 <= j < |t| && BadEscapeAt(t, j);
        assert BadEscapeAt(s, j + 3);
      }
      if BadEscape(s) {
        var i :| 0 <= i < |s| && BadEscapeAt(s, i);
        assert i != 1 && i != 2 && i != 0;
        assert BadEscapeAt(t, i - 3);
      }
    } else {
      var t := s[1..];
      UnescapeFails(t);
      assert forall k :: 0 <= k < |t| ==> t[k] == s[k + 1];
      if BadEscape(t) {
        var j :| 0 <= j < |t| && BadEscapeAt(t, j);
        assert BadEscapeAt(s, j + 1);
      }
      if BadEscape(s) {
        var i :| 0 <= i < |s| && BadEscapeAt(s, i);
        assert BadEscapeAt(t, i - 1);
      }
    }
  }

  /** The escaped text holds no `?`, which would otherwise start a query. */
  lemma {:induction false} EscapeNoQuery(s: Octets)
    ensures '?' !in Escape(s)
    decreases |s|
  {
    if s != [] {
      EscapeNoQuery(s[1..]);
      OctetDelimiters(s[0]);
    }
  }
}
