/**
 * The few pieces of Go's `strings` package that the access-control code
 * relies on, over Dafny sequences. Case mapping and white space are ASCII
 * only (Go's Unicode tables are not part of this model).
 */
module Text {

  /** ASCII lower-casing of one character. */
  function LowerChar(c: char): char
  {
    if 'A' <= c <= 'Z' then (c as int + 32) as char else c
  }

  /** ASCII upper-casing of one character. */
  function UpperChar(c: char): char
  {
    if 'a' <= c <= 'z' then (c as int - 32) as char else c
  }

  /** strings.ToLower, restricted to ASCII letters. */
  function ToLower(s: string): (r: string)
    ensures |r| == |s|
    ensures forall i :: 0 <= i < |s| ==> r[i] == LowerChar(s[i])
  {
    seq(|s|, i requires 0 <= i < |s| => LowerChar(s[i]))
  }

  /** strings.ToUpper, restricted to ASCII letters. */
  function ToUpper(s: string): (r: string)
    ensures |r| == |s|
    ensures forall i :: 0 <= i < |s| ==> r[i] == UpperChar(s[i])
  {
    seq(|s|, i requires 0 <= i < |s| => UpperChar(s[i]))
  }

  /** strings.EqualFold with ASCII case folding. */
  predicate EqualFold(a: string, b: string)
  {
    ToLower(a) == ToLower(b)
  }

  /** Two strings that are equal up to ASCII case have the same upper-case form. */
  lemma FoldedUpper(a: string, b: string)
    requires EqualFold(a, b)
    ensures ToUpper(a) == ToUpper(b)
  {
    assert |a| == |ToLower(a)| == |ToLower(b)| == |b|;
    forall i | 0 <= i < |a|
      ensures UpperChar(a[i]) == UpperChar(b[i])
    {
      assert LowerChar(a[i]) == ToLower(a)[i] == ToLower(b)[i] == LowerChar(b[i]);
    }
  }

  /** strings.IndexAny: the first position holding one of `xs`, or -1. */
  function IndexAny<T(==)>(s: seq<T>, xs: set<T>): (r: int)
    ensures -1 <= r < |s|
    ensures 0 <= r ==> s[r] in xs && forall j :: 0 <= j < r ==> s[j] !in xs
    ensures r < 0 ==> forall j :: 0 <= j < |s| ==> s[j] !in xs
    decreases |s|
  {
    if s == [] then -1
    else if s[0] in xs then 0
    else
      var k := IndexAny(s[1..], xs);
      if k < 0 then -1 else k + 1
  }

  /** strings.Index for a one-character needle: the first position of `x`, or -1. */
  function IndexOf<T(==)>(s: seq<T>, x: T): (r: int)
    ensures -1 <= r < |s|
    ensures 0 <= r ==> s[r] == x && x !in s[..r]
    ensures r < 0 <==> x !in s
  {
    var r := IndexAny(s, {x});
    assert 0 <= r ==> forall j :: 0 <= j < r ==> s[..r][j] != x;
    r
  }

  /** The first position of `x` is determined by the text before it. */
  lemma IndexOfAt<T>(s: seq<T>, x: T, k: nat)
    requires k < |s| && s[k] == x && x !in s[..k]
    ensures IndexOf(s, x) == k
  {
  }

  /** Splitting a text around one of its elements. */
  lemma Around<T>(u: seq<T>, d: T, rest: seq<T>)
    ensures var t := u + [d] + rest;
      t[|u|] == d && t[..|u|] == u && t[|u| + 1..] == rest
  {
  }

  /** A prefix reaching past the element after `u`. */
  lemma PrefixPast<T>(u: seq<T>, d: T, rest: seq<T>, e: nat)
    requires |u| < e <= |u| + 1 + |rest|
    ensures (u + [d] + rest)[..e] == u + [d] + rest[..e - |u| - 1]
  {
  }

  /** strings.LastIndex for a one-character needle: the last position of `x`, or -1. */
  function LastIndexOf<T(==)>(s: seq<T>, x: T): (r: int)
    ensures -1 <= r < |s|
    ensures 0 <= r ==> s[r] == x && x !in s[r + 1..]
    ensures r < 0 <==> x !in s
    decreases |s|
  {
    if s == [] then -1
    else if s[|s| - 1] == x then |s| - 1
    else
      var r := LastIndexOf(s[..|s| - 1], x);
      assert s == s[..|s| - 1] + [s[|s| - 1]];
      assert 0 <= r ==> s[r + 1..] == s[..|s| - 1][r + 1..] + [s[|s| - 1]];
      r
  }

  /** Parts joined by a separator (strings.Join). */
  function Join<T>(parts: seq<seq<T>>, sep: seq<T>): seq<T>
    decreases |parts|
  {
    if |parts| == 0 then []
    else if |parts| == 1 then parts[0]
    else parts[0] + sep + Join(parts[1..], sep)
  }

  /** Joining one more part appends the separator and the part. */
  lemma {:induction false} JoinSnoc<T>(parts: seq<seq<T>>, p: seq<T>, sep: seq<T>)
    requires |parts| > 0
    ensures Join(parts + [p], sep) == Join(parts, sep) + sep + p
    decreases |parts|
  {
    if |parts| == 1 {
      assert parts + [p] == [parts[0], p];
      assert (parts + [p])[1..] == [p];
    } else {
      assert (parts + [p])[1..] == parts[1..] + [p];
      JoinSnoc(parts[1..], p, sep);
    }
  }

  /** The number of occurrences of `x` in `s`. */
  function Count<T(==)>(s: seq<T>, x: T): nat
    decreases |s|
  {
    if s == [] then 0 else (if s[0] == x then 1 else 0) + Count(s[1..], x)
  }

  /** strings.Split for a one-character separator, one character at a time. */
  function Split<T(==)>(s: seq<T>, sep: T): (r: seq<seq<T>>)
    ensures |r| > 0
    decreases |s|
  {
    if s == [] then [[]]
    else
      var rest := Split(s[1..], sep);
      if s[0] == sep then [[]] + rest else [[s[0]] + rest[0]] + rest[1..]
  }

  /**
   * Split yields one more part than there are separators, no part holds the
   * separator, and joining the parts restores the text.
   */
  lemma {:induction false} SplitParts<T>(s: seq<T>, sep: T)
    ensures |Split(s, sep)| == Count(s, sep) + 1
    ensures forall i :: 0 <= i < |Split(s, sep)| ==> sep !in Split(s, sep)[i]
    ensures Join(Split(s, sep), [sep]) == s
    decreases |s|
  {
    if s != [] {
      var c, t := s[0], s[1..];
      SplitParts(t, sep);
      var rest := Split(t, sep);
      if c == sep {
        JoinEmptyFront(rest, [sep]);
        assert s == [sep] + t;
        assert forall i :: 1 <= i <= |rest| ==> ([[]] + rest)[i] == rest[i - 1];
      } else {
        JoinMerge([c], rest, [sep]);
        assert s == [c] + t;
        var r := [[c] + rest[0]] + rest[1..];
        assert forall i :: 1 <= i < |r| ==> r[i] == rest[i];
      }
    }
  }

  /** Joining parts whose first part is empty starts with the separator. */
  lemma JoinEmptyFront<T>(rest: seq<seq<T>>, sep: seq<T>)
    requires rest != []
    ensures Join([[]] + rest, sep) == sep + Join(rest, sep)
  {
    assert ([[]] + rest)[1..] == rest;
  }

  /** Prefixing the first part prefixes the joined text. */
  lemma JoinMerge<T>(p: seq<T>, rest: seq<seq<T>>, sep: seq<T>)
    requires rest != []
    ensures Join([p + rest[0]] + rest[1..], sep) == p + Join(rest, sep)
  {
    var r := [p + rest[0]] + rest[1..];
    if |rest| > 1 {
      assert r[1..] == rest[1..];
    }
  }

  /** A text without the separator is a single part. */
  lemma SplitNone<T>(s: seq<T>, sep: T)
    requires sep !in s
    ensures Split(s, sep) == [s]
    decreases |s|
  {
    if s != [] {
      assert s[0] != sep;
      SplitNone(s[1..], sep);
      assert [s[0]] + s[1..] == s;
    }
  }

  /** Split, one character at a time, for a text given by its first character. */
  lemma SplitCons<T>(c: T, t: seq<T>, sep: T)
    ensures Split([c] + t, sep) ==
      if c == sep then [[]] + Split(t, sep) else [[c] + Split(t, sep)[0]] + Split(t, sep)[1..]
  {
    assert ([c] + t)[0] == c && ([c] + t)[1..] == t;
  }

  /** Splitting distributes over one occurrence of the separator. */
  lemma {:induction false} SplitAppend<T>(a: seq<T>, b: seq<T>, sep: T)
    ensures Split(a + [sep] + b, sep) == Split(a, sep) + Split(b, sep)
    decreases |a|
  {
    if a == [] {
      assert a + [sep] + b == [sep] + b;
      SplitCons(sep, b, sep);
    } else {
      var c, t := a[0], a[1..];
      Regrouped(a, sep, b);
      SplitAppend(t, b, sep);
      SplitCons(c, t + [sep] + b, sep);
      SplitCons(c, t, sep);
      var x, y := Split(t, sep), Split(b, sep);
      if c == sep {
        ConsAppend([], x, y);
      } else {
        PartsAppend([c], x, y);
      }
    }
  }

  /** The first element taken off a text that runs on past a separator. */
  lemma Regrouped<T>(a: seq<T>, sep: T, b: seq<T>)
    requires a != []
    ensures a == [a[0]] + a[1..]
    ensures a + [sep] + b == [a[0]] + (a[1..] + [sep] + b)
  {
  }

  /** Merging a prefix into the first part commutes with appending more parts. */
  lemma PartsAppend<T>(h: seq<T>, x: seq<seq<T>>, y: seq<seq<T>>)
    requires x != []
    ensures [h + (x + y)[0]] + (x + y)[1..] == [h + x[0]] + x[1..] + y
  {
    assert (x + y)[0] == x[0];
    assert (x + y)[1..] == x[1..] + y;
  }

  lemma ConsAppend<T>(h: T, x: seq<T>, y: seq<T>)
    ensures [h] + (x + y) == [h] + x + y
  {
  }

  /** Splitting undoes joining when no part holds the separator. */
  lemma {:induction false} SplitJoin<T>(parts: seq<seq<T>>, sep: T)
    requires parts != []
    requires forall i :: 0 <= i < |parts| ==> sep !in parts[i]
    ensures Split(Join(parts, [sep]), sep) == parts
    decreases |parts|
  {
    if |parts| == 1 {
      SplitNone(parts[0], sep);
    } else {
      var j := Join(parts[1..], [sep]);
      SplitJoin(parts[1..], sep);
      SplitAppend(parts[0], j, sep);
      SplitNone(parts[0], sep);
      assert Join(parts, [sep]) == parts[0] + [sep] + j;
      assert [parts[0]] + parts[1..] == parts;
    }
  }

  /**
   * The pieces a path loop takes off the front of `s`: up to the next
   * separator, or the rest when there is none, until nothing is left. A
   * trailing separator therefore yields no empty last piece.
   */
  function Pieces<T(==)>(s: seq<T>, sep: T): seq<seq<T>>
    decreases |s|
  {
    if s == [] then []
    else
      var x := IndexOf(s, sep);
      if x < 0 then [s] else [s[..x]] + Pieces(s[x + 1..], sep)
  }

  /**
   * The first piece, and the pieces of what follows its separator: `v` is
   * the text before the first separator (all of it when there is none), and
   * `rest` what follows that separator.
   */
  lemma PiecesFront<T>(s: seq<T>, sep: T, x: int, v: seq<T>, rest: seq<T>)
    requires s != [] && x == IndexOf(s, sep)
    requires x < 0 ==> v == s && rest == []
    requires x >= 0 ==> v == s[..x] && rest == s[x + 1..]
    ensures Pieces(s, sep) == [v] + Pieces(rest, sep)
  {
    if x < 0 {
      assert Pieces(s, sep) == [s];
      assert Pieces(rest, sep) == [];
      assert [s] + [] == [s];
    } else {
      assert Pieces(s, sep) == [s[..x]] + Pieces(s[x + 1..], sep);
    }
  }

  /**
   * Taking pieces undoes joining when no part holds the separator and the
   * last part is not empty.
   */
  lemma {:induction false} PiecesJoin<T>(parts: seq<seq<T>>, sep: T)
    requires forall i :: 0 <= i < |parts| ==> sep !in parts[i]
    requires parts != [] ==> parts[|parts| - 1] != []
    ensures Pieces(Join(parts, [sep]), sep) == parts
    decreases |parts|
  {
    if |parts| == 1 {
    } else if |parts| > 1 {
      var p, rest := parts[0], Join(parts[1..], [sep]);
      var s := p + [sep] + rest;
      assert Join(parts, [sep]) == s;
      IndexOfAt(s, sep, |p|);
      assert s[..|p|] == p && s[|p| + 1..] == rest;
      PiecesJoin(parts[1..], sep);
    }
  }

  /** A trailing empty part is lost: it leaves only a separator at the end. */
  lemma PiecesDropEmptyLast<T>(p: seq<T>, sep: T)
    requires p != [] && sep !in p
    ensures Pieces(Join([p, []], [sep]), sep) == [p]
  {
    var s := p + [sep];
    assert Join([p, []], [sep]) == s by {
      assert [p, []][1..] == [[]];
    }
    IndexOfAt(s, sep, |p|);
    assert s[..|p|] == p && s[|p| + 1..] == [];
  }

  /** The last position of `x` is determined by the text after it. */
  lemma LastIndexOfAt<T>(s: seq<T>, x: T, k: nat)
    requires k < |s| && s[k] == x && x !in s[k + 1..]
    ensures LastIndexOf(s, x) == k
  {
  }

  /** ASCII white space, the separators of strings.Fields. */
  predicate IsSpace(c: char)
  {
    c == ' ' || c == '\t' || c == '\n' || c == '\r' || c as int == 0x0B || c as int == 0x0C
  }

  predicate NoSpace(w: string)
  {
    forall j :: 0 <= j < |w| ==> !IsSpace(w[j])
  }

  /** Length of the leading run of non-space characters. */
  function SpanNonSpace(s: string): (n: nat)
    ensures n <= |s|
    ensures NoSpace(s[..n])
    ensures n < |s| ==> IsSpace(s[n])
    decreases |s|
  {
    if s == [] || IsSpace(s[0]) then 0 else 1 + SpanNonSpace(s[1..])
  }

  /** strings.Fields: the maximal runs of non-space characters, in order. */
  function Fields(s: string): (r: seq<string>)
    ensures forall i :: 0 <= i < |r| ==> r[i] != [] && NoSpace(r[i])
    decreases |s|
  {
    if s == [] then []
    else if IsSpace(s[0]) then Fields(s[1..])
    else
      var n := SpanNonSpace(s);
      [s[..n]] + Fields(s[n..])
  }

  lemma {:induction false} SpanOfWord(w: string, t: string)
    requires NoSpace(w)
    requires t == [] || IsSpace(t[0])
    ensures SpanNonSpace(w + t) == |w|
    decreases |w|
  {
    if w != [] {
      assert (w + t)[1..] == w[1..] + t;
      SpanOfWord(w[1..], t);
    }
  }

  /** A word followed by nothing or by white space is the first field. */
  lemma WordField(w: string, t: string)
    requires w != [] && NoSpace(w)
    requires t == [] || IsSpace(t[0])
    ensures Fields(w + t) == [w] + Fields(t)
  {
    var s := w + t;
    SpanOfWord(w, t);
    assert s[..|w|] == w && s[|w|..] == t;
  }
}
