/**
 * What realms and domains share: a path of typed components written as
 * texts joined by `/`, read back one piece at a time.
 */
module TypedPaths {
  import opened Wrappers
  import opened Errors
  import opened Text
  import opened Percent

  /** Each piece parsed in turn; the first piece that fails decides the error. */
  function ParseEach<T>(ps: seq<Octets>, f: Octets -> Result<T, Error>): (r: Result<seq<T>, Error>)
    ensures r.Success? <==> forall i :: 0 <= i < |ps| ==> f(ps[i]).Success?
    ensures r.Success? ==> |r.value| == |ps| && forall i :: 0 <= i < |ps| ==> r.value[i] == f(ps[i]).value
    ensures r.Failure? ==> exists i :: 0 <= i < |ps| && f(ps[i]) == Failure(r.error)
    decreases |ps|
  {
    if ps == [] then Success([])
    else
      var c := f(ps[0]);
      var rest := ParseEach(ps[1..], f);
      assert forall i :: 1 <= i < |ps| ==> ps[i] == ps[1..][i - 1];
      if c.Failure? then Failure(c.error)
      else if rest.Failure? then Failure(rest.error)
      else Success([c.value] + rest.value)
  }

  /** The components parsed so far, in front of what the rest parses to. */
  function Prefixed<T>(p: seq<T>, r: Result<seq<T>, Error>): Result<seq<T>, Error>
  {
    match r
    case Success(q) => Success(p + q)
    case Failure(e) => Failure(e)
  }

  lemma PrefixedNothing<T>(r: Result<seq<T>, Error>)
    ensures Prefixed([], r) == r
  {
    match r
    case Success(q) => assert [] + q == q;
    case Failure(_) =>
  }

  /**
   * One more piece taken off the front, for the loops that read a path: a
   * failing piece fails the whole path, a piece that parses joins the
   * components read so far.
   */
  lemma ParseFront<T>(p: seq<T>, v: Octets, ps: seq<Octets>, f: Octets -> Result<T, Error>)
    ensures f(v).Failure? ==> Prefixed(p, ParseEach([v] + ps, f)) == Failure(f(v).error)
    ensures f(v).Success? ==> Prefixed(p, ParseEach([v] + ps, f)) == Prefixed(p + [f(v).value], ParseEach(ps, f))
  {
    var vs := [v] + ps;
    assert vs[0] == v && vs[1..] == ps;
    if f(v).Success? {
      match ParseEach(ps, f)
      case Success(q) =>
        assert p + ([f(v).value] + q) == p + [f(v).value] + q;
      case Failure(_) =>
    }
  }

  /** A path of one piece. */
  lemma ParseOne<T>(v: Octets, f: Octets -> Result<T, Error>)
    requires f(v).Success?
    ensures ParseEach([v], f) == Success([f(v).value])
  {
    assert [v][1..] == [];
    assert [f(v).value] + [] == [f(v).value];
  }

  /** The texts of the components of a path. */
  function Texts<T>(d: seq<T>, enc: T -> Octets): (ts: seq<Octets>)
    ensures |ts| == |d| && forall i :: 0 <= i < |d| ==> ts[i] == enc(d[i])
  {
    seq(|d|, i requires 0 <= i < |d| => enc(d[i]))
  }

  /** Writing one more component appends `/` (unless it is the first) and its text. */
  lemma JoinTextsSnoc<T>(d: seq<T>, enc: T -> Octets, i: nat)
    requires i < |d|
    ensures Join<Octet>(Texts(d[..i + 1], enc), ['/']) ==
      if i == 0 then enc(d[0]) else Join<Octet>(Texts(d[..i], enc), ['/']) + ['/'] + enc(d[i])
  {
    var ts := Texts(d[..i], enc);
    assert Texts(d[..i + 1], enc) == ts + [enc(d[i])];
    if i == 0 {
      assert ts + [enc(d[i])] == [enc(d[0])];
    } else {
      JoinSnoc<Octet>(ts, enc(d[i]), ['/']);
    }
  }

  /**
   * Reading a written path gives it back when every component reads back,
   * no component text holds `/`, and the last component text is not empty.
   */
  lemma {:induction false} PathRoundTrip<T>(d: seq<T>, enc: T -> Octets, dec: Octets -> Result<T, Error>)
    requires forall i :: 0 <= i < |d| ==> dec(enc(d[i])) == Success(d[i])
    requires forall i :: 0 <= i < |d| ==> '/' !in enc(d[i])
    requires d != [] ==> enc(d[|d| - 1]) != []
    ensures ParseEach(Pieces<Octet>(Join<Octet>(Texts(d, enc), ['/']), '/'), dec) == Success(d)
  {
    var ts := Texts(d, enc);
    PiecesJoin<Octet>(ts, '/');
    assert Pieces<Octet>(Join<Octet>(ts, ['/']), '/') == ts;
    var r := ParseEach(ts, dec);
    assert r.Success?;
    assert r.value == d;
  }
}
