/**
 * The first-decisive-match loop that both credential providers run over an
 * authorization's policies (v1/provider/apikey/apikey.go and
 * v1/provider/bearer/bearer.go carry the same loop): policies are evaluated
 * in order, Pass moves on, the first other outcome decides, and running out
 * of policies refuses.
 */
module Resolution {
  import opened Wrappers
  import opened Errors
  import opened Effects
  import opened Requests
  import opened Policies

  /** The outcome of one evaluation that does not pass: None grants access. */
  function Verdict(r: (Effect, Option<Error>)): (v: Option<Error>)
    ensures r.1.Some? ==> v == r.1
    ensures r.1.None? ==> (v.None? <==> r.0 == Allow)
    ensures r.1.None? && r.0 == Deny ==> v == Some(Forbidden)
    ensures r.1.None? && r.0 !in {Allow, Deny, Pass} ==> v == Some(InvalidPolicyEffect)
  {
    if r.1.Some? then r.1
    else match r.0
      case Allow => None
      case Deny => Some(Forbidden)
      case Pass => Some(Forbidden)
      case InvalidEffect => Some(InvalidPolicyEffect)
  }

  /** Whether an evaluation lets the loop go on to the next policy. */
  predicate Passes(r: (Effect, Option<Error>))
  {
    r == (Pass, None)
  }

  /**
   * The loop over the policies; None means the request is allowed. No
   * policies refuse, and the loop refuses only as a policy evaluation can.
   */
  function Resolve(ps: seq<ResourcePolicy>, req: Request): (r: Option<Error>)
    ensures ps == [] ==> r == Some(Forbidden)
    ensures r.Some? ==> r.value in {Forbidden, InvalidPolicyEffect, MethodNotSupported}
    decreases |ps|
  {
    if ps == [] then Some(Forbidden)
    else
      var ev := Eval(ps[0], req);
      if Passes(ev) then Resolve(ps[1..], req) else Verdict(ev)
  }

  /** Policies that pass can be skipped. */
  lemma {:induction false} PassingPrefix(pre: seq<ResourcePolicy>, rest: seq<ResourcePolicy>, req: Request)
    requires forall j :: 0 <= j < |pre| ==> Passes(Eval(pre[j], req))
    ensures Resolve(pre + rest, req) == Resolve(rest, req)
    decreases |pre|
  {
    if pre == [] {
      assert pre + rest == rest;
    } else {
      assert (pre + rest)[0] == pre[0];
      assert Passes(Eval(pre[0], req));
      assert (pre + rest)[1..] == pre[1..] + rest;
      assert forall j :: 0 <= j < |pre[1..]| ==> pre[1..][j] == pre[j + 1];
      PassingPrefix(pre[1..], rest, req);

    }
  }

  /**
   * The first policy that does not pass decides alone: what follows it is
   * never consulted.
   */
  lemma FirstDecisive(ps: seq<ResourcePolicy>, i: nat, req: Request)
    requires i < |ps|
    requires forall j :: 0 <= j < i ==> Passes(Eval(ps[j], req))
    requires !Passes(Eval(ps[i], req))
    ensures Resolve(ps, req) == Verdict(Eval(ps[i], req))
  {
    assert ps == ps[..i] + ps[i..];
    PassingPrefix(ps[..i], ps[i..], req);
  }

  /** With every policy passing (the empty list included) the request is refused. */
  lemma DefaultDeny(ps: seq<ResourcePolicy>, req: Request)
    requires forall j :: 0 <= j < |ps| ==> Passes(Eval(ps[j], req))
    ensures Resolve(ps, req) == Some(Forbidden)
  {
    assert ps + [] == ps;
    PassingPrefix(ps, [], req);
  }

  /** Policy `i` allows and every policy before it passes. */
  predicate AllowedAt(ps: seq<ResourcePolicy>, i: int, req: Request)
  {
    0 <= i < |ps| && Eval(ps[i], req) == (Allow, None) &&
    forall j :: 0 <= j < i ==> Passes(Eval(ps[j], req))
  }

  /**
   * Access is granted exactly when some policy allows and every policy
   * before it passes.
   */
  lemma {:induction false} AllowedIff(ps: seq<ResourcePolicy>, req: Request)
    ensures Resolve(ps, req).None? <==> exists i :: AllowedAt(ps, i, req)
    decreases |ps|
  {
    if ps != [] {
      AllowedIff(ps[1..], req);
      if Passes(Eval(ps[0], req)) {
        if Resolve(ps, req).None? {
          var i :| AllowedAt(ps[1..], i, req);
          assert AllowedAt(ps, i + 1, req);
        }
        if exists i :: AllowedAt(ps, i, req) {
          var i :| AllowedAt(ps, i, req);
          assert AllowedAt(ps[1..], i - 1, req);
        }
      } else {
        assert AllowedAt(ps, 0, req) <==> Resolve(ps, req).None?;
      }
    }
  }

  /**
   * A request whose verb has no action is refused with the method error by
   * any non-empty policy list, before any policy's contents matter.
   */
  lemma UnsupportedVerbChain(ps: seq<ResourcePolicy>, req: Request)
    requires ps != []
    requires Actions.ActionForRequest(req.verb).Failure?
    ensures Resolve(ps, req) == Some(MethodNotSupported)
  {
  }

  /** The loop reads only the request's verb and path. */
  lemma {:induction false} SameRequestLine(ps: seq<ResourcePolicy>, req: Request, req2: Request)
    requires req.verb == req2.verb && req.path == req2.path
    ensures Resolve(ps, req) == Resolve(ps, req2)
    decreases |ps|
  {
    if ps != [] {
      SameRequestLine(ps[1..], req, req2);
    }
  }
}
