/** Resource policies: evaluation against a request and the stored form (v1/policy.go). */
module Policies {
  import opened Wrappers
  import opened Errors
  import opened Resources
  import opened Actions
  import opened Effects
  import opened Requests
  import opened Text

  /** uuid.UUID, sixteen bytes read as one number. */
  type Uuid = x: nat | x < 0x1_0000_0000_0000_0000_0000_0000_0000_0000

  /** uuid.Zero. */
  const ZeroId: Uuid := 0

  /** A policy granting or refusing some actions on some paths. */
  datatype ResourcePolicy = ResourcePolicy(
    id: Uuid,
    actions: seq<Action>,
    paths: seq<Path>,
    effect: Effect)

  /**
   * ResourcePolicy.Eval: a verb without an action is refused with an error;
   * otherwise the policy passes unless it lists the request's action and one
   * of its paths matches the request path, in which case its own effect
   * applies.
   */
  function Eval(p: ResourcePolicy, req: Request): (r: (Effect, Option<Error>))
    ensures ActionForRequest(req.verb).Failure? ==> r == (Deny, Some(MethodNotSupported))
    ensures ActionForRequest(req.verb).Success? ==> r.1 == None
    ensures ActionForRequest(req.verb).Success? ==> r.0 == p.effect || r.0 == Pass
    ensures ActionForRequest(req.verb).Success? ==>
      var a := ActionForRequest(req.verb).value;
      !(Every in p.actions || a in p.actions) ==> r.0 == Pass
    ensures ActionForRequest(req.verb).Success? ==>
      (forall i :: 0 <= i < |p.paths| ==> !Match(p.paths[i], req.path, false)) ==> r.0 == Pass
    ensures ActionForRequest(req.verb).Success? ==>
      var a := ActionForRequest(req.verb).value;
      ((Every in p.actions || a in p.actions) &&
       (exists i :: 0 <= i < |p.paths| && Match(p.paths[i], req.path, false))) ==> r.0 == p.effect
  {
    match ActionForRequest(req.verb)
    case Failure(_) => (Deny, Some(MethodNotSupported))
    case Success(a) =>
      if !Contains(p.actions, a) then (Pass, None)
      else if !AnyMatches(p.paths, req.path, false) then (Pass, None)
      else (p.effect, None)
  }

  /** An unsupported verb is refused whatever the policy says. */
  lemma UnsupportedVerb(p: ResourcePolicy, q: ResourcePolicy, req: Request)
    requires ActionForRequest(req.verb).Failure?
    ensures Eval(p, req) == Eval(q, req) == (Deny, Some(MethodNotSupported))
  {
  }

  /** An empty policy (no actions or no paths) passes on every supported request. */
  lemma EmptyPolicyPasses(p: ResourcePolicy, req: Request)
    requires p.actions == [] || p.paths == []
    requires ActionForRequest(req.verb).Success?
    ensures Eval(p, req) == (Pass, None)
  {
  }

  /** Evaluation does not see the letter case of the verb. */
  lemma EvalVerbCase(p: ResourcePolicy, req: Request, verb: string)
    requires EqualFold(req.verb, verb)
    ensures Eval(p, req) == Eval(p, req.(verb := verb))
  {
    VerbCaseInsensitive(req.verb, verb);
  }

  /** WithId: a copy carrying another identifier. */
  function WithId(p: ResourcePolicy, id: Uuid): (r: ResourcePolicy)
    ensures r.id == id
    ensures r.actions == p.actions && r.paths == p.paths && r.effect == p.effect
  {
    p.(id := id)
  }

  /** The identifier takes no part in evaluation, and only the last one given is kept. */
  lemma WithIdIrrelevant(p: ResourcePolicy, id: Uuid, id2: Uuid, req: Request)
    ensures Eval(WithId(p, id), req) == Eval(p, req)
    ensures WithId(WithId(p, id), id2) == WithId(p, id2)
    ensures WithId(p, p.id) == p
  {
  }

  /** AllowResource: allow one action on one path. */
  function AllowResource(a: Action, path: Path): (r: ResourcePolicy)
    ensures r.id == ZeroId && r.actions == [a] && r.paths == [path] && r.effect == Allow
  {
    ResourcePolicy(ZeroId, [a], [path], Allow)
  }

  /** DenyResource: deny one action on one path. */
  function DenyResource(a: Action, path: Path): (r: ResourcePolicy)
    ensures r.id == ZeroId && r.actions == [a] && r.paths == [path] && r.effect == Deny
  {
    ResourcePolicy(ZeroId, [a], [path], Deny)
  }

  /**
   * A single-rule policy decides exactly the requests whose verb maps to its
   * action (or it names `*`) and whose path its pattern matches, and passes
   * on every other supported request.
   */
  lemma SingleRule(a: Action, path: Path, req: Request)
    requires ActionForRequest(req.verb).Success?
    ensures var v := ActionForRequest(req.verb).value;
      var decides := (a == Every || a == v) && Match(path, req.path, false);
      Eval(AllowResource(a, path), req) == (if decides then Allow else Pass, None) &&
      Eval(DenyResource(a, path), req) == (if decides then Deny else Pass, None)
  {
    assert [path][0] == path;
  }

  /** The policy kinds behind the Policy interface: resource policies, and any other kind. */
  datatype Policy = Resource(resource: ResourcePolicy) | OtherKind(otherId: Uuid)

  /** The type tag of resource policies. */
  const ResourcePolicyType := "resource"

  /**
   * The JSON object of a stored resource policy, field by field; a missing
   * "effect" member is None. The JSON text itself is not part of the model.
   */
  datatype Body = Body(actions: seq<Action>, paths: seq<Path>, effect: Option<string>)

  /** What MarshalPolicy produces: the identifier, the type tag and the body. */
  datatype Stored = Stored(id: Uuid, tag: string, data: Body)

  /**
   * MarshalPolicy: resource policies are written under the "resource" tag
   * with the effect under its name; any other kind is unsupported.
   */
  function MarshalPolicy(p: Policy): (r: Result<Stored, Error>)
    ensures r.Success? <==> p.Resource?
    ensures r.Failure? ==> r.error == UnsupportedPolicyType
    ensures r.Success? ==> r.value.id == p.resource.id && r.value.tag == ResourcePolicyType
  {
    match p
    case Resource(rp) =>
      Success(Stored(rp.id, ResourcePolicyType, Body(rp.actions, rp.paths, Some(EffectName(rp.effect)))))
    case OtherKind(_) => Failure(UnsupportedPolicyType)
  }

  /**
   * UnmarshalPolicy: only the "resource" tag is understood; the body must
   * decode (None stands for JSON that does not), a present effect name must
   * parse, and the supplied identifier is stamped on the result.
   */
  function UnmarshalPolicy(id: Uuid, tag: string, data: Option<Body>): (r: Result<Policy, Error>)
    ensures tag != ResourcePolicyType ==> r == Failure(UnsupportedPolicyType)
    ensures r.Success? ==> r.value.Resource? && r.value.resource.id == id
    ensures tag == ResourcePolicyType && data.None? ==> r == Failure(MalformedJson)
    ensures r.Success? <==>
      tag == ResourcePolicyType && data.Some? &&
      (data.value.effect.Some? ==> data.value.effect.value in {"allow", "deny", "pass"})
  {
    if tag != ResourcePolicyType then Failure(UnsupportedPolicyType)
    else match data
      case None => Failure(MalformedJson)
      case Some(b) =>
        match b.effect
        case None => Success(Resource(ResourcePolicy(id, b.actions, b.paths, InvalidEffect)))
        case Some(name) =>
          var (e, err) := ParseEffect(name);
          if err.Some? then Failure(err.value)
          else Success(Resource(ResourcePolicy(id, b.actions, b.paths, e)))
  }

  /**
   * A stored resource policy reads back as itself exactly when its effect is
   * a valid one: InvalidEffect is written under the empty name, which does
   * not parse.
   */
  lemma PolicyRoundTrip(p: ResourcePolicy)
    ensures var s := MarshalPolicy(Resource(p)).value;
      var back := UnmarshalPolicy(s.id, s.tag, Some(s.data));
      (back == Success(Resource(p)) <==> p.effect != InvalidEffect) &&
      (p.effect == InvalidEffect ==> back == Failure(InvalidEffectName("")))
  {
  }
}
