/** Policy effects and their names (v1/effect.go). */
module Effects {
  import opened Wrappers
  import opened Errors

  /** The zero value InvalidEffect is never the result of a successful parse. */
  datatype Effect = InvalidEffect | Allow | Deny | Pass

  /** effectToName; the zero value has no name, so Go's map lookup gives "". */
  function EffectName(e: Effect): (s: string)
    ensures s == "" <==> e == InvalidEffect
  {
    match e
    case Allow => "allow"
    case Deny => "deny"
    case Pass => "pass"
    case InvalidEffect => ""
  }

  /** nameToEffect, as a lookup. */
  const NameToEffect: map<string, Effect> := map["allow" := Allow, "deny" := Deny, "pass" := Pass]

  /**
   * ParseEffect: the effect with the given name, or InvalidEffect together
   * with an error.
   */
  function ParseEffect(s: string): (r: (Effect, Option<Error>))
    ensures r.1.None? <==> s in {"allow", "deny", "pass"}
    ensures r.1.None? ==> r.0 != InvalidEffect && EffectName(r.0) == s
    ensures r.1.Some? ==> r.0 == InvalidEffect && r.1.value == InvalidEffectName(s)
  {
    if s in NameToEffect then (NameToEffect[s], None) else (InvalidEffect, Some(InvalidEffectName(s)))
  }

  /** Names round-trip through ParseEffect for every valid effect. */
  lemma NameRoundTrip(e: Effect)
    requires e != InvalidEffect
    ensures ParseEffect(EffectName(e)) == (e, None)
  {
  }

  /** The name of InvalidEffect does not parse. */
  lemma InvalidHasNoName()
    ensures ParseEffect(EffectName(InvalidEffect)).1.Some?
  {
  }

  /** Inverse: Deny becomes Allow and everything else becomes Deny. */
  function Inverse(e: Effect): (r: Effect)
    ensures r == Allow <==> e == Deny
    ensures r == Allow || r == Deny
  {
    if e == Deny then Allow else Deny
  }

  /** Inverse swaps Allow and Deny, so it is its own inverse on them. */
  lemma InverseInvolutive(e: Effect)
    requires e == Allow || e == Deny
    ensures Inverse(Inverse(e)) == e
  {
  }
}
