# go-acl: the access-decision core, modelled in Dafny

This project models the core of go-acl (v1), a Go library that decides whether
an HTTP request may go ahead. It also proves properties of that model.

The parts modelled:

- **Path matcher** (`Resources`, resource.go). Resource paths are split into
  `/`-separated components. A pattern component `*` matches any one component.
  A pattern that is `*` alone matches everything. With the encompass option,
  a pattern matches longer paths too. The loops of resource.go are methods
  proved against a declarative matcher on component lists.
- **Actions and effects** (`Actions`, `Effects`). These cover the HTTP verb
  table, the wildcard-aware action list and the effect names.
- **Resource policies** (`Policies`, policy.go). These cover evaluation of a
  policy against a request, and the stored form written and read by
  MarshalPolicy and UnmarshalPolicy.
- **Effect resolution** (`Resolution`). Both credential providers run the
  same loop over an authorization's policies. `Pass` moves on to the next
  policy, the first other outcome decides, and running out of policies
  refuses.
- **Credential providers**:
  - `BasicAuth` (http.go): the Basic credential, read from the header or from
    the `auth` query value;
  - `ApiKey` (provider/apikey/apikey.go);
  - `Bearer` (provider/bearer/bearer.go).
- **Scopes** (`Scopes`, scope.go). This covers:
  - the scope text `actions:resource` and its parser;
  - satisfaction of a required scope by a granted one;
  - Merged, Merge and Union, which combine scopes into one per resource.

  The merging methods build a Go map and walk it in Go's unspecified order.
  Here they are proved to list, for each resource, exactly the actions
  granted on it, with `*` standing alone.
- **Roles** (`Roles`, role.go). This covers the role names, the grant table
  and the merging of role lists.
- **Realms and domains** (`Realms`, `Domains`, realm.go, domain.go). These are
  paths of typed elements such as `workspace:1/project:2`. Each part is
  percent-encoded as Go's `url.PathEscape` does (`Percent`). What realms and
  domains share is in `TypedPaths`.

Error values are one datatype (`Errors`). Wherever the Go code leaves its
receiver unchanged and returns an error, the model returns a `Result`.

Three collaborators are not modelled, and each is passed in as a function:
- the base64 codec;
- the authorization store;
- the signature check.

The base64 codec comes with a `Lawful` hypothesis on byte strings: decoding
undoes encoding, the encoding uses only alphabet characters, and only the
empty text encodes to nothing. A hexadecimal codec (`BasicAuth.LawfulWitness`)
meets it, so the round-trip lemmas that assume it are not vacuous.

Where the documented intent and the code differ, the model follows the code:

- **Realm and domain round trip.** The intent is that any type and name read
  back from its text. In the code, `url.PathEscape` leaves `:` as it is, so a
  type holding `:` reads back split at that `:` (`Realms.ColonInType`). A
  trailing realm element with neither type nor name is written as a final `/`
  and read back as nothing (`Realms.TrailingZeroLost`). The round-trip lemmas
  carry exactly those two conditions.
- **Realm without delimiters.** realm_test.go expects
  `no/component/delimiter` to be refused as a realm. realm.go accepts it as a
  realm of three unnamed elements (`Realms.TypesOnly`), and the model follows
  realm.go. Domains do refuse it (`Domains.MissingDelimiter`).

## Model

| member | source | states |
|---|---|---|
| Actions.ActionForRequest | v1/action.go:25-40 | a verb has an action exactly when its upper-case form is GET, POST, PUT, PATCH or DELETE; the action is read, write or delete; otherwise the error is MethodNotSupported |
| Actions.VerbTable | v1/action.go:25-31 | GET gives read; POST, PUT and PATCH give write; DELETE gives delete; no verb gives list, approve, notify or `*` |
| Actions.VerbCaseInsensitive | v1/action.go:33-34 | two verbs equal up to ASCII case have the same action |
| Actions.Contains | v1/action.go:56-63 | an action list contains `a` exactly when it holds `*` or `a` itself |
| Actions.ContainsWildcard | v1/action.go:56-63 | `*` is contained only by a list holding `*`; the empty list contains nothing |
| Effects.EffectName | v1/effect.go:18-22 | only the zero effect InvalidEffect has the empty name |
| Effects.ParseEffect | v1/effect.go:24-36 | exactly allow, deny and pass parse, to an effect whose name they are; any other text gives InvalidEffect and an error naming the text |
| Effects.NameRoundTrip | v1/effect.go:18-36 | every valid effect parses back from its name |
| Effects.InvalidHasNoName | v1/effect.go:18-36 | the zero effect's name does not parse |
| Effects.Inverse | v1/effect.go:38-44 | the inverse is Allow exactly for Deny, and is always Allow or Deny |
| Effects.InverseInvolutive | v1/effect.go:38-44 | inverting Allow or Deny twice gives it back |
| Resources.FirstComponent | v1/resource.go:108-130 | a component exists exactly when the text is non-empty; the component holds no `/`; the text is the component, then `/` and the rest (or the component alone) |
| Resources.Component | v1/resource.go:108-130 | the character loop yields the first component, the rest and the flag |
| Resources.Components | v1/resource.go:108-130 | a path has no components exactly when it is empty |
| Resources.MatchesWithOptions | v1/resource.go:52-93 | the component-walking loop agrees with the declarative matcher under the encompass bit of the options |
| Resources.WalkEnds | v1/resource.go:74-80 | the loop's three exits (both done, pattern done, candidate done) give the declarative matcher's answer |
| Resources.Matches | v1/resource.go:29-31 | matching without options is the declarative matcher without encompassing |
| Resources.MatchesString | v1/resource.go:96-98 | a string is matched as the path it spells |
| Resources.MatchesStringWithOptions | v1/resource.go:101-103 | a string is matched as the path it spells, with the options' encompass bit |
| Resources.PathSetMatchesWithOptions | v1/resource.go:145-152 | the set matches exactly when some path of it matches |
| Resources.PathSetMatches | v1/resource.go:135-142 | the set matches exactly when some path of it matches without encompassing |
| Resources.PathSetMatchesString | v1/resource.go:155-162 | the set matches a string exactly when some path of it matches it |
| Resources.PathSetMatchesStringWithOptions | v1/resource.go:165-172 | the set matches a string exactly when some path matches it under the options |
| Resources.PatternAlone | v1/resource.go:58-64 | the empty pattern matches nothing; `*` matches everything, the empty path included; other patterns never match the empty path |
| Resources.EncompassMonotone | v1/resource.go:56-77 | turning encompassing on never loses a match |
| Resources.ComponentsTrailingSlash | v1/resource.go:108-130 | a trailing `/` adds no component |
| Resources.TrailingSlashIrrelevant | v1/resource.go:52-93 | a trailing `/` on either the pattern or the candidate does not change the outcome |
| Policies.Eval | v1/policy.go:99-111 | an unsupported verb gives Deny with MethodNotSupported; otherwise there is no error, and the policy's effect applies exactly when it lists the action (or `*`) and one of its paths matches the request path, else Pass |
| Policies.UnsupportedVerb | v1/policy.go:99-103 | every policy refuses an unsupported verb in the same way |
| Policies.EmptyPolicyPasses | v1/policy.go:104-109 | a policy without actions or without paths passes every supported request |
| Policies.EvalVerbCase | v1/policy.go:99-100 | evaluation ignores the case of the verb |
| Policies.WithId | v1/policy.go:88-97 | the copy carries the new identifier and the same actions, paths and effect |
| Policies.WithIdIrrelevant | v1/policy.go:88-111 | the identifier never changes an evaluation; the last identifier set wins; setting the policy's own identifier changes nothing |
| Policies.AllowResource | v1/policy.go:76-78 | a policy with the zero identifier, the one action, the one path and Allow |
| Policies.DenyResource | v1/policy.go:80-82 | a policy with the zero identifier, the one action, the one path and Deny |
| Policies.SingleRule | v1/policy.go:76-111 | a single-rule policy decides exactly the requests whose action it names (or `*`) and whose path matches its pattern, and passes on the rest |
| Policies.MarshalPolicy | v1/policy.go:32-39 | only resource policies are written, with their identifier and the "resource" tag; any other kind is UnsupportedPolicyType |
| Policies.UnmarshalPolicy | v1/policy.go:41-48 | only the "resource" tag is read; a body that does not decode is an error; reading succeeds exactly when a present effect name is valid; the given identifier is stamped on the result |
| Policies.PolicyRoundTrip | v1/policy.go:32-74 | a written resource policy reads back as itself exactly when its effect is valid; one with InvalidEffect fails on the empty effect name |
| Resolution.Resolve | v1/provider/apikey/apikey.go:56-73 | no policies refuse with Forbidden; the loop refuses only with Forbidden, InvalidPolicyEffect or MethodNotSupported |
| Resolution.Verdict | v1/provider/apikey/apikey.go:56-70 | an evaluation error is returned as is; Allow grants; Deny refuses with Forbidden; an effect outside Allow, Deny and Pass gives InvalidPolicyEffect |
| Resolution.PassingPrefix | v1/provider/apikey/apikey.go:56-73 | policies that pass can be dropped from the front without changing the decision |
| Resolution.FirstDecisive | v1/provider/apikey/apikey.go:56-73 | the first policy that does not pass decides |
| Resolution.DefaultDeny | v1/provider/apikey/apikey.go:73 | when every policy passes, the request is Forbidden |
| Resolution.AllowedIff | v1/provider/apikey/apikey.go:56-73 | a request is granted exactly when some policy allows and every policy before it passes |
| Resolution.UnsupportedVerbChain | v1/provider/apikey/apikey.go:56-60 | with any policy at all, an unsupported verb gives MethodNotSupported |
| Resolution.SameRequestLine | v1/policy.go:99-111 | the decision depends only on the request's verb and path |
| BasicAuth.FromAuthorizationData | v1/http.go:49-62 | succeeds exactly when the data decodes to a text with exactly one `:`, which then splits key from secret; otherwise MalformedRequest |
| BasicAuth.FromAuthorization | v1/http.go:33-46 | a header that is not two fields is malformed; a scheme other than basic, in any case, is unsupported; otherwise the second field is read as data |
| BasicAuth.Credential | v1/http.go:17-30 | the header takes precedence over the `auth` query value; with neither, NoAuthorization; errors are only the three named ones |
| BasicAuth.HeaderPrecedence | v1/http.go:19-22 | with a header present, the query value is irrelevant |
| BasicAuth.DataRoundTrip | v1/http.go:49-62 | the encoding of a byte string `key:secret` reads back as that key and secret when neither holds `:` |
| BasicAuth.HeaderRoundTrip | v1/http.go:33-62 | a `Basic` header (any case) with an encoded byte string `key:secret` reads back as that key and secret |
| BasicAuth.HexRoundTrip | v1/http.go:49-55 | a codec of the kind the decoding step expects: every byte string reads back from its encoding, which is in the base64 alphabet and empty only for the empty text |
| BasicAuth.LawfulWitness | v1/http.go:49-55 | the codec hypothesis of the round-trip lemmas can be met |
| ApiKey.CredentialError | v1/provider/apikey/apikey.go:35-43 | no authorization and an unsupported scheme become Unauthorized; a malformed credential becomes Malformed; other errors pass through |
| ApiKey.Validate | v1/provider/apikey/apikey.go:32-74 | credential errors are translated; an unknown credential is Unauthorized; a store error passes through; an inactive credential is Forbidden |
| ApiKey.ReducesToResolve | v1/provider/apikey/apikey.go:52-73 | a known active credential is decided by the policy loop alone |
| ApiKey.GrantedIff | v1/provider/apikey/apikey.go:32-74 | granted exactly when the credential is well formed, known and active, and some policy allows with only passing policies before it |
| ApiKey.NoCredentialUnauthorized | v1/provider/apikey/apikey.go:34-36 | a request without any credential is Unauthorized, whatever the store holds |
| Bearer.SplitScheme | v1/provider/bearer/bearer.go:36-40 | the header splits at its first space exactly when that space is not the first character; the scheme is non-empty and holds no space |
| Bearer.SplitToken | v1/provider/bearer/bearer.go:45-48 | the token splits exactly when it holds `$`, at the first `$` |
| Bearer.Validate | v1/provider/bearer/bearer.go:29-76 | no header is Unauthorized; a header without a space, or starting with one, is Malformed; a scheme other than Bearer, in any case, is Unsupported; a Bearer token without `$` is Malformed; every refusal is one of the provider's errors or MethodNotSupported |
| Bearer.WellFormedHeader | v1/provider/bearer/bearer.go:29-76 | a well-formed header reaches the verifier with exactly its signature and payload; an invalid signature is Unauthorized, another failure Malformed, verified policies decide by the loop |
| Bearer.AgreesWithApiKey | v1/provider/bearer/bearer.go:58-75 | given the same policies, the bearer and API-key providers reach the same decision for the same verb and path |
| Scopes.NewScope | v1/scope.go:24-26 | the scope has the given resource and actions |
| Scopes.NamedActionsMeaning | v1/scope.go:257-267 | the parsed actions are exactly the segments that name read, write, delete or list |
| Scopes.ParsedActionsMeaning | v1/scope.go:248-285 | the action parse fails exactly on an unknown segment; `*` anywhere makes the actions `*` alone; otherwise the named segments; the rest is the resource |
| Scopes.ParseActions | v1/scope.go:248-285 | the loop over `,`/`:` delimited segments agrees with the declarative action parse, its error included |
| Scopes.ParseScope | v1/scope.go:28-41 | fails exactly on an unknown action or an empty resource, with InvalidAction or EmptyResource; a parsed scope has a non-empty resource and only accepted actions, `*` alone when present |
| Scopes.ResourceAfterLastComma | v1/scope.go:252-256 | without a `:`, the resource is what follows the last `,` |
| Scopes.ScopeString | v1/scope.go:61-79 | the writing loop, which starts over at `*`, gives the actions joined by `,` (or `*` alone), `:` when there are actions, then the resource |
| Scopes.ScopeRoundTrip | v1/scope.go:28-79 | a scope with accepted actions and a resource reads back from its text, a list holding `*` as `*` alone |
| Scopes.ContainsAll | v1/scope.go:53-57 | every required action is in the granted list or the list holds `*` |
| Scopes.Satisfies | v1/scope.go:43-59 | both scopes have actions and a resource, the resources are equal, and every required action is granted |
| Scopes.SatisfiesTransitive | v1/scope.go:43-59 | satisfaction chains |
| Scopes.WildcardSatisfaction | v1/scope.go:43-59 | requiring `*` needs granting `*`; granting `*` satisfies every requirement with actions on the same resource |
| Scopes.SatisfiesReflexive | v1/scope.go:43-59 | a scope with actions and a resource satisfies itself |
| Scopes.AnySatisfies | v1/scope.go:211-217 | some granted scope satisfies the requirement on its own |
| Scopes.ScopesSatisfy | v1/scope.go:209-220 | every required scope is satisfied by a single granted scope |
| Scopes.NoPooling | v1/scope.go:209-220 | read and write granted separately do not satisfy one requirement of read and write |
| Scopes.Merged | v1/scope.go:182-207 | one scope per resource, with the distinct actions granted on it, or `*` alone when `*` is among them |
| Scopes.MapWrites | v1/scope.go:183-195 | the map the first loop builds holds, per resource, distinct actions whose set is the granted set |
| Scopes.Listing | v1/scope.go:196-206 | writing out the map lists each resource once with its collapsed actions |
| Scopes.PartialMeaning | v1/scope.go:196-206 | a listing has distinct resources, each with the view's actions |
| Scopes.GrantedCovers | v1/scope.go:184-194 | every action of a scope is granted on its resource |
| Scopes.GrantedUnique | v1/scope.go:196-206 | with distinct resources, a resource is granted what its one scope lists |
| Scopes.MergedIdempotent | v1/scope.go:182-207 | merging a merged list grants the same as the unmerged list |
| Scopes.ConcatGrants | v1/scope.go:175-180 | the grants of two lists joined are the union of their grants |
| Scopes.MergeCommutes | v1/scope.go:175-180 | the order in which two lists are merged does not change what is granted |
| Scopes.MergedKeepsGrants | v1/scope.go:182-220 | whatever the unmerged scopes satisfy, the merged ones satisfy |
| Scopes.MergePools | v1/scope.go:182-220 | after merging, read and write granted separately do satisfy one requirement of both |
| Scopes.Merge | v1/scope.go:175-180 | lists the grants of both lists, in either order |
| Scopes.Union | v1/scope.go:136-146 | lists the grants of all the lists; no scopes at all give none |
| Roles.ParseRole | v1/role.go:40-48 | exactly the five known names parse, to themselves; others give InvalidRole |
| Roles.Name | v1/role.go:24-61 | "Invalid" exactly for unknown roles; a known role's display name is its name capitalised |
| Roles.MarshalText | v1/role.go:90-92 | the text is the role's own name, known or not (writing never validates); it parses exactly when the role is known, and then back to that role |
| Roles.UnmarshalText | v1/role.go:94-101 | succeeds exactly for a known name, with that role; otherwise InvalidRole |
| Roles.MarshalRoundTrip | v1/role.go:90-101 | writing never validates and reading always does: known roles read back, others are refused |
| Roles.CanGrant | v1/role.go:32-70 | `c` grants `r` exactly when the grant table lists `r` for `c` |
| Roles.GrantByRank | v1/role.go:32-38 | only admin and owner grant, and then exactly the roles from member up to their own rank |
| Roles.GrantTable | v1/role.go:32-38 | owner grants member, admin, owner; admin grants member, admin; no other role grants anything |
| Roles.AnyCanGrant | v1/role.go:150-157 | a list grants `r` exactly when one of its roles does |
| Roles.OwnerDecides | v1/role.go:150-157 | a list holding owner grants exactly member, admin and owner |
| Roles.Contains | v1/role.go:174-181 | plain membership |
| Roles.Merge | v1/role.go:159-172 | every role of either list, each exactly once |
| Realms.Equals | v1/realm.go:97-99 | equal exactly when type and name are equal |
| Realms.Contains | v1/realm.go:36-46 | the receiver contains a realm exactly when it is a prefix of it |
| Realms.ContainsEmpty | v1/realm.go:36-46 | the empty realm contains every realm |
| Realms.ContainsOrder | v1/realm.go:36-46 | containment is reflexive and transitive |
| Realms.Shift | v1/realm.go:28-34 | the first element and the rest; the zero element and nothing for the empty realm |
| Realms.ParseElement | v1/realm.go:111-141 | every failure is InvalidRealm |
| Realms.ElementFails | v1/realm.go:111-141 | an element text fails exactly when its type, or its non-empty name, holds a `%` not followed by two hexadecimal digits |
| Realms.BadNameFails | v1/realm.go:111-134 | a one-element text whose name holds a bad escape is InvalidRealm |
| Realms.InvalidEncoding | v1/realm_test.go:69 | the text `invalid:%%%encoding` is InvalidRealm |
| Realms.ElementRoundTrip | v1/realm.go:101-141 | an element whose type holds no `:` reads back from its text; the text holds no `/`; only the zero element has the empty text |
| Realms.ColonInType | v1/realm.go:101-141 | a type holding `:` reads back split into a type and a name |
| Realms.MarshalText | v1/realm.go:56-69 | the element texts joined by `/` |
| Realms.UnmarshalText | v1/realm.go:71-90 | the loop reads the `/`-separated pieces as elements; any failure is InvalidRealm; the empty text is the empty realm |
| Realms.RealmRoundTrip | v1/realm.go:56-141 | a realm reads back from its text when no type holds `:` and the last element is not the zero element |
| Realms.TrailingZeroLost | v1/realm.go:56-90 | a trailing zero element is lost on the way back |
| Realms.TypesOnly | v1/realm.go:71-141 | text without `:` or `%` is a realm of unnamed elements, one per piece |
| Domains.ParseComponent | v1/domain.go:73-94 | every failure is InvalidDomain, and a component without `:` fails |
| Domains.ComponentFails | v1/domain.go:73-94 | a component text fails exactly when it has no `:`, or its type or its name holds a `%` not followed by two hexadecimal digits |
| Domains.BadNameFails | v1/domain.go:84-88 | a one-component text whose name holds a bad escape is InvalidDomain |
| Domains.InvalidEncoding | v1/domain_test.go:69 | the text `invalid:%%%encoding` is InvalidDomain |
| Domains.ComponentRoundTrip | v1/domain.go:65-94 | a component whose type holds no `:` reads back from its text, even with `:` in its name; the text holds no `/` and is never empty |
| Domains.ComponentEscapes | v1/domain.go:65-71 | a component's text holds no `/` and no `?` |
| Domains.MarshalText | v1/domain.go:24-37 | the component texts joined by `/` |
| Domains.UnmarshalText | v1/domain.go:39-58 | the loop reads the `/`-separated pieces as components; any failure is InvalidDomain; the empty text is the empty domain |
| Domains.DomainRoundTrip | v1/domain.go:24-94 | a domain reads back from its text when no type holds `:` |
| Domains.MissingDelimiter | v1/domain.go:39-78 | a piece without `:` makes the whole text InvalidDomain |
| TypedPaths.ParseEach | v1/realm.go:74-87 | all pieces parse exactly when the path parses, to their values in order; a failure is the failure of some piece |
| TypedPaths.PathRoundTrip | v1/domain.go:24-58 | the joined texts split back into the same pieces and parse back when each component reads back, holds no `/`, and the last text is non-empty |
| Percent.UnescapeEscape | v1/realm.go:103-130 | unescaping undoes path escaping |
| Percent.EscapeDelimiters | v1/realm.go:101-109 | escaped text holds no `/`, holds `:` exactly where the unescaped text does, and is empty only for the empty text |
| Percent.UnescapeFails | v1/domain.go:79-88 | unescaping fails exactly when some `%` is not followed by two hexadecimal digits |
| Percent.EscapeAppend | v1/realm.go:101-109 | escaping distributes over concatenation |

## Left out

- Go's map iteration order in Scopes.Merged and Roles.Merge: the model chooses keys with `:|`, so any order is allowed. No order is stated.
- Scopes.Merged: the order of the actions within a merged scope is not stated. Only that they are distinct, and what set they form.
- Scopes.Union: Go returns nil when there are no scopes at all; a `seq` does not tell nil from an empty list, so the model returns the empty sequence.
- Scopes.Add, Len, Swap, Less and every String method other than Scope.String are not modelled: they are list plumbing, sorting hooks or display text.
- JSON, SQL (`Value`, `Scan`) and pq adapters of Scope, Scopes, Role, Roles, Effect and ResourcePolicy are not modelled. The stored policy body is a record of its fields, not JSON text.
- net/url and net/http: a request is its verb, its URL path, its Authorization header and its `auth` query value. `url.PathEscape` and `url.PathUnescape` are modelled by their character set (`Percent`).
- Unicode: texts are sequences of characters. Case folding (`strings.ToUpper`, `ToLower`, `EqualFold`) is ASCII only. Realm and domain texts are byte strings.
- Resources.Component: Go decodes runes with UTF-8, which matters only for invalid UTF-8; the model works on characters.
- BasicAuth: the base64 codec is a parameter, not an implementation. The round-trip lemmas assume it is lawful on byte strings; `LawfulWitness` shows a codec that is, but the base64 alphabet mapping and its four-for-three length are not modelled.
- ApiKey: the authorization store is a parameter; GenerateKey uses crypto randomness and is not modelled.
- Bearer: crypto.VerifyMessage (signature check and payload decoding) is a parameter.
- Effects: Effect is an int in Go; values outside InvalidEffect, Allow, Deny and Pass cannot be written here.
- Policies: ActionSet, the type of a policy's actions, is not part of this model; it is taken to be a list of actions with Actions.Contains.
- Policies: the time a policy was created and the PersistentPolicy record belong to the store and are not modelled.
- Pathf (formatting with fmt.Sprintf) is not modelled.
- Error messages: wrapped errors (`%w: in …`) are their sentinel value; the text is dropped.
- Realms and Domains: Go writes into its receiver only on success. The model returns a Result instead of updating a receiver.
