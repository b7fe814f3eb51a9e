/**
 * The sentinel error values of the access-control library and of its
 * credential providers. Go compares these by identity (`err == ErrX`); here
 * each is a constructor, and errors that come from collaborators outside the
 * model (a datastore, a JSON decoder, a signature check) are `Opaque`.
 */
module Errors {

  datatype Error =
    // package acl
    | MethodNotSupported          // no Action for the request's verb
    | NoAuthorization             // neither Authorization header nor `auth` query value
    | MalformedRequest            // Basic credential present but not well formed
    | UnsupportedMethod           // Basic credential with another scheme name
    | UnsupportedPolicyType       // marshalling of a policy kind other than "resource"
    | InvalidEffectName(name: string)  // ParseEffect of an unknown name
    | MalformedJson               // a stored policy body that does not decode
    | InvalidAction               // a scope's action list names an unknown action
    | EmptyResource               // a scope without a resource
    | InvalidRole                 // ParseRole of an unknown name
    | InvalidRealm                // wraps errInvalidRealm
    | InvalidDomain               // wraps errInvalidDomain
    // package provider
    | Unsupported
    | Malformed
    | Unauthorized
    | Forbidden
    // each provider defines its own errInvalidPolicyEffect, with the same
    // message; the two are one value here, so the providers' outcomes compare
    | InvalidPolicyEffect         // a policy evaluated to an effect outside Allow/Deny/Pass
    // any error produced outside the model and passed through unchanged
    | Opaque(message: string)
}
