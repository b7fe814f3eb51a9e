/** An API credential and the policies it carries (v1/auth.go). */
module Authorizations {
  import opened Policies

  /**
   * Authorization; `created` is the creation time, kept only as a number.
   * The Policy interface has one implementation, so the policies are
   * resource policies.
   */
  datatype Authorization = Authorization(
    id: Uuid,
    key: string,
    secret: string,
    description: string,
    policies: seq<ResourcePolicy>,
    active: bool,
    created: int)
}
