/** The Action vocabulary and the HTTP verb table (v1/action.go). */
module Actions {
  import opened Wrappers
  import opened Errors
  import opened Text

  /** An action is a string tag; any string may occur in a decoded policy. */
  type Action = string

  const Read: Action := "read"
  const Write: Action := "write"
  const Delete: Action := "delete"
  const List: Action := "list"
  const Approve: Action := "approve"
  const Notify: Action := "notify"
  const Every: Action := "*"

  /** methodToAction: the upper-case verbs that have an action. */
  const MethodToAction: map<string, Action> :=
    map["GET" := Read, "POST" := Write, "PUT" := Write, "PATCH" := Write, "DELETE" := Delete]

  /**
   * ActionForRequest: the action for a request's verb, looked up after
   * upper-casing; verbs outside the table fail with MethodNotSupported.
   */
  function ActionForRequest(verb: string): (r: Result<Action, Error>)
    ensures r.Success? <==> ToUpper(verb) in {"GET", "POST", "PUT", "PATCH", "DELETE"}
    ensures r.Success? ==> r.value in {Read, Write, Delete}
    ensures r.Failure? ==> r.error == MethodNotSupported
  {
    var m := ToUpper(verb);
    if m in MethodToAction then Success(MethodToAction[m]) else Failure(MethodNotSupported)
  }

  /** The verb table, entry by entry, and what no verb ever produces. */
  lemma VerbTable(verb: string)
    ensures ToUpper(verb) == "GET" ==> ActionForRequest(verb) == Success(Read)
    ensures ToUpper(verb) in {"POST", "PUT", "PATCH"} ==> ActionForRequest(verb) == Success(Write)
    ensures ToUpper(verb) == "DELETE" ==> ActionForRequest(verb) == Success(Delete)
    ensures ActionForRequest(verb).Success? ==>
      ActionForRequest(verb).value !in {List, Approve, Notify, Every}
  {
  }

  /** Verbs that differ only in case resolve to the same action. */
  lemma VerbCaseInsensitive(v1: string, v2: string)
    requires EqualFold(v1, v2)
    ensures ActionForRequest(v1) == ActionForRequest(v2)
  {
    FoldedUpper(v1, v2);
  }

  /** Actions.Contains: membership in which `*` stands for every action. */
  function Contains(s: seq<Action>, a: Action): (r: bool)
    ensures r <==> Every in s || a in s
    decreases |s|
  {
    if s == [] then false
    else if s[0] == Every || s[0] == a then true
    else Contains(s[1..], a)
  }

  /**
   * A list contains the wildcard only when it lists it, and the empty list
   * contains nothing.
   */
  lemma ContainsWildcard(s: seq<Action>, a: Action)
    ensures Contains(s, Every) <==> Every in s
    ensures !Contains([], a)
  {
  }
}
