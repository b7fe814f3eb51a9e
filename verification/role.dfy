/**
 * Roles of an account and which roles each of them may hand out.
 */
module Roles {
  import Wrappers
  import opened Errors
  import opened Text

  /** A role is its name; names outside the table are representable but invalid. */
  type Role = string

  const None: Role := "none"
  const Member: Role := "member"
  const Admin: Role := "admin"
  const Owner: Role := "owner"
  const Self: Role := "self"

  /** Display names of the known roles. */
  const RoleNames: map<Role, string> :=
    map[None := "None", Member := "Member", Admin := "Admin", Owner := "Owner", Self := "Self"]

  /** The roles that a role may grant. */
  const RoleGrant: map<Role, seq<Role>> :=
    map[None := [], Member := [], Admin := [Member, Admin], Owner := [Member, Admin, Owner], Self := []]

  predicate Known(c: Role)
  {
    c in {None, Member, Admin, Owner, Self}
  }

  /** ParseRole: accepts exactly the five known role names, unchanged. */
  function ParseRole(s: string): (r: Wrappers.Result<Role, Error>)
    ensures r.Success? <==> Known(s)
    ensures r.Success? ==> r.value == s
    ensures r.Failure? ==> r.error == InvalidRole
  {
    if s in RoleNames then Wrappers.Success(s) else Wrappers.Failure(InvalidRole)
  }

  /**
   * Role.Name: the capitalised display name of a known role, "Invalid" for
   * anything else.
   */
  function Name(c: Role): (n: string)
    ensures n == "Invalid" <==> !Known(c)
    ensures Known(c) ==> ToLower(n) == c && n[0] == UpperChar(c[0])
  {
    if c in RoleNames then RoleNames[c] else "Invalid"
  }

  /**
   * Role.MarshalText: the raw name, whether or not it is a known role; the
   * text names a known role exactly when the role is known.
   */
  function MarshalText(c: Role): (t: string)
    ensures !Known(c) ==> t == c
    ensures ParseRole(t).Success? <==> Known(c)
    ensures Known(c) ==> ParseRole(t) == Wrappers.Success(c)
  {
    c
  }

  /** Role.UnmarshalText: only the known role names are accepted, unchanged. */
  function UnmarshalText(data: string): (r: Wrappers.Result<Role, Error>)
    ensures r.Success? <==> Known(data)
    ensures r.Success? ==> r.value == data
    ensures r.Failure? ==> r.error == InvalidRole
  {
    ParseRole(data)
  }

  /**
   * Marshalling never validates and unmarshalling always does: a known role
   * comes back unchanged, any other name is refused on the way in.
   */
  lemma MarshalRoundTrip(c: Role)
    ensures UnmarshalText(MarshalText(c)) ==
      if Known(c) then Wrappers.Success(c) else Wrappers.Failure(InvalidRole)
  {
  }

  /** The roles `c` may grant; a role outside the table grants none. */
  function Grants(c: Role): seq<Role>
  {
    if c in RoleGrant then RoleGrant[c] else []
  }

  /** Role.CanGrant: `r` is in the grant list of `c`. */
  function CanGrant(c: Role, r: Role): (b: bool)
    ensures b <==> c in RoleGrant && r in RoleGrant[c]
  {
    Contains(Grants(c), r)
  }

  /** The seniority of the roles that grant or are granted; zero for the rest. */
  function Rank(c: Role): nat
  {
    if c == Owner then 3 else if c == Admin then 2 else if c == Member then 1 else 0
  }

  /**
   * The grant table as a rule: only an admin or an owner grants, and then
   * exactly the roles from member up to its own rank.
   */
  lemma GrantByRank(c: Role, r: Role)
    ensures CanGrant(c, r) <==> Rank(c) >= 2 && 1 <= Rank(r) <= Rank(c)
  {
  }

  /** The table spelled out: what owner and admin grant, and that no one else grants. */
  lemma GrantTable(r: Role)
    ensures CanGrant(Owner, r) <==> r in {Member, Admin, Owner}
    ensures CanGrant(Admin, r) <==> r in {Member, Admin}
    ensures forall c :: c !in {Admin, Owner} ==> !CanGrant(c, r)
  {
  }

  /** Roles.CanGrant: some role of the list may grant `r`; an empty list grants nothing. */
  function AnyCanGrant(s: seq<Role>, r: Role): (b: bool)
    ensures b <==> exists i :: 0 <= i < |s| && CanGrant(s[i], r)
    decreases |s|
  {
    if s == [] then false
    else
      var b := CanGrant(s[0], r) || AnyCanGrant(s[1..], r);
      assert forall i :: 1 <= i < |s| ==> s[i] == s[1..][i - 1];
      b
  }

  /** An owner among the roles decides what the list may grant. */
  lemma {:induction false} OwnerDecides(s: seq<Role>, r: Role)
    requires Owner in s
    ensures AnyCanGrant(s, r) <==> r in {Member, Admin, Owner}
  {
    var i :| 0 <= i < |s| && s[i] == Owner;
    GrantTable(r);
    if AnyCanGrant(s, r) {
      var j :| 0 <= j < |s| && CanGrant(s[j], r);
      GrantByRank(s[j], r);
    }
  }

  /** Roles.Contains, and the search of a grant list in Role.CanGrant: plain membership. */
  function Contains(s: seq<Role>, a: Role): (b: bool)
    ensures b <==> a in s
    decreases |s|
  {
    if s == [] then false else s[0] == a || Contains(s[1..], a)
  }

  /** The roles of a list, as a set. */
  function Members(s: seq<Role>): set<Role>
  {
    set x | x in s
  }

  lemma MembersSnoc(s: seq<Role>, i: nat)
    requires i < |s|
    ensures Members(s[..i + 1]) == Members(s[..i]) + {s[i]}
  {
    assert s[..i + 1] == s[..i] + [s[i]];
  }

  /**
   * Roles.Merge: every role of either list exactly once, in the iteration
   * order of a set, which is left open.
   */
  method Merge(s: seq<Role>, r: seq<Role>) returns (m: seq<Role>)
    ensures forall x :: x in m <==> x in s || x in r
    ensures forall i, j :: 0 <= i < j < |m| ==> m[i] != m[j]
  {
    var t: set<Role> := {};
    for i := 0 to |s|
      invariant t == Members(s[..i])
    {
      MembersSnoc(s, i);
      t := t + {s[i]};
    }
    assert s[..|s|] == s;
    for i := 0 to |r|
      invariant t == Members(s) + Members(r[..i])
    {
      MembersSnoc(r, i);
      t := t + {r[i]};
    }
    assert r[..|r|] == r;
    ghost var all := t;
    m := [];
    while t != {}
      invariant t <= all
      invariant forall x :: x in m <==> x in all - t
      invariant forall i, j :: 0 <= i < j < |m| ==> m[i] != m[j]
      decreases |t|
    {
      var k :| k in t;
      assert k !in m;
      m := m + [k];
      t := t - {k};
    }
  }
}
