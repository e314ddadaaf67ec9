/** `RolesGuard.canActivate` (`auth/roles.guard`): whether a request may reach a handler that
    declares required roles, given the user the JWT strategy attached to it. */
module RolesGuard {
  import opened Wrappers
  import opened Text
  import opened Seqs

  /** `req.user` as the guard reads it; a missing or null claim is `Undefined`/`Null`. */
  datatype User = User(roles: Nullish<seq<string>>, role: Nullish<string>, kind: Nullish<string>)

  datatype Decision = Allow | Unauthorized | Forbidden

  /** The claimed roles, lower-cased: `roles ?? role ?? type ?? null`, an array taken as it is,
      a single value wrapped unless it is falsy. The first claim that is not nullish decides,
      even an empty array or an empty string. */
  function Have(u: User): (r: seq<string>)
    ensures u.roles.Value? ==> r == Map(u.roles.get, ToLower)
    ensures !u.roles.Value? && u.role.Value? ==> r == (if u.role.get == "" then [] else [ToLower(u.role.get)])
    ensures !u.roles.Value? && !u.role.Value? && u.kind.Value? ==>
      r == (if u.kind.get == "" then [] else [ToLower(u.kind.get)])
    ensures !u.roles.Value? && !u.role.Value? && !u.kind.Value? ==> r == []
  {
    if u.roles.Value? then Map(u.roles.get, ToLower)
    else
      var one := if u.role.Value? then u.role else u.kind;
      if one.Value? && one.get != "" then [ToLower(one.get)] else []
  }

  /** `canActivate`: no roles required lets everyone through; otherwise a user is needed, and
      one of the required roles must be among the claimed ones, case aside. */
  function CanActivate(required: Option<seq<string>>, user: Option<User>): (r: Decision)
    ensures (required.None? || |required.value| == 0) ==> r == Allow
    ensures required.Some? && |required.value| > 0 && user.None? ==> r == Unauthorized
  {
    if required.None? || |required.value| == 0 then Allow
    else if user.None? then Unauthorized
    else
      var have := Have(user.value);
      if exists i :: 0 <= i < |required.value| && ToLower(required.value[i]) in have then Allow
      else Forbidden
  }

  /** With roles required, access is allowed exactly when there is a user and some required
      role equals some claimed role, case aside; a user without a match is forbidden. */
  lemma CanActivateIff(required: seq<string>, user: Option<User>)
    requires |required| > 0
    ensures CanActivate(Some(required), user) == Allow <==>
      user.Some? && exists i, j :: 0 <= i < |required| && 0 <= j < |Have(user.value)|
                                  && ToLower(required[i]) == Have(user.value)[j]
    ensures user.Some? && CanActivate(Some(required), user) != Allow ==> CanActivate(Some(required), user) == Forbidden
  {
    if user.Some? {
      var have := Have(user.value);
      if exists i :: 0 <= i < |required| && ToLower(required[i]) in have {
        var i :| 0 <= i < |required| && ToLower(required[i]) in have;
        var j :| 0 <= j < |have| && have[j] == ToLower(required[i]);
      }
    }
  }

  /** An empty `roles` array hides `role` and `type`: such a user is refused whatever role it
      names elsewhere. */
  lemma EmptyRolesShadow(required: seq<string>, role: Nullish<string>, kind: Nullish<string>)
    requires |required| > 0
    ensures CanActivate(Some(required), Some(User(Value([]), role, kind))) == Forbidden
  {
  }
}
