/** The JWT strategy (`auth/jwt.strategy`): where the token is looked for in a request, and
    the principal built from a verified payload. `decodeURIComponent` is passed in; `None`
    stands for the `URIError` it throws. */
module JwtStrategy {
  import opened Wrappers
  import opened Text
  import opened Seqs
  import RolesGuard

  /** The request as the extractor reads it: `req.cookies.access_token` (missing when there is
      no request, no parsed cookies or no such cookie) and the `Cookie` header when it is a
      string. */
  datatype Request = Request(parsedToken: Option<string>, cookieHeader: Option<string>)

  const CookieName := "access_token"
  const CookiePrefix := CookieName + "="

  /** A `;`-segment, once trimmed, sets the token cookie. */
  predicate IsHit(seg: string) {
    StartsWith(Trim(seg), CookiePrefix)
  }

  /** The position of the first segment from `k` on that satisfies `hit`. */
  function FirstFrom(segs: seq<string>, k: nat, hit: string -> bool): (r: Option<nat>)
    requires k <= |segs|
    ensures r.Some? ==> k <= r.value < |segs| && hit(segs[r.value])
                        && forall j :: k <= j < r.value ==> !hit(segs[j])
    ensures r.None? ==> forall j :: k <= j < |segs| ==> !hit(segs[j])
    decreases |segs| - k
  {
    if k == |segs| then None
    else if hit(segs[k]) then Some(k)
    else FirstFrom(segs, k + 1, hit)
  }

  /** `.map(s => s.trim()).find(p => p.startsWith('access_token='))`. */
  function FindSegment(segs: seq<string>): (r: Option<string>)
    ensures r.Some? ==> exists i :: 0 <= i < |segs| && r.value == Trim(segs[i]) && IsHit(segs[i])
                                   && forall j :: 0 <= j < i ==> !IsHit(segs[j])
    ensures r.None? ==> forall j :: 0 <= j < |segs| ==> !IsHit(segs[j])
  {
    match FirstFrom(segs, 0, IsHit)
    case None => None
    case Some(i) => Some(Trim(segs[i]))
  }

  /** `robustCookieExtractor(req)`: a truthy parsed cookie as it is; else, from the header,
      the text between the first and second `=` of the matching segment, URI-decoded, or kept
      raw when decoding fails; else `null`. */
  function Extract(req: Request, decode: string -> Option<string>): (r: Option<string>)
    ensures Truthy(req.parsedToken) ==> r == req.parsedToken
    ensures !Truthy(req.parsedToken) && req.cookieHeader.None? ==> r.None?
  {
    if Truthy(req.parsedToken) then req.parsedToken
    else if req.cookieHeader.None? then None
    else
      match FindSegment(Split(req.cookieHeader.value, ';'))
      case None => None
      case Some(hit) =>
        var v := FieldText(Field(hit, '=', 1));
        match decode(v)
        case Some(d) => Some(d)
        case None => Some(v)
  }

  /** The value read from a segment `access_token=<v>` is `v` alone, whatever follows a second
      `=`. */
  lemma SegmentValue(v: string, rest: string)
    requires '=' !in v
    requires rest == [] || rest[0] == '='
    ensures Field(CookiePrefix + v + rest, '=', 1) == Some(v)
  {
    assert '=' !in CookieName;
    assert CookiePrefix + v + rest == CookieName + ['='] + (v + rest);
    SplitCons(CookieName, '=', v + rest);
    if rest == [] {
      SplitNoSeparator(v, '=');
      assert v + rest == v;
    } else {
      assert v + rest == v + ['='] + rest[1..];
      SplitCons(v, '=', rest[1..]);
    }
  }

  /** Without a usable parsed cookie, a header whose first matching segment is
      `access_token=<v>...` yields `v` decoded, or `v` itself when decoding fails; a header
      with no matching segment yields nothing. */
  lemma ExtractFromHeader(req: Request, decode: string -> Option<string>, v: string, rest: string)
    requires !Truthy(req.parsedToken) && req.cookieHeader.Some?
    requires '=' !in v && (rest == [] || rest[0] == '=')
    requires FindSegment(Split(req.cookieHeader.value, ';')) == Some(CookiePrefix + v + rest)
    ensures decode(v).Some? ==> Extract(req, decode) == decode(v)
    ensures decode(v).None? ==> Extract(req, decode) == Some(v)
  {
    SegmentValue(v, rest);
  }

  lemma ExtractNoSegment(req: Request, decode: string -> Option<string>)
    requires !Truthy(req.parsedToken) && req.cookieHeader.Some?
    requires forall s :: s in Split(req.cookieHeader.value, ';') ==> !IsHit(s)
    ensures Extract(req, decode) == None
  {
  }

  // ---------------------------------------------------------------- validate

  /** The verified token's claims; a missing claim is `None`. */
  datatype Payload = Payload(sub: string, email: string, kind: Option<string>, role: Option<string>)

  /** The user attached to the request. */
  datatype Principal = Principal(id: string, email: string, role: string, kind: string)

  const DefaultRole := "cliente"

  /** `validate(payload)`: the role is `role ?? type ?? 'cliente'`, lower-cased, and is also
      reported as the type. */
  function Validate(p: Payload): (r: Principal)
    ensures r.id == p.sub && r.email == p.email && r.kind == r.role
    ensures ToLower(r.role) == r.role
    ensures p.role.Some? ==> r.role == ToLower(p.role.value)
    ensures p.role.None? && p.kind.Some? ==> r.role == ToLower(p.kind.value)
    ensures p.role.None? && p.kind.None? ==> r.role == "cliente"
  {
    var role := ToLower(p.role.OrElse(p.kind).GetOr(DefaultRole));
    assert ToLower(role) == role;
    Principal(p.sub, p.email, role, role)
  }

  /** The principal as the roles guard reads `req.user`. */
  function AsUser(u: Principal): RolesGuard.User {
    RolesGuard.User(Undefined, Value(u.role), Value(u.kind))
  }

  /** A token that names its role in any case passes a guard requiring that role in any
      other case; a token with no role claims passes a guard requiring `cliente`. */
  lemma ValidatedRolePasses(p: Payload, required: seq<string>, i: nat)
    requires i < |required|
    requires p.role.Some? && p.role.value != "" && ToLower(required[i]) == ToLower(p.role.value)
    ensures RolesGuard.CanActivate(Some(required), Some(AsUser(Validate(p)))) == RolesGuard.Allow
  {
    var u := AsUser(Validate(p));
    assert RolesGuard.Have(u) == [ToLower(p.role.value)];
  }

  lemma NoRoleIsCliente(p: Payload)
    requires p.role.None? && p.kind.None?
    ensures RolesGuard.CanActivate(Some(["cliente"]), Some(AsUser(Validate(p)))) == RolesGuard.Allow
  {
    var u := AsUser(Validate(p));
    assert u.role == Value("cliente");
    assert ToLower(["cliente"][0]) in RolesGuard.Have(u);
  }
}
