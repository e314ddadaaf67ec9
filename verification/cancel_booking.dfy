/** `CancelBookingUseCase` (`events/application/use-cases/cancel-booking`): who may cancel a
    booking and until when. The repository reads (`findById`, `findWaPhoneByBookingId`), the
    clock and the three configuration values are parameters; the repository write is returned
    as the call the use case makes. */
module CancelBooking {
  import opened Wrappers
  import opened Text
  import opened Seqs
  import opened Bookings

  datatype Kind = Admin | User | Wa

  /** The parsed `by` tag. */
  datatype Who = Who(kind: Kind, value: string)

  /** The exceptions, with the message each carries. */
  datatype Failure =
    | NotFound(message: string)
    | Forbidden(message: string)
    | Conflict(message: string)

  const MsgNotFound := "Booking not found"
  const MsgAlreadyCancelled := "Booking already cancelled"
  const MsgMissingBy := "Missing \"by\""
  const MsgInvalidBy := "Invalid \"by\" format"
  const MsgNotAllowed := "Not allowed to cancel this booking"
  const MsgOwnerUnknown := "Not allowed to cancel this booking (wa owner unknown)"
  const MsgTooLate := "Too late to cancel"

  function KindTag(k: Kind): string {
    match k
    case Admin => "admin"
    case User => "user"
    case Wa => "wa"
  }

  /** `parseBy`: the three prefixes, tried in order; anything else is refused. */
  function ParseBy(raw: Option<string>): (r: Result<Who, Failure>)
    ensures r.Err? ==> r.error.Forbidden?
    ensures r.Ok? ==> raw.Some? && KindTag(r.value.kind) + ":" + r.value.value == raw.value
  {
    if raw.None? || raw.value == "" then Err(Forbidden(MsgMissingBy))
    else if StartsWith(raw.value, "admin:") then Ok(Who(Admin, raw.value[6..]))
    else if StartsWith(raw.value, "user:") then Ok(Who(User, raw.value[5..]))
    else if StartsWith(raw.value, "wa:") then Ok(Who(Wa, raw.value[3..]))
    else Err(Forbidden(MsgInvalidBy))
  }

  /** A tag is accepted exactly when it starts with one of the three prefixes. */
  lemma ParseByAcceptsIff(raw: string)
    ensures ParseBy(Some(raw)).Ok?
        <==> StartsWith(raw, "admin:") || StartsWith(raw, "user:") || StartsWith(raw, "wa:")
  {
  }

  /** Writing a parsed tag back and parsing it again gives the same actor. */
  lemma ParseByRoundTrip(w: Who)
    ensures ParseBy(Some(KindTag(w.kind) + ":" + w.value)) == Ok(w)
  {
    var raw := KindTag(w.kind) + ":" + w.value;
    match w.kind
    case Admin =>
      assert raw[..6] == "admin:";
      assert raw[6..] == w.value;
    case User =>
      assert raw[..5] == "user:";
      assert |raw| < 6 || raw[..6] != "admin:" by { assert raw[0] == 'u'; }
      assert raw[5..] == w.value;
    case Wa =>
      assert raw[..3] == "wa:";
      assert |raw| < 6 || raw[..6] != "admin:" by { assert raw[0] == 'w'; }
      assert |raw| < 5 || raw[..5] != "user:" by { assert raw[0] == 'w'; }
      assert raw[3..] == w.value;
  }

  // ---------------------------------------------------------------- normalizeWa

  predicate NotWhitespace(c: char) {
    !IsWhitespace(c)
  }

  /** `normalizeWa`: a `+` in front unless there is one, then every white-space character
      removed. */
  function NormalizeWa(e164: string): (r: string)
    ensures |r| >= 1 && r[0] == '+'
    ensures forall i :: 0 <= i < |r| ==> !IsWhitespace(r[i])
  {
    var s := if StartsWith(e164, "+") then e164 else "+" + e164;
    assert s == [s[0]] + s[1..];
    FilterConcat([s[0]], s[1..], NotWhitespace);
    assert Filter([s[0]], NotWhitespace) == [s[0]];
    Filter(s, NotWhitespace)
  }

  /** A normalised number is its own normal form. */
  lemma NormalizeWaIdempotent(e164: string)
    ensures NormalizeWa(NormalizeWa(e164)) == NormalizeWa(e164)
  {
    var r := NormalizeWa(e164);
    assert StartsWith(r, "+");
    FilterAll(r, NotWhitespace);
  }

  /** Apart from the white space, the number keeps its characters, behind a single added `+`
      when it had none. */
  lemma NormalizeWaKeeps(e164: string)
    ensures StartsWith(e164, "+") ==> NormalizeWa(e164) == Filter(e164, NotWhitespace)
    ensures !StartsWith(e164, "+") ==> NormalizeWa(e164) == "+" + Filter(e164, NotWhitespace)
  {
    if !StartsWith(e164, "+") {
      FilterConcat("+", e164, NotWhitespace);
      assert Filter("+", NotWhitespace) == "+";
    }
  }

  // ---------------------------------------------------------------- time and config

  /** `minutesUntil(start)` at instant `now`: whole minutes, rounded down. */
  function MinutesUntil(start: int, now: int): (r: int)
    ensures r * 60000 <= start - now < (r + 1) * 60000
  {
    (start - now) / 60000
  }

  /** The configuration the use case reads; `None` is an unset variable. */
  datatype Config = Config(idempotent: Option<string>, graceMinutes: Option<string>,
                           allowInside: Option<string>)

  const DefaultGrace := 120

  /** `Number(cfg ?? 120) || 120`: the default when unset, and also when the value reads as
      `NaN` or 0. */
  function Grace(cfg: Option<string>): (r: int)
    ensures r != 0
    ensures cfg.None? ==> r == DefaultGrace
    ensures cfg.Some? && SignedNumber(cfg.value).Some? && SignedNumber(cfg.value).value != 0
            ==> r == SignedNumber(cfg.value).value
    ensures cfg.Some? && (SignedNumber(cfg.value).None? || SignedNumber(cfg.value) == Some(0))
            ==> r == DefaultGrace
  {
    match cfg
    case None => DefaultGrace
    case Some(v) =>
      var n := SignedNumber(v);
      if n.None? || n.value == 0 then DefaultGrace else n.value
  }

  /** `CANCEL_IDEMPOTENT !== 'false'`. */
  predicate Idempotent(cfg: Config) {
    cfg.idempotent != Some("false")
  }

  /** `CANCEL_ALLOW_CLIENT_INSIDE_GRACE === 'true'`. */
  predicate AllowInside(cfg: Config) {
    cfg.allowInside == Some("true")
  }

  /** The request: an optional reason and the actor tag. */
  datatype Request = Request(reason: Option<string>, byTag: Option<string>)

  /** What a successful call does: hands back an already cancelled booking, or asks the
      repository to cancel `id` with this reason and tag. */
  datatype Done =
    | AlreadyCancelled(booking: Booking)
    | Cancel(id: string, reason: Option<string>, tag: string)

  /** The grace test for a client: too late when fewer whole minutes than the grace remain
      and cancelling inside the grace is not allowed. */
  predicate TooLate(b: Booking, now: int, cfg: Config) {
    !AllowInside(cfg) && MinutesUntil(b.start, now) < Grace(cfg.graceMinutes)
  }

  /** `execute(id, dto)`: `found` is `findById(id)`, `waPhone` is
      `findWaPhoneByBookingId(found.id)`. */
  function Execute(id: string, req: Request, found: Option<Booking>, waPhone: Option<string>,
                   now: int, cfg: Config): (r: Result<Done, Failure>)
    ensures found.None? ==> r == Err(NotFound(MsgNotFound))
    ensures r.Ok? && r.value.Cancel? ==>
      found.Some? && found.value.status != Cancelled && r.value.id == id
      && r.value.reason == req.reason && req.byTag == Some(r.value.tag)
  {
    if found.None? then Err(NotFound(MsgNotFound))
    else
      var b := found.value;
      if b.status == Cancelled then
        (if Idempotent(cfg) then Ok(AlreadyCancelled(b)) else Err(Conflict(MsgAlreadyCancelled)))
      else
        match ParseBy(req.byTag)
        case Err(e) => Err(e)
        case Ok(who) =>
          var call := Ok(Cancel(id, req.reason, KindTag(who.kind) + ":" + who.value));
          match who.kind
          case Admin => call
          case User =>
            if !(Truthy(b.userId) && b.userId == Some(who.value)) then Err(Forbidden(MsgNotAllowed))
            else if TooLate(b, now, cfg) then Err(Forbidden(MsgTooLate))
            else call
          case Wa =>
            if !Truthy(waPhone) then Err(Forbidden(MsgOwnerUnknown))
            else if NormalizeWa(waPhone.value) != NormalizeWa(who.value) then Err(Forbidden(MsgNotAllowed))
            else if TooLate(b, now, cfg) then Err(Forbidden(MsgTooLate))
            else call
  }

  /** An already cancelled booking comes back untouched when the use case is idempotent, and
      is a conflict otherwise, whatever the actor tag says. */
  lemma AlreadyCancelledOutcome(id: string, req: Request, b: Booking, waPhone: Option<string>,
                                now: int, cfg: Config)
    requires b.status == Cancelled
    ensures Idempotent(cfg) ==> Execute(id, req, Some(b), waPhone, now, cfg) == Ok(AlreadyCancelled(b))
    ensures !Idempotent(cfg) ==> Execute(id, req, Some(b), waPhone, now, cfg) == Err(Conflict(MsgAlreadyCancelled))
  {
  }

  /** An admin cancels any booking that is not cancelled yet, with no ownership or time
      check. */
  lemma AdminAlwaysCancels(id: string, reason: Option<string>, value: string, b: Booking,
                           waPhone: Option<string>, now: int, cfg: Config)
    requires b.status != Cancelled
    ensures Execute(id, Request(reason, Some("admin:" + value)), Some(b), waPhone, now, cfg)
         == Ok(Cancel(id, reason, "admin:" + value))
  {
    ParseByRoundTrip(Who(Admin, value));
  }

  /** A client tag (`user:` or `wa:`) gets the cancellation exactly when it owns the booking
      and is not too late; otherwise it is refused with the matching message. */
  lemma UserOutcome(id: string, reason: Option<string>, value: string, b: Booking,
                    waPhone: Option<string>, now: int, cfg: Config)
    requires b.status != Cancelled
    ensures var r := Execute(id, Request(reason, Some("user:" + value)), Some(b), waPhone, now, cfg);
      var owner := b.userId == Some(value) && value != "";
      (r.Ok? <==> owner && !TooLate(b, now, cfg))
      && (!owner ==> r == Err(Forbidden(MsgNotAllowed)))
      && (owner && TooLate(b, now, cfg) ==> r == Err(Forbidden(MsgTooLate)))
      && (r.Ok? ==> r.value == Cancel(id, reason, "user:" + value))
  {
    ParseByRoundTrip(Who(User, value));
  }

  lemma WaOutcome(id: string, reason: Option<string>, value: string, b: Booking,
                  waPhone: Option<string>, now: int, cfg: Config)
    requires b.status != Cancelled
    ensures var r := Execute(id, Request(reason, Some("wa:" + value)), Some(b), waPhone, now, cfg);
      var owner := Truthy(waPhone) && NormalizeWa(waPhone.value) == NormalizeWa(value);
      (r.Ok? <==> owner && !TooLate(b, now, cfg))
      && (!Truthy(waPhone) ==> r == Err(Forbidden(MsgOwnerUnknown)))
      && (Truthy(waPhone) && !owner ==> r == Err(Forbidden(MsgNotAllowed)))
      && (owner && TooLate(b, now, cfg) ==> r == Err(Forbidden(MsgTooLate)))
      && (r.Ok? ==> r.value == Cancel(id, reason, "wa:" + value))
  {
    ParseByRoundTrip(Who(Wa, value));
  }

  /** Without a tag, or with a tag of no known kind, an open booking is not cancelled. */
  lemma BadTagRefused(id: string, req: Request, b: Booking, waPhone: Option<string>, now: int,
                      cfg: Config)
    requires b.status != Cancelled
    requires req.byTag.None? || !(StartsWith(req.byTag.value, "admin:") || StartsWith(req.byTag.value, "user:")
                               || StartsWith(req.byTag.value, "wa:"))
    ensures Execute(id, req, Some(b), waPhone, now, cfg).Err?
    ensures Execute(id, req, Some(b), waPhone, now, cfg).error.Forbidden?
  {
  }

  /** The grace test in instants: with the default grace, a client is too late exactly when
      the booking starts less than two hours from now. */
  lemma DefaultGraceWindow(b: Booking, now: int, cfg: Config)
    requires cfg.graceMinutes.None? && !AllowInside(cfg)
    ensures TooLate(b, now, cfg) <==> b.start - now < DefaultGrace * 60000
  {
    var m := MinutesUntil(b.start, now);
    if m < DefaultGrace {
      assert m + 1 <= DefaultGrace;
      assert (m + 1) * 60000 <= DefaultGrace * 60000;
    } else {
      assert m * 60000 >= DefaultGrace * 60000;
    }
  }
}
