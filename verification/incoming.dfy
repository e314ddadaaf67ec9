/** `HandleIncomingMessageUseCase` (`whatsapp/application/use-cases/handle-incoming-message`):
    one incoming WhatsApp message, routed by the sender's session and the payload to the global
    commands, the menu, or a step of the reservation or cancel flow. The store is keyed by the
    normalised number; the turn's write is applied to it under that key. */
module Incoming {
  import opened Wrappers
  import opened Text
  import opened FlowHelpers
  import opened Sessions
  import opened Conversation
  import opened ReservationFlow
  import opened CancelFlow

  /** What the outside world answers during one message: the clock, the cancel flow's world
      (whose bookings table the reservation flow reads too) and the outcome of `create`. */
  datatype Env = Env(clock: Clock, world: World, create: CreateOutcome)

  /** The words that drop the conversation. */
  const CancelWords: seq<string> := ["cancel", "cancelar", "salir"]

  /** The words (besides anything containing `menu`) that show the menu. */
  const MenuWords: seq<string> := ["start", "reservar", "reserva", "inicio"]

  predicate IsMenuRequest(p: string) {
    Contains(p, "menu") || p in MenuWords
  }

  /** `/^[1-3]$/`. */
  predicate IsDigitChoice(p: string) {
    |p| == 1 && '1' <= p[0] <= '3'
  }

  /** `Number(payload.split(':')[1] || '1')`, where `Number('1')` is 1. */
  function PageNumber(payload: string): Option<int> {
    var f := Field(payload, ':', 1);
    if f.None? || f.value == "" then Some(1) else SignedNumber(f.value)
  }

  /** The page is the number after the first `:`, and page 1 when nothing follows it or there
      is no `:` at all. */
  lemma PageNumberReads(prefix: string, d: string)
    requires ':' !in prefix && |d| >= 1 && AllDigits(d)
    ensures PageNumber(prefix + ":" + d) == Some(DigitsValue(d))
    ensures PageNumber(prefix + ":") == Some(1)
    ensures PageNumber(prefix) == Some(1)
  {
    DigitsExclude(d, ':');
    PageField(prefix, d);
    JsNumberOfDigits(d);
    PageDefault(prefix);
  }

  lemma PageDefault(prefix: string)
    requires ':' !in prefix
    ensures PageNumber(prefix + ":") == Some(1)
    ensures PageNumber(prefix) == Some(1)
  {
    PageField(prefix, "");
    assert prefix + ":" + "" == prefix + ":";
    SplitNoSeparator(prefix, ':');
  }

  lemma PageField(prefix: string, f: string)
    requires ':' !in prefix && ':' !in f
    ensures Field(prefix + ":" + f, ':', 1) == Some(f)
  {
    assert prefix + ":" + f == prefix + [':'] + f;
    SplitTwo(prefix, f, ':');
  }

  /** `opts[i]`, `undefined` past the end. */
  function OptionAt(opts: seq<string>, i: nat): (r: Option<string>)
    ensures r.Some? <==> i < |opts|
    ensures r.Some? ==> r.value == opts[i]
  {
    if i < |opts| then Some(opts[i]) else None
  }

  /** `handleMenu`: a session without a contact gets the contact found or created for the
      number (its id and phone); then the two options are offered. */
  function HandleMenu(s: Session, from: string, contacts: string -> Contact): (t: Turn)
    ensures t.prompts == [Buttons(MenuChoice, MenuIds)] && t.call == NoCall && !t.failed
    ensures Truthy(s.contactId) ==> t.write == Keep
    ensures !Truthy(s.contactId) ==>
      t.write == Put(s.(contactId := Some(contacts(from).id), contactPhone := Some(contacts(from).waPhone)))
  {
    if Truthy(s.contactId) then Turn(Keep, [Buttons(MenuChoice, MenuIds)], NoCall, false)
    else
      var c := contacts(from);
      Turn(Put(s.(contactId := Some(c.id), contactPhone := Some(c.waPhone))),
           [Buttons(MenuChoice, MenuIds)], NoCall, false)
  }

  /** The routing of `execute` for the session `s` of the normalised number `from`, the
      trimmed payload and its lower-cased form `p`. */
  function Dispatch(s: Session, from: string, payload: string, p: string, env: Env): (t: Turn)
    ensures t.call.Create? ==>
      s.step == AskName && p !in CancelWords && !IsMenuRequest(p) && payload != "opt_reserve"
    ensures t.call.CancelRequest? ==>
      s.step == CancelConfirm && StartsWith(payload, "CONFIRM_CANCEL:")
  {
    var db := env.world.db;
    if p in CancelWords then Turn(Drop, [Text(FlowCancelled)], NoCall, false)
    else if IsMenuRequest(p) then HandleMenu(s, from, env.world.contacts)
    else if payload == "opt_reserve" then Start(s)
    else if s.step == ChooseCancha && StartsWith(payload, "cancha_") then HandleChooseCancha(s, payload)
    else if s.step == ChooseDate then HandleChooseDate(s, payload, env.clock, db)
    else if s.step == AwaitingOtherDate then HandleAwaitingOtherDate(s, payload, env.clock, db)
    else if s.step == ChooseTime then HandleChooseTime(s, payload, env.clock, db)
    else if s.step == AskName then AskNameAndCreate(s, payload, env.clock, db, env.create)
    else if payload == "opt_cancel" then ListBookings(s, from, env.world)
    else if s.step == CancelChoose && StartsWith(payload, "CANCEL_PAGE:") then
      Paginate(s, from, PageNumber(payload), env.world)
    else if s.step == CancelChoose && IsDigitChoice(p) && s.cancelOptions.Some? && |s.cancelOptions.value| > 0 then
      AskConfirm(s, OptionAt(s.cancelOptions.value, DigitValue(p[0]) - 1))
    else if s.step == CancelChoose && StartsWith(payload, "CANCEL:") then
      AskConfirm(s, Field(payload, ':', 1))
    else if s.step == CancelConfirm then
      if StartsWith(payload, "CONFIRM_CANCEL:") then Confirm(s, from, payload, env.world)
      else Turn(Drop, [Text(OperationCancelled)], NoCall, false)
    else Turn(Keep, [Text(Help)], NoCall, false)
  }

  /** The session of a number: the stored one, or `{ step: 'idle' }`. */
  function SessionOf(st: Store, key: string): (s: Session)
    ensures key in st ==> s == st[key]
    ensures key !in st ==> s == Fresh
  {
    Get(st, key).GetOr(Fresh)
  }

  /** `execute(from, rawPayload)`: the store afterwards and the turn taken. */
  function Execute(st: Store, from: string, raw: string, env: Env): (r: (Store, Turn))
    ensures var key := NormalizeE164(from);
      (forall k :: k != key ==> Get(r.0, k) == Get(st, k))
      && (r.1.write.Keep? ==> r.0 == st)
      && (r.1.write.Put? ==> Get(r.0, key) == Some(r.1.write.session))
      && (r.1.write.Drop? ==> Get(r.0, key) == None)
  {
    var key := NormalizeE164(from);
    var payload := Trim(raw);
    var t := Dispatch(SessionOf(st, key), key, payload, ToLower(payload), env);
    (Apply(st, key, t.write), t)
  }

  // ---------------------------------------------------------------- properties

  /** Every number, whatever its form (`whatsapp:` prefix, spaces, dashes), is served under
      the same key as its normalised form. */
  lemma SameNumberSameTurn(st: Store, from: string, raw: string, env: Env)
    ensures Execute(st, NormalizeE164(from), raw, env) == Execute(st, from, raw, env)
  {
    NormalizeE164Idempotent(from);
  }

  /** The cancel flow looks the contact up under the same number the menu does. */
  lemma ContactKeysAgree(s: Session, from: string, w: World)
    requires !Truthy(s.contactId)
    ensures EnsureContact(s, NormalizeE164(from), w.contacts).contactId
            == HandleMenu(s, NormalizeE164(from), w.contacts).write.session.contactId
  {
    NormalizeE164Idempotent(from);
  }

  /** `cancel`, `cancelar` or `salir`, in any case and with white space around, deletes the
      session from any step. */
  lemma CancelWordDrops(st: Store, from: string, raw: string, env: Env)
    requires ToLower(Trim(raw)) in CancelWords
    ensures var r := Execute(st, from, raw, env);
      NormalizeE164(from) !in r.0 && r.1.prompts == [Text(FlowCancelled)]
  {
  }

  /** A payload asking for the menu never moves the session to another step, whatever step it
      is at (a name containing `menu` typed at `ask_name` included); a session that has a
      contact is not written at all. */
  lemma MenuKeepsStep(st: Store, from: string, raw: string, env: Env)
    requires var p := ToLower(Trim(raw)); p !in CancelWords && IsMenuRequest(p)
    ensures var key := NormalizeE164(from);
      var r := Execute(st, from, raw, env);
      r.1.prompts == [Buttons(MenuChoice, MenuIds)]
      && (key in r.0 ==> r.0[key].step == SessionOf(st, key).step)
    ensures var key := NormalizeE164(from);
      Truthy(SessionOf(st, key).contactId) ==> Execute(st, from, raw, env).0 == st
  {
  }

  /** A message from an unknown number is handled as at `idle`. */
  lemma UnknownNumberIsIdle(st: Store, from: string, raw: string, env: Env)
    requires NormalizeE164(from) !in st
    ensures var payload := Trim(raw);
      Execute(st, from, raw, env).1 == Dispatch(Fresh, NormalizeE164(from), payload, ToLower(payload), env)
  {
  }

  /** Anything unrecognised at `idle` gets the help text and changes nothing. */
  lemma IdleFallback(st: Store, from: string, raw: string, env: Env)
    requires SessionOf(st, NormalizeE164(from)).step == Idle
    requires var payload := Trim(raw); var p := ToLower(payload);
      p !in CancelWords && !IsMenuRequest(p) && payload != "opt_reserve" && payload != "opt_cancel"
    ensures Execute(st, from, raw, env) == (st, Turn(Keep, [Text(Help)], NoCall, false))
  {
    var key, payload := NormalizeE164(from), Trim(raw);
    var p := ToLower(payload);
    IdleDispatch(SessionOf(st, key), key, payload, p, env);
  }

  /** At `idle`, a payload no global command claims falls through every step test. */
  lemma IdleDispatch(s: Session, from: string, payload: string, p: string, env: Env)
    requires s.step == Idle
    requires p !in CancelWords && !IsMenuRequest(p) && payload != "opt_reserve" && payload != "opt_cancel"
    ensures Dispatch(s, from, payload, p, env) == Turn(Keep, [Text(Help)], NoCall, false)
  {
  }

  /** While a reservation step past the court waits for input, every payload but the global
      commands and `opt_reserve` goes to that step, `opt_cancel` included. */
  lemma ReservationStepsTakeInput(s: Session, from: string, payload: string, p: string, env: Env)
    requires p !in CancelWords && !IsMenuRequest(p) && payload != "opt_reserve"
    ensures var t := Dispatch(s, from, payload, p, env);
      var db := env.world.db;
      (s.step == ChooseDate ==> t == HandleChooseDate(s, payload, env.clock, db))
      && (s.step == AwaitingOtherDate ==> t == HandleAwaitingOtherDate(s, payload, env.clock, db))
      && (s.step == ChooseTime ==> t == HandleChooseTime(s, payload, env.clock, db))
      && (s.step == AskName ==> t == AskNameAndCreate(s, payload, env.clock, db, env.create))
  {
  }

  /** Answering `1`, `2` or `3` while choosing a booking to cancel asks to confirm that option;
      a digit past the options asks about no booking at all. */
  lemma DigitChoosesOption(s: Session, from: string, env: Env, k: int)
    requires s.step == CancelChoose && s.cancelOptions.Some? && |s.cancelOptions.value| > 0
    requires 1 <= k <= 3
    ensures var t := Dispatch(s, from, [DigitChar(k)], [DigitChar(k)], env);
      t.write.Put? && t.write.session.step == CancelConfirm
      && (k <= |s.cancelOptions.value| ==> t.write.session.bookingIdToCancel == Some(s.cancelOptions.value[k - 1]))
      && (k > |s.cancelOptions.value| ==> t.write.session.bookingIdToCancel == None)
  {
    var p := [DigitChar(k)];
    assert p !in CancelWords;
    assert !IsMenuRequest(p) by {
      NotContainsMissingChar(p, "menu", 'm');
    }
  }

  /** At `cancel_confirm`, any answer other than the confirm button deletes the session. */
  lemma ConfirmStepOtherAnswerDrops(s: Session, from: string, payload: string, p: string, env: Env)
    requires s.step == CancelConfirm && p !in CancelWords && !IsMenuRequest(p)
    requires payload != "opt_reserve" && payload != "opt_cancel" && !StartsWith(payload, "CONFIRM_CANCEL:")
    ensures Dispatch(s, from, payload, p, env) == Turn(Drop, [Text(OperationCancelled)], NoCall, false)
  {
  }

  /** Every route writes a well-formed session when it starts from one. */
  lemma DispatchKeepsWf(s: Session, from: string, payload: string, p: string, env: Env)
    requires Wf(s)
    ensures WriteWf(Dispatch(s, from, payload, p, env).write)
  {
    var db := env.world.db;
    if p in CancelWords || IsMenuRequest(p) {
    } else if payload == "opt_reserve" || (s.step == ChooseCancha && StartsWith(payload, "cancha_")) {
      HandlersKeepWf(s, payload, env.clock, db, env.create);
    } else if s.step == ChooseDate {
      ChooseDateKeepsWf(s, payload, env.clock, db);
    } else if s.step == AwaitingOtherDate {
      AwaitingOtherDateKeepsWf(s, payload, env.clock, db);
    } else if s.step == ChooseTime {
      ChooseTimeKeepsWf(s, payload, env.clock, db);
    } else if s.step == AskName {
      AskNameKeepsWf(s, payload, env.clock, db, env.create);
    } else if payload == "opt_cancel" {
      ListKeepsWf(s, from, env.world);
    } else if s.step == CancelChoose && StartsWith(payload, "CANCEL_PAGE:") {
      PaginateKeepsWf(s, from, PageNumber(payload), env.world);
    } else if s.step == CancelChoose && IsDigitChoice(p) && s.cancelOptions.Some? && |s.cancelOptions.value| > 0 {
      AskConfirmKeepsWf(s, OptionAt(s.cancelOptions.value, DigitValue(p[0]) - 1));
    } else if s.step == CancelChoose && StartsWith(payload, "CANCEL:") {
      AskConfirmKeepsWf(s, Field(payload, ':', 1));
    }
  }

  /** A message keeps the store well formed. */
  lemma ExecuteKeepsStoreWf(st: Store, from: string, raw: string, env: Env)
    requires StoreWf(st)
    ensures StoreWf(Execute(st, from, raw, env).0)
  {
    var key := NormalizeE164(from);
    var s := SessionOf(st, key);
    var payload := Trim(raw);
    DispatchKeepsWf(s, key, payload, ToLower(payload), env);
    ApplyKeepsStoreWf(st, key, Dispatch(s, key, payload, ToLower(payload), env).write);
  }
}
