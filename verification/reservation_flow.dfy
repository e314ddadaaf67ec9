/** `ReservationFlow` (`whatsapp/application/flows/reservation.flow`): the steps from choosing
    a court to creating the booking. Each handler is a function from the session, the payload
    and what the outside world answers (the bookings table, today's and tomorrow's dates, the
    rounded-up current hour, the zone, the outcome of `create`) to a `Turn`. A call that would
    read a missing session field (`session.cancha!`, `session.date!`, `session.time!`) or an
    unreadable date rejects; the turn is then marked failed. */
module ReservationFlow {
  import opened Wrappers
  import opened Text
  import opened TimeFormats
  import opened TimeZone
  import opened Availability
  import opened FlowHelpers
  import opened Bookings
  import opened Sessions
  import opened Conversation
  import opened Calendar
  import opened TimeSlots

  /** The business hours the flow asks availability for. */
  const Open: string := "07:00"
  const Close: string := "23:00"
  const SlotMinutes: int := 60

  /** What the host's clock and zone say: `localTodayYMD()`, `localTomorrowYMD()`, the current
      hour rounded up, and the zone's rendering of instants. */
  datatype Clock = Clock(today: string, tomorrow: string, hour: int, zone: Zone)

  /** What `bookings.create` does: succeeds, or rejects with an error code and message. */
  datatype CreateOutcome = Created | Rejected(code: Option<string>, message: string)

  /** `getAvailableHoursForCourt(date, String(cancha), ...)` with the business hours, fetching
      from the bookings table; `None` when the call rejects. */
  function Offered(clock: Clock, db: seq<Booking>, date: Option<string>, cancha: Option<int>): (r: Option<seq<string>>)
    ensures r.Some? <==> date.Some? && cancha.Some? && DateOf(date.value).Some?
  {
    if date.None? || cancha.None? then None
    else
      var fetch := (a: int, b: int) => Spans(FindByCourtAndDateRange(db, cancha.value, a, b));
      AvailableHoursForCourtSpec(date.value, Open, Close, SlotMinutes, clock.today, clock.hour, clock.zone, fetch);
      AvailableHoursForCourt(date.value, Open, Close, SlotMinutes, clock.today, clock.hour, clock.zone, fetch)
  }

  /** `Offered` with the instants the source computes (`makeStartEndTZ` as written). */
  function OfferedAsWritten(clock: Clock, db: seq<Booking>, date: Option<string>, cancha: Option<int>)
    : (r: Option<seq<string>>)
    ensures r.Some? <==> date.Some? && cancha.Some? && DateOf(date.value).Some?
  {
    if date.None? || cancha.None? then None
    else
      var fetch := (a: int, b: int) => Spans(FindByCourtAndDateRange(db, cancha.value, a, b));
      AvailableHoursForCourtAsWritten(date.value, Open, Close, SlotMinutes, clock.today, clock.hour, clock.zone, fetch)
  }

  /** On the 1st of a month after a month shorter than 31 days, with the host west of UTC, the
      source offers the court's whole grid for the day, whatever the table holds; the model's
      `Offered` leaves out every slot a stored booking overlaps. */
  lemma OfferedAsWrittenIgnoresBookings(clock: Clock, db: seq<Booking>, date: string, cancha: int,
                                        y: int, m: int, offset: int)
    requires clock.zone == FixedOffsetZone(offset) && -1440 < offset < 0
    requires DateOf(date) == Some(Date(y, m, 1)) && y >= 100 && 2 <= m <= 12
    requires DaysInMonth(y, m - 1) < 31
    ensures OfferedAsWritten(clock, db, Some(date), Some(cancha))
         == Some(AvailableHours(date, Open, Close, SlotMinutes, clock.today, clock.hour))
  {
    var fetch := (a: int, b: int) => Spans(FindByCourtAndDateRange(db, cancha, a, b));
    forall a, b | a > b
      ensures fetch(a, b) == []
    {
      InvertedRangeFindsNothing(db, cancha, a, b);
    }
    AsWrittenFirstOfMonthOffersAll(date, y, m, offset, Open, Close, SlotMinutes,
                                   clock.today, clock.hour, fetch);
  }

  /** `sendAvailability`: the slots of the day, or the text saying there are none. */
  function AvailabilityPrompts(clock: Clock, db: seq<Booking>, date: string, cancha: Option<int>): (r: (seq<Prompt>, bool))
    ensures r.1 <==> Offered(clock, db, Some(date), cancha).None?
    ensures !r.1 ==> |r.0| == 1
  {
    match Offered(clock, db, Some(date), cancha)
    case None => ([], true)
    case Some(slots) =>
      if |slots| == 0 then ([Text(NoSlots(YmdToDmy(date)))], false)
      else ([Text(Slots(YmdToDmy(date), slots))], false)
  }

  // ---------------------------------------------------------------- start

  /** `start`: move to choosing a court and offer the three courts. */
  function Start(s: Session): (t: Turn)
    ensures t.write.Put? && t.write.session.step == ChooseCancha
    ensures t.write.session.(step := s.step) == s
    ensures t.prompts == [Buttons(ChooseCourt, CourtIds)] && t.call == NoCall && !t.failed
  {
    Turn(Put(s.(step := ChooseCancha)), [Buttons(ChooseCourt, CourtIds)], NoCall, false)
  }

  // ---------------------------------------------------------------- chooseCancha

  /** `Number(payload.split('_')[1])`. */
  function CourtChoice(payload: string): Option<int> {
    match Field(payload, '_', 1)
    case None => None
    case Some(f) => SignedNumber(f)
  }

  /** The court is `Number` of the field after the first `_`, sign included: `cancha_2`,
      `cancha_02` and `cancha_+2` all choose court 2, while `cancha_-2` reads as -2, which is no
      court. */
  lemma CourtChoiceReadsNumber(prefix: string, f: string)
    requires '_' !in prefix && '_' !in f
    ensures CourtChoice(prefix + "_" + f) == SignedNumber(f)
    ensures |f| >= 1 && AllDigits(f) ==> CourtChoice(prefix + "_" + f) == Some(DigitsValue(f))
    ensures |f| >= 2 && f[0] == '+' && AllDigits(f[1..]) ==>
      CourtChoice(prefix + "_" + f) == Some(DigitsValue(f[1..]))
    ensures |f| >= 2 && f[0] == '-' && AllDigits(f[1..]) ==>
      CourtChoice(prefix + "_" + f) == Some(0 - DigitsValue(f[1..]))
  {
    CourtChoiceOfField(prefix, f);
    if |f| >= 1 && AllDigits(f) {
      JsNumberOfDigits(f);
    }
    if |f| >= 2 && f[0] == '+' && AllDigits(f[1..]) {
      PlusDigits(f);
    }
    if |f| >= 2 && f[0] == '-' && AllDigits(f[1..]) {
      MinusDigits(f);
    }
  }

  lemma CourtChoiceOfField(prefix: string, f: string)
    requires '_' !in prefix && '_' !in f
    ensures CourtChoice(prefix + "_" + f) == SignedNumber(f)
  {
    assert prefix + "_" + f == prefix + ['_'] + f;
    SplitTwo(prefix, f, '_');
  }

  predicate IsCourt(n: Option<int>) {
    n.Some? && 1 <= n.value <= 3
  }

  /** `chooseCancha`: a court number 1 to 3 is taken and the dates are offered; anything else
      gets the courts again and leaves the session alone. */
  function HandleChooseCancha(s: Session, payload: string): (t: Turn)
    ensures t.write.Put? <==> IsCourt(CourtChoice(payload))
    ensures t.write.Put? ==>
      t.write.session.cancha == CourtChoice(payload) && t.write.session.step == ChooseDate
      && t.write.session.(cancha := s.cancha, step := s.step) == s
    ensures !t.write.Put? ==> t.write == Keep && t.prompts == [Buttons(InvalidCourt, CourtIds)]
    ensures t.call == NoCall && !t.failed
  {
    var num := CourtChoice(payload);
    if !IsCourt(num) then Turn(Keep, [Buttons(InvalidCourt, CourtIds)], NoCall, false)
    else Turn(Put(s.(cancha := num, step := ChooseDate)), [Buttons(CourtChosen(num.value), DateIds)], NoCall, false)
  }

  // ---------------------------------------------------------------- chooseDate

  /** `chooseDate`: today or tomorrow is stored and its slots shown; "other day" asks for a
      date; any other payload does nothing at all. */
  function HandleChooseDate(s: Session, payload: string, clock: Clock, db: seq<Booking>): (t: Turn)
    ensures payload == "date_today" ==>
      t.write == Put(s.(date := Some(clock.today), step := ChooseTime))
      && (t.failed <==> Offered(clock, db, Some(clock.today), s.cancha).None?)
    ensures payload == "date_tomorrow" ==>
      t.write == Put(s.(date := Some(clock.tomorrow), step := ChooseTime))
      && (t.failed <==> Offered(clock, db, Some(clock.tomorrow), s.cancha).None?)
    ensures payload == "date_other" ==>
      t == Turn(Put(s.(step := AwaitingOtherDate)), [Text(AskOtherDate)], NoCall, false)
    ensures payload != "date_today" && payload != "date_tomorrow" && payload != "date_other" ==>
      t == Turn(Keep, [], NoCall, false)
    ensures t.call == NoCall
  {
    if payload == "date_today" || payload == "date_tomorrow" then
      var d := if payload == "date_today" then clock.today else clock.tomorrow;
      var shown := AvailabilityPrompts(clock, db, d, s.cancha);
      Turn(Put(s.(date := Some(d), step := ChooseTime)), shown.0, NoCall, shown.1)
    else if payload == "date_other" then
      Turn(Put(s.(step := AwaitingOtherDate)), [Text(AskOtherDate)], NoCall, false)
    else
      Turn(Keep, [], NoCall, false)
  }

  // ---------------------------------------------------------------- awaitingOtherDate

  /** `awaitingOtherDate`: only the `DD-MM-YYYY` shape is checked (no calendar check); the
      date is stored as `dmyToYmd(payload)` and its slots shown. */
  function HandleAwaitingOtherDate(s: Session, payload: string, clock: Clock, db: seq<Booking>): (t: Turn)
    ensures !ShapeDMY(payload) ==> t == Turn(Keep, [Text(BadDateFormat)], NoCall, false)
    ensures ShapeDMY(payload) ==>
      t.write == Put(s.(date := Some(DmyToYmd(payload)), step := ChooseTime)) && t.call == NoCall
  {
    if !ShapeDMY(payload) then Turn(Keep, [Text(BadDateFormat)], NoCall, false)
    else
      var d := DmyToYmd(payload);
      var shown := AvailabilityPrompts(clock, db, d, s.cancha);
      Turn(Put(s.(date := Some(d), step := ChooseTime)), shown.0, NoCall, shown.1)
  }

  /** The date written from a `DD-MM-YYYY` always reads as a date. */
  lemma DmyToYmdReadable(payload: string)
    requires ShapeDMY(payload)
    ensures DateOf(DmyToYmd(payload)).Some?
  {
    DmyToYmdOfShape(payload);
    DigitFieldsReadable(NatToString(DigitsValue(payload[6..])), payload[3..5], payload[..2]);
  }

  lemma DigitFieldsReadable(y: string, m: string, d: string)
    requires |y| >= 1 && AllDigits(y) && |m| >= 1 && AllDigits(m) && |d| >= 1 && AllDigits(d)
    ensures DateOf(y + "-" + m + "-" + d).Some?
  {
    DigitsExclude(y, '-');
    DigitsExclude(m, '-');
    DigitsExclude(d, '-');
    var t := y + "-" + m + "-" + d;
    assert t == y + ['-'] + m + ['-'] + d;
    SplitThree(y, m, d, '-');
    JsNumberOfDigits(y);
    JsNumberOfDigits(m);
    JsNumberOfDigits(d);
    assert NumberField(t, '-', 0).Some? && NumberField(t, '-', 1).Some? && NumberField(t, '-', 2).Some?;
  }

  /** With a court chosen, a well-shaped date never makes the step reject. */
  lemma AwaitingOtherDateSucceeds(s: Session, payload: string, clock: Clock, db: seq<Booking>)
    requires s.cancha.Some? && ShapeDMY(payload)
    ensures !HandleAwaitingOtherDate(s, payload, clock, db).failed
  {
    DmyToYmdReadable(payload);
  }

  // ---------------------------------------------------------------- chooseTime

  /** `chooseTime`: a valid `HH:mm` that availability still offers is stored and the name is
      asked for (offering the saved one); anything else leaves the session alone. */
  function HandleChooseTime(s: Session, payload: string, clock: Clock, db: seq<Booking>): (t: Turn)
    ensures var offered := Offered(clock, db, s.date, s.cancha);
      (t.write.Put? <==> IsValidHHmm(payload) && offered.Some? && payload in offered.value)
      && (t.write.Put? ==> t.write.session == s.(time := Some(payload), step := AskName))
      && (!t.write.Put? ==> t.write == Keep)
      && (t.failed <==> IsValidHHmm(payload) && offered.None?)
      && t.call == NoCall
  {
    if !IsValidHHmm(payload) then Turn(Keep, [Text(BadTime)], NoCall, false)
    else
      match Offered(clock, db, s.date, s.cancha)
      case None => Turn(Keep, [], NoCall, true)
      case Some(avail) =>
        if payload !in avail then
          var shown := YmdToDmy(s.date.value);
          Turn(Keep, [Text(if |avail| == 0 then NoSlots(shown) else TimeUnavailable(shown, avail))], NoCall, false)
        else
          var ask := if Truthy(s.reservationName) then OfferSavedName(s.reservationName.value) else AskForName;
          Turn(Put(s.(time := Some(payload), step := AskName)), [Text(ask)], NoCall, false)
  }

  /** A time is only taken when its slot, on the court and date of the session, overlaps no
      booking the day's fetch returns from the table. */
  lemma ChooseTimeTakesFreeSlots(s: Session, payload: string, clock: Clock, db: seq<Booking>)
    requires HandleChooseTime(s, payload, clock, db).write.Put?
    ensures s.date.Some? && s.cancha.Some?
    ensures var date := s.date.value;
      var existing := Spans(FindByCourtAndDateRange(db, s.cancha.value,
                              StartEndTZ(date, DayFirst, clock.zone).value.start,
                              StartEndTZ(date, DayLast, clock.zone).value.start));
      StartEndTZ(date, payload, clock.zone).Some?
      && forall b :: b in existing ==>
           !Overlaps(StartEndTZ(date, payload, clock.zone).value.start,
                     StartEndTZ(date, payload, clock.zone).value.start + SlotMinutes * 60000, b)
  {
    var date := s.date.value;
    var fetch := (a: int, b: int) => Spans(FindByCourtAndDateRange(db, s.cancha.value, a, b));
    AvailableHoursForCourtSpec(date, Open, Close, SlotMinutes, clock.today, clock.hour, clock.zone, fetch);
  }

  // ---------------------------------------------------------------- askNameAndCreate

  /** The name `askNameAndCreate` settles on: the saved one for `mismo` (any case) or an empty
      reply, else the reply, trimmed. */
  function ResolveName(saved: Option<string>, payload: string): (r: Option<string>)
    ensures var typed := Trim(payload);
      (ToLower(typed) == "mismo" || typed == "" ==> r == saved)
      && (ToLower(typed) != "mismo" && typed != "" ==> r == Some(typed))
  {
    var typed := Trim(payload);
    if ToLower(typed) == "mismo" then saved
    else if typed != "" then Some(typed)
    else saved
  }

  /** `makeStartEndTZ(session.date!, session.time!, TZ)`; `None` when either is missing or
      does not read. */
  function SlotOf(s: Session, zone: Zone): Option<Interval> {
    if s.date.None? || s.time.None? then None else StartEndTZ(s.date.value, s.time.value, zone)
  }

  /** `e?.code === '23505' || /duplicate key value/i.test(e?.message || '')`. */
  predicate IsDuplicate(code: Option<string>, message: string) {
    code == Some("23505") || Contains(ToLower(message), "duplicate key value")
  }

  /** The record the flow asks `create` for. */
  function Requested(s: Session, name: string, cancha: int, slot: Interval): NewBooking {
    NewBooking(
      contactId := s.contactId,
      courtId := cancha,
      paymentId := None,
      userId := None,
      start := slot.start,
      end := slot.end,
      status := Pending,
      date := s.date.GetOr(""),
      title := Some(name))
  }

  /** `askNameAndCreate`. Without a name nothing happens but the request for one. With a name,
      it is remembered; a booking of the court starting anywhere in the slot, both ends
      included, sends the user back to choosing a time; otherwise `create` is called with a
      pending booking under that name, and the session is deleted when it succeeds and kept
      at `ask_name` when it fails. */
  function AskNameAndCreate(s: Session, payload: string, clock: Clock, db: seq<Booking>,
                            outcome: CreateOutcome): (t: Turn)
    ensures var name := ResolveName(s.reservationName, payload);
      var s1 := s.(reservationName := name);
      var slot := SlotOf(s, clock.zone);
      (!Truthy(name) ==> t == Turn(Keep, [Text(NeedName)], NoCall, false))
      && (Truthy(name) && (slot.None? || s.cancha.None?) ==> t == Turn(Put(s1), [], NoCall, true))
      && (Truthy(name) && slot.Some? && s.cancha.Some? ==>
            var taken := FindByCourtAndDateRange(db, s.cancha.value, slot.value.start, slot.value.end);
            (|taken| > 0 ==> t == Turn(Put(s1.(step := ChooseTime)), [Text(JustTaken(s.cancha.value))], NoCall, false))
            && (|taken| == 0 ==>
                  t.call == Create(Requested(s, name.value, s.cancha.value, slot.value)) && !t.failed
                  && (outcome.Created? ==> t.write == Drop)
                  && (outcome.Rejected? ==> t.write == Put(s1))))
    ensures !t.call.CancelRequest?
  {
    var name := ResolveName(s.reservationName, payload);
    if !Truthy(name) then Turn(Keep, [Text(NeedName)], NoCall, false)
    else
      var s1 := s.(reservationName := name);
      var slot := SlotOf(s, clock.zone);
      if slot.None? || s.cancha.None? then Turn(Put(s1), [], NoCall, true)
      else
        var c := s.cancha.value;
        var taken := FindByCourtAndDateRange(db, c, slot.value.start, slot.value.end);
        if |taken| > 0 then Turn(Put(s1.(step := ChooseTime)), [Text(JustTaken(c))], NoCall, false)
        else
          var call := Create(Requested(s, name.value, c, slot.value));
          match outcome
          case Created =>
            Turn(Drop, [Text(Saved(name.value, c, YmdToDmy(s.date.value), s.time.value))], call, false)
          case Rejected(code, message) =>
            Turn(Put(s1), [Text(if IsDuplicate(code, message) then AlreadyBooked(c) else SaveFailed)], call, false)
  }

  /** The booking asked for is pending, has no user or payment, takes the court, date and
      contact of the session and the chosen name as title, and lasts one hour from the slot's
      start. */
  lemma RequestedBooking(s: Session, payload: string, clock: Clock, db: seq<Booking>,
                         outcome: CreateOutcome)
    requires AskNameAndCreate(s, payload, clock, db, outcome).call.Create?
    ensures var b := AskNameAndCreate(s, payload, clock, db, outcome).call.booking;
      s.cancha.Some? && s.date.Some? && s.time.Some?
      && b.status == Pending && b.userId.None? && b.paymentId.None?
      && b.courtId == s.cancha.value && b.date == s.date.value && b.contactId == s.contactId
      && b.title == ResolveName(s.reservationName, payload) && Truthy(b.title)
      && StartEndTZ(s.date.value, s.time.value, clock.zone) == Some(Interval(b.start, b.end))
      && b.end == b.start + 3600000
  {
  }

  /** A booking of the same court that starts anywhere from the slot's start to its end, the
      end included and whatever its status, stops the creation. */
  lemma RecheckBlocks(s: Session, payload: string, clock: Clock, db: seq<Booking>,
                      outcome: CreateOutcome, b: Booking)
    requires s.cancha.Some? && SlotOf(s, clock.zone).Some?
    requires b in db && b.courtId == s.cancha.value
    requires SlotOf(s, clock.zone).value.start <= b.start <= SlotOf(s, clock.zone).value.end
    ensures AskNameAndCreate(s, payload, clock, db, outcome).call == NoCall
    ensures var t := AskNameAndCreate(s, payload, clock, db, outcome);
      t.write.Put? ==> t.write.session.step == ChooseTime
  {
    var slot := SlotOf(s, clock.zone).value;
    assert b in FindByCourtAndDateRange(db, s.cancha.value, slot.start, slot.end);
  }

  /** A well-formed session at `ask_name` with a readable date never makes the step reject. */
  lemma AskNameSucceeds(s: Session, payload: string, clock: Clock, db: seq<Booking>,
                        outcome: CreateOutcome)
    requires Wf(s) && s.step == AskName && DateOf(s.date.value).Some?
    ensures !AskNameAndCreate(s, payload, clock, db, outcome).failed
  {
    var t := s.time.value;
    ValidHHmmIff(t);
    ClockFields(t);
  }

  /** Each of the three court buttons chooses its court. */
  lemma CourtButtonChooses(s: Session, k: int)
    requires 1 <= k <= 3
    ensures HandleChooseCancha(s, CourtIds[k - 1]).write == Put(s.(cancha := Some(k), step := ChooseDate))
  {
    CourtIdChoice(k);
  }

  lemma CourtIdChoice(k: int)
    requires 1 <= k <= 3
    ensures CourtChoice(CourtIds[k - 1]) == Some(k)
  {
    var f := [DigitChar(k)];
    CourtIdField(k);
    JsNumberOfDigits(f);
    assert DigitsValue(f) == k;
  }

  lemma CourtIdField(k: int)
    requires 1 <= k <= 3
    ensures Field(CourtIds[k - 1], '_', 1) == Some([DigitChar(k)])
  {
    var f := [DigitChar(k)];
    assert CourtIds[k - 1] == "cancha" + ['_'] + f;
    assert '_' !in "cancha";
    assert '_' !in f;
    SplitTwo("cancha", f, '_');
  }

  lemma ChooseDateKeepsWf(s: Session, payload: string, clock: Clock, db: seq<Booking>)
    requires Wf(s) && s.step == ChooseDate
    ensures WriteWf(HandleChooseDate(s, payload, clock, db).write)
  {
  }

  lemma AwaitingOtherDateKeepsWf(s: Session, payload: string, clock: Clock, db: seq<Booking>)
    requires Wf(s) && s.step == AwaitingOtherDate
    ensures WriteWf(HandleAwaitingOtherDate(s, payload, clock, db).write)
  {
  }

  lemma ChooseTimeKeepsWf(s: Session, payload: string, clock: Clock, db: seq<Booking>)
    requires Wf(s) && s.step == ChooseTime
    ensures WriteWf(HandleChooseTime(s, payload, clock, db).write)
  {
  }

  lemma AskNameKeepsWf(s: Session, payload: string, clock: Clock, db: seq<Booking>,
                       outcome: CreateOutcome)
    requires Wf(s) && s.step == AskName
    ensures WriteWf(AskNameAndCreate(s, payload, clock, db, outcome).write)
  {
  }

  /** Each handler, called at its step on a well-formed session, writes a well-formed one. */
  lemma ChooseCanchaKeepsWf(s: Session, payload: string)
    requires Wf(s)
    ensures WriteWf(Start(s).write)
    ensures WriteWf(HandleChooseCancha(s, payload).write)
  {
    var t := HandleChooseCancha(s, payload);
    if t.write.Put? {
      assert IsCourt(CourtChoice(payload));
    }
  }

  lemma HandlersKeepWf(s: Session, payload: string, clock: Clock, db: seq<Booking>,
                       outcome: CreateOutcome)
    requires Wf(s)
    ensures WriteWf(Start(s).write)
    ensures WriteWf(HandleChooseCancha(s, payload).write)
    ensures s.step == ChooseDate ==> WriteWf(HandleChooseDate(s, payload, clock, db).write)
    ensures s.step == AwaitingOtherDate ==> WriteWf(HandleAwaitingOtherDate(s, payload, clock, db).write)
    ensures s.step == ChooseTime ==> WriteWf(HandleChooseTime(s, payload, clock, db).write)
    ensures s.step == AskName ==> WriteWf(AskNameAndCreate(s, payload, clock, db, outcome).write)
  {
    ChooseCanchaKeepsWf(s, payload);
    if s.step == ChooseDate {
      ChooseDateKeepsWf(s, payload, clock, db);
    } else if s.step == AwaitingOtherDate {
      AwaitingOtherDateKeepsWf(s, payload, clock, db);
    } else if s.step == ChooseTime {
      ChooseTimeKeepsWf(s, payload, clock, db);
    } else if s.step == AskName {
      AskNameKeepsWf(s, payload, clock, db, outcome);
    }
  }

  /** On a well-formed session no step rejects once the dates it reads are readable: today's
      and tomorrow's for `choose_date`, the session's for `choose_time` and `ask_name`; a typed
      date never needs that. */
  lemma StepsSucceed(s: Session, payload: string, clock: Clock, db: seq<Booking>,
                     outcome: CreateOutcome)
    requires Wf(s)
    ensures s.step == ChooseDate && DateOf(clock.today).Some? && DateOf(clock.tomorrow).Some? ==>
      !HandleChooseDate(s, payload, clock, db).failed
    ensures s.step == AwaitingOtherDate ==> !HandleAwaitingOtherDate(s, payload, clock, db).failed
    ensures s.step == ChooseTime && DateOf(s.date.value).Some? ==> !HandleChooseTime(s, payload, clock, db).failed
    ensures s.step == AskName && DateOf(s.date.value).Some? ==>
      !AskNameAndCreate(s, payload, clock, db, outcome).failed
  {
    if s.step == AwaitingOtherDate && ShapeDMY(payload) {
      AwaitingOtherDateSucceeds(s, payload, clock, db);
    }
    if s.step == AskName && DateOf(s.date.value).Some? {
      AskNameSucceeds(s, payload, clock, db, outcome);
    }
  }
}
