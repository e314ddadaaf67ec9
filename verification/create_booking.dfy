/** `CreateBookingUseCase` (`events/application/use-cases/create-booking`): the sanity checks
    on the two instants, the overlap check and the defaults of the record handed to `create`.
    `existsActiveOverlap` is a repository query the model takes as a parameter. */
module CreateBooking {
  import opened Wrappers
  import opened Bookings

  /** The request. An instant that `new Date(...)` cannot read is `None`. */
  datatype Request = Request(
    courtId: int,
    date: string,
    startTime: Option<int>,
    endTime: Option<int>,
    userId: Option<string>,
    paymentId: Option<string>,
    status: Option<Status>,
    contactId: Option<string>,
    title: Option<string>)

  datatype Failure = StartInvalid | EndInvalid | Overlap

  /** `execute(dto)`: the record `create` is called with, or the `ConflictException` thrown
      before it. `overlaps(court, start, end)` is `existsActiveOverlap`. */
  function Execute(dto: Request, overlaps: (int, int, int) -> bool): (r: Result<NewBooking, Failure>)
    ensures dto.startTime.None? ==> r == Err(StartInvalid)
    ensures dto.startTime.Some? && (dto.endTime.None? || dto.endTime.value <= dto.startTime.value)
            ==> r == Err(EndInvalid)
    ensures r.Ok? ==> dto.startTime.Some? && dto.endTime.Some?
                      && dto.startTime.value < dto.endTime.value
                      && !overlaps(dto.courtId, dto.startTime.value, dto.endTime.value)
  {
    if dto.startTime.None? then Err(StartInvalid)
    else if dto.endTime.None? || dto.endTime.value <= dto.startTime.value then Err(EndInvalid)
    else if overlaps(dto.courtId, dto.startTime.value, dto.endTime.value) then Err(Overlap)
    else
      Ok(NewBooking(
        contactId := dto.contactId,
        courtId := dto.courtId,
        paymentId := dto.paymentId,
        userId := dto.userId,
        start := dto.startTime.value,
        end := dto.endTime.value,
        status := dto.status.GetOr(Confirmed),
        date := dto.date,
        title := dto.title))
  }

  /** A request is accepted exactly when both instants read, the end is after the start and no
      active booking overlaps; the record then passes court, date and instants through and
      fills the defaults: status confirmed, the missing ids and title empty. */
  lemma ExecuteSpec(dto: Request, overlaps: (int, int, int) -> bool)
    ensures var r := Execute(dto, overlaps);
      (r.Ok? <==> dto.startTime.Some? && dto.endTime.Some?
                  && dto.startTime.value < dto.endTime.value
                  && !overlaps(dto.courtId, dto.startTime.value, dto.endTime.value))
      && (r.Ok? ==>
            r.value.courtId == dto.courtId && r.value.date == dto.date
            && r.value.start == dto.startTime.value && r.value.end == dto.endTime.value
            && (dto.status.None? ==> r.value.status == Confirmed)
            && (dto.status.Some? ==> r.value.status == dto.status.value)
            && r.value.userId == dto.userId && r.value.paymentId == dto.paymentId
            && r.value.contactId == dto.contactId && r.value.title == dto.title)
  {
  }

  /** An overlap refuses the request once the instants are sound. */
  lemma OverlapRefused(dto: Request, overlaps: (int, int, int) -> bool)
    requires dto.startTime.Some? && dto.endTime.Some? && dto.startTime.value < dto.endTime.value
    requires overlaps(dto.courtId, dto.startTime.value, dto.endTime.value)
    ensures Execute(dto, overlaps) == Err(Overlap)
  {
  }
}
