/** The application mapper of bookings (`events/application/mappers/booking.mapper`): the
    creation DTO into the record handed to the repository, and a stored booking into the
    public response. */
module BookingMapper {
  import opened Wrappers
  import opened Bookings
  import CreateBooking

  /** `CreateBookingDto`; a missing or null field is `None`, the instants as the ISO texts sent. */
  datatype CreateDto = CreateDto(
    userId: Option<string>,
    courtId: int,
    paymentId: Option<string>,
    startTime: string,
    endTime: string,
    status: Option<Status>,
    date: string,
    contactId: Option<string>)

  /** What `toCreatable` returns; an instant `new Date` cannot read is `None`. */
  datatype Creatable = Creatable(
    userId: Option<string>,
    courtId: int,
    paymentId: Option<string>,
    start: Option<int>,
    end: Option<int>,
    date: string,
    status: Status)

  /** `toCreatable(dto)`; `parse` is `new Date(text)`. The status defaults to pending and the
      contact is not carried over. */
  function ToCreatable(dto: CreateDto, parse: string -> Option<int>): (r: Creatable)
    ensures r.courtId == dto.courtId && r.date == dto.date
    ensures r.userId == dto.userId && r.paymentId == dto.paymentId
    ensures r.start == parse(dto.startTime) && r.end == parse(dto.endTime)
    ensures dto.status.Some? ==> r.status == dto.status.value
    ensures dto.status.None? ==> r.status == Pending
  {
    Creatable(dto.userId, dto.courtId, dto.paymentId, parse(dto.startTime), parse(dto.endTime),
              dto.date, dto.status.GetOr(Pending))
  }

  /** The two creation paths disagree on the default status: a request without one is
      pending through the mapper and confirmed through the create use case. */
  lemma DefaultStatusesDiffer(dto: CreateDto, parse: string -> Option<int>,
                              overlaps: (int, int, int) -> bool)
    requires dto.status.None?
    requires parse(dto.startTime).Some? && parse(dto.endTime).Some?
    requires parse(dto.startTime).value < parse(dto.endTime).value
    requires !overlaps(dto.courtId, parse(dto.startTime).value, parse(dto.endTime).value)
    ensures var req := CreateBooking.Request(dto.courtId, dto.date, parse(dto.startTime), parse(dto.endTime),
                                             dto.userId, dto.paymentId, dto.status, dto.contactId, None);
      var viaUseCase := CreateBooking.Execute(req, overlaps);
      viaUseCase.Ok? && viaUseCase.value.status == Confirmed
      && ToCreatable(dto, parse).status == Pending
  {
  }

  /** A stored booking object. Its instants sit under `startTime`/`endTime`, and possibly also
      under snake-case keys: `None` there means the key is absent, `Some(v)` that it is present
      with value `v`, `undefined` included. */
  datatype Stored = Stored(
    id: string,
    title: Option<string>,
    userId: Option<string>,
    courtId: int,
    paymentId: Option<string>,
    startTime: Nullish<Js>,
    endTime: Nullish<Js>,
    snakeStartTime: Option<Nullish<Js>>,
    snakeEndTime: Option<Nullish<Js>>,
    date: string,
    status: Status,
    contactId: Option<string>)

  datatype Response = Response(
    id: string,
    userId: Option<string>,
    courtId: int,
    paymentId: Option<string>,
    startTime: Nullish<Js>,
    endTime: Nullish<Js>,
    date: string,
    status: Status)

  /** `toResponse(b)`. */
  function ToResponse(b: Stored): (r: Response)
    ensures r.id == b.id && r.userId == b.userId && r.courtId == b.courtId
    ensures r.paymentId == b.paymentId && r.date == b.date && r.status == b.status
    ensures b.snakeStartTime.Some? ==> r.startTime == b.snakeStartTime.value
    ensures b.snakeStartTime.None? ==> r.startTime == b.startTime
    ensures b.snakeEndTime.Some? ==> r.endTime == b.snakeEndTime.value
    ensures b.snakeEndTime.None? ==> r.endTime == b.endTime
  {
    Response(b.id, b.userId, b.courtId, b.paymentId,
             if b.snakeStartTime.Some? then b.snakeStartTime.value else b.startTime,
             if b.snakeEndTime.Some? then b.snakeEndTime.value else b.endTime,
             b.date, b.status)
  }

  /** A snake-case key wins even when it holds `undefined`: the present key hides the
      camel-case instant. */
  lemma SnakeKeyShadows(b: Stored)
    requires b.snakeStartTime == Some(Undefined) && b.startTime.Value?
    ensures ToResponse(b).startTime == Undefined && ToResponse(b).startTime != b.startTime
  {
  }
}
