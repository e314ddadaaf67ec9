/** The persistence mapper of bookings (`events/infrastructure/typeorm/mappers/booking.mapper`):
    a `BookingSchema` row read loosely, tolerating camel- and snake-case columns and ids taken
    from loaded relations, into the domain object, and the domain object back into the partial
    row `create`/`update` are given. What the host's `Date` does is passed in as `Host`. */
module SchemaMapper {
  import opened Wrappers
  import opened Text
  import opened Seqs

  /** What the host's `Date` answers: `toISOString()` of an instant, `new Date(s)` of a string
      (`None` for an invalid date), `String(date)`, and today's `YYYY-MM-DD` as `toISOString`
      writes it. */
  datatype Host = Host(iso: int -> string, parse: string -> Option<int>, text: int -> string, today: string)

  /** A relation loaded with the row, as far as the mapper reads it. */
  datatype Relation = Relation(id: Nullish<Js>, name: Nullish<Js>)

  /** A row read through `as any`. Each column the mapper looks at appears under the spellings
      it tries; a key the row lacks is `Undefined`. */
  datatype Row = Row(
    id: Nullish<Js>,
    userId: Nullish<Js>, user: Nullish<Relation>,
    courtId: Nullish<Js>, court: Nullish<Relation>,
    contactId: Nullish<Js>, contact: Nullish<Relation>,
    paymentId: Nullish<Js>, payment: Nullish<Relation>,
    startTime: Nullish<Js>, snakeStartTime: Nullish<Js>,
    endTime: Nullish<Js>, snakeEndTime: Nullish<Js>,
    createdAt: Nullish<Js>, snakeCreatedAt: Nullish<Js>,
    updatedAt: Nullish<Js>, snakeUpdatedAt: Nullish<Js>,
    canceledAt: Nullish<Js>, snakeCanceledAt: Nullish<Js>,
    cancelReason: Nullish<Js>, snakeCancelReason: Nullish<Js>,
    canceledBy: Nullish<Js>, snakeCanceledBy: Nullish<Js>,
    date: Nullish<Js>,
    status: Nullish<Js>,
    title: Nullish<Js>, capitalTitle: Nullish<Js>)

  /** The domain `Booking` object `toDomain` builds; a field it sets to `undefined` is
      `Undefined`. */
  datatype Domain = Domain(
    id: Nullish<Js>,
    userId: Nullish<Js>,
    courtId: Nullish<Js>,
    paymentId: Nullish<Js>,
    startTime: Nullish<Js>,
    endTime: Nullish<Js>,
    status: Nullish<Js>,
    date: Nullish<Js>,
    contactId: Nullish<Js>,
    createdAt: Nullish<Js>,
    updatedAt: Nullish<Js>,
    canceledAt: Nullish<Js>,
    cancelReason: Nullish<Js>,
    canceledBy: Nullish<Js>,
    title: Nullish<Js>)

  /** The partial row of `toSchema`: each relation as `{ id }` (`Some`) or `null` (`None`). */
  datatype Partial = Partial(
    user: Option<Js>,
    contact: Option<Js>,
    court: Option<Js>,
    payment: Option<Js>,
    startTime: Nullish<Js>,
    endTime: Nullish<Js>,
    status: Nullish<Js>,
    date: Nullish<Js>,
    title: Nullish<Js>)

  // ---------------------------------------------------------------- normalisation helpers

  /** `pick(v1, v2, v3)`: the first of `v1`, `v2` that is neither `null` nor `undefined`, else
      `v3` as given. */
  function Pick<T>(v1: Nullish<T>, v2: Nullish<T>, v3: Nullish<T>): (r: Nullish<T>)
    ensures v1.Value? ==> r == v1
    ensures !v1.Value? && v2.Value? ==> r == v2
    ensures !v1.Value? && !v2.Value? ==> r == v3
  {
    if v1.Value? then v1 else if v2.Value? then v2 else v3
  }

  /** `a ?? b`. */
  function Coalesce<T>(a: Nullish<T>, b: Nullish<T>): Nullish<T> {
    if a.Value? then a else b
  }

  /** `rel?.id` and `rel?.name`. */
  function RelId(r: Nullish<Relation>): Nullish<Js> {
    if r.Value? then r.get.id else Undefined
  }

  function RelName(r: Nullish<Relation>): Nullish<Js> {
    if r.Value? then r.get.name else Undefined
  }

  /** `String(v)`, also what a template literal writes. */
  function ToText(v: Js, host: Host): string {
    match v
    case JStr(s) => s
    case JNum(n) => IntToString(n)
    case JNaN => "NaN"
    case JBool(b) => if b then "true" else "false"
    case JDate(ms) => host.text(ms)
  }

  /** `Number(v)`. */
  function ToNumber(v: Js): Js {
    match v
    case JStr(s) => (match SignedNumber(s) case Some(n) => JNum(n) case None => JNaN)
    case JNum(n) => v
    case JNaN => v
    case JBool(b) => JNum(if b then 1 else 0)
    case JDate(ms) => JNum(ms)
  }

  /** Largest distance from the epoch, in milliseconds, of a valid `Date`. */
  const MaxTime := 8_640_000_000_000_000

  /** `new Date(v)`, its instant or `None` for an invalid date. */
  function ToDate(v: Nullish<Js>, host: Host): Option<int> {
    match v
    case Undefined => None
    case Null => Some(0)
    case Value(JStr(s)) => host.parse(s)
    case Value(JNum(n)) => if -MaxTime <= n <= MaxTime then Some(n) else None
    case Value(JNaN) => None
    case Value(JBool(b)) => Some(if b then 1 else 0)
    case Value(JDate(ms)) => Some(ms)
  }

  /** `toIsoIfDate`: a `Date` as its ISO string, anything else as it is, a missing value as
      `null`. */
  function ToIsoIfDate(v: Nullish<Js>, host: Host): (r: Nullish<Js>)
    ensures v.IsNullish() <==> r == Null
  {
    match v
    case Value(JDate(ms)) => Value(JStr(host.iso(ms)))
    case Value(x) => v
    case _ => Null
  }

  /** `/^\d{4}-\d{2}-\d{2}/`. */
  predicate YmdPrefix(s: string) {
    |s| >= 10 && AllDigits(s[..4]) && s[4] == '-' && AllDigits(s[5..7]) && s[7] == '-' && AllDigits(s[8..10])
  }

  /** `toYmdIfDateOrString`: a missing value stays `undefined`; a `Date` becomes the first ten
      characters of its ISO string; a text starting with a `YYYY-MM-DD` shape is cut to it; any
      other text is read as a date and written back as `YYYY-MM-DD`, or kept when unreadable. */
  function ToYmdIfDateOrString(v: Nullish<Js>, host: Host): (r: Nullish<Js>)
    ensures v.IsNullish() <==> r == Undefined
    ensures r.Value? ==> r.get.JStr?
  {
    match v
    case Value(JDate(ms)) => Value(JStr(Take(host.iso(ms), 10)))
    case Value(x) =>
      var s := ToText(x, host);
      if YmdPrefix(s) then Value(JStr(s[..10]))
      else
        (match host.parse(s)
         case None => Value(JStr(s))
         case Some(ms) => Value(JStr(Take(host.iso(ms), 10))))
    case _ => Undefined
  }

  /** `hhmm`: the `HH:MM` of the instant's ISO string, or empty for an invalid date. */
  function HhMm(v: Nullish<Js>, host: Host): string {
    match ToDate(v, host)
    case None => ""
    case Some(ms) => JsSlice(host.iso(ms), 11, 16)
  }

  /** `courtName`: the loaded court's name, else `Court <id>` from the column or the relation,
      else `Court`. */
  function CourtName(row: Row, host: Host): string {
    var id := Pick(row.courtId, RelId(row.court), Undefined);
    var name := RelName(row.court);
    if name.Value? then ToText(name.get, host)
    else if id.Value? then "Court " + ToText(id.get, host)
    else "Court"
  }

  /** `buildTitleFallback`: `<court> · <from>` followed by `-<to>` when the end reads. */
  function TitleFallback(row: Row, host: Host): string {
    var from := HhMm(Pick(row.startTime, row.snakeStartTime, Undefined), host);
    var to := HhMm(Pick(row.endTime, row.snakeEndTime, Undefined), host);
    CourtName(row, host) + " · " + from + (if to != "" then "-" + to else "")
  }

  // ---------------------------------------------------------------- toDomain

  /** The `date` field as the source writes it:
      `toYmdIfDateOrString(raw) ?? (typeof raw === 'string' && raw) ?? today`. The middle
      operand is `false`, never nullish, whenever the first is missing, so `today` is never
      reached. */
  function AsWrittenDate(raw: Nullish<Js>, host: Host): Nullish<Js> {
    var second := if raw.Value? && raw.get.JStr? then raw else Value(JBool(false));
    Coalesce(Coalesce(ToYmdIfDateOrString(raw, host), second), Value(JStr(host.today)))
  }

  /** A booking row without a date gets `false` as its date, not today's date. */
  lemma AsWrittenMissingDateIsFalse(raw: Nullish<Js>, host: Host)
    requires raw.IsNullish()
    ensures AsWrittenDate(raw, host) == Value(JBool(false))
    ensures AsWrittenDate(raw, host) != Value(JStr(host.today))
  {
  }

  /** The `date` field as evidently intended: the `YYYY-MM-DD` the raw value gives, else today. */
  function DomainDate(raw: Nullish<Js>, host: Host): (r: Nullish<Js>)
    ensures r.Value? && r.get.JStr?
  {
    Coalesce(ToYmdIfDateOrString(raw, host), Value(JStr(host.today)))
  }

  /** `toDomain(schema)`, with the date fallback corrected. Whatever the row holds, the user and
      payment ids are never `undefined`, the contact id and the cancellation fields never
      `null`, the date is always a text and the title is always present. */
  function ToDomain(row: Row, host: Host): (d: Domain)
    ensures !d.userId.Undefined? && !d.paymentId.Undefined? && !d.contactId.Null?
    ensures d.title.Value?
    ensures !d.canceledAt.Null? && !d.cancelReason.Null? && !d.canceledBy.Null?
    ensures d.date.Value? && d.date.get.JStr?
  {
    var userId := Pick(row.userId, RelId(row.user), Undefined);
    var courtIdRaw := Pick(row.courtId, RelId(row.court), Undefined);
    var contactId := Pick(row.contactId, RelId(row.contact), Undefined);
    var paymentId := Pick(row.paymentId, RelId(row.payment), Undefined);
    var title := if row.title.Value? then row.title.get
                 else if row.capitalTitle.Value? then row.capitalTitle.get
                 else JStr(TitleFallback(row, host));
    Domain(
      id := row.id,
      userId := Coalesce(userId, Null),
      courtId := if courtIdRaw.Value? then Value(ToNumber(courtIdRaw.get)) else Undefined,
      paymentId := Coalesce(paymentId, Null),
      startTime := ToIsoIfDate(Pick(row.startTime, row.snakeStartTime, Undefined), host),
      endTime := ToIsoIfDate(Pick(row.endTime, row.snakeEndTime, Undefined), host),
      status := row.status,
      date := DomainDate(row.date, host),
      contactId := Coalesce(contactId, Undefined),
      createdAt := ToIsoIfDate(Pick(row.createdAt, row.snakeCreatedAt, Undefined), host),
      updatedAt := ToIsoIfDate(Pick(row.updatedAt, row.snakeUpdatedAt, Undefined), host),
      canceledAt := Coalesce(ToIsoIfDate(Pick(row.canceledAt, row.snakeCanceledAt, Undefined), host), Undefined),
      cancelReason := Coalesce(Pick(row.cancelReason, row.snakeCancelReason, Undefined), Undefined),
      canceledBy := Coalesce(Pick(row.canceledBy, row.snakeCanceledBy, Undefined), Undefined),
      title := Value(title))
  }

  /** Ids come from the column, else from the loaded relation. A missing user or payment is
      `null` and never `undefined`; a missing contact is `undefined`; a missing court leaves
      `courtId` undefined, and a present one is read as a number. */
  lemma ToDomainIds(row: Row, host: Host)
    ensures var d := ToDomain(row, host);
      (d.userId == if row.userId.Value? then row.userId else if RelId(row.user).Value? then RelId(row.user) else Null)
      && (d.paymentId == if row.paymentId.Value? then row.paymentId else if RelId(row.payment).Value? then RelId(row.payment) else Null)
      && (d.contactId == if row.contactId.Value? then row.contactId else if RelId(row.contact).Value? then RelId(row.contact) else Undefined)
      && (d.courtId.Undefined? <==> !row.courtId.Value? && !RelId(row.court).Value?)
      && (row.courtId.Value? ==> d.courtId == Value(ToNumber(row.courtId.get)))
      && !d.userId.Undefined? && !d.paymentId.Undefined? && !d.contactId.Null?
  {
  }

  /** The cancellation fields are `undefined`, never `null`, when the row has none; the
      timestamps come out as ISO strings when they are dates, and `null` when missing. */
  lemma ToDomainCancelFields(row: Row, host: Host)
    ensures var d := ToDomain(row, host);
      !d.canceledAt.Null? && !d.cancelReason.Null? && !d.canceledBy.Null?
      && (d.canceledAt.Undefined? <==> row.canceledAt.IsNullish() && row.snakeCanceledAt.IsNullish())
      && (d.cancelReason.Undefined? <==> row.cancelReason.IsNullish() && row.snakeCancelReason.IsNullish())
      && (d.canceledBy.Undefined? <==> row.canceledBy.IsNullish() && row.snakeCanceledBy.IsNullish())
      && (d.createdAt == Null <==> row.createdAt.IsNullish() && row.snakeCreatedAt.IsNullish())
      && (row.startTime.Value? && row.startTime.get.JDate? ==> d.startTime == Value(JStr(host.iso(row.startTime.get.ms))))
  {
  }

  /** The title is the `title` column, else a `Title` column, else the fallback built from the
      court and the times; a court known only by its id is written `Court <id>`. */
  lemma ToDomainTitle(row: Row, host: Host)
    ensures var t := ToDomain(row, host).title.get;
      (row.title.Value? ==> t == row.title.get)
      && (!row.title.Value? && row.capitalTitle.Value? ==> t == row.capitalTitle.get)
      && (!row.title.Value? && !row.capitalTitle.Value? ==>
            t.JStr? && StartsWith(t.str, CourtName(row, host) + " · "))
    ensures !RelName(row.court).Value? && row.courtId.Value? && row.courtId.get.JNum? ==>
      CourtName(row, host) == "Court " + IntToString(row.courtId.get.num)
    ensures !RelName(row.court).Value? && !row.courtId.Value? && !RelId(row.court).Value? ==>
      CourtName(row, host) == "Court"
  {
    if !row.title.Value? && !row.capitalTitle.Value? {
      var t := ToDomain(row, host).title.get.str;
      var p := CourtName(row, host) + " · ";
      assert t == p + (t[|p|..]);
    }
  }

  /** A missing date is today's; a text date starting `YYYY-MM-DD` keeps just those ten
      characters; a `Date` gives the date part of its ISO string. */
  lemma ToDomainDate(row: Row, host: Host)
    ensures var d := ToDomain(row, host).date;
      (row.date.IsNullish() ==> d == Value(JStr(host.today)))
      && (row.date.Value? && row.date.get.JStr? && YmdPrefix(row.date.get.str) ==> d == Value(JStr(row.date.get.str[..10])))
      && (row.date.Value? && row.date.get.JDate? ==> d == Value(JStr(Take(host.iso(row.date.get.ms), 10))))
  {
  }

  /** `toDomains`: one domain object per row, in the same order. */
  function ToDomains(rows: seq<Row>, host: Host): (r: seq<Domain>)
    ensures |r| == |rows|
    ensures forall i :: 0 <= i < |rows| ==> r[i] == ToDomain(rows[i], host)
  {
    Map(rows, (row: Row) => ToDomain(row, host))
  }

  // ---------------------------------------------------------------- toSchema

  /** `rel(id)`: `{ id }` for a truthy id, `null` for any falsy one. */
  function Rel(id: Nullish<Js>): (r: Option<Js>)
    ensures r.Some? <==> id.Value? && id.get.IsTruthy()
    ensures r.Some? ==> r.value == id.get
  {
    if id.Value? && id.get.IsTruthy() then Some(id.get) else None
  }

  /** An id of `0` or `''` is dropped like a missing one. */
  lemma RelDropsFalsy()
    ensures Rel(Value(JNum(0))) == None && Rel(Value(JStr(""))) == None && Rel(Null) == None
  {
  }

  /** `toSchema(domain)`: a relation is set exactly for a truthy id, and holds that id. */
  function ToSchema(d: Domain): (r: Partial)
    ensures r.user.Some? <==> d.userId.Value? && d.userId.get.IsTruthy()
    ensures r.contact.Some? <==> d.contactId.Value? && d.contactId.get.IsTruthy()
    ensures r.court.Some? <==> d.courtId.Value? && d.courtId.get.IsTruthy()
    ensures r.payment.Some? <==> d.paymentId.Value? && d.paymentId.get.IsTruthy()
    ensures r.user.Some? ==> r.user.value == d.userId.get
    ensures r.court.Some? ==> r.court.value == d.courtId.get
    ensures d.title.Value? ==> r.title == d.title
    ensures !d.title.Value? ==> r.title == Undefined
  {
    Partial(
      user := Rel(d.userId),
      contact := Rel(d.contactId),
      court := Rel(d.courtId),
      payment := Rel(d.paymentId),
      startTime := d.startTime,
      endTime := d.endTime,
      status := d.status,
      date := d.date,
      title := Coalesce(d.title, Undefined))
  }

  /** The partial row as the booking table gives it back after TypeORM's `save` of
      `toSchema(d)` and a load with the relations joined: each relation written as a `{ id }`
      stub comes back as the related row holding that id (its other columns not modelled, so
      the court has no name here) and one written as `null` as `null`; the times come back
      under the snake-case keys the partial wrote; the id, the audit stamps and the
      cancellation columns, which the partial does not write, read as absent. This is an
      assumption about the ORM, which is not part of this model. */
  function AsRow(p: Partial): Row {
    var rel := (id: Option<Js>) => if id.Some? then Value(Relation(Value(id.value), Undefined)) else Null;
    Row(
      id := Undefined,
      userId := Undefined, user := rel(p.user),
      courtId := Undefined, court := rel(p.court),
      contactId := Undefined, contact := rel(p.contact),
      paymentId := Undefined, payment := rel(p.payment),
      startTime := Undefined, snakeStartTime := p.startTime,
      endTime := Undefined, snakeEndTime := p.endTime,
      createdAt := Undefined, snakeCreatedAt := Undefined,
      updatedAt := Undefined, snakeUpdatedAt := Undefined,
      canceledAt := Undefined, snakeCanceledAt := Undefined,
      cancelReason := Undefined, snakeCancelReason := Undefined,
      canceledBy := Undefined, snakeCanceledBy := Undefined,
      date := p.date,
      status := p.status,
      title := p.title, capitalTitle := Undefined)
  }

  /** Mapping a domain booking to a row and back keeps its ids, times, status, date and a
      present title, as long as the ids are truthy, the court id is a number, the times are text
      and the date is a plain `YYYY-MM-DD`. A `null` title is written as `undefined` and comes
      back as the fallback title. */
  lemma SchemaRoundTrip(d: Domain, host: Host)
    requires d.userId.Value? && d.userId.get.IsTruthy()
    requires d.contactId.Value? && d.contactId.get.IsTruthy()
    requires d.paymentId.Value? && d.paymentId.get.IsTruthy()
    requires d.courtId.Value? && d.courtId.get.JNum? && d.courtId.get.num != 0
    requires d.startTime.Value? && d.startTime.get.JStr? && d.endTime.Value? && d.endTime.get.JStr?
    requires d.date.Value? && d.date.get.JStr? && |d.date.get.str| == 10 && YmdPrefix(d.date.get.str)
    ensures var back := ToDomain(AsRow(ToSchema(d)), host);
      back.userId == d.userId && back.contactId == d.contactId && back.paymentId == d.paymentId
      && back.courtId == d.courtId && back.startTime == d.startTime && back.endTime == d.endTime
      && back.status == d.status && back.date == d.date
      && (d.title.Value? ==> back.title == d.title)
      && (!d.title.Value? ==> back.title == Value(JStr(TitleFallback(AsRow(ToSchema(d)), host))))
  {
    assert d.date.get.str[..10] == d.date.get.str;
  }
}
