/** The booking entity (`domain/entities/booking`) and the two reads of the bookings table the
    core depends on. The table is a sequence of rows; `findAll` returns all of it, and
    `findByCourtAndDateRange` the rows of one court whose start lies in a closed range, whatever
    their status. Instants are milliseconds since the epoch. */
module Bookings {
  import opened Wrappers
  import opened Seqs
  import opened TimeZone

  datatype Status = Pending | Confirmed | Cancelled

  /** A stored booking; the optional snapshot fields (price, cancellation data, timestamps) are
      not read by the core and are left out. */
  datatype Booking = Booking(
    id: string,
    title: Option<string>,
    userId: Option<string>,
    courtId: int,
    paymentId: Option<string>,
    start: int,
    end: int,
    date: string,
    status: Status,
    contactId: Option<string>)

  /** `Omit<Booking, 'id'>`: what `create` is handed. */
  datatype NewBooking = NewBooking(
    contactId: Option<string>,
    courtId: int,
    paymentId: Option<string>,
    userId: Option<string>,
    start: int,
    end: int,
    status: Status,
    date: string,
    title: Option<string>)

  /** The test of `findByCourtAndDateRange`: same court, start in `[from, to]` (`Between` is
      inclusive at both ends), status not looked at. */
  predicate InRange(b: Booking, court: int, from: int, to: int) {
    b.courtId == court && from <= b.start <= to
  }

  /** `findByCourtAndDateRange(String(court), from, to)` over the table `db`. */
  function FindByCourtAndDateRange(db: seq<Booking>, court: int, from: int, to: int): (r: seq<Booking>)
    ensures forall b :: b in r <==> b in db && InRange(b, court, from, to)
    ensures IsSubsequence(r, db)
  {
    FilterIsSubsequence(db, b => InRange(b, court, from, to));
    Filter(db, b => InRange(b, court, from, to))
  }

  /** A booking that starts exactly at the upper end of the range is found, and so is a
      cancelled one. */
  lemma RangeIsClosed(db: seq<Booking>, b: Booking, from: int, to: int)
    requires b in db && b.start == to && from <= to
    ensures b in FindByCourtAndDateRange(db, b.courtId, from, to)
  {
  }

  /** A range whose start lies after its end finds nothing. */
  lemma InvertedRangeFindsNothing(db: seq<Booking>, court: int, from: int, to: int)
    requires from > to
    ensures FindByCourtAndDateRange(db, court, from, to) == []
  {
  }

  /** The rows as the `{ startTime, endTime }` pairs availability compares against. */
  function Spans(rows: seq<Booking>): (r: seq<Interval>)
    ensures |r| == |rows|
    ensures forall i :: 0 <= i < |rows| ==> r[i] == Interval(rows[i].start, rows[i].end)
  {
    Map(rows, (b: Booking) => Interval(b.start, b.end))
  }
}
