/** `CourtPricingRepositoryTypeorm.getPricingFor` and `mapPricingSource` (`events`): the prices
    that apply to a court on a date, taken from that day's override when there is one and from
    the court's defaults otherwise, and the tag a booking records for where they came from. The
    two tables are sequences of rows; `findOne` finds the first matching row. */
module Pricing {
  import opened Wrappers

  /** The pricing columns of a `courts` row; a null or missing column is `None`. */
  datatype Court = Court(
    id: int,
    defaultAmPrice: int,
    defaultPmPrice: int,
    currency: Option<string>,
    priceCutoff: Option<string>)

  /** A row of `court_daily_rate`. */
  datatype DailyRate = DailyRate(
    courtId: int,
    date: string,
    amPrice: int,
    pmPrice: int,
    currency: Option<string>)

  /** `PricingEngineSource`. */
  datatype EngineSource = Daily | CourtDefault

  /** `BookingPricingSource`. */
  datatype BookingSource = FromDaily | RateCard

  datatype Quote = Quote(amPrice: int, pmPrice: int, currency: string, cutoff: Option<string>, source: EngineSource)

  datatype Failure = CourtNotFound

  const DefaultCurrency := "CLP"

  /** The string each source is written as. */
  function EngineTag(s: EngineSource): string {
    match s
    case Daily => "DAILY"
    case CourtDefault => "COURT_DEFAULT"
  }

  function BookingTag(s: BookingSource): string {
    match s
    case FromDaily => "DAILY"
    case RateCard => "RATE_CARD"
  }

  /** `findOne({ where: { id } })` on the courts table. */
  function FindCourt(courts: seq<Court>, id: int): (r: Option<Court>)
    ensures r.Some? <==> exists c :: c in courts && c.id == id
    ensures r.Some? ==> r.value in courts && r.value.id == id
  {
    if |courts| == 0 then None
    else if courts[0].id == id then Some(courts[0])
    else FindCourt(courts[1..], id)
  }

  /** `findOne({ where: { courtId, date } })` on the daily overrides. */
  function FindDaily(daily: seq<DailyRate>, courtId: int, date: string): (r: Option<DailyRate>)
    ensures r.Some? <==> exists d :: d in daily && d.courtId == courtId && d.date == date
    ensures r.Some? ==> r.value in daily && r.value.courtId == courtId && r.value.date == date
  {
    if |daily| == 0 then None
    else if daily[0].courtId == courtId && daily[0].date == date then Some(daily[0])
    else FindDaily(daily[1..], courtId, date)
  }

  /** `getPricingFor(courtId, dateYmd)`. */
  function GetPricingFor(courts: seq<Court>, daily: seq<DailyRate>, courtId: int, date: string): (r: Result<Quote, Failure>)
    ensures r.Err? <==> FindCourt(courts, courtId).None?
  {
    match FindCourt(courts, courtId)
    case None => Err(CourtNotFound)
    case Some(court) =>
      match FindDaily(daily, courtId, date)
      case Some(d) =>
        Ok(Quote(d.amPrice, d.pmPrice, d.currency.OrElse(court.currency).GetOr(DefaultCurrency),
                 court.priceCutoff, Daily))
      case None =>
        Ok(Quote(court.defaultAmPrice, court.defaultPmPrice, court.currency.GetOr(DefaultCurrency),
                 court.priceCutoff, CourtDefault))
  }

  /** An unknown court is refused even when an override exists for it; a known court with an
      override for the date gets the override's prices with source `DAILY`, otherwise its own
      defaults with source `COURT_DEFAULT`. The currency falls back from the override to the
      court to `CLP`, and the cutoff is always the court's. */
  lemma PricingSelection(courts: seq<Court>, daily: seq<DailyRate>, courtId: int, date: string)
    ensures var r := GetPricingFor(courts, daily, courtId, date);
      (forall c :: c in courts ==> c.id != courtId) ==> r == Err(CourtNotFound)
    ensures var r := GetPricingFor(courts, daily, courtId, date);
      var court := FindCourt(courts, courtId);
      var d := FindDaily(daily, courtId, date);
      court.Some? ==>
        r.Ok? && r.value.cutoff == court.value.priceCutoff
        && (d.Some? ==>
              r.value.source == Daily && r.value.amPrice == d.value.amPrice && r.value.pmPrice == d.value.pmPrice
              && r.value.currency == (if d.value.currency.Some? then d.value.currency.value
                                      else if court.value.currency.Some? then court.value.currency.value
                                      else "CLP"))
        && (d.None? ==>
              r.value.source == CourtDefault && r.value.amPrice == court.value.defaultAmPrice
              && r.value.pmPrice == court.value.defaultPmPrice
              && r.value.currency == (if court.value.currency.Some? then court.value.currency.value else "CLP"))
  {
  }

  /** A quote comes from an override exactly when one exists for that court and date. */
  lemma DailyWinsIff(courts: seq<Court>, daily: seq<DailyRate>, courtId: int, date: string)
    requires exists c :: c in courts && c.id == courtId
    ensures var r := GetPricingFor(courts, daily, courtId, date);
      r.Ok? && (r.value.source == Daily <==> exists d :: d in daily && d.courtId == courtId && d.date == date)
  {
  }

  /** `mapPricingSource`: an override stays `DAILY`, the court default becomes `RATE_CARD`. */
  function MapPricingSource(s: EngineSource): (r: BookingSource)
    ensures BookingTag(r) == "DAILY" <==> EngineTag(s) == "DAILY"
    ensures BookingTag(r) in {"DAILY", "RATE_CARD"}
  {
    if s == Daily then FromDaily else RateCard
  }

  /** The mapping keeps the two sources apart, and `COURT_DEFAULT` is written `RATE_CARD`. */
  lemma MapPricingSourceInjective(a: EngineSource, b: EngineSource)
    ensures MapPricingSource(a) == MapPricingSource(b) ==> a == b
    ensures EngineTag(a) == "COURT_DEFAULT" ==> BookingTag(MapPricingSource(a)) == "RATE_CARD"
  {
  }
}
