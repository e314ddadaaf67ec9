/** `ListCourtsUseCase` (`courts`): the normalisation of the listing query before it reaches
    the courts repository. */
module ListCourts {
  import opened Wrappers
  import opened Text

  const MaxLimit := 10

  /** `ListCourtsQuery`; a missing or null field is `None`. */
  datatype Query = Query(q: Option<string>, active: Option<bool>, limit: Option<int>)

  /** `ListCourtsParams` as the use case builds them. */
  datatype Params = Params(q: Option<string>, active: Option<bool>, limit: int)

  /** `Math.min(Math.max(1, limit ?? 10), 10)`. */
  function ClampLimit(limit: Option<int>): (r: int)
    ensures 1 <= r <= MaxLimit
    ensures limit.None? ==> r == MaxLimit
    ensures limit.Some? && 1 <= limit.value <= MaxLimit ==> r == limit.value
    ensures limit.Some? && limit.value < 1 ==> r == 1
    ensures limit.Some? && limit.value > MaxLimit ==> r == MaxLimit
  {
    var l := limit.GetOr(MaxLimit);
    var atLeastOne := if l < 1 then 1 else l;
    if atLeastOne < MaxLimit then atLeastOne else MaxLimit
  }

  /** The parameters `execute` hands to `repo.list`: the search text trimmed, and dropped when
      nothing is left; `active` as given; the limit clamped into 1..10. */
  function Normalise(query: Query): (r: Params)
    ensures r.active == query.active
    ensures 1 <= r.limit <= MaxLimit
    ensures r.q.Some? <==> query.q.Some? && Trim(query.q.value) != ""
    ensures r.q.Some? ==> r.q.value == Trim(query.q.value)
  {
    var q := if query.q.Some? && Trim(query.q.value) != "" then Some(Trim(query.q.value)) else None;
    Params(q, query.active, ClampLimit(query.limit))
  }

  /** The query that asks for exactly these parameters. */
  function AsQuery(p: Params): Query {
    Query(p.q, p.active, Some(p.limit))
  }

  /** Normalised parameters pass through a second normalisation unchanged. */
  lemma NormaliseIdempotent(query: Query)
    ensures Normalise(AsQuery(Normalise(query))) == Normalise(query)
  {
    if query.q.Some? {
      TrimIdempotent(query.q.value);
    }
  }
}
