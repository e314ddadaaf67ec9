/** `CourtBaseRateRepositoryTypeorm` and `ChangeCourtBaseRateUseCase` (`courts`): the history
    of each court's base rate as a ledger of records. A record applies from `effectiveFrom` until
    `effectiveTo`, and is open while `effectiveTo` is null. Instants are integers
    (milliseconds). The transaction that locks the open record, closes it and inserts the new
    one is a single step here. */
module RateLedger {
  import opened Wrappers
  import opened Seqs

  /** A row of `court_base_rate_history` (its id and audit stamps left out). */
  datatype Record = Record(
    courtId: int,
    amPrice: int,
    pmPrice: int,
    currency: string,
    priceCutoff: Option<string>,
    effectiveFrom: int,
    effectiveTo: Option<int>,
    setByAdminId: Option<string>)

  /** `BaseRateAtResult`: what the repository hands back for a record. */
  datatype RateAt = RateAt(
    courtId: int,
    amPrice: int,
    pmPrice: int,
    currency: string,
    priceCutoff: Option<string>,
    effectiveFrom: int,
    effectiveTo: Option<int>)

  /** `ChangeBaseRateParams`; `None` is a missing or null field. */
  datatype Params = Params(
    courtId: int,
    amPrice: int,
    pmPrice: int,
    currency: Option<string>,
    priceCutoff: Option<string>,
    setByAdminId: Option<string>)

  type Ledger = seq<Record>

  datatype Failure = PriceInvalid

  const DefaultCurrency := "CLP"
  const DefaultHistoryLimit := 50

  function View(r: Record): RateAt {
    RateAt(r.courtId, r.amPrice, r.pmPrice, r.currency, r.priceCutoff, r.effectiveFrom, r.effectiveTo)
  }

  predicate IsOpen(r: Record, court: int) {
    r.courtId == court && r.effectiveTo.None?
  }

  /** No court has two open records. */
  predicate AtMostOneOpen(l: Ledger) {
    forall i, j :: 0 <= i < j < |l| && l[i].courtId == l[j].courtId ==> !(IsOpen(l[i], l[i].courtId) && IsOpen(l[j], l[j].courtId))
  }

  /** The ledger as the clock reads `now`: no record starts or ends after `now`, and no court
      has two open records. */
  predicate LedgerWf(l: Ledger, now: int) {
    AtMostOneOpen(l)
    && forall i :: 0 <= i < |l| ==>
         l[i].effectiveFrom <= now && (l[i].effectiveTo.Some? ==> l[i].effectiveTo.value <= now)
  }

  // ---------------------------------------------------------------- changeBaseRate

  /** The open record of `court` the locked query finds, searched from position `k` on. */
  function FindOpenFrom(l: Ledger, court: int, k: nat): (r: Option<nat>)
    requires k <= |l|
    ensures r.Some? ==> k <= r.value < |l| && IsOpen(l[r.value], court)
                        && forall j :: k <= j < r.value ==> !IsOpen(l[j], court)
    ensures r.None? ==> forall j :: k <= j < |l| ==> !IsOpen(l[j], court)
    decreases |l| - k
  {
    if k == |l| then None
    else if IsOpen(l[k], court) then Some(k)
    else FindOpenFrom(l, court, k + 1)
  }

  function FindOpen(l: Ledger, court: int): Option<nat> {
    FindOpenFrom(l, court, 0)
  }

  /** The record `changeBaseRate` inserts. */
  function NewRecord(p: Params, now: int): Record {
    Record(p.courtId, p.amPrice, p.pmPrice, p.currency.GetOr(DefaultCurrency), p.priceCutoff,
           now, None, p.setByAdminId)
  }

  /** `changeBaseRate(params)` at `now`: the court's open record, if any, is closed at `now`
      and a record open from `now` is appended; the result mirrors the new record. */
  function ChangeBaseRate(l: Ledger, p: Params, now: int): (r: (Ledger, RateAt))
    ensures |r.0| == |l| + 1
  {
    var closed := match FindOpen(l, p.courtId)
      case None => l
      case Some(i) => l[i := l[i].(effectiveTo := Some(now))];
    var created := NewRecord(p, now);
    (closed + [created], View(created))
  }

  /** The appended record and the returned value carry the parameters, the currency defaulting
      to `CLP`, and are open from `now`. */
  lemma ChangeBaseRateCreates(l: Ledger, p: Params, now: int)
    ensures var r := ChangeBaseRate(l, p, now);
      var n := r.0[|l|];
      n.courtId == p.courtId && n.amPrice == p.amPrice && n.pmPrice == p.pmPrice
      && (p.currency.Some? ==> n.currency == p.currency.value)
      && (p.currency.None? ==> n.currency == "CLP")
      && n.priceCutoff == p.priceCutoff && n.setByAdminId == p.setByAdminId
      && n.effectiveFrom == now && n.effectiveTo == None
      && r.1 == RateAt(n.courtId, n.amPrice, n.pmPrice, n.currency, n.priceCutoff, now, None)
  {
  }

  /** `l[i]` is the first open record of `court`, the one the locked query finds. */
  predicate IsFirstOpen(l: Ledger, court: int, i: nat)
    requires i < |l|
  {
    IsOpen(l[i], court) && forall j :: 0 <= j < i ==> !IsOpen(l[j], court)
  }

  /** Every earlier record stays where it was; the first open record of the court gets
      `effectiveTo = now` and nothing else changes in it, every other record is untouched. */
  lemma ChangeBaseRateCloses(l: Ledger, p: Params, now: int)
    ensures var r := ChangeBaseRate(l, p, now);
      forall i :: 0 <= i < |l| ==>
        (IsFirstOpen(l, p.courtId, i) ==> r.0[i] == l[i].(effectiveTo := Some(now)))
        && (!IsFirstOpen(l, p.courtId, i) ==> r.0[i] == l[i])
  {
  }

  /** Records of other courts are untouched, and so is every court's sequence of records but
      the one whose rate changes. */
  lemma ChangeBaseRateOtherCourts(l: Ledger, p: Params, now: int, c: int)
    requires c != p.courtId
    ensures var r := ChangeBaseRate(l, p, now);
      Filter(r.0, (x: Record) => x.courtId == c) == Filter(l, (x: Record) => x.courtId == c)
  {
    var r := ChangeBaseRate(l, p, now);
    var closed := r.0[..|l|];
    assert r.0 == closed + [r.0[|l|]];
    FilterAppend(closed, r.0[|l|], (x: Record) => x.courtId == c);
    FilterAgree(closed, l, (x: Record) => x.courtId == c);
  }

  /** Two sequences of the same length that differ only where the predicate fails on both
      filter alike. */
  lemma {:induction false} FilterAgree(a: seq<Record>, b: seq<Record>, keep: Record -> bool)
    requires |a| == |b|
    requires forall i :: 0 <= i < |a| ==> keep(a[i]) == keep(b[i]) && (keep(a[i]) ==> a[i] == b[i])
    ensures Filter(a, keep) == Filter(b, keep)
    decreases |a|
  {
    if |a| > 0 {
      var n := |a| - 1;
      assert a == a[..n] + [a[n]];
      assert b == b[..n] + [b[n]];
      FilterAgree(a[..n], b[..n], keep);
      FilterAppend(a[..n], a[n], keep);
      FilterAppend(b[..n], b[n], keep);
    }
  }

  /** With at most one open record per court before, the court whose rate changes has exactly
      one afterwards, the new one, and still no court has two. */
  lemma ChangeLeavesOneOpen(l: Ledger, p: Params, now: int)
    requires AtMostOneOpen(l)
    ensures var r := ChangeBaseRate(l, p, now);
      IsOpen(r.0[|l|], p.courtId)
      && (forall i :: 0 <= i < |l| ==> !IsOpen(r.0[i], p.courtId))
      && AtMostOneOpen(r.0)
  {
    var r := ChangeBaseRate(l, p, now);
    ChangeBaseRateCloses(l, p, now);
    forall i, j | 0 <= i < j < |r.0| && r.0[i].courtId == r.0[j].courtId
      ensures !(IsOpen(r.0[i], r.0[i].courtId) && IsOpen(r.0[j], r.0[j].courtId))
    {
      if j < |l| {
        if r.0[i].courtId != p.courtId {
          assert r.0[i] == l[i] && r.0[j] == l[j];
        }
      } else {
        assert r.0[i].courtId == p.courtId;
      }
    }
  }

  /** A change at `now` keeps the ledger well formed for every later reading of the clock. */
  lemma ChangeKeepsLedgerWf(l: Ledger, p: Params, now: int, later: int)
    requires LedgerWf(l, now) && now <= later
    ensures LedgerWf(ChangeBaseRate(l, p, now).0, later)
  {
    ChangeLeavesOneOpen(l, p, now);
    ChangeBaseRateCloses(l, p, now);
  }

  // ---------------------------------------------------------------- getBaseRateAt

  /** `r` is a record of `court` in force at `at`: started, and not yet ended. */
  predicate Covers(r: Record, court: int, at: int) {
    r.courtId == court && r.effectiveFrom <= at && (r.effectiveTo.None? || r.effectiveTo.value > at)
  }

  /** The covering record with the latest `effectiveFrom`; among equals, the earliest one of
      the ledger. */
  function Latest(l: Ledger, court: int, at: int): (r: Option<Record>)
    ensures r.Some? <==> exists x :: x in l && Covers(x, court, at)
    ensures r.Some? ==> r.value in l && Covers(r.value, court, at)
                        && forall x :: x in l && Covers(x, court, at) ==> x.effectiveFrom <= r.value.effectiveFrom
    decreases |l|
  {
    if |l| == 0 then None
    else
      var n := |l| - 1;
      assert l == l[..n] + [l[n]];
      var prev := Latest(l[..n], court, at);
      if Covers(l[n], court, at) && (prev.None? || l[n].effectiveFrom > prev.value.effectiveFrom)
      then Some(l[n])
      else prev
  }

  /** `getBaseRateAt(courtId, at)`. */
  function GetBaseRateAt(l: Ledger, court: int, at: int): (r: Option<RateAt>)
    ensures r.Some? <==> exists x :: x in l && Covers(x, court, at)
    ensures r.Some? ==> exists x :: x in l && Covers(x, court, at) && r.value == View(x)
                                    && forall y :: y in l && Covers(y, court, at) ==> y.effectiveFrom <= x.effectiveFrom
  {
    match Latest(l, court, at)
    case None => None
    case Some(x) => Some(View(x))
  }

  /** Right after a change at `now`, the rate in force at `now` is the one just set. */
  lemma ChangeThenLookup(l: Ledger, p: Params, now: int)
    requires LedgerWf(l, now)
    ensures var r := ChangeBaseRate(l, p, now);
      GetBaseRateAt(r.0, p.courtId, now) == Some(r.1)
  {
    var r := ChangeBaseRate(l, p, now);
    ChangeBaseRateCloses(l, p, now);
    ChangeLeavesOneOpen(l, p, now);
    var n := |l|;
    assert r.0 == r.0[..n] + [r.0[n]];
    forall x | x in r.0[..n]
      ensures !Covers(x, p.courtId, now)
    {
      var i :| 0 <= i < n && r.0[..n][i] == x;
      assert r.0[i] == x;
    }
    assert Latest(r.0[..n], p.courtId, now) == None;
  }

  // ---------------------------------------------------------------- listHistory

  /** Minus the start, so that an ascending sort puts the newest first. */
  function NewestFirst(r: Record): int {
    -r.effectiveFrom
  }

  /** `listHistory(courtId, limit = 50)`: the court's records, newest `effectiveFrom` first,
      at most `limit` of them; a `take` of 0 sets no limit. */
  function ListHistory(l: Ledger, court: int, limit: Option<nat>): (r: seq<RateAt>)
    ensures var n := limit.GetOr(DefaultHistoryLimit);
      n > 0 ==> |r| <= n
    ensures forall i, j :: 0 <= i < j < |r| ==> r[i].effectiveFrom >= r[j].effectiveFrom
  {
    var rows := SortBy(Filter(l, (x: Record) => x.courtId == court), NewestFirst);
    var n := limit.GetOr(DefaultHistoryLimit);
    var shown := if n == 0 then rows else Take(rows, n);
    Map(shown, View)
  }

  /** The history holds records of that court only, each one of the ledger. */
  lemma ListHistoryOfCourt(l: Ledger, court: int, limit: Option<nat>)
    ensures var r := ListHistory(l, court, limit);
      forall v :: v in r ==> v.courtId == court && exists x :: x in l && v == View(x)
  {
    var mine := Filter(l, (x: Record) => x.courtId == court);
    var rows := SortBy(mine, NewestFirst);
    var r := ListHistory(l, court, limit);
    SortKeepsMembers(mine, NewestFirst);
    forall v | v in r
      ensures v.courtId == court && exists x :: x in l && v == View(x)
    {
      var i :| 0 <= i < |r| && r[i] == v;
      var x := rows[i];
      assert x in mine;
      assert v == View(x);
    }
  }

  /** With no limit in the way the history holds every record of the court, and no more
      entries than the court has records. */
  lemma ListHistoryComplete(l: Ledger, court: int, limit: Option<nat>)
    requires var n := limit.GetOr(DefaultHistoryLimit);
      n == 0 || |Filter(l, (x: Record) => x.courtId == court)| <= n
    ensures var r := ListHistory(l, court, limit);
      |r| == |Filter(l, (x: Record) => x.courtId == court)|
      && forall x :: x in l && x.courtId == court ==> View(x) in r
  {
    var mine := Filter(l, (x: Record) => x.courtId == court);
    var rows := SortBy(mine, NewestFirst);
    var r := ListHistory(l, court, limit);
    SortKeepsMembers(mine, NewestFirst);
    assert r == Map(rows, View);
    forall x | x in l && x.courtId == court
      ensures View(x) in r
    {
      assert x in rows;
      var i :| 0 <= i < |rows| && rows[i] == x;
      assert r[i] == View(x);
    }
  }

  /** The limit cuts the oldest records: with a limit `n` the history holds `n` entries, or all
      the court's records when there are fewer, and a record of the court left out started no
      later than any entry shown. */
  lemma ListHistoryNewest(l: Ledger, court: int, limit: Option<nat>)
    ensures var r := ListHistory(l, court, limit);
      var n := limit.GetOr(DefaultHistoryLimit);
      var count := |Filter(l, (x: Record) => x.courtId == court)|;
      n > 0 ==> |r| == (if n < count then n else count)
    ensures var r := ListHistory(l, court, limit);
      forall x :: x in l && x.courtId == court && View(x) !in r ==>
        forall v :: v in r ==> x.effectiveFrom <= v.effectiveFrom
  {
    var mine := Filter(l, (x: Record) => x.courtId == court);
    var rows := SortBy(mine, NewestFirst);
    var n := limit.GetOr(DefaultHistoryLimit);
    var shown := if n == 0 then rows else Take(rows, n);
    var r := ListHistory(l, court, limit);
    assert shown == rows[..|shown|];
    assert r == Map(rows[..|shown|], View);
    SortKeepsMembers(mine, NewestFirst);
    forall x, v | x in l && x.courtId == court && View(x) !in r && v in r
      ensures x.effectiveFrom <= v.effectiveFrom
    {
      assert x in rows;
      LeftOutIsOlder(rows, |shown|, x, v);
    }
  }

  /** In a list sorted newest first, a record outside the first `m` started no later than any
      of them. */
  lemma LeftOutIsOlder(rows: seq<Record>, m: nat, x: Record, v: RateAt)
    requires SortedBy(rows, NewestFirst) && m <= |rows|
    requires x in rows && View(x) !in Map(rows[..m], View) && v in Map(rows[..m], View)
    ensures x.effectiveFrom <= v.effectiveFrom
  {
    var shown := Map(rows[..m], View);
    var k :| 0 <= k < |rows| && rows[k] == x;
    var i :| 0 <= i < m && shown[i] == v;
    assert NewestFirst(rows[i]) <= NewestFirst(rows[k]);
  }

  // ---------------------------------------------------------------- the use case

  /** `ChangeCourtBaseRateUseCase.execute`: a negative price is refused before the ledger is
      touched; otherwise the parameters go to `changeBaseRate` as they are. */
  function ChangeCourtBaseRate(l: Ledger, p: Params, now: int): (r: Result<(Ledger, RateAt), Failure>)
    ensures r.Err? <==> p.amPrice < 0 || p.pmPrice < 0
    ensures r.Err? ==> r.error == PriceInvalid
    ensures r.Ok? ==> r.value == ChangeBaseRate(l, p, now)
  {
    if p.amPrice < 0 || p.pmPrice < 0 then Err(PriceInvalid)
    else Ok(ChangeBaseRate(l, p, now))
  }
}
