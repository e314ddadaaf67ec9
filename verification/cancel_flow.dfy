/** `CancelFlow` (`whatsapp/application/flows/cancel.flow`): listing the sender's upcoming
    bookings, paging through them, asking for confirmation and calling the cancel use case.
    What the outside world answers is gathered in a `World`: the bookings table, the current
    instant, the contact directory, whether the messenger can send list messages, the host-local
    day of a booking, the phone of a booking's contact, the configuration of the cancel use
    case and whether the repository's `cancel` rejects. */
module CancelFlow {
  import opened Wrappers
  import opened Text
  import opened Seqs
  import opened FlowHelpers
  import opened Bookings
  import opened Sessions
  import opened Conversation
  import CancelBooking

  datatype World = World(
    db: seq<Booking>,
    now: int,
    contacts: string -> Contact,
    hasList: bool,
    dayKey: Booking -> string,
    waPhoneOf: string -> Option<string>,
    cfg: CancelBooking.Config,
    cancelError: Option<string>)

  /** At most this many rows in the list message, and this many buttons per page. */
  const ListLimit: nat := 10
  const PageSize: nat := 3

  /** The reason the flow gives the cancel use case. */
  const Reason: string := "Cancelación solicitada por WhatsApp"

  // ---------------------------------------------------------------- ensureContactId

  /** `ensureContactId`: the session's contact, or the contact found or created for the
      normalised number, stored in the session. */
  function EnsureContact(s: Session, from: string, contacts: string -> Contact): (r: Session)
    ensures r.contactId.Some?
    ensures Truthy(s.contactId) ==> r == s
    ensures !Truthy(s.contactId) ==> r == s.(contactId := Some(contacts(NormalizeE164(from)).id))
  {
    if Truthy(s.contactId) then s else s.(contactId := Some(contacts(NormalizeE164(from)).id))
  }

  /** The write `ensureContactId` leaves when nothing else is written after it. */
  function ContactWrite(s: Session, s1: Session): Write {
    if Truthy(s.contactId) then Keep else Put(s1)
  }

  // ---------------------------------------------------------------- upcoming

  /** A booking the contact may be offered: theirs, not cancelled, starting after now. */
  predicate Cancellable(b: Booking, contactId: string, now: int) {
    b.contactId == Some(contactId) && b.status != Cancelled && b.start > now
  }

  function StartOf(b: Booking): int {
    b.start
  }

  /** The contact's bookings that are not cancelled, then those still to start, sorted by
      start (a stable sort). */
  function Upcoming(db: seq<Booking>, contactId: string, now: int): (r: seq<Booking>)
    ensures SortedBy(r, StartOf)
    ensures multiset(r) == multiset(Filter(db, b => Cancellable(b, contactId, now)))
    ensures forall b :: b in r <==> b in db && Cancellable(b, contactId, now)
  {
    var mine := Filter(db, (b: Booking) => b.contactId == Some(contactId) && b.status != Cancelled);
    var later := Filter(mine, (b: Booking) => b.start > now);
    FilterCongruent(mine, (b: Booking) => b.start > now, b => Cancellable(b, contactId, now));
    FilterFilter(db, (b: Booking) => b.contactId == Some(contactId) && b.status != Cancelled,
                 b => Cancellable(b, contactId, now));
    SortKeepsMembers(later, StartOf);
    SortBy(later, StartOf)
  }

  function CancelId(b: Booking): string {
    "CANCEL:" + b.id
  }

  function Ids(rows: seq<Booking>): (r: seq<string>)
    ensures |r| == |rows|
    ensures forall i :: 0 <= i < |rows| ==> r[i] == rows[i].id
  {
    Map(rows, (b: Booking) => b.id)
  }

  /** The group of key `k`, empty when the key is not there. */
  function GroupOf(groups: map<string, seq<Booking>>, k: string): seq<Booking> {
    if k in groups then groups[k] else []
  }

  /** The sections of the list message: one per day, in order of first appearance, its rows
      the bookings of that day. */
  function Sections(limited: seq<Booking>, dayKey: Booking -> string): seq<Section> {
    var groups := GroupBy(limited, dayKey);
    Map(Keys(limited, dayKey), k => Section(k, Map(GroupOf(groups, k), CancelId)))
  }

  /** The message sent after the first page of buttons when more bookings follow. */
  function MorePrompt(more: bool, next: int): seq<Prompt> {
    if more then [Buttons(MoreOptions, ["CANCEL_PAGE:" + IntToString(next)])] else []
  }

  // ---------------------------------------------------------------- list

  /** `list`: nothing to offer, a list message of at most ten bookings grouped by day, or the
      first three as buttons with the hint to answer with a digit. The bookings offered are
      remembered as `cancelOptions`. */
  function ListBookings(s: Session, from: string, w: World): (t: Turn)
    ensures t.call == NoCall && !t.failed
    ensures var s1 := EnsureContact(s, from, w.contacts);
      |Upcoming(w.db, s1.contactId.value, w.now)| == 0 <==> t.prompts == [Text(NoUpcoming)]
  {
    var s1 := EnsureContact(s, from, w.contacts);
    var up := Upcoming(w.db, s1.contactId.value, w.now);
    if |up| == 0 then Turn(ContactWrite(s, s1), [Text(NoUpcoming)], NoCall, false)
    else if w.hasList then
      var limited := Take(up, ListLimit);
      Turn(Put(s1.(step := CancelChoose, cancelOptions := Some(Ids(limited)))),
           [List(Sections(limited, w.dayKey))], NoCall, false)
    else
      var page := Take(up, PageSize);
      Turn(Put(s1.(step := CancelChoose, cancelOptions := Some(Ids(page)))),
           [Buttons(ChooseBooking, Map(page, CancelId))] + MorePrompt(|up| > PageSize, 2) + [Text(DigitHint)],
           NoCall, false)
  }

  /** With something to offer, the session moves to `cancel_choose` and its options are the
      ids of the first ten (list) or three (buttons) upcoming bookings of the contact, earliest
      first: each is cancellable, and none starts after a booking left out. */
  lemma ListOffersEarliest(s: Session, from: string, w: World)
    requires var s1 := EnsureContact(s, from, w.contacts);
      |Upcoming(w.db, s1.contactId.value, w.now)| > 0
    ensures var s1 := EnsureContact(s, from, w.contacts);
      var cid := s1.contactId.value;
      var up := Upcoming(w.db, cid, w.now);
      var n := if w.hasList then ListLimit else PageSize;
      ListBookings(s, from, w).write == Put(s1.(step := CancelChoose, cancelOptions := Some(Ids(Take(up, n)))))
      && (forall i :: 0 <= i < |up| ==> up[i] in w.db && Cancellable(up[i], cid, w.now))
      && (forall i, j :: 0 <= i < n <= j < |up| ==> up[i].start <= up[j].start)
  {
    var s1 := EnsureContact(s, from, w.contacts);
    var up := Upcoming(w.db, s1.contactId.value, w.now);
    UpcomingAt(w.db, s1.contactId.value, w.now);
    PrefixEarliest(up, if w.hasList then ListLimit else PageSize);
  }

  lemma UpcomingAt(db: seq<Booking>, contactId: string, now: int)
    ensures var up := Upcoming(db, contactId, now);
      forall i :: 0 <= i < |up| ==> up[i] in db && Cancellable(up[i], contactId, now)
  {
    var up := Upcoming(db, contactId, now);
    forall i | 0 <= i < |up|
      ensures up[i] in db && Cancellable(up[i], contactId, now)
    {
      assert up[i] in up;
    }
  }

  /** In a sequence sorted by start, none of the first `n` starts after one of the rest. */
  lemma PrefixEarliest(up: seq<Booking>, n: nat)
    requires SortedBy(up, StartOf)
    ensures forall i, j :: 0 <= i < n <= j < |up| ==> up[i].start <= up[j].start
  {
    forall i, j | 0 <= i < n <= j < |up|
      ensures up[i].start <= up[j].start
    {
      assert StartOf(up[i]) <= StartOf(up[j]);
    }
  }

  /** The sections group the bookings by day: one section per day, each day once, titled by
      the day, holding that day's bookings in their order. */
  lemma SectionsByDay(limited: seq<Booking>, dayKey: Booking -> string)
    ensures var sections := Sections(limited, dayKey);
      Distinct(Map(sections, (c: Section) => c.title))
      && (forall i :: 0 <= i < |sections| ==>
            sections[i].ids == Map(Group(limited, dayKey, sections[i].title), CancelId))
      && (forall b :: b in limited ==> exists i :: 0 <= i < |sections| && sections[i].title == dayKey(b))
  {
    var sections := Sections(limited, dayKey);
    SectionTitles(limited, dayKey);
    KeysSpec(limited, dayKey);
    forall i | 0 <= i < |sections|
      ensures sections[i].ids == Map(Group(limited, dayKey, sections[i].title), CancelId)
    {
      SectionIds(limited, dayKey, i);
    }
    forall b | b in limited
      ensures exists i :: 0 <= i < |sections| && sections[i].title == dayKey(b)
    {
      SectionOfDay(limited, dayKey, b);
    }
  }

  lemma SectionTitles(limited: seq<Booking>, dayKey: Booking -> string)
    ensures Map(Sections(limited, dayKey), (c: Section) => c.title) == Keys(limited, dayKey)
  {
  }

  lemma SectionIds(limited: seq<Booking>, dayKey: Booking -> string, i: int)
    requires 0 <= i < |Sections(limited, dayKey)|
    ensures var c := Sections(limited, dayKey)[i];
      c.ids == Map(Group(limited, dayKey, c.title), CancelId)
  {
    var ks := Keys(limited, dayKey);
    KeysSpec(limited, dayKey);
    GroupBySpec(limited, dayKey);
    assert ks[i] in ks;
  }

  lemma SectionOfDay(limited: seq<Booking>, dayKey: Booking -> string, b: Booking)
    requires b in limited
    ensures exists i :: 0 <= i < |Sections(limited, dayKey)| && Sections(limited, dayKey)[i].title == dayKey(b)
  {
    var ks := Keys(limited, dayKey);
    KeysSpec(limited, dayKey);
    GroupBySpec(limited, dayKey);
    assert dayKey(b) in GroupBy(limited, dayKey);
    var i :| 0 <= i < |ks| && ks[i] == dayKey(b);
    assert Sections(limited, dayKey)[i].title == dayKey(b);
  }

  /** With a list message, its one message lists the first ten upcoming bookings by day. */
  lemma ListSectionsByDay(s: Session, from: string, w: World)
    requires w.hasList
    requires var s1 := EnsureContact(s, from, w.contacts);
      |Upcoming(w.db, s1.contactId.value, w.now)| > 0
    ensures var s1 := EnsureContact(s, from, w.contacts);
      var limited := Take(Upcoming(w.db, s1.contactId.value, w.now), ListLimit);
      ListBookings(s, from, w).prompts == [List(Sections(limited, w.dayKey))]
  {
  }

  // ---------------------------------------------------------------- paginate

  /** `upcoming.slice((page - 1) * 3, (page - 1) * 3 + 3)`; a page that is `NaN` slices from
      0 to 0. */
  function Page(up: seq<Booking>, pageNum: Option<int>): (r: seq<Booking>)
    ensures |r| <= PageSize
    ensures forall b :: b in r ==> b in up
  {
    match pageNum
    case None => []
    case Some(p) => JsSlice(up, (p - 1) * PageSize, (p - 1) * PageSize + PageSize)
  }

  /** `paginate`: the requested page of three as buttons, followed by the button for the next
      page when more follow; the page's bookings become the options, the step is left as is. */
  function Paginate(s: Session, from: string, pageNum: Option<int>, w: World): (t: Turn)
    ensures t.call == NoCall && !t.failed
    ensures t.write.Put? ==> t.write.session.step == s.step
  {
    var s1 := EnsureContact(s, from, w.contacts);
    var up := Upcoming(w.db, s1.contactId.value, w.now);
    var page := Page(up, pageNum);
    if |page| == 0 then Turn(ContactWrite(s, s1), [Text(NoMoreBookings)], NoCall, false)
    else
      var p := pageNum.value;
      Turn(Put(s1.(cancelOptions := Some(Ids(page)))),
           [Buttons(PageChoice(p), Map(page, CancelId))] + MorePrompt(|up| > (p - 1) * PageSize + PageSize, p + 1),
           NoCall, false)
  }

  function Clamp(x: int): nat {
    if x < 0 then 0 else x
  }

  /** Page `p`, counted from 1, is the window of at most three upcoming bookings from
      position `3(p - 1)`; page 0, a page past the end and `NaN` are empty; a negative page
      counts from the end, as `slice` does with negative bounds. */
  lemma PageWindow(up: seq<Booking>, pageNum: Option<int>)
    ensures var inRange := pageNum.Some? && pageNum.value >= 1 && (pageNum.value - 1) * PageSize < |up|;
      (!inRange && (pageNum.None? || pageNum.value >= 0) ==> Page(up, pageNum) == [])
      && (inRange ==>
            var from := (pageNum.value - 1) * PageSize;
            var to := if from + PageSize < |up| then from + PageSize else |up|;
            Page(up, pageNum) == up[from..to])
      && (pageNum.Some? && pageNum.value < 0 ==>
            Page(up, pageNum) == up[Clamp(|up| + (pageNum.value - 1) * PageSize)..Clamp(|up| + pageNum.value * PageSize)])
  {
  }

  /** Page `p` shows that window as buttons and offers the next page exactly when bookings
      remain after it; the window's bookings become the options. Page 0, `NaN`, or a page past
      the end only says there is nothing more. */
  lemma PaginateWindow(s: Session, from: string, pageNum: Option<int>, w: World)
    ensures var s1 := EnsureContact(s, from, w.contacts);
      var up := Upcoming(w.db, s1.contactId.value, w.now);
      var t := Paginate(s, from, pageNum, w);
      var inRange := pageNum.Some? && pageNum.value >= 1 && (pageNum.value - 1) * PageSize < |up|;
      (!inRange && (pageNum.None? || pageNum.value >= 0) ==>
         t == Turn(ContactWrite(s, s1), [Text(NoMoreBookings)], NoCall, false))
      && (inRange ==>
            var from := (pageNum.value - 1) * PageSize;
            var to := if from + PageSize < |up| then from + PageSize else |up|;
            t.write == Put(s1.(cancelOptions := Some(Ids(up[from..to]))))
            && t.prompts[0] == Buttons(PageChoice(pageNum.value), Map(up[from..to], CancelId))
            && (|t.prompts| == 2 <==> to < |up|)
            && |t.prompts| <= 2)
  {
    var s1 := EnsureContact(s, from, w.contacts);
    var up := Upcoming(w.db, s1.contactId.value, w.now);
    PageWindow(up, pageNum);
  }

  /** The first page holds the same bookings as the buttons `list` sends. */
  lemma FirstPageIsListPage(s: Session, from: string, w: World)
    requires !w.hasList
    requires var s1 := EnsureContact(s, from, w.contacts);
      |Upcoming(w.db, s1.contactId.value, w.now)| > 0
    ensures Paginate(s, from, Some(1), w).write.session.cancelOptions
            == ListBookings(s, from, w).write.session.cancelOptions
  {
    var s1 := EnsureContact(s, from, w.contacts);
    var up := Upcoming(w.db, s1.contactId.value, w.now);
    PageWindow(up, Some(1));
    assert Page(up, Some(1)) == Take(up, PageSize);
  }

  // ---------------------------------------------------------------- askConfirm

  /** The id of the confirm button; `undefined` when no id was chosen. */
  function ConfirmId(id: Option<string>): string {
    "CONFIRM_CANCEL:" + FieldText(id)
  }

  /** `askConfirm`: remember the booking to cancel, move to `cancel_confirm` and offer yes or
      no. */
  function AskConfirm(s: Session, id: Option<string>): (t: Turn)
    ensures t.write.Put? && t.write.session.step == CancelConfirm
    ensures t.write.session.bookingIdToCancel == id
    ensures t.write.session.(step := s.step, bookingIdToCancel := s.bookingIdToCancel) == s
    ensures t.prompts == [Buttons(ConfirmCancel, [ConfirmId(id), "CANCEL_BACK"])]
    ensures t.call == NoCall && !t.failed
  {
    Turn(Put(s.(bookingIdToCancel := id, step := CancelConfirm)),
         [Buttons(ConfirmCancel, [ConfirmId(id), "CANCEL_BACK"])], NoCall, false)
  }

  // ---------------------------------------------------------------- confirm

  /** The text shown for a failed cancellation, from its lower-cased message. */
  function ErrorText(message: string): TextKind {
    TextOfLower(ToLower(message))
  }

  function TextOfLower(m: string): TextKind {
    if Contains(m, "too late") then CancelTooLate
    else if Contains(m, "not allowed") then CancelNotAllowed
    else if Contains(m, "not found") then CancelNotFound
    else CancelFailed
  }

  /** `findById(id)`: the first row with that id. */
  function FindById(db: seq<Booking>, id: string): (r: Option<Booking>)
    ensures r.Some? <==> exists b :: b in db && b.id == id
    ensures r.Some? ==> r.value in db && r.value.id == id
  {
    if |db| == 0 then None
    else if db[0].id == id then Some(db[0])
    else
      var r := FindById(db[1..], id);
      assert forall b :: b in db[1..] ==> b in db;
      assert forall b :: b in db && b != db[0] ==> b in db[1..];
      r
  }

  /** The booking id of a confirm payload: the second `:` field, trimmed. */
  function ConfirmedId(payload: string): Option<string> {
    match Field(payload, ':', 1)
    case None => None
    case Some(f) => Some(Trim(f))
  }

  /** `cancelBooking.execute(id, { reason, by: 'wa:' + normalizeE164(from) })`. */
  function CancelOutcome(id: string, from: string, w: World): Result<CancelBooking.Done, CancelBooking.Failure> {
    var found := FindById(w.db, id);
    var waPhone := if found.Some? then w.waPhoneOf(found.value.id) else None;
    CancelBooking.Execute(id, CancelBooking.Request(Some(Reason), Some("wa:" + NormalizeE164(from))),
                          found, waPhone, w.now, w.cfg)
  }

  /** What `confirm` shows after calling the use case; the repository's `cancel` may still
      reject. */
  function Outcome(r: Result<CancelBooking.Done, CancelBooking.Failure>, cancelError: Option<string>): (t: Turn)
    ensures t.write == Drop && !t.failed && |t.prompts| == 1
    ensures t.prompts == [Text(CancelDone)] <==> r.Ok? && (r.value.Cancel? ==> cancelError.None?)
    ensures t.call.CancelRequest? <==> r.Ok? && r.value.Cancel?
  {
    match r
    case Err(e) => Turn(Drop, [Text(ErrorText(e.message))], NoCall, false)
    case Ok(AlreadyCancelled(_)) => Turn(Drop, [Text(CancelDone)], NoCall, false)
    case Ok(Cancel(id, reason, tag)) =>
      var call := CancelRequest(id, reason, tag);
      match cancelError
      case None => Turn(Drop, [Text(CancelDone)], call, false)
      case Some(msg) => Turn(Drop, [Text(ErrorText(msg))], call, false)
  }

  /** `confirm`: a payload naming another booking than the one asked about is refused; else
      the cancel use case runs for the sender's number. The session is deleted either way. */
  function Confirm(s: Session, from: string, payload: string, w: World): (t: Turn)
    ensures t.write == Drop && !t.failed && |t.prompts| == 1
    ensures !Truthy(ConfirmedId(payload)) || ConfirmedId(payload) != s.bookingIdToCancel ==>
      t.prompts == [Text(SelectionInvalid)] && t.call == NoCall
    ensures t.call.CancelRequest? ==>
      Some(t.call.id) == s.bookingIdToCancel && t.call.reason == Some(Reason)
      && t.call.tag == "wa:" + NormalizeE164(from)
    ensures !t.call.Create?
  {
    var bookingId := ConfirmedId(payload);
    if !Truthy(bookingId) || bookingId != s.bookingIdToCancel then
      Turn(Drop, [Text(SelectionInvalid)], NoCall, false)
    else
      Outcome(CancelOutcome(bookingId.value, from, w), w.cancelError)
  }

  /** The second field of `a:b` when neither part holds the separator. */
  lemma SecondField(a: string, b: string, c: char)
    requires c !in a && c !in b
    ensures Field(a + [c] + b, c, 1) == Some(b)
  {
    SplitTwo(a, b, c);
  }

  /** The confirm button `askConfirm` sends for a real id (no `:`, no surrounding white space)
      passes the check in `confirm`; the one sent for a missing id never does. */
  lemma ConfirmButtonRoundTrip(s: Session, id: Option<string>)
    requires id.Some? ==> id.value != "" && ':' !in id.value && Trim(id.value) == id.value
    ensures var s1 := AskConfirm(s, id).write.session;
      (ConfirmedId(ConfirmId(id)) == s1.bookingIdToCancel) <==> id.Some?
  {
    var pre := "CONFIRM_CANCEL";
    assert ':' !in pre;
    var v := FieldText(id);
    assert ConfirmId(id) == pre + [':'] + v;
    if id.Some? {
      SecondField(pre, v, ':');
    } else {
      assert ConfirmedId(ConfirmId(id)).Some? by {
        assert ':' !in v;
        SecondField(pre, v, ':');
      }
    }
  }

  lemma ContainsSuffix(a: string, b: string)
    ensures Contains(a + b, b)
  {
    assert (a + b)[|a|..|a| + |b|] == b;
    ContainsAt(a + b, b, |a|);
  }

  lemma ContainsPrefix(a: string, b: string)
    ensures Contains(a + b, a)
  {
    assert (a + b)[..|a|] == a;
  }

  /** The messages of the cancel use case map to their texts: too late, not found, and the
      generic text for a refused already cancelled booking. */
  lemma ErrorTextTooLate()
    ensures ErrorText(CancelBooking.MsgTooLate) == CancelTooLate
  {
    assert ToLower(CancelBooking.MsgTooLate) == "too late" + " to cancel";
    ContainsPrefix("too late", " to cancel");
  }

  lemma ErrorTextNotFound()
    ensures ErrorText(CancelBooking.MsgNotFound) == CancelNotFound
  {
    var m := "booking " + "not found";
    assert ToLower(CancelBooking.MsgNotFound) == m;
    assert 'l' !in m;
    NotContainsMissingChar(m, "too late", 'l');
    NotContainsMissingChar(m, "not allowed", 'l');
    ContainsSuffix("booking ", "not found");
  }

  lemma LowerAlreadyCancelled()
    ensures ToLower(CancelBooking.MsgAlreadyCancelled) == "booking already cancelled"
  {
  }

  lemma NoTInAlreadyCancelled()
    ensures 't' !in "booking already cancelled"
  {
  }

  lemma ErrorTextAlreadyCancelled()
    ensures ErrorText(CancelBooking.MsgAlreadyCancelled) == CancelFailed
  {
    var m := "booking already cancelled";
    LowerAlreadyCancelled();
    NoTInAlreadyCancelled();
    NotContainsMissingChar(m, "too late", 't');
    NotContainsMissingChar(m, "not allowed", 't');
    NotContainsMissingChar(m, "not found", 't');
  }

  lemma LowerKeepsPrefix(s: string, p: string)
    requires StartsWith(s, p)
    ensures StartsWith(ToLower(s), ToLower(p))
  {
    assert ToLower(s)[..|p|] == ToLower(p);
  }

  /** A message starting with `Not allowed` reaches the not-allowed test. */
  lemma ErrorTextOfNotAllowed(message: string)
    requires StartsWith(message, "Not allowed")
    ensures ErrorText(message) in {CancelTooLate, CancelNotAllowed}
  {
    LowerKeepsPrefix(message, "Not allowed");
    assert ToLower("Not allowed") == "not allowed";
  }

  /** Both refusals of the owner check reach the not-allowed test. */
  lemma ErrorTextNotAllowed()
    ensures ErrorText(CancelBooking.MsgNotAllowed) in {CancelTooLate, CancelNotAllowed}
    ensures ErrorText(CancelBooking.MsgOwnerUnknown) in {CancelTooLate, CancelNotAllowed}
  {
    assert StartsWith(CancelBooking.MsgNotAllowed, "Not allowed");
    ErrorTextOfNotAllowed(CancelBooking.MsgNotAllowed);
    assert StartsWith(CancelBooking.MsgOwnerUnknown, "Not allowed");
    ErrorTextOfNotAllowed(CancelBooking.MsgOwnerUnknown);
  }

  /** The cancellation is confirmed to the user exactly when the use case succeeds and, when
      it asks the repository to cancel, the repository does. */
  lemma ConfirmDoneIff(s: Session, from: string, payload: string, w: World)
    requires Truthy(ConfirmedId(payload)) && ConfirmedId(payload) == s.bookingIdToCancel
    ensures var r := CancelOutcome(s.bookingIdToCancel.value, from, w);
      Confirm(s, from, payload, w).prompts == [Text(CancelDone)]
      <==> r.Ok? && (r.value.Cancel? ==> w.cancelError.None?)
  {
  }

  /** The cancel flow only touches the contact, the options and the booking to cancel, or
      moves to a cancel step, so it keeps a session well formed. */
  lemma ContactKeepsWf(s: Session, from: string, contacts: string -> Contact)
    requires Wf(s)
    ensures var s1 := EnsureContact(s, from, contacts);
      Wf(s1) && WriteWf(ContactWrite(s, s1))
  {
  }

  lemma ListKeepsWf(s: Session, from: string, w: World)
    requires Wf(s)
    ensures WriteWf(ListBookings(s, from, w).write)
  {
    ContactKeepsWf(s, from, w.contacts);
  }

  lemma PaginateKeepsWf(s: Session, from: string, pageNum: Option<int>, w: World)
    requires Wf(s)
    ensures WriteWf(Paginate(s, from, pageNum, w).write)
  {
    ContactKeepsWf(s, from, w.contacts);
  }

  lemma AskConfirmKeepsWf(s: Session, id: Option<string>)
    requires Wf(s)
    ensures WriteWf(AskConfirm(s, id).write)
  {
  }
}
