# padel-api booking core, in Dafny

This project models the court-booking engine of padel-api: the WhatsApp bot that books and
cancels padel courts, and the REST-side policies behind it. It covers:

- the time helpers of the bot: the `HH:mm`, `YYYY-MM-DD` and `DD-MM-YYYY` validators and
  conversions, the slot grid, today's cut-off, availability against stored bookings, and
  `makeStartEndTZ`, the conversion of a local date and time in a zone to an instant. That
  conversion has a defect (see "Findings"): it is modelled both as written and corrected, and
  availability both ways, but the bot's flows use the corrected form;
- the flow helpers (`ensureMax`, `normalizeE164`, the date conversions, `groupByDate`);
- the conversation: the session record, the in-memory session store, the message dispatcher,
  and the reservation and cancellation flows, each handler a pure function from the session,
  the payload and what the outside world answers to the store write, the prompts (kind and
  button or row ids) and the repository call it makes;
- the booking policies: who may cancel and until when, and the checks and defaults of
  booking creation;
- pricing: the per-court base-rate ledger (change, point-in-time lookup, history), its price
  check, the daily-override versus court-default selection and the source tag;
- the two booking mappers, the court-listing query normalisation, the roles guard and the JWT
  cookie extractor and payload normalisation.

Modules follow the source files: `Wrappers`, `Text`, `Seqs` and `Calendar` hold the JavaScript
primitives the rest relies on (`Number`, `String`, `split`, `trim`, `toLowerCase`, `filter`,
`sort`, `slice`, `Date.UTC`); `TimeFormats`, `TimeSlots`, `TimeZone` and `Availability` model
`time.utils.ts`; `FlowHelpers` models `helpers.ts`; `Sessions`, `Conversation`,
`ReservationFlow`, `CancelFlow` and `Incoming` model the bot; `Bookings`, `CreateBooking`,
`CancelBooking`, `BookingMapper` and `SchemaMapper` the bookings side; `RateLedger`, `Pricing`
and `ListCourts` the courts side; `RolesGuard` and `JwtStrategy` the auth side.

Repository reads and writes, the clock, the zone, the contact directory and library calls
(`decodeURIComponent`, `toISOString`, `new Date(string)`) are parameters. Instants are integer
milliseconds. A zone is a function from an instant to the wall-clock reading shown there; the
correctness theorems for `makeStartEndTZ` are stated for zones of constant offset.

## Model

| member | source | states |
|---|---|---|
| TimeFormats.ValidHHmmIff | src/whatsapp/application/services/time.utils.ts:32-36 | `isValidHHmm` holds exactly of two digits, a colon and two digits with hour at most 23 and minute at most 59 |
| TimeFormats.ValidHHmmAreFormattedMinutes | src/whatsapp/application/services/time.utils.ts:32-36 | the strings `isValidHHmm` accepts are exactly the 1440 two-digit renderings of a minute of the day |
| TimeFormats.FormatHHmmValid | src/whatsapp/application/services/time.utils.ts:100-103 | every minute of the day, written with two-digit padding, is accepted by `isValidHHmm` and reads back as that minute |
| TimeFormats.ValidHHmmIsFormatted | src/whatsapp/application/services/time.utils.ts:32-36 | every accepted `HH:mm` is the padded rendering of the minute it reads as |
| TimeFormats.ClockFields | src/whatsapp/application/services/time.utils.ts:34 | on a well-shaped `HH:mm`, `split(':').map(Number)` yields the values of its two digit pairs |
| TimeFormats.YmdFields | src/whatsapp/application/services/time.utils.ts:63 | on a well-shaped `YYYY-MM-DD`, `split('-')` gives its three fields and `Number` their digit values |
| TimeFormats.DmyFields | src/whatsapp/application/services/time.utils.ts:23 | the same for `DD-MM-YYYY` |
| TimeFormats.SurvivesDateUtcIff | src/whatsapp/application/services/time.utils.ts:24-29 | the `Date.UTC` read-back test accepts `(y, m, d)` exactly when it is a real Gregorian date with year at least 100 (years 0-99 are remapped and fail) |
| TimeFormats.ValidYMDIff | src/whatsapp/application/services/time.utils.ts:61-70 | `isValidYMD` accepts exactly the well-shaped strings naming a real Gregorian date, leap years included, with year at least 100 |
| TimeFormats.ValidDMYIff | src/whatsapp/application/services/time.utils.ts:21-30 | `isValidDMY` accepts exactly the well-shaped strings naming a real Gregorian date with year at least 100 |
| TimeFormats.YmdToDMYFields | src/whatsapp/application/services/time.utils.ts:13-16 | `ymdToDMY` writes three `-`-free fields back in reverse order |
| TimeFormats.DmyToYMDOfShape | src/whatsapp/application/services/time.utils.ts:17-20 | on a `DD-MM-YYYY`, `dmyToYMD` reverses the fields and the padding adds nothing |
| TimeFormats.DmyToYMDRoundTrip | src/whatsapp/application/services/time.utils.ts:13-20 | `ymdToDMY(dmyToYMD(s)) == s` for every `DD-MM-YYYY` |
| TimeFormats.YmdToDMYRoundTrip | src/whatsapp/application/services/time.utils.ts:13-20 | `dmyToYMD(ymdToDMY(s)) == s` for every `YYYY-MM-DD`, through a well-shaped `DD-MM-YYYY` |
| Calendar.CivilRoundTrip | src/whatsapp/application/services/time.utils.ts:24-29 | a real date survives the trip to a day number and back through the `getUTC*` reading |
| Calendar.MakeDayInYear | src/whatsapp/application/services/time.utils.ts:156 | the `Date.UTC` day arithmetic names the day number of the date when the month is in range |
| Calendar.WallAtIff | src/whatsapp/application/services/time.utils.ts:168-175 | the wall-clock reading of minute `t` is a given valid reading exactly when `t` is that reading's minute number |
| Calendar.WallRoundTrip | src/whatsapp/application/services/time.utils.ts:168-175 | a valid reading is the reading of its own minute number |
| Calendar.MinuteOfInjective | src/whatsapp/application/services/time.utils.ts:168-175 | two valid readings with the same minute number are equal |
| TimeSlots.SlotGridSpec | src/whatsapp/application/services/time.utils.ts:105-111 | the grid is `open + k * slot` for `k < n`, each entry at most `close`, and `open + n * slot` past `close` |
| TimeSlots.SlotGridIncreasing | src/whatsapp/application/services/time.utils.ts:105-108 | the grid is strictly increasing |
| TimeSlots.EarlyExitPastClose | src/whatsapp/application/services/time.utils.ts:109-110 | the loop's early exit fires only once the next start is already past the close, so it never drops a slot |
| TimeSlots.StepSlots | src/whatsapp/application/services/time.utils.ts:105-111 | the loop, early exit included, yields the labels of the grid from the start minute to the close |
| TimeSlots.GenerateBaseSlots | src/whatsapp/application/services/time.utils.ts:90-113 | `generateBaseSlots` returns the labels of the grid from `open` to `close`, both ends included |
| TimeSlots.BaseGridParsed | src/whatsapp/application/services/time.utils.ts:95-98 | with both bounds readable, the grid stepped through is the one between their minute values |
| TimeSlots.ParseClockShape | src/whatsapp/application/services/time.utils.ts:95-96 | a well-shaped `HH:mm` bound reads as the minutes it writes |
| TimeSlots.ParseFormatted | src/whatsapp/application/services/time.utils.ts:95-103 | a formatted minute of the day reads back as itself |
| TimeSlots.SlotLabelInDay | src/whatsapp/application/services/time.utils.ts:100-103 | a slot label within the day is the padded `HH:mm` of its minute |
| TimeSlots.BusinessGrid | src/whatsapp/application/services/time.utils.ts:90-113 | the bot's hours, 07:00 to 23:00 every 60 minutes, give 17 slots from `07:00` to `23:00` inclusive |
| TimeSlots.SlotLabelHour | src/whatsapp/application/services/time.utils.ts:129 | `Number(label.slice(0, 2))` reads a slot label's hour |
| TimeSlots.AvailableHours | src/whatsapp/application/services/time.utils.ts:116-130 | `getAvailableHours` returns an order-keeping subsequence of the grid, and a label is in it iff it is in the grid and, when the date is today, its hour is not before the rounded-up current hour |
| TimeSlots.AvailableHoursSpec | src/whatsapp/application/services/time.utils.ts:116-130 | for another day the grid comes back whole; for today exactly the slots whose hour is at least the rounded-up current hour remain, in grid order |
| TimeZone.DesiredWallOfShapes | src/whatsapp/application/services/time.utils.ts:152-153 | a well-shaped date and time name the wall time their digits write |
| TimeZone.StartEndAsWritten | src/whatsapp/application/services/time.utils.ts:147-187 | `makeStartEndTZ` as written yields an interval exactly when both strings read, and it always lasts 60 minutes |
| TimeZone.StartEndTZ | src/whatsapp/application/services/time.utils.ts:147-187 | the corrected `makeStartEndTZ` yields an interval exactly when both strings read, and it always lasts 60 minutes |
| TimeZone.StartEndTZOf | src/whatsapp/application/services/time.utils.ts:152-186 | once the strings name a wall time, the interval is the corrected start and the hour after it |
| TimeZone.GuessIsMinute | src/whatsapp/application/services/time.utils.ts:156 | from year 100 on, the first guess is the wall time's minute number in milliseconds |
| TimeZone.FixedZoneShows | src/whatsapp/application/services/time.utils.ts:168-175 | a zone of constant offset shows an instant as its UTC reading moved by the offset |
| TimeZone.CorrectedStartValue | src/whatsapp/application/services/time.utils.ts:178-184 | in a zone of constant offset the corrected start is the wanted minute less the offset |
| TimeZone.CorrectedExact | src/whatsapp/application/services/time.utils.ts:152-184 | the corrected start shows exactly the wanted date and time in a zone of constant offset |
| TimeZone.StartEndExactInFixedZone | src/whatsapp/application/services/time.utils.ts:147-187 | for a real date from year 100 on, the corrected interval exists and its start shows the wanted date and time |
| TimeZone.StartEndInFixedZone | src/whatsapp/application/services/time.utils.ts:147-187 | the same interval starts at the wanted minute less the offset and ends an hour later |
| TimeZone.EncodingExactByMonth | src/whatsapp/application/services/time.utils.ts:178-181 | the 31-day-month encoding measures a difference exactly within a month, and across a month boundary exactly when the earlier month has 31 days |
| TimeZone.NextMonthAfter | src/whatsapp/application/services/time.utils.ts:178-180 | across one month boundary, the real gap counts the earlier month's length where the encoding counts 31 days |
| TimeZone.AsWrittenStartValue | src/whatsapp/application/services/time.utils.ts:178-184 | under a constant offset, the source's start is the wanted minute less the encoded difference |
| TimeZone.AsWrittenShows | src/whatsapp/application/services/time.utils.ts:184 | the source's start shows the reading of that minute moved by the offset |
| TimeZone.AsWrittenExactIff | src/whatsapp/application/services/time.utils.ts:152-184 | the source's start shows the wanted time exactly when the encoded and the real difference agree |
| TimeZone.AsWrittenExactByMonth | src/whatsapp/application/services/time.utils.ts:178-184 | the source's start is right when the rendered guess stays in the wanted month, and across a month boundary exactly when the earlier month has 31 days |
| TimeZone.StartEndAsWrittenExactIff | src/whatsapp/application/services/time.utils.ts:147-187 | the same criterion for the interval `makeStartEndTZ` returns |
| TimeZone.AsWrittenAgreesWhenExact | src/whatsapp/application/services/time.utils.ts:178-184 | wherever the encoding is exact, the source's start and the corrected start coincide, in any zone |
| TimeZone.StartEndAgreesWhenExact | src/whatsapp/application/services/time.utils.ts:147-187 | the same for the interval: where the encoding is exact, `makeStartEndTZ` as written returns the corrected interval |
| TimeZone.StartEndAsWrittenOf | src/whatsapp/application/services/time.utils.ts:152-186 | once the strings name a wall time, the source's interval is the source's start and the hour after it |
| TimeZone.FirstOfMonthSeen | src/whatsapp/application/services/time.utils.ts:168-175 | west of UTC, the guess for midnight on the 1st shows as the last evening of the month before |
| TimeZone.FirstOfMonthStart | src/whatsapp/application/services/time.utils.ts:178-184 | west of UTC, the source's start for midnight on the 1st lies `31 - d` days late, `d` the earlier month's length |
| TimeZone.AsWrittenFirstOfMonthIsLate | src/whatsapp/application/services/time.utils.ts:178-184 | west of UTC, after a short month the source's start for midnight on the 1st shows on the `32 - d`th; the corrected start shows the 1st |
| TimeZone.AsWrittenMarchFirstIsLate | src/whatsapp/application/services/time.utils.ts:178-180 | 2025-03-01 00:00 at UTC-3 comes out as 2025-03-04 00:00; the corrected start is right |
| TimeZone.FirstDayEveningSeen | src/whatsapp/application/services/time.utils.ts:168-175 | west of UTC, the guess for 23:59 on the 1st shows on the 1st itself |
| TimeZone.FirstDayEveningStart | src/whatsapp/application/services/time.utils.ts:178-184 | west of UTC, the source's start for 23:59 on the 1st is the real instant |
| TimeZone.AsWrittenDayRangeInverted | src/whatsapp/application/services/time.utils.ts:216-217 | west of UTC, on the 1st after a short month the day's fetch range `[00:00, 23:59]` is inverted, and only then |
| TimeZone.CorrectedDayRangeInOrder | src/whatsapp/application/services/time.utils.ts:216-217 | with the correction, the day's 00:00 and 23:59 starts are always 1439 minutes apart |
| Availability.DateOf | src/whatsapp/application/services/time.utils.ts:152 | a date string reads exactly when its three `-` fields are numbers |
| Availability.FormattedFields | src/whatsapp/application/services/time.utils.ts:153 | a formatted slot time splits back into its hour and minute |
| Availability.DesiredWallFormatted | src/whatsapp/application/services/time.utils.ts:152-156 | a date string with a formatted minute names that date at that minute, and nothing when the date does not read |
| Availability.DayBoundsFormatted | src/whatsapp/application/services/time.utils.ts:216-217 | the fetched range runs from the first to the last minute of the day |
| Availability.DayBoundsReadable | src/whatsapp/application/services/time.utils.ts:216-218 | the day bounds exist exactly when the date reads |
| Availability.SlotLabelReadable | src/whatsapp/application/services/time.utils.ts:222 | every slot label of a readable date gets an interval |
| Availability.BaseSlotsReadable | src/whatsapp/application/services/time.utils.ts:213-222 | every slot of the day's grid gets an interval once the date reads |
| Availability.AvailableHoursForCourt | src/whatsapp/application/services/time.utils.ts:198-230 | `getAvailableHoursForCourt` with the corrected instants succeeds exactly when the date reads, and then returns an order-keeping subsequence of the day's grid |
| Availability.AvailableHoursForCourtSpec | src/whatsapp/application/services/time.utils.ts:198-230 | the call succeeds exactly when the date reads; the result is an order-keeping subsequence of the grid, and a grid slot is kept iff its span overlaps no fetched booking (`start < be && end > bs`, so touching spans stay) |
| Availability.AvailableHoursForCourtNoBookings | src/whatsapp/application/services/time.utils.ts:221-229 | with nothing fetched, the grid comes back unchanged |
| Availability.SlotStartInFixedZone | src/whatsapp/application/services/time.utils.ts:222 | under a constant offset, the slot at minute `t` of a real date starts `t` minutes after that day's local midnight |
| Availability.ClockStartInFixedZone | src/whatsapp/application/services/time.utils.ts:222 | the same for any time string whose fields read as an hour and a minute |
| Availability.AvailableHoursForCourtAsWritten | src/whatsapp/application/services/time.utils.ts:198-230 | `getAvailableHoursForCourt` as written (day range and slot instants from `makeStartEndTZ` as written) fails on the same dates and keeps only grid slots, in order |
| Availability.AsWrittenAvailabilityAgrees | src/whatsapp/application/services/time.utils.ts:213-229 | wherever the source's instants for the day's bounds and for every grid slot are the corrected ones, the source's result is the model's |
| Availability.AsWrittenFirstOfMonthOffersAll | src/whatsapp/application/services/time.utils.ts:213-229 | west of UTC on the 1st after a month shorter than 31 days, with a range query that finds nothing in an inverted range, the source keeps the whole grid, booked slots included |
| Availability.AsWrittenBoundsInverted | src/whatsapp/application/services/time.utils.ts:216-217 | on such a date the source's 23:59 starts before its 00:00 |
| Bookings.FindByCourtAndDateRange | src/events/infrastructure/typeorm/booking.repository.typeorm.ts:27-55 | the range query returns, in table order, exactly the court's rows whose start lies in the closed range, any status |
| Bookings.RangeIsClosed | src/events/infrastructure/typeorm/booking.repository.typeorm.ts:33-36 | a booking starting exactly at the upper bound is found |
| Bookings.InvertedRangeFindsNothing | src/events/infrastructure/typeorm/booking.repository.typeorm.ts:33-36 | a range whose start lies after its end finds no booking |
| Bookings.Spans | src/whatsapp/application/flows/reservation.flow.ts:53-56 | the fetched rows become their `{ startTime, endTime }` pairs, one per row in order |
| FlowHelpers.EnsureMax | src/whatsapp/application/flows/helpers.ts:18-20 | `ensureMax(s, max)` is a prefix of `s`, of length `max` when `s` is longer and `s` itself otherwise |
| FlowHelpers.StripWhatsapp | src/whatsapp/application/flows/helpers.ts:24 | the prefix removal leaves the input or drops exactly its first nine characters |
| FlowHelpers.NormalizeE164 | src/whatsapp/application/flows/helpers.ts:22-28 | the normalised number starts with `+` and holds only digits and `+` |
| FlowHelpers.NormalizeE164Idempotent | src/whatsapp/application/flows/helpers.ts:22-28 | normalising a normalised number changes nothing |
| FlowHelpers.NormalizeE164StripsPrefix | src/whatsapp/application/flows/helpers.ts:23-25 | a leading `whatsapp:` in any letter case is dropped as if it had never been there |
| FlowHelpers.NormalizeE164KeepsDigits | src/whatsapp/application/flows/helpers.ts:23-26 | the digits of the result are those of the input after the prefix, in order |
| FlowHelpers.TrimKeepsDigits | src/whatsapp/application/flows/helpers.ts:25 | `trim` never removes a digit |
| FlowHelpers.YmdToDmyReverses | src/whatsapp/application/flows/helpers.ts:76-79 | `ymdToDmy` copies the three `-` fields verbatim in reverse order |
| FlowHelpers.DmyToYmdOfShape | src/whatsapp/application/flows/helpers.ts:70-75 | on a `DD-MM-YYYY`, `dmyToYmd` writes the year as its number and keeps day and month |
| FlowHelpers.DmyToYmdMissingFields | src/whatsapp/application/flows/helpers.ts:70-75 | with fewer than three `-` fields the missing year, and the missing month, are written `undefined`; `dmyToYmd('01-02')` is `undefined-02-01` |
| FlowHelpers.DmyToYmdSignedDay | src/whatsapp/application/flows/helpers.ts:70-75 | `Number` reads a `+` before the day, so `dmyToYmd('+' + s)` equals `dmyToYmd(s)` for every `DD-MM-YYYY` `s` |
| FlowHelpers.DmyToYmdRoundTripIff | src/whatsapp/application/flows/helpers.ts:70-81 | for a string matching `reDateDMY`, `ymdToDmy(dmyToYmd(s)) == s` exactly when the year has no leading zero |
| FlowHelpers.GroupBy | src/whatsapp/application/flows/helpers.ts:31-51 | no group is empty, and a group holds only items of the input that have its key; completeness and order are `GroupBySpec` |
| FlowHelpers.GroupBySpec | src/whatsapp/application/flows/helpers.ts:31-51 | a key is in the grouping iff some item has it, and its group is exactly the items with that key in input order |
| FlowHelpers.GroupByPartitions | src/whatsapp/application/flows/helpers.ts:39-47 | each item lands in the group of its key and in no other |
| FlowHelpers.KeysSpec | src/whatsapp/application/flows/helpers.ts:39-50 | the keys in order of first appearance are distinct and are exactly the grouping's keys |
| FlowHelpers.GroupByCount | src/whatsapp/application/flows/helpers.ts:31-51 | the group sizes add up to the number of items |
| Sessions.Get | src/whatsapp/infrastructure/session/memory.session.store.ts:8 | `get` finds a session exactly for a stored key, and it is the stored one |
| Sessions.Set | src/whatsapp/infrastructure/session/memory.session.store.ts:9 | `set` adds its key to the stored keys |
| Sessions.Del | src/whatsapp/infrastructure/session/memory.session.store.ts:10 | `del` removes its key from the stored keys |
| Sessions.GetAfterSet | src/whatsapp/infrastructure/session/memory.session.store.ts:8-9 | `get(k)` after `set(k, v)` returns `v` |
| Sessions.GetAfterDel | src/whatsapp/infrastructure/session/memory.session.store.ts:8-10 | `get(k)` after `del(k)` returns `undefined` |
| Sessions.OtherKeysUnchanged | src/whatsapp/infrastructure/session/memory.session.store.ts:9-10 | `set` and `del` on one key leave every other key as it was |
| Sessions.LastWriteWins | src/whatsapp/infrastructure/session/memory.session.store.ts:9 | the last `set` on a key wins |
| Sessions.DelAbsent | src/whatsapp/infrastructure/session/memory.session.store.ts:10 | `del` of an absent key changes nothing |
| Sessions.StoreWfPreserved | src/whatsapp/infrastructure/session/memory.session.store.ts:9-10 | storing a well-formed session, or deleting, keeps every stored session well formed |
| Conversation.Apply | src/whatsapp/application/use-cases/handle-incoming-message.use-case.ts:46-48 | a turn's write sets or deletes the sender's key, or leaves the store alone, and no other key changes |
| Conversation.ApplyKeepsStoreWf | src/whatsapp/application/use-cases/handle-incoming-message.use-case.ts:46-48 | a write of a well-formed session keeps the store well formed |
| ReservationFlow.Offered | src/whatsapp/application/flows/reservation.flow.ts:148-167 | availability for the session's court and date is known exactly when both are set and the date reads |
| ReservationFlow.AvailabilityPrompts | src/whatsapp/application/flows/reservation.flow.ts:39-77 | `sendAvailability` rejects exactly when availability does, and otherwise sends one text |
| ReservationFlow.Start | src/whatsapp/application/flows/reservation.flow.ts:79-83 | `start` moves to `choose_cancha`, changes nothing else and offers the three courts |
| ReservationFlow.HandleChooseCancha | src/whatsapp/application/flows/reservation.flow.ts:85-103 | a court number 1 to 3 is stored with step `choose_date`; anything else re-offers the courts and leaves the session alone |
| ReservationFlow.CourtChoiceReadsNumber | src/whatsapp/application/flows/reservation.flow.ts:86 | the court is `Number` of the field after the first `_`: `cancha_2`, `cancha_02` and `cancha_+2` read 2, and `cancha_-2` reads -2, which is no court |
| ReservationFlow.ChooseCanchaKeepsWf | src/whatsapp/application/flows/reservation.flow.ts:78-103 | `start` and `chooseCancha` write only well-formed sessions: a court 1 to 3 wherever the step needs one, and the date and time the later steps read |
| ReservationFlow.CourtButtonChooses | src/whatsapp/application/flows/reservation.flow.ts:17-21 | each court button chooses its own court |
| ReservationFlow.OfferedAsWritten | src/whatsapp/application/flows/reservation.flow.ts:148-167 | the availability the source computes is known exactly when court and date are set and the date reads |
| ReservationFlow.OfferedAsWrittenIgnoresBookings | src/whatsapp/application/flows/reservation.flow.ts:148-167 | west of UTC on the 1st after a short month, the source offers the court's whole grid for the day whatever the table holds |
| ReservationFlow.HandleChooseDate | src/whatsapp/application/flows/reservation.flow.ts:105-123 | today and tomorrow set the date and step `choose_time`; "other" only moves to `awaiting_other_date`; anything else does nothing |
| ReservationFlow.HandleAwaitingOtherDate | src/whatsapp/application/flows/reservation.flow.ts:125-137 | only the `DD-MM-YYYY` shape is checked; the date becomes `dmyToYmd(payload)` and the step `choose_time`, else the session is left alone |
| ReservationFlow.DmyToYmdReadable | src/whatsapp/application/flows/reservation.flow.ts:133-136 | a date written from a `DD-MM-YYYY` always reads |
| ReservationFlow.AwaitingOtherDateSucceeds | src/whatsapp/application/flows/reservation.flow.ts:125-137 | with a court chosen, a well-shaped typed date never makes the step reject |
| ReservationFlow.HandleChooseTime | src/whatsapp/application/flows/reservation.flow.ts:139-203 | the step moves to `ask_name` with the time stored iff the payload is a valid `HH:mm` that availability offers; otherwise nothing is written |
| ReservationFlow.ChooseTimeTakesFreeSlots | src/whatsapp/application/flows/reservation.flow.ts:148-169 | a time is taken only when its slot overlaps no booking the day's fetch returns for that court |
| ReservationFlow.ResolveName | src/whatsapp/application/flows/reservation.flow.ts:207-217 | `mismo` in any case, or an empty reply, reuses the saved name; any other reply, trimmed, replaces it |
| ReservationFlow.AskNameAndCreate | src/whatsapp/application/flows/reservation.flow.ts:206-285 | no name: only a request for one; a booking found in the slot: back to `choose_time`, no create; else `create` is called, and the session is deleted on success and kept at `ask_name` with the name on failure |
| ReservationFlow.RequestedBooking | src/whatsapp/application/flows/reservation.flow.ts:249-259 | the booking asked for is pending, has no user or payment, takes the session's court, date and contact, has the name as title and lasts the slot's hour |
| ReservationFlow.RecheckBlocks | src/whatsapp/application/flows/reservation.flow.ts:231-247 | a booking of the court starting anywhere in the slot, its end included and whatever its status, stops the creation |
| ReservationFlow.AskNameSucceeds | src/whatsapp/application/flows/reservation.flow.ts:206-262 | at `ask_name` with a readable date the step never rejects |
| ReservationFlow.ChooseDateKeepsWf | src/whatsapp/application/flows/reservation.flow.ts:105-123 | `chooseDate` keeps the session invariant |
| ReservationFlow.AwaitingOtherDateKeepsWf | src/whatsapp/application/flows/reservation.flow.ts:125-137 | `awaitingOtherDate` keeps the session invariant |
| ReservationFlow.ChooseTimeKeepsWf | src/whatsapp/application/flows/reservation.flow.ts:139-203 | `chooseTime` keeps the session invariant |
| ReservationFlow.AskNameKeepsWf | src/whatsapp/application/flows/reservation.flow.ts:206-285 | `askNameAndCreate` keeps the session invariant |
| ReservationFlow.HandlersKeepWf | src/whatsapp/application/flows/reservation.flow.ts:79-285 | each handler, at its step, writes a session in which the court, date and time the later steps read with `!` are present |
| ReservationFlow.StepsSucceed | src/whatsapp/application/flows/reservation.flow.ts:105-285 | on a well-formed session no step rejects once the dates it reads are readable |
| CancelFlow.EnsureContact | src/whatsapp/application/flows/cancel.flow.ts:33-47 | the session's contact is kept; a missing one becomes the contact found or created for the normalised number |
| CancelFlow.Upcoming | src/whatsapp/application/flows/cancel.flow.ts:54-57 | the upcoming bookings are exactly the contact's bookings that are not cancelled and start after now, sorted by start, as a permutation of that selection |
| CancelFlow.Ids | src/whatsapp/application/flows/cancel.flow.ts:94 | the ids of the bookings, in order |
| CancelFlow.ListBookings | src/whatsapp/application/flows/cancel.flow.ts:50-127 | `list` sends only the no-bookings text exactly when nothing is upcoming, and never calls the use case |
| CancelFlow.ListOffersEarliest | src/whatsapp/application/flows/cancel.flow.ts:68-126 | with something upcoming, the step becomes `cancel_choose` and the options are the ids of the first ten (list) or three (buttons) upcoming bookings, none later than one left out |
| CancelFlow.SectionsByDay | src/whatsapp/application/flows/cancel.flow.ts:69-84 | one list section per day, each day once, holding that day's bookings in order |
| CancelFlow.ListSectionsByDay | src/whatsapp/application/flows/cancel.flow.ts:68-91 | the list message shows the first ten upcoming bookings grouped by day |
| CancelFlow.Paginate | src/whatsapp/application/flows/cancel.flow.ts:130-164 | `paginate` never changes the step and never calls the use case |
| CancelFlow.Page | src/whatsapp/application/flows/cancel.flow.ts:139-140 | a page holds at most three bookings, all of them upcoming; which ones is `PageWindow` |
| CancelFlow.PageWindow | src/whatsapp/application/flows/cancel.flow.ts:139-140 | page `p` is the window of at most three bookings from `3(p - 1)`; page 0, `NaN` and pages past the end are empty; a negative page counts from the end as `slice` does |
| CancelFlow.PaginateWindow | src/whatsapp/application/flows/cancel.flow.ts:130-164 | a non-empty page is shown as buttons, becomes the options and offers the next page iff bookings remain; an empty page only says so |
| CancelFlow.FirstPageIsListPage | src/whatsapp/application/flows/cancel.flow.ts:100-125 | page 1 offers the same bookings as the buttons `list` sends |
| CancelFlow.AskConfirm | src/whatsapp/application/flows/cancel.flow.ts:167-179 | `askConfirm` stores the booking id, moves to `cancel_confirm`, changes nothing else and offers yes or no |
| CancelFlow.ConfirmButtonRoundTrip | src/whatsapp/application/flows/cancel.flow.ts:175-184 | the confirm button sent for a real id passes the check in `confirm`; the one sent for a missing id never does |
| CancelFlow.FindById | src/events/application/use-cases/cancel-booking.use-case.ts:48 | the lookup finds a booking with that id exactly when the table has one |
| CancelFlow.Outcome | src/whatsapp/application/flows/cancel.flow.ts:193-225 | the session is deleted; success is reported exactly when the use case succeeds and the repository's cancel does not reject |
| CancelFlow.Confirm | src/whatsapp/application/flows/cancel.flow.ts:182-226 | a payload naming another booking is refused without a call; the call uses the asked booking, the fixed reason and `wa:` plus the normalised number; the session is deleted on every path |
| CancelFlow.ConfirmDoneIff | src/whatsapp/application/flows/cancel.flow.ts:193-202 | the cancellation is confirmed to the user exactly when the use case and the repository succeed |
| CancelFlow.ErrorTextTooLate | src/whatsapp/application/flows/cancel.flow.ts:204-209 | the use case's too-late message shows the too-late text |
| CancelFlow.ErrorTextNotFound | src/whatsapp/application/flows/cancel.flow.ts:215-216 | the not-found message shows the not-found text |
| CancelFlow.ErrorTextAlreadyCancelled | src/whatsapp/application/flows/cancel.flow.ts:217-221 | the already-cancelled conflict matches none of the three tests and shows the generic text |
| CancelFlow.ErrorTextOfNotAllowed | src/whatsapp/application/flows/cancel.flow.ts:204-214 | a message starting `Not allowed` reaches the not-allowed test |
| CancelFlow.ErrorTextNotAllowed | src/whatsapp/application/flows/cancel.flow.ts:210-214 | both ownership refusals reach the not-allowed test |
| CancelFlow.ContactKeepsWf | src/whatsapp/application/flows/cancel.flow.ts:33-47 | storing the contact keeps the session invariant |
| CancelFlow.ListKeepsWf | src/whatsapp/application/flows/cancel.flow.ts:93-126 | `list` keeps the session invariant |
| CancelFlow.PaginateKeepsWf | src/whatsapp/application/flows/cancel.flow.ts:162-163 | `paginate` keeps the session invariant |
| CancelFlow.AskConfirmKeepsWf | src/whatsapp/application/flows/cancel.flow.ts:168-170 | `askConfirm` keeps the session invariant |
| Incoming.SessionOf | src/whatsapp/application/use-cases/handle-incoming-message.use-case.ts:42-44 | a missing session is `{ step: 'idle' }` |
| Incoming.HandleMenu | src/whatsapp/application/use-cases/handle-incoming-message.use-case.ts:50-66 | the menu is offered; contact id and phone are set only when the contact id is missing |
| Incoming.PageNumberReads | src/whatsapp/application/use-cases/handle-incoming-message.use-case.ts:126 | the page is `Number` of the field after the first `:`, and 1 when that field is empty or missing |
| Incoming.OptionAt | src/whatsapp/application/use-cases/handle-incoming-message.use-case.ts:136-137 | `cancelOptions[idx]` is the option, `undefined` past the end |
| Incoming.Execute | src/whatsapp/application/use-cases/handle-incoming-message.use-case.ts:68-160 | the turn touches only the sender's normalised key: unchanged, set to the written session, or deleted |
| Incoming.SameNumberSameTurn | src/whatsapp/application/use-cases/handle-incoming-message.use-case.ts:69-72 | any form of a number is served as its normalised form |
| Incoming.ContactKeysAgree | src/whatsapp/application/use-cases/handle-incoming-message.use-case.ts:50-59 | the cancel flow and the menu look the contact up under the same number |
| Incoming.CancelWordDrops | src/whatsapp/application/use-cases/handle-incoming-message.use-case.ts:70-79 | `cancel`, `cancelar` or `salir`, in any case and with white space around, deletes the session from any step |
| Incoming.MenuKeepsStep | src/whatsapp/application/use-cases/handle-incoming-message.use-case.ts:82-91 | a menu request never changes the step, even mid-flow; a session with a contact is not written at all |
| Incoming.UnknownNumberIsIdle | src/whatsapp/application/use-cases/handle-incoming-message.use-case.ts:42-44 | a message from an unknown number is routed as at `idle` |
| Incoming.IdleFallback | src/whatsapp/application/use-cases/handle-incoming-message.use-case.ts:155-159 | unrecognised input at `idle` gets the help text and changes nothing |
| Incoming.ReservationStepsTakeInput | src/whatsapp/application/use-cases/handle-incoming-message.use-case.ts:94-116 | past the court choice, every payload but the global commands and `opt_reserve` goes to the current reservation step, `opt_cancel` included |
| Incoming.DigitChoosesOption | src/whatsapp/application/use-cases/handle-incoming-message.use-case.ts:131-139 | at `cancel_choose`, digit `k` asks to confirm option `k`, and no booking when `k` is past the options |
| Incoming.ConfirmStepOtherAnswerDrops | src/whatsapp/application/use-cases/handle-incoming-message.use-case.ts:146-153 | at `cancel_confirm`, any other answer than the confirm button deletes the session |
| Incoming.Dispatch | src/whatsapp/application/use-cases/handle-incoming-message.use-case.ts:74-159 | only a message at `ask_name` that is no global command and not `opt_reserve` creates a booking, and only a payload starting `CONFIRM_CANCEL:` at `cancel_confirm` asks to cancel one |
| Incoming.DispatchKeepsWf | src/whatsapp/application/use-cases/handle-incoming-message.use-case.ts:74-159 | every route writes a well-formed session when it starts from one |
| Incoming.ExecuteKeepsStoreWf | src/whatsapp/application/use-cases/handle-incoming-message.use-case.ts:68-160 | a message keeps every stored session well formed |
| CancelBooking.ParseBy | src/events/application/use-cases/cancel-booking.use-case.ts:16-22 | a refused tag is forbidden; an accepted one is its kind, `:` and value |
| CancelBooking.ParseByAcceptsIff | src/events/application/use-cases/cancel-booking.use-case.ts:16-22 | a tag is accepted exactly when it starts with `admin:`, `user:` or `wa:` |
| CancelBooking.ParseByRoundTrip | src/events/application/use-cases/cancel-booking.use-case.ts:16-22 | writing an actor as a tag and parsing it gives the actor back |
| CancelBooking.NormalizeWa | src/events/application/use-cases/cancel-booking.use-case.ts:24-28 | the result starts with `+` and holds no white space |
| CancelBooking.NormalizeWaIdempotent | src/events/application/use-cases/cancel-booking.use-case.ts:24-28 | normalising twice equals normalising once |
| CancelBooking.NormalizeWaKeeps | src/events/application/use-cases/cancel-booking.use-case.ts:24-28 | the number keeps its non-blank characters, behind one added `+` when it had none |
| CancelBooking.MinutesUntil | src/events/application/use-cases/cancel-booking.use-case.ts:30-34 | the whole minutes until the start, rounded down |
| CancelBooking.Grace | src/events/application/use-cases/cancel-booking.use-case.ts:59 | the configured grace, or 120 when unset, `NaN` or 0 |
| CancelBooking.Execute | src/events/application/use-cases/cancel-booking.use-case.ts:44-94 | an unknown id is not found; a cancel call is made only for an open booking, with the request's reason and tag |
| CancelBooking.AlreadyCancelledOutcome | src/events/application/use-cases/cancel-booking.use-case.ts:51-56 | a cancelled booking is handed back unless `CANCEL_IDEMPOTENT` is `'false'`, then it is a conflict, before the tag is read |
| CancelBooking.AdminAlwaysCancels | src/events/application/use-cases/cancel-booking.use-case.ts:64-65 | an admin cancels any open booking with no ownership or time check |
| CancelBooking.UserOutcome | src/events/application/use-cases/cancel-booking.use-case.ts:66-72 | a `user:` actor cancels iff it owns the booking and is not too late, with the matching refusal otherwise |
| CancelBooking.WaOutcome | src/events/application/use-cases/cancel-booking.use-case.ts:73-85 | a `wa:` actor cancels iff the booking's contact phone is known, equal after `normalizeWa`, and it is not too late |
| CancelBooking.BadTagRefused | src/events/application/use-cases/cancel-booking.use-case.ts:17-21 | a missing or unknown tag is forbidden for an open booking |
| CancelBooking.DefaultGraceWindow | src/events/application/use-cases/cancel-booking.use-case.ts:30-34 | with the default grace a client is too late exactly when the booking starts in less than two hours |
| CreateBooking.Execute | src/events/application/use-cases/create-booking.use-case.ts:14-47 | an unreadable start or an end not after the start is refused; a record is produced only for sound instants with no overlap |
| CreateBooking.ExecuteSpec | src/events/application/use-cases/create-booking.use-case.ts:15-47 | accepted exactly when both instants read, end after start and no active overlap; the record passes court, date and instants through, status defaults to confirmed, the rest to absent |
| CreateBooking.OverlapRefused | src/events/application/use-cases/create-booking.use-case.ts:27-33 | an active overlap refuses the request and nothing is created |
| BookingMapper.ToCreatable | src/events/application/mappers/booking.mapper.ts:13-35 | court, date and ids are copied, the instants parsed, status defaults to pending; what this default means against the create use case is `DefaultStatusesDiffer` |
| BookingMapper.DefaultStatusesDiffer | src/events/application/mappers/booking.mapper.ts:20 | a request without status is pending through the mapper but confirmed through the create use case |
| BookingMapper.ToResponse | src/events/application/mappers/booking.mapper.ts:41-56 | the public fields are copied; start and end come from the snake-case keys when present; the consequence of a present but `undefined` key is `SnakeKeyShadows` |
| BookingMapper.SnakeKeyShadows | src/events/application/mappers/booking.mapper.ts:47-49 | a present snake-case key holding `undefined` hides the camel-case instant |
| SchemaMapper.Pick | src/events/infrastructure/typeorm/mappers/booking.mapper.ts:8-16 | the first of the first two values that is neither null nor undefined, else the third as given |
| SchemaMapper.ToIsoIfDate | src/events/infrastructure/typeorm/mappers/booking.mapper.ts:17-19 | a missing value becomes `null`, and only a missing one |
| SchemaMapper.ToYmdIfDateOrString | src/events/infrastructure/typeorm/mappers/booking.mapper.ts:27-35 | a missing value becomes `undefined`, and any other becomes text |
| SchemaMapper.AsWrittenMissingDateIsFalse | src/events/infrastructure/typeorm/mappers/booking.mapper.ts:144-146 | as written, a row without a date gets `false`, not today's date |
| SchemaMapper.DomainDate | src/events/infrastructure/typeorm/mappers/booking.mapper.ts:144-146 | the corrected date is always text |
| SchemaMapper.ToDomainDate | src/events/infrastructure/typeorm/mappers/booking.mapper.ts:144-146 | corrected: a missing date is today's; a `YYYY-MM-DD…` text keeps ten characters; a `Date` gives its ISO date |
| SchemaMapper.ToDomain | src/events/infrastructure/typeorm/mappers/booking.mapper.ts:67-157 | whatever the row holds, the user and payment ids are never `undefined`, the contact id and the cancellation fields never `null`, the date is always text (with the corrected fallback), and the title is always present |
| SchemaMapper.ToDomainIds | src/events/infrastructure/typeorm/mappers/booking.mapper.ts:69-83 | ids come from the column, else the loaded relation; missing user and payment are `null`, a missing contact `undefined`, the court id is read as a number |
| SchemaMapper.ToDomainCancelFields | src/events/infrastructure/typeorm/mappers/booking.mapper.ts:126-152 | missing cancellation fields are `undefined`, never `null`; missing timestamps are `null`; a `Date` becomes its ISO text |
| SchemaMapper.ToDomainTitle | src/events/infrastructure/typeorm/mappers/booking.mapper.ts:40-58 | title is `title`, else `Title`, else `<court> · <from>…` with the court as its name, `Court <id>` or `Court` |
| SchemaMapper.ToDomains | src/events/infrastructure/typeorm/mappers/booking.mapper.ts:159-161 | one domain object per row, same order |
| SchemaMapper.ToSchema | src/events/infrastructure/typeorm/mappers/booking.mapper.ts:168-197 | each relation is set exactly when its id is truthy, and holds that id; a present title is kept and a `null` one is written `undefined`; the round trip is `SchemaRoundTrip` |
| SchemaMapper.Rel | src/events/infrastructure/typeorm/mappers/booking.mapper.ts:169 | `{ id }` exactly for a truthy id |
| SchemaMapper.RelDropsFalsy | src/events/infrastructure/typeorm/mappers/booking.mapper.ts:169-180 | ids `0` and `''` are dropped like a missing one |
| SchemaMapper.SchemaRoundTrip | src/events/infrastructure/typeorm/mappers/booking.mapper.ts:168-197 | `toDomain(toSchema(d))` keeps ids, times, status, date and a present title for truthy ids, text times and a plain date; a `null` title comes back as the fallback title |
| RateLedger.FindOpenFrom | src/courts/infrastructure/typeorm/court-base-rate.repository.typeorm.ts:26-31 | the locked query finds the first open record of the court, or none exists |
| RateLedger.ChangeBaseRate | src/courts/infrastructure/typeorm/court-base-rate.repository.typeorm.ts:19-61 | a change appends exactly one record |
| RateLedger.ChangeBaseRateCreates | src/courts/infrastructure/typeorm/court-base-rate.repository.typeorm.ts:38-59 | the new record carries the parameters, currency defaulting to `CLP`, open from now; the result mirrors it |
| RateLedger.ChangeBaseRateCloses | src/courts/infrastructure/typeorm/court-base-rate.repository.typeorm.ts:33-36 | the open record gets `effectiveTo = now` and nothing else; every other record is untouched |
| RateLedger.ChangeBaseRateOtherCourts | src/courts/infrastructure/typeorm/court-base-rate.repository.typeorm.ts:29-30 | other courts' records are unchanged, in order |
| RateLedger.ChangeLeavesOneOpen | src/courts/infrastructure/typeorm/court-base-rate.repository.typeorm.ts:26-49 | with at most one open record per court before, the court has exactly one after, the new one |
| RateLedger.ChangeKeepsLedgerWf | src/courts/infrastructure/typeorm/court-base-rate.repository.typeorm.ts:19-61 | a change keeps the ledger well formed for every later clock reading |
| RateLedger.Latest | src/courts/infrastructure/typeorm/court-base-rate.repository.typeorm.ts:64-70 | the covering record with the greatest `effectiveFrom`, found iff one covers |
| RateLedger.GetBaseRateAt | src/courts/infrastructure/typeorm/court-base-rate.repository.typeorm.ts:63-83 | a rate is returned iff a record covers the instant, and it is the latest such record |
| RateLedger.ChangeThenLookup | src/courts/infrastructure/typeorm/court-base-rate.repository.typeorm.ts:20-70 | right after a change at now, the rate in force at now is the one just set |
| RateLedger.ListHistory | src/courts/infrastructure/typeorm/court-base-rate.repository.typeorm.ts:85-101 | at most `limit` (50 by default) entries, newest first |
| RateLedger.ListHistoryOfCourt | src/courts/infrastructure/typeorm/court-base-rate.repository.typeorm.ts:86-88 | only records of that court, each from the ledger |
| RateLedger.ListHistoryComplete | src/courts/infrastructure/typeorm/court-base-rate.repository.typeorm.ts:85-100 | with no limit in the way, every record of the court appears and none twice over |
| RateLedger.ListHistoryNewest | src/courts/infrastructure/typeorm/court-base-rate.repository.typeorm.ts:86-90 | with a limit `n` the history holds `min(n, count)` entries, and every record of the court left out starts no later than any entry shown |
| RateLedger.ChangeCourtBaseRate | src/courts/application/use-cases/change-court-base-rate.use-case.ts:10-22 | refused exactly when a price is negative (zero allowed), otherwise forwarded unchanged |
| Pricing.FindCourt | src/events/infrastructure/typeorm/court-pricing.repository.typeorm.ts:18 | the court is found iff the table has one with that id |
| Pricing.FindDaily | src/events/infrastructure/typeorm/court-pricing.repository.typeorm.ts:21-23 | the override is found iff the table has one for that court and date |
| Pricing.GetPricingFor | src/events/infrastructure/typeorm/court-pricing.repository.typeorm.ts:17-42 | refused exactly when the court is unknown |
| Pricing.PricingSelection | src/events/infrastructure/typeorm/court-pricing.repository.typeorm.ts:17-42 | an unknown court is refused even with an override; an override wins with source `DAILY`, else the defaults with `COURT_DEFAULT`; currency falls back override, court, `CLP`; cutoff is the court's |
| Pricing.DailyWinsIff | src/events/infrastructure/typeorm/court-pricing.repository.typeorm.ts:25-33 | a known court's quote comes from an override exactly when one exists |
| Pricing.MapPricingSource | src/events/application/mappers/pricing-source.mapper.ts:4-8 | `DAILY` maps to `DAILY` and only it; the result is `DAILY` or `RATE_CARD` |
| Pricing.MapPricingSourceInjective | src/events/application/mappers/pricing-source.mapper.ts:7 | the mapping keeps the sources apart and writes `COURT_DEFAULT` as `RATE_CARD` |
| ListCourts.ClampLimit | src/courts/application/use-cases/list-courts.use-case.ts:18 | the limit lies in 1..10: 10 when missing, kept in range, clamped outside |
| ListCourts.Normalise | src/courts/application/use-cases/list-courts.use-case.ts:14-19 | `q` trimmed and dropped when blank, `active` copied, limit clamped |
| ListCourts.NormaliseIdempotent | src/courts/application/use-cases/list-courts.use-case.ts:15-19 | normalised parameters normalise to themselves |
| RolesGuard.Have | src/auth/roles.guard.ts:29-32 | claims are `roles ?? role ?? type`, lower-cased, a scalar wrapped and dropped when empty |
| RolesGuard.CanActivate | src/auth/roles.guard.ts:16-38 | no required roles allows; required roles without a user is unauthorised |
| RolesGuard.CanActivateIff | src/auth/roles.guard.ts:29-37 | with roles required, allowed iff a user claims some required role, case aside; otherwise forbidden |
| RolesGuard.EmptyRolesShadow | src/auth/roles.guard.ts:29-31 | an empty `roles` array hides `role` and `type` |
| JwtStrategy.FirstFrom | src/auth/jwt.strategy.ts:11-14 | the first position from `k` on whose segment matches, or none matches |
| JwtStrategy.FindSegment | src/auth/jwt.strategy.ts:11-14 | the first trimmed segment starting `access_token=`, or none exists |
| JwtStrategy.Extract | src/auth/jwt.strategy.ts:7-25 | a truthy parsed cookie wins before the header; no header gives null |
| JwtStrategy.SegmentValue | src/auth/jwt.strategy.ts:16 | the value is the text between the first and second `=` |
| JwtStrategy.ExtractFromHeader | src/auth/jwt.strategy.ts:9-22 | the first matching segment's value is decoded, or returned raw when decoding fails |
| JwtStrategy.ExtractNoSegment | src/auth/jwt.strategy.ts:15-24 | a header with no matching segment gives null |
| JwtStrategy.Validate | src/auth/jwt.strategy.ts:47-56 | `id = sub`, role is `role ?? type ?? 'cliente'` lower-cased, and type equals role |
| JwtStrategy.ValidatedRolePasses | src/auth/jwt.strategy.ts:54-55 | a token naming a role passes a guard requiring that role in any case |
| JwtStrategy.NoRoleIsCliente | src/auth/jwt.strategy.ts:54 | a token with no role claim passes a guard requiring `cliente` |

## Left out

- Messaging, HTTP, controllers, module wiring and the message wording: a prompt is its kind and its button or row ids.
- Persistence: the repositories are oracles over sequences of rows. `findAll` returns the whole table, and `findByCourtAndDateRange` the court's rows whose start lies in the closed range, with no status filter.
- `existsActiveOverlap`, `findWaPhoneByBookingId`, the contact directory and the outcome of `create` and `cancel` are parameters.
- Concurrency: the base-rate transaction with its row lock is one atomic step. The check-then-create of bookings is not atomic in the source, and no mutual exclusion is claimed. A duplicate-key failure of `create` is one of the parameter's outcomes.
- The clock and the zone: `localTodayYMD`, `localTomorrowYMD`, the rounded-up current hour, `new Date()` and `Intl.DateTimeFormat` are parameters. The zone is an arbitrary function from instants to wall-clock readings, so daylight-saving zones are covered by the definitions. The correctness theorems are only stated for zones of constant offset.
- Host-local formatting (`shortSlotTitle`, `fmtSlot`, the `groupByDate` keys, `toISOString`, `new Date(string)`, `String(date)`) is a parameter. `hoursMessage` only formats text and is not modelled.
- `Number` is modelled for what the core feeds it: white space around an unsigned digit string, optionally signed where a sign can occur. Fractions, exponents and hexadecimal read as `NaN` here. A `NaN` court-listing limit is not modelled.
- FlowHelpers.EnsureMax: counts characters, while `s.length` and `slice` count UTF-16 code units, so a character outside the Basic Multilingual Plane counts 1 here and 2 in the source. Dafny's `char` cannot hold a lone surrogate. Text within the Basic Multilingual Plane is exact.
- FlowHelpers.EnsureMax: the default `max = 20` is the constant `FlowHelpers.DefaultMax`. Every call in the core passes it explicitly, so a call without `max` is not modelled as such.
- `toLowerCase` is ASCII-only. This is exact for every keyword the bot compares. For roles it differs only on non-ASCII letters.
- Availability.AvailableHoursForCourt: computes the day range and the slot instants from the corrected `makeStartEndTZ`, not from the one the source calls (`src/whatsapp/application/services/time.utils.ts:216-217` and `:222`, `src/whatsapp/application/flows/reservation.flow.ts:231`). The two agree wherever the month encoding is exact (`TimeZone.StartEndAgreesWhenExact`, `Availability.AsWrittenAvailabilityAgrees`). On the 1st of a month after a short month west of UTC the source fetches no booking and offers booked slots (`ReservationFlow.OfferedAsWrittenIgnoresBookings`); east of UTC the source's instants can land days early. See "Findings".
- Availability.AvailableHoursForCourtSpec: states its result for day-range and slot instants from the corrected `makeStartEndTZ`, not from the one the source calls (`src/whatsapp/application/services/time.utils.ts:216-217` and `:222`, `src/whatsapp/application/flows/reservation.flow.ts:231`). The two agree wherever the month encoding is exact (`TimeZone.StartEndAgreesWhenExact`, `Availability.AsWrittenAvailabilityAgrees`). On the 1st of a month after a short month west of UTC the source fetches no booking and offers booked slots (`ReservationFlow.OfferedAsWrittenIgnoresBookings`); east of UTC the source's instants can land days early. See "Findings".
- Availability.AvailableHoursForCourtNoBookings: is stated for instants from the corrected `makeStartEndTZ`, not from the one the source calls (`src/whatsapp/application/services/time.utils.ts:216-217` and `:222`, `src/whatsapp/application/flows/reservation.flow.ts:231`). The two agree wherever the month encoding is exact (`TimeZone.StartEndAgreesWhenExact`, `Availability.AsWrittenAvailabilityAgrees`). On the 1st of a month after a short month west of UTC the source fetches no booking and offers booked slots (`ReservationFlow.OfferedAsWrittenIgnoresBookings`); east of UTC the source's instants can land days early. See "Findings".
- Availability.SlotStartInFixedZone: gives the slot start from the corrected `makeStartEndTZ`, not from the one the source calls (`src/whatsapp/application/services/time.utils.ts:216-217` and `:222`, `src/whatsapp/application/flows/reservation.flow.ts:231`). The two agree wherever the month encoding is exact (`TimeZone.StartEndAgreesWhenExact`, `Availability.AsWrittenAvailabilityAgrees`). On the 1st of a month after a short month west of UTC the source fetches no booking and offers booked slots (`ReservationFlow.OfferedAsWrittenIgnoresBookings`); east of UTC the source's instants can land days early. See "Findings".
- Availability.ClockStartInFixedZone: gives the start from the corrected `makeStartEndTZ`, not from the one the source calls (`src/whatsapp/application/services/time.utils.ts:216-217` and `:222`, `src/whatsapp/application/flows/reservation.flow.ts:231`). The two agree wherever the month encoding is exact (`TimeZone.StartEndAgreesWhenExact`, `Availability.AsWrittenAvailabilityAgrees`). On the 1st of a month after a short month west of UTC the source fetches no booking and offers booked slots (`ReservationFlow.OfferedAsWrittenIgnoresBookings`); east of UTC the source's instants can land days early. See "Findings".
- ReservationFlow.Offered: computes availability with instants from the corrected `makeStartEndTZ`, not from the one the source calls (`src/whatsapp/application/services/time.utils.ts:216-217` and `:222`, `src/whatsapp/application/flows/reservation.flow.ts:231`). The two agree wherever the month encoding is exact (`TimeZone.StartEndAgreesWhenExact`, `Availability.AsWrittenAvailabilityAgrees`). On the 1st of a month after a short month west of UTC the source fetches no booking and offers booked slots (`ReservationFlow.OfferedAsWrittenIgnoresBookings`); east of UTC the source's instants can land days early. See "Findings".
- ReservationFlow.HandleChooseTime: accepts a time by availability computed with instants from the corrected `makeStartEndTZ`, not from the one the source calls (`src/whatsapp/application/services/time.utils.ts:216-217` and `:222`, `src/whatsapp/application/flows/reservation.flow.ts:231`). The two agree wherever the month encoding is exact (`TimeZone.StartEndAgreesWhenExact`, `Availability.AsWrittenAvailabilityAgrees`). On the 1st of a month after a short month west of UTC the source fetches no booking and offers booked slots (`ReservationFlow.OfferedAsWrittenIgnoresBookings`); east of UTC the source's instants can land days early. See "Findings".
- ReservationFlow.ChooseTimeTakesFreeSlots: states the freedom of a slot with instants from the corrected `makeStartEndTZ`, not from the one the source calls (`src/whatsapp/application/services/time.utils.ts:216-217` and `:222`, `src/whatsapp/application/flows/reservation.flow.ts:231`). The two agree wherever the month encoding is exact (`TimeZone.StartEndAgreesWhenExact`, `Availability.AsWrittenAvailabilityAgrees`). On the 1st of a month after a short month west of UTC the source fetches no booking and offers booked slots (`ReservationFlow.OfferedAsWrittenIgnoresBookings`); east of UTC the source's instants can land days early. See "Findings".
- ReservationFlow.AskNameAndCreate: re-checks and books the slot with instants from the corrected `makeStartEndTZ`, not from the one the source calls (`src/whatsapp/application/services/time.utils.ts:216-217` and `:222`, `src/whatsapp/application/flows/reservation.flow.ts:231`). The two agree wherever the month encoding is exact (`TimeZone.StartEndAgreesWhenExact`, `Availability.AsWrittenAvailabilityAgrees`). On the 1st of a month after a short month west of UTC the source fetches no booking and offers booked slots (`ReservationFlow.OfferedAsWrittenIgnoresBookings`); east of UTC the source's instants can land days early. See "Findings".
- ReservationFlow.RequestedBooking: gives the requested booking the instants from the corrected `makeStartEndTZ`, not from the one the source calls (`src/whatsapp/application/services/time.utils.ts:216-217` and `:222`, `src/whatsapp/application/flows/reservation.flow.ts:231`). The two agree wherever the month encoding is exact (`TimeZone.StartEndAgreesWhenExact`, `Availability.AsWrittenAvailabilityAgrees`). On the 1st of a month after a short month west of UTC the source fetches no booking and offers booked slots (`ReservationFlow.OfferedAsWrittenIgnoresBookings`); east of UTC the source's instants can land days early. See "Findings".
- ReservationFlow.RecheckBlocks: states the re-check over the slot with instants from the corrected `makeStartEndTZ`, not from the one the source calls (`src/whatsapp/application/services/time.utils.ts:216-217` and `:222`, `src/whatsapp/application/flows/reservation.flow.ts:231`). The two agree wherever the month encoding is exact (`TimeZone.StartEndAgreesWhenExact`, `Availability.AsWrittenAvailabilityAgrees`). On the 1st of a month after a short month west of UTC the source fetches no booking and offers booked slots (`ReservationFlow.OfferedAsWrittenIgnoresBookings`); east of UTC the source's instants can land days early. See "Findings".
- ReservationFlow.AvailabilityPrompts: the slot list in the text it sends is the one `ReservationFlow.Offered` computes with the corrected `makeStartEndTZ`. Where the source's instants go wrong (`ReservationFlow.OfferedAsWrittenIgnoresBookings`) the source's text also lists booked slots. The contract does not mention the list, so it holds either way.
- ReservationFlow.HandleChooseDate: sends the slot text of `ReservationFlow.AvailabilityPrompts`, so it inherits that line. Its contract does not mention the list.
- ReservationFlow.HandleAwaitingOtherDate: sends the slot text of `ReservationFlow.AvailabilityPrompts`, so it inherits that line. Its contract does not mention the list.
- Incoming.Dispatch: routes to the reservation handlers above, so the slot texts and the accepted times it produces inherit their lines. Its contract does not mention either.
- Incoming.Execute: serves a message through `Incoming.Dispatch` and inherits its line. Its contract is about the store only.
- TimeSlots.AvailableHours: requires a positive `slotMinutes`, as do the grid and availability members. With a slot of 0 or less the loop of `generateBaseSlots` (`src/whatsapp/application/services/time.utils.ts:105-111`) never ends, so that case is not modelled.
- RateLedger.ListHistory: a negative `limit` is not modelled (the parameter is a `nat`). A `limit` of 0 sets no limit, as the ORM ignores a falsy `take`. Records with equal `effectiveFrom` keep their ledger order, while `ORDER BY effectiveFrom DESC` leaves their order unspecified. The contracts hold for any order of such ties.
- RateLedger.Latest: among covering records with equal `effectiveFrom`, the earliest one in the ledger is taken. `getOne` under a tie returns an unspecified row.
- SchemaMapper.ToDomain: writes the date with the corrected fallback (`SchemaMapper.DomainDate`), not the one at `src/events/infrastructure/typeorm/mappers/booking.mapper.ts:144-146`. The two differ only for a row with no date: there the source writes `false` (`SchemaMapper.AsWrittenMissingDateIsFalse`) and the model writes today's date. So the clause that the date is always text holds of the corrected fallback only. See "Findings".
- SchemaMapper.ToDomains: maps `SchemaMapper.ToDomain` over the rows and inherits its line.
- CancelFlow.ErrorTextNotAllowed: states only that both ownership messages land in the too-late or not-allowed branch, not which one. They reach the not-allowed text, because neither message contains `too late`.
- `Date` objects that are invalid, and instants beyond the `Date` range, are modelled only where the mapper reads them (`ToDate`).
- The `NaN` page in `paginate` is `None`: the slice is then empty.
- The bearer-header fallback of the JWT strategy, the token signature check and the constructor's secret read belong to libraries and are not modelled.
- `ListCourts`: `repo.list` is an oracle whose result is returned unchanged, so only the parameters it receives are modelled.
- The session type declares neither the step `ask_name` nor the field `reservationName`, but the reservation flow writes and reads both, so both are part of the model.
- Where the code and its description differ, the model follows the code. The exceptions are the defects under "Findings": their corrected forms are what the rest of the model uses. Each member whose contract depends on a corrected form, and each member that only passes on what such a member computes, has its own line above. Apart from those defects, the code and its description differ in the following ways:
  - A failed `create` keeps the session at `ask_name` with the name remembered. Only the overlap re-check sends it back to `choose_time`.
  - Availability counts cancelled bookings too.
  - `chooseCancha` reads the court with `Number`, so `cancha_01` and `cancha_+1` also choose court 1.
  - A negative page number slices from the end.

## Findings

| source | as written | input that shows it | evidently intended | confidence | as-written member | corrected member |
|---|---|---|---|---|---|---|
| src/whatsapp/application/services/time.utils.ts:178-180 | wall times are compared as minute counts in which every month has 31 days | 2025-03-01 00:00 in a zone at UTC-3: the start comes out as 2025-03-04 00:00 local, and that day's fetch range `[00:00, 23:59]` is inverted | the instant at which the zone shows the wanted date and time | not executed | TimeZone.AsWrittenMarchFirstIsLate | TimeZone.StartEndExactInFixedZone |
| src/whatsapp/application/services/time.utils.ts:213-229 | the day's fetch range and the slot instants come from the defective `makeStartEndTZ` | court 1 on 2025-03-01 in a zone at UTC-3 with a booking at 10:00: the range is inverted, the query finds nothing, and 10:00 is offered | the slots overlapping a stored booking of the day are left out | not executed | ReservationFlow.OfferedAsWrittenIgnoresBookings | Availability.AvailableHoursForCourtSpec |
| src/events/infrastructure/typeorm/mappers/booking.mapper.ts:144-146 | `toYmdIfDateOrString(raw) ?? (typeof raw === 'string' && raw) ?? today`: the middle operand is `false` when the date is missing, and `false` is not nullish | a row whose `date` is null or undefined gets `date = false` | today's `YYYY-MM-DD` | not executed | SchemaMapper.AsWrittenMissingDateIsFalse | SchemaMapper.ToDomainDate |
