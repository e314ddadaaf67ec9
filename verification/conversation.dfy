/** What one handler of the WhatsApp conversation does, seen from outside: the last write it
    makes to the session store under the sender's number, the messages it sends (their kind and
    the ids of their buttons or list rows, not their wording), the repository or use-case call
    it makes, and whether the call rejects. */
module Conversation {
  import opened Wrappers
  import opened Sessions
  import opened Bookings

  /** A contact of the directory, as `findOrCreateByWaPhone` returns it. */
  datatype Contact = Contact(id: string, waPhone: string)

  /** The store effect: nothing, `set(from, session)`, or `del(from)`. */
  datatype Write = Keep | Put(session: Session) | Drop

  /** The texts the bot sends, with the data each shows. */
  datatype TextKind =
    | AskOtherDate
    | BadDateFormat
    | NoSlots(shown: string)
    | Slots(shown: string, slots: seq<string>)
    | BadTime
    | TimeUnavailable(shown: string, slots: seq<string>)
    | OfferSavedName(name: string)
    | AskForName
    | NeedName
    | JustTaken(cancha: int)
    | Saved(name: string, cancha: int, shown: string, time: string)
    | AlreadyBooked(cancha: int)
    | SaveFailed
    | NoUpcoming
    | DigitHint
    | NoMoreBookings
    | SelectionInvalid
    | CancelDone
    | CancelTooLate
    | CancelNotAllowed
    | CancelNotFound
    | CancelFailed
    | FlowCancelled
    | OperationCancelled
    | Help

  /** The button messages, by what they ask. */
  datatype ButtonsKind =
    | MenuChoice
    | ChooseCourt
    | InvalidCourt
    | CourtChosen(cancha: int)
    | ChooseBooking
    | MoreOptions
    | PageChoice(page: int)
    | ConfirmCancel

  /** A section of a list message: its title and the ids of its rows. */
  datatype Section = Section(title: string, ids: seq<string>)

  datatype Prompt =
    | Text(text: TextKind)
    | Buttons(kind: ButtonsKind, ids: seq<string>)
    | List(sections: seq<Section>)

  /** The call a handler makes beyond the session store. */
  datatype Call =
    | NoCall
    | Create(booking: NewBooking)
    | CancelRequest(id: string, reason: Option<string>, tag: string)

  datatype Turn = Turn(write: Write, prompts: seq<Prompt>, call: Call, failed: bool)

  const MenuIds: seq<string> := ["opt_reserve", "opt_cancel"]
  const CourtIds: seq<string> := ["cancha_1", "cancha_2", "cancha_3"]
  const DateIds: seq<string> := ["date_today", "date_tomorrow", "date_other"]

  /** The store after a turn's write under key `from`. */
  function Apply(st: Store, from: string, w: Write): (r: Store)
    ensures w.Keep? ==> r == st
    ensures w.Put? ==> Get(r, from) == Some(w.session)
    ensures w.Drop? ==> Get(r, from) == None
    ensures forall k :: k != from ==> Get(r, k) == Get(st, k)
  {
    match w
    case Keep => st
    case Put(s) => Set(st, from, s)
    case Drop => Del(st, from)
  }

  /** A write keeps the invariant when the session it puts satisfies it. */
  predicate WriteWf(w: Write) {
    w.Put? ==> Wf(w.session)
  }

  lemma ApplyKeepsStoreWf(st: Store, from: string, w: Write)
    requires StoreWf(st) && WriteWf(w)
    ensures StoreWf(Apply(st, from, w))
  {
    StoreWfPreserved(st, from, if w.Put? then w.session else Fresh);
  }
}
