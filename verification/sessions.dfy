/** The conversation state of the WhatsApp bot (`session.types`) and the in-memory store that
    keeps one session per phone number (`MemorySessionStore`). The step `ask_name` and the field
    `reservationName` are not in the declared type, but the reservation flow writes and reads
    both, so they are part of the model. */
module Sessions {
  import opened Wrappers
  import opened TimeFormats

  datatype Step =
    | Idle
    | ChooseCancha
    | ChooseDate
    | AwaitingOtherDate
    | ChooseTime
    | AskName
    | CancelChoose
    | CancelConfirm

  /** The record kept per number; every field but `step` may be absent. */
  datatype Session = Session(
    step: Step,
    cancha: Option<int>,
    date: Option<string>,
    time: Option<string>,
    contactId: Option<string>,
    contactName: Option<string>,
    contactPhone: Option<string>,
    bookingIdToCancel: Option<string>,
    cancelOptions: Option<seq<string>>,
    reservationName: Option<string>)

  /** `{ step: 'idle' }`, the session of a number the store does not know. */
  const Fresh: Session :=
    Session(Idle, None, None, None, None, None, None, None, None, None)

  /** The steps of the reservation flow that come after a court was chosen. */
  predicate HasCourtStep(step: Step) {
    step == ChooseDate || step == AwaitingOtherDate || step == ChooseTime || step == AskName
  }

  /** What the reservation flow relies on when it reads `session.cancha!`, `session.date!` and
      `session.time!`: each step past a choice carries that choice, the court is one of the
      three offered, and the time is a valid `HH:mm`. */
  predicate Wf(s: Session) {
    (HasCourtStep(s.step) ==> s.cancha.Some? && 1 <= s.cancha.value <= 3)
    && (s.step == ChooseTime || s.step == AskName ==> s.date.Some?)
    && (s.step == AskName ==> s.time.Some? && IsValidHHmm(s.time.value))
  }

  // ---------------------------------------------------------------- the store

  type Store = map<string, Session>

  /** `get(key)`; `None` is `undefined`. */
  function Get(st: Store, key: string): (r: Option<Session>)
    ensures r.Some? <==> key in st
    ensures r.Some? ==> r.value == st[key]
  {
    if key in st then Some(st[key]) else None
  }

  /** `set(key, value)`. */
  function Set(st: Store, key: string, value: Session): (r: Store)
    ensures r.Keys == st.Keys + {key}
  {
    st[key := value]
  }

  /** `del(key)`. */
  function Del(st: Store, key: string): (r: Store)
    ensures r.Keys == st.Keys - {key}
  {
    map k | k in st && k != key :: st[k]
  }

  /** `get` after `set` on the same key returns the value set. */
  lemma GetAfterSet(st: Store, key: string, value: Session)
    ensures Get(Set(st, key, value), key) == Some(value)
  {
  }

  /** `get` after `del` on the same key returns `undefined`. */
  lemma GetAfterDel(st: Store, key: string)
    ensures Get(Del(st, key), key) == None
  {
  }

  /** `set` and `del` on one key leave every other key as it was. */
  lemma OtherKeysUnchanged(st: Store, key: string, value: Session, other: string)
    requires other != key
    ensures Get(Set(st, key, value), other) == Get(st, other)
    ensures Get(Del(st, key), other) == Get(st, other)
  {
  }

  /** The last `set` wins. */
  lemma LastWriteWins(st: Store, key: string, a: Session, b: Session)
    ensures Set(Set(st, key, a), key, b) == Set(st, key, b)
  {
  }

  /** `del` of a key the store does not hold changes nothing. */
  lemma DelAbsent(st: Store, key: string)
    requires key !in st
    ensures Del(st, key) == st
  {
  }

  /** Every stored session satisfies the invariant. */
  predicate StoreWf(st: Store) {
    forall k :: k in st ==> Wf(st[k])
  }

  /** Setting a well-formed session or deleting keeps the store well formed. */
  lemma StoreWfPreserved(st: Store, key: string, value: Session)
    requires StoreWf(st)
    ensures Wf(value) ==> StoreWf(Set(st, key, value))
    ensures StoreWf(Del(st, key))
  {
  }
}
