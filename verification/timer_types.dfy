/** The records of breakruptcy-client/src/types/timer.ts, plus the two bank keys
    the application uses to address a bank by name. Milliseconds, timestamps and
    time fields are unbounded integers; JavaScript's floating-point numbers are
    not modelled. */
module TimerTypes {
  import opened Wrappers

  /** One of the two countdown slots. `remaining` is in milliseconds; `labelText`
      is the source's `label` (a reserved word in Dafny). */
  datatype TimerBank = TimerBank(remaining: int, labelText: string, isActive: bool)

  /** Durations (milliseconds) and labels of both banks. */
  datatype TimerConfig = TimerConfig(
    bank1Duration: int,
    bank2Duration: int,
    bank1Label: string,
    bank2Label: string)

  /** The whole session. The application never writes `config` or
      `isConfigurable`, so they are optional: `None` is a property that the
      state object simply does not carry. */
  datatype TimerState = TimerState(
    bank1: TimerBank,
    bank2: TimerBank,
    isPaused: bool,
    lastTick: int,
    config: Option<TimerConfig>,
    isConfigurable: Option<bool>)

  /** The editable hours/minutes/seconds of one bank in the configuration form. */
  datatype TimeInput = TimeInput(hours: int, minutes: int, seconds: int)

  /** The property names "bank1" and "bank2". */
  datatype BankKey = Bank1 | Bank2

  function Other(k: BankKey): (o: BankKey)
    ensures o != k
  {
    if k == Bank1 then Bank2 else Bank1
  }

  /** `state[key]` */
  function BankOf(s: TimerState, k: BankKey): TimerBank
  {
    match k
    case Bank1 => s.bank1
    case Bank2 => s.bank2
  }

  /** `{ ...state, [key]: b }` */
  function WithBank(s: TimerState, k: BankKey, b: TimerBank): (r: TimerState)
    ensures BankOf(r, k) == b
    ensures BankOf(r, Other(k)) == BankOf(s, Other(k))
    ensures r.isPaused == s.isPaused && r.lastTick == s.lastTick
    ensures r.config == s.config && r.isConfigurable == s.isConfigurable
  {
    match k
    case Bank1 => s.(bank1 := b)
    case Bank2 => s.(bank2 := b)
  }

  /** Mutual exclusion of the two banks. */
  predicate ExactlyOneActive(s: TimerState)
  {
    s.bank1.isActive != s.bank2.isActive
  }

  predicate NonNegative(s: TimerState)
  {
    s.bank1.remaining >= 0 && s.bank2.remaining >= 0
  }

  /** The invariant every state the application builds itself satisfies. */
  predicate Valid(s: TimerState)
  {
    ExactlyOneActive(s) && NonNegative(s)
  }
}
