/** breakruptcy-client/src/App.tsx without React: the initial state, the
    loader run when the component is created, the interval's tick updater and
    the four button handlers, each as a pure function of the previous state
    and the wall-clock reading `now` that `Date.now()` would return. */
module Session {
  import opened Wrappers
  import opened TimerTypes
  import opened TimerUtils

  /** 25 minutes and 5 minutes, in milliseconds. */
  const WorkMs: int := 25 * 60 * 1000
  const BreakMs: int := 5 * 60 * 1000

  /** `INITIAL_TIMER_STATE`: bank 1 "Work" active with 25 minutes, bank 2
      "Break" with 5 minutes, paused. Its `lastTick` is `Date.now()` taken
      once, when the module is evaluated (`createdAt`). It carries no
      `config` and no `isConfigurable`. */
  function InitialTimerState(createdAt: int): (s: TimerState)
    ensures Valid(s) && s.isPaused && s.lastTick == createdAt
    ensures s.bank1 == TimerBank(1500000, "Work", true)
    ensures s.bank2 == TimerBank(300000, "Break", false)
    ensures s.config == None && s.isConfigurable == None
  {
    TimerState(
      TimerBank(WorkMs, "Work", true),
      TimerBank(BreakMs, "Break", false),
      true,
      createdAt,
      None,
      None)
  }

  /** All fields of `a` and `b` agree except possibly `lastTick`. */
  predicate SameButTick(a: TimerState, b: TimerState)
  {
    && a.bank1 == b.bank1 && a.bank2 == b.bank2 && a.isPaused == b.isPaused
    && a.config == b.config && a.isConfigurable == b.isConfigurable
  }

  /** The lazy `useState` initialiser. `stored` is what reading and parsing
      the saved entry produced: `None` when nothing (or an empty string) is
      stored or `JSON.parse` throws. A parsed state is kept whole except
      that its `lastTick` becomes `now`, so time spent while the app was
      closed is never charged; otherwise the module's initial state is used
      as is, with the `lastTick` taken when the module was loaded. */
  function Load(stored: Option<TimerState>, now: int, moduleLoadTime: int): (s: TimerState)
    ensures stored.Some? ==> SameButTick(s, stored.value) && s.lastTick == now
    ensures stored.None? ==> s == InitialTimerState(moduleLoadTime)
  {
    match stored
    case Some(parsed) => parsed.(lastTick := now)
    case None => InitialTimerState(moduleLoadTime)
  }

  /** The updater the interval runs: charge the time since `lastTick` to the
      active bank, never below zero, refresh `lastTick`, and pause once the
      active bank is empty. Elapsed time is not clamped, so a clock that went
      backwards credits the difference to the bank. */
  function Tick(s: TimerState, now: int): (r: TimerState)
    ensures var k := GetActiveBank(s);
      var before := BankOf(s, k).remaining;
      var after := BankOf(r, k).remaining;
      var elapsed := now - s.lastTick;
      && after >= 0
      && (0 <= elapsed && 0 <= before ==> before - after == if elapsed < before then elapsed else before)
      && (elapsed < 0 && 0 <= before ==> after == before + (s.lastTick - now))
      && (before <= elapsed ==> after == 0)
      && (elapsed < before ==> after == before - elapsed)
      && r.isPaused == (s.isPaused || after == 0)
    ensures var k := GetActiveBank(s);
      && BankOf(r, k).labelText == BankOf(s, k).labelText
      && BankOf(r, k).isActive == BankOf(s, k).isActive
      && BankOf(r, Other(k)) == BankOf(s, Other(k))
    ensures GetActiveBank(r) == GetActiveBank(s)
    ensures r.lastTick == now
    ensures r.config == s.config && r.isConfigurable == s.isConfigurable
  {
    var elapsed := now - s.lastTick;
    var activeBank := GetActiveBank(s);
    var bank := BankOf(s, activeBank);
    var remaining := if bank.remaining - elapsed > 0 then bank.remaining - elapsed else 0;   // Math.max(0, …)
    var newState := WithBank(s.(lastTick := now), activeBank, bank.(remaining := remaining));
    if remaining <= 0 then newState.(isPaused := true) else newState
  }

  /** `handlePlayPause`: toggles running, restarts the elapsed-time clock and
      leaves both banks alone. */
  function PlayPause(s: TimerState, now: int): (r: TimerState)
    ensures r.isPaused == !s.isPaused
    ensures r.lastTick == now
    ensures r.bank1 == s.bank1 && r.bank2 == s.bank2
    ensures r.config == s.config && r.isConfigurable == s.isConfigurable
  {
    s.(isPaused := !s.isPaused, lastTick := now)
  }

  /** `handleSwitch`: both active flags flip together, so the bank that was
      not active becomes the active one and mutual exclusion is kept; the
      remaining times, labels and running state are untouched. */
  function Switch(s: TimerState, now: int): (r: TimerState)
    ensures GetActiveBank(r) == GetInactiveBank(s)
    ensures ExactlyOneActive(r) <==> ExactlyOneActive(s)
    ensures r.bank1.isActive != s.bank1.isActive && r.bank2.isActive != s.bank2.isActive
    ensures r.bank1.remaining == s.bank1.remaining && r.bank2.remaining == s.bank2.remaining
    ensures r.bank1.labelText == s.bank1.labelText && r.bank2.labelText == s.bank2.labelText
    ensures r.isPaused == s.isPaused && r.lastTick == now
    ensures r.config == s.config && r.isConfigurable == s.isConfigurable
  {
    s.(bank1 := s.bank1.(isActive := !s.bank1.isActive),
       bank2 := s.bank2.(isActive := !s.bank2.isActive),
       lastTick := now)
  }

  /** `handleReset`: the initial banks, paused, with `lastTick` refreshed.
      The previous state is not consulted at all. Removing the stored entry
      is storage and is not modelled. */
  function Reset(now: int): (r: TimerState)
    ensures Valid(r) && r.isPaused && r.lastTick == now
    ensures r.bank1 == TimerBank(1500000, "Work", true)
    ensures r.bank2 == TimerBank(300000, "Break", false)
    ensures r.config == None && r.isConfigurable == None
  {
    InitialTimerState(createdAt := 0).(lastTick := now)
  }

  /** `handleBankClick`: clicking a bank makes it the active one, but only
      while running and only if it is not active already; every other click
      changes nothing. */
  function BankClick(s: TimerState, key: BankKey, now: int): (r: TimerState)
    ensures !BankOf(s, key).isActive && !s.isPaused ==>
      && BankOf(r, key).isActive && BankOf(r, Other(key)).isActive != BankOf(s, Other(key)).isActive
      && r.lastTick == now
      && (ExactlyOneActive(s) ==> GetActiveBank(r) == key)
      && r.bank1.labelText == s.bank1.labelText && r.bank2.labelText == s.bank2.labelText
      && r.config == s.config && r.isConfigurable == s.isConfigurable
    ensures BankOf(s, key).isActive || s.isPaused ==> r == s
    ensures ExactlyOneActive(r) <==> ExactlyOneActive(s)
    ensures r.isPaused == s.isPaused
    ensures r.bank1.remaining == s.bank1.remaining && r.bank2.remaining == s.bank2.remaining
  {
    if !BankOf(s, key).isActive && !s.isPaused then Switch(s, now) else s
  }

  /** The status line under the banks: "Paused", or the active bank's label
      followed by " Active". */
  function StatusText(s: TimerState): (r: string)
    ensures s.isPaused ==> r == "Paused"
    ensures !s.isPaused ==> r == BankOf(s, GetActiveBank(s)).labelText + " Active"
  {
    if s.isPaused then "Paused"
    else (if s.bank1.isActive then s.bank1.labelText else s.bank2.labelText) + " Active"
  }

  /** Consecutive polls: two ticks at nondecreasing times charge exactly what
      one tick at the later time would. */
  lemma TickCompose(s: TimerState, t1: int, t2: int)
    requires t1 <= t2
    ensures Tick(Tick(s, t1), t2) == Tick(s, t2)
  {
  }

  /** A second tick at the same instant changes nothing. */
  lemma TickIdempotent(s: TimerState, now: int)
    ensures Tick(Tick(s, now), now) == Tick(s, now)
  {
    TickCompose(s, now, now);
  }

  /** Ticks at each of `times`, in order. */
  function TickAll(s: TimerState, times: seq<int>): TimerState
    decreases |times|
  {
    if times == [] then s else TickAll(Tick(s, times[0]), times[1..])
  }

  predicate Nondecreasing(times: seq<int>)
  {
    forall i, j :: 0 <= i <= j < |times| ==> times[i] <= times[j]
  }

  /** The interval's updater composes: applied at any nondecreasing series
      of times it leaves the same state as one application at the last time.
      `PolledRunIsOnePoll` states what this means for the polls of a run. */
  lemma {:induction false} PollingResolutionIrrelevant(s: TimerState, times: seq<int>)
    requires |times| > 0 && Nondecreasing(times)
    ensures TickAll(s, times) == Tick(s, times[|times| - 1])
    decreases |times|
  {
    if |times| > 1 {
      var rest := times[1..];
      assert Nondecreasing(rest);
      PollingResolutionIrrelevant(Tick(s, times[0]), rest);
      TickCompose(s, times[0], rest[|rest| - 1]);
    }
  }

  /** Something that happens to the mounted component. */
  datatype Event =
    | TickAt(now: int)
    | PlayPauseAt(now: int)
    | SwitchAt(now: int)
    | ResetAt(now: int)
    | ClickAt(key: BankKey, now: int)

  /** One event. The interval exists only while the session runs: it is
      cleared as soon as `isPaused` becomes true, so a poll while paused has
      no effect. */
  function Step(s: TimerState, e: Event): (r: TimerState)
    ensures Valid(s) ==> Valid(r)
    ensures e.ResetAt? ==> r.config == None && r.isConfigurable == None
    ensures !e.ResetAt? ==> r.config == s.config && r.isConfigurable == s.isConfigurable
  {
    match e
    case TickAt(now) => if s.isPaused then s else Tick(s, now)
    case PlayPauseAt(now) => PlayPause(s, now)
    case SwitchAt(now) => Switch(s, now)
    case ResetAt(now) => Reset(now)
    case ClickAt(key, now) => BankClick(s, key, now)
  }

  /** The events `es`, in order. */
  function Run(s: TimerState, es: seq<Event>): TimerState
    decreases |es|
  {
    if es == [] then s else Run(Step(s, es[0]), es[1..])
  }

  /** The polls at each of `times`, in order. */
  function Polls(times: seq<int>): (es: seq<Event>)
    ensures |es| == |times|
    ensures forall i :: 0 <= i < |times| ==> es[i] == TickAt(times[i])
  {
    seq(|times|, i requires 0 <= i < |times| => TickAt(times[i]))
  }

  /** While paused the interval is cleared, so polls do nothing. */
  lemma {:induction false} PausedIgnoresPolls(s: TimerState, times: seq<int>)
    requires s.isPaused
    ensures Run(s, Polls(times)) == s
    decreases |times|
  {
    if times != [] {
      assert Polls(times)[1..] == Polls(times[1..]);
      PausedIgnoresPolls(s, times[1..]);
    }
  }

  /** Polls of a running session, through the interval that stops once the
      session pauses: a nondecreasing series leaves the banks and the running
      state of a single poll at the last reading. Only `lastTick` can differ,
      and only when the series paused the session, since the polls after the
      auto-pause never happen. */
  lemma {:induction false} PolledRunIsOnePoll(s: TimerState, times: seq<int>)
    requires !s.isPaused && |times| > 0 && Nondecreasing(times)
    ensures var r := Run(s, Polls(times));
      var one := Tick(s, times[|times| - 1]);
      && r.(lastTick := one.lastTick) == one
      && (!r.isPaused ==> r == one)
    decreases |times|
  {
    var rest := times[1..];
    var first := Tick(s, times[0]);
    assert Polls(times)[1..] == Polls(rest);
    assert Run(s, Polls(times)) == Run(first, Polls(rest));
    if rest != [] {
      assert Nondecreasing(rest);
      TickCompose(s, times[0], rest[|rest| - 1]);
      if first.isPaused {
        PausedIgnoresPolls(first, rest);
      } else {
        PolledRunIsOnePoll(first, rest);
      }
    }
  }

  /** From any valid state, whatever the user and the interval do, exactly
      one bank stays active and neither bank goes negative. */
  lemma {:induction false} RunPreservesValid(s: TimerState, es: seq<Event>)
    requires Valid(s)
    ensures Valid(Run(s, es))
    decreases |es|
  {
    if es != [] {
      RunPreservesValid(Step(s, es[0]), es[1..]);
    }
  }

  /** A freshly started app, with or without a stored session that was
      valid, keeps the invariant for ever. */
  lemma StartedSessionStaysValid(stored: Option<TimerState>, now: int, moduleLoadTime: int, es: seq<Event>)
    requires stored.Some? ==> Valid(stored.value)
    ensures Valid(Run(Load(stored, now, moduleLoadTime), es))
  {
    RunPreservesValid(Load(stored, now, moduleLoadTime), es);
  }

  /** The component never writes `config` or `isConfigurable`: they keep
      whatever was loaded until a reset drops them. */
  lemma {:induction false} RunNeverSetsConfig(s: TimerState, es: seq<Event>)
    ensures Run(s, es).config == s.config || Run(s, es).config == None
    ensures Run(s, es).isConfigurable == s.isConfigurable || Run(s, es).isConfigurable == None
    ensures Run(s, es).config.Some? ==> Run(s, es).config == s.config
    decreases |es|
  {
    if es != [] {
      var next := Step(s, es[0]);
      RunNeverSetsConfig(next, es[1..]);
    }
  }

  predicate NeverResumes(es: seq<Event>)
  {
    forall i :: 0 <= i < |es| ==> !es[i].PlayPauseAt? && !es[i].ResetAt?
  }

  /** While paused and not resumed, no time is charged: ticks do not fire,
      clicks are ignored and switching only moves the active flag. */
  lemma {:induction false} PausedSessionKeepsTime(s: TimerState, es: seq<Event>)
    requires s.isPaused && NeverResumes(es)
    ensures Run(s, es).isPaused
    ensures Run(s, es).bank1.remaining == s.bank1.remaining
    ensures Run(s, es).bank2.remaining == s.bank2.remaining
    decreases |es|
  {
    if es != [] {
      assert NeverResumes(es[1..]);
      PausedSessionKeepsTime(Step(s, es[0]), es[1..]);
    }
  }

  /** A bank that ran out may be resumed, but the next poll (at a time not
      before the resume) pauses it again at zero. */
  lemma ResumeExpiredRepauses(s: TimerState, t1: int, t2: int)
    requires s.isPaused && BankOf(s, GetActiveBank(s)).remaining == 0
    requires t1 <= t2
    ensures var r := Step(Step(s, PlayPauseAt(t1)), TickAt(t2));
      r.isPaused && BankOf(r, GetActiveBank(s)).remaining == 0
  {
  }

  /** Pressing switch or pause while running restarts the elapsed-time clock
      without charging the time since the last poll: up to one polling
      interval of running time is charged to neither bank. */
  lemma HandlersDropUnpolledTime(s: TimerState, now: int)
    requires Valid(s) && !s.isPaused && s.lastTick < now
    ensures var k := GetActiveBank(s);
      BankOf(s, k).remaining > 0 ==> BankOf(Tick(s, now), k).remaining < BankOf(s, k).remaining
    ensures var r := Step(s, SwitchAt(now));
      r.bank1.remaining == s.bank1.remaining && r.bank2.remaining == s.bank2.remaining && r.lastTick == now
    ensures var r := Step(s, PlayPauseAt(now));
      r.bank1.remaining == s.bank1.remaining && r.bank2.remaining == s.bank2.remaining && r.lastTick == now
  {
  }

  /** After loading a saved session, a poll at the load time charges
      nothing: the stale stored timestamp is never used. */
  lemma LoadChargesNoDowntime(stored: TimerState, now: int, moduleLoadTime: int)
    requires NonNegative(stored)
    ensures var loaded := Load(Some(stored), now, moduleLoadTime);
      var k := GetActiveBank(loaded);
      BankOf(Tick(loaded, now), k).remaining == BankOf(stored, k).remaining
  {
  }

  /** Reset, start, and let more than 25 minutes pass: the work bank is
      empty and paused, the break bank still holds its 5 minutes. */
  lemma ExpiryScenario(t0: int, t1: int, t2: int)
    requires t2 - t1 >= WorkMs
    ensures var r := Tick(PlayPause(Reset(t0), t1), t2);
      r.bank1.remaining == 0 && r.isPaused && r.bank2.remaining == BreakMs && r.bank1.isActive
  {
  }

  /** Reset forgets everything: two sessions reset at the same instant are
      identical, whatever they were before. */
  lemma ResetForgetsHistory(a: TimerState, b: TimerState, now: int)
    ensures Step(a, ResetAt(now)) == Step(b, ResetAt(now))
  {
  }

  /** Pressing play/pause twice restores the running state; only the
      timestamp moves. */
  lemma PlayPauseTwice(s: TimerState, t1: int, t2: int)
    ensures PlayPause(PlayPause(s, t1), t2) == s.(lastTick := t2)
  {
  }

  /** Switching twice restores both active flags; only the timestamp moves. */
  lemma SwitchTwice(s: TimerState, t1: int, t2: int)
    ensures Switch(Switch(s, t1), t2) == s.(lastTick := t2)
  {
  }
}
