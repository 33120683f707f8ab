/**
 The debounce of configuration changes (backend/src/service/dirty_data_service.go) and the
 health loop that polls it (backend/src/api/health.go). Times are in milliseconds.

 Every event handler and every timer callback is one atomic step. A RESTART subscriber may
 ask for a reset inside the callback; START subscribers emit nothing back, and RESTART
 subscribers emit no event of a managed kind.
 */
module DirtyData {
  import opened Wrappers

  datatype Tracker = Tracker(shares: bool, users: bool, settings: bool, appConfig: bool) {
    /** AppConfig is tracked but not managed. */
    predicate ManagedDirty() {
      shares || users || settings
    }
  }

  const ALL_CLEAN := Tracker(false, false, false, false)
  const DELAY: nat := 5000

  datatype Emission = Start(tracker: Tracker) | Restart(tracker: Tracker)

  /** The tracker and, if a timer is armed, the time it is due. */
  datatype State = State(tracker: Tracker, timer: Option<nat>)

  const INITIAL := State(Tracker(true, true, true, false), None)

  datatype Action =
    | ShareEvent
    | UserEvent
    | SettingEvent
    | AppConfigEvent
    | CleanEvent
    | Poll
    | Fire(cleans: bool)

  predicate Managed(a: Action) {
    a.ShareEvent? || a.UserEvent? || a.SettingEvent?
  }

  function Armed(s: State, now: nat): (State, seq<Emission>) {
    (s.(timer := Some(now + DELAY)), [Start(s.tracker)])
  }

  /** The state after an action at a time, and what is emitted meanwhile. */
  function Next(s: State, a: Action, now: nat): (State, seq<Emission>) {
    match a
    case ShareEvent => Armed(s.(tracker := s.tracker.(shares := true)), now)
    case UserEvent => Armed(s.(tracker := s.tracker.(users := true)), now)
    case SettingEvent => Armed(s.(tracker := s.tracker.(settings := true)), now)
    case AppConfigEvent => (s.(tracker := s.tracker.(appConfig := true)), [])
    case CleanEvent => (State(ALL_CLEAN, None), [])
    case Poll => if s.tracker.ManagedDirty() && s.timer.None? then Armed(s, now) else (s, [])
    case Fire(cleans) => (State(if cleans then ALL_CLEAN else s.tracker, None), [Restart(s.tracker)])
  }

  /** A timer fires when it is armed and due; everything else can happen at any time. */
  predicate Enabled(s: State, a: Action, now: nat) {
    a.Fire? ==> s.timer.Some? && now >= s.timer.value
  }

  // ---------- the service as the source writes it ----------

  class DirtyDataService {
    var tracker: Tracker
    var timer: Option<nat>
    /** Everything emitted on the event bus so far. */
    var bus: seq<Emission>

    function St(): State
      reads this
    {
      State(tracker, timer)
    }

    constructor ()
      ensures St() == INITIAL && bus == []
      ensures tracker == Tracker(true, true, true, false) && timer == None
    {
      tracker := Tracker(true, true, true, false);
      timer := None;
      bus := [];
    }

    method StartTimer(now: nat)
      modifies this
      ensures (St(), bus) == (Armed(old(St()), now).0, old(bus) + Armed(old(St()), now).1)
      ensures tracker == old(tracker) && timer == Some(now + 5000) && bus == old(bus) + [Start(tracker)]
    {
      if timer.Some? {
        timer := None;
      }
      bus := bus + [Start(tracker)];
      timer := Some(now + DELAY);
    }

    /** What the armed timer runs when it is due; `cleans` tells whether a subscriber of the
        RESTART event resets the service before the callback ends. */
    method TimerCallback(now: nat, cleans: bool)
      requires Enabled(St(), Fire(cleans), now)
      modifies this
      ensures (St(), bus) == (Next(old(St()), Fire(cleans), now).0, old(bus) + Next(old(St()), Fire(cleans), now).1)
      ensures bus == old(bus) + [Restart(old(tracker))] && timer == None
      ensures tracker == if cleans then Tracker(false, false, false, false) else old(tracker)
    {
      bus := bus + [Restart(tracker)];
      if cleans {
        ResetDirtyStatus();
      }
      timer := None;
    }

    method StopTimer()
      modifies this
      ensures St() == old(St()).(timer := None) && bus == old(bus)
    {
      if timer.Some? {
        timer := None;
      }
    }

    method SetDirtyShares(now: nat)
      modifies this
      ensures (St(), bus) == (Next(old(St()), ShareEvent, now).0, old(bus) + Next(old(St()), ShareEvent, now).1)
      ensures tracker == old(tracker).(shares := true)
      ensures timer == Some(now + 5000) && bus == old(bus) + [Start(tracker)]
    {
      tracker := tracker.(shares := true);
      StartTimer(now);
    }

    method SetDirtyUsers(now: nat)
      modifies this
      ensures (St(), bus) == (Next(old(St()), UserEvent, now).0, old(bus) + Next(old(St()), UserEvent, now).1)
      ensures tracker == old(tracker).(users := true)
      ensures timer == Some(now + 5000) && bus == old(bus) + [Start(tracker)]
    {
      tracker := tracker.(users := true);
      StartTimer(now);
    }

    method SetDirtySettings(now: nat)
      modifies this
      ensures (St(), bus) == (Next(old(St()), SettingEvent, now).0, old(bus) + Next(old(St()), SettingEvent, now).1)
      ensures tracker == old(tracker).(settings := true)
      ensures timer == Some(now + 5000) && bus == old(bus) + [Start(tracker)]
    {
      tracker := tracker.(settings := true);
      StartTimer(now);
    }

    method SetDirtyAppConfig(now: nat)
      modifies this
      ensures (St(), bus) == (Next(old(St()), AppConfigEvent, now).0, old(bus))
      ensures tracker == old(tracker).(appConfig := true) && timer == old(timer)
    {
      tracker := tracker.(appConfig := true);
    }

    method GetDirtyDataTracker(now: nat) returns (t: Tracker)
      modifies this
      ensures (St(), bus) == (Next(old(St()), Poll, now).0, old(bus) + Next(old(St()), Poll, now).1)
      ensures t == old(tracker)
      ensures tracker == old(tracker)
      ensures var starts := (tracker.shares || tracker.users || tracker.settings) && old(timer).None?;
        && timer == (if starts then Some(now + 5000) else old(timer))
        && bus == (if starts then old(bus) + [Start(tracker)] else old(bus))
    {
      assert bus + [] == bus;
      if tracker.ManagedDirty() && timer.None? {
        StartTimer(now);
      }
      t := tracker;
    }

    method ResetDirtyStatus()
      modifies this
      ensures St() == State(ALL_CLEAN, None) && bus == old(bus)
      ensures tracker == Tracker(false, false, false, false) && timer == None
    {
      tracker := ALL_CLEAN;
      StopTimer();
    }

    method IsClean() returns (r: bool)
      ensures r <==> St() == State(ALL_CLEAN, None)
    {
      r := !tracker.shares && !tracker.users && !tracker.settings && !tracker.appConfig && timer.None?;
    }
  }

  // ---------- timed runs ----------

  datatype Timed = Timed(at: nat, action: Action)

  /** A run from time `t`: times do not decrease and every action is enabled. */
  ghost predicate Run(s: State, t: nat, steps: seq<Timed>)
    decreases |steps|
  {
    steps == [] ||
    (t <= steps[0].at && Enabled(s, steps[0].action, steps[0].at) &&
     Run(Next(s, steps[0].action, steps[0].at).0, steps[0].at, steps[1..]))
  }

  /** The state before the k-th step; after the last one for k == |steps|. */
  ghost function StateAt(s: State, steps: seq<Timed>, k: nat): State
    requires k <= |steps|
    decreases k
  {
    if k == 0 then s else StateAt(Next(s, steps[0].action, steps[0].at).0, steps[1..], k - 1)
  }

  ghost function EmittedAt(s: State, steps: seq<Timed>, k: nat): seq<Emission>
    requires k < |steps|
  {
    Next(StateAt(s, steps, k), steps[k].action, steps[k].at).1
  }

  ghost predicate RestartsAt(s: State, steps: seq<Timed>, k: nat)
    requires k < |steps|
  {
    exists t :: Restart(t) in EmittedAt(s, steps, k)
  }

  /** An armed timer has something to restart for. */
  ghost predicate Inv(s: State) {
    s.timer.Some? ==> s.tracker.ManagedDirty()
  }

  lemma {:induction false} InvAlways(s: State, t: nat, steps: seq<Timed>, k: nat)
    requires Run(s, t, steps) && Inv(s) && k <= |steps|
    ensures Inv(StateAt(s, steps, k))
    decreases k
  {
    if k > 0 {
      InvAlways(Next(s, steps[0].action, steps[0].at).0, steps[0].at, steps[1..], k - 1);
    }
  }

  lemma {:induction false} EnabledAt(s: State, t: nat, steps: seq<Timed>, k: nat)
    requires Run(s, t, steps) && k < |steps|
    ensures Enabled(StateAt(s, steps, k), steps[k].action, steps[k].at)
    ensures t <= steps[k].at
    decreases k
  {
    if k > 0 {
      EnabledAt(Next(s, steps[0].action, steps[0].at).0, steps[0].at, steps[1..], k - 1);
    }
  }

  /** In every run from start-up: an armed timer implies a dirty managed flag at all times,
      and every RESTART carries one. */
  lemma ArmedMeansDirty(t: nat, steps: seq<Timed>, k: nat)
    requires Run(INITIAL, t, steps) && k <= |steps|
    ensures StateAt(INITIAL, steps, k).timer.Some? ==> StateAt(INITIAL, steps, k).tracker.ManagedDirty()
    ensures k < |steps| ==> forall tr :: Restart(tr) in EmittedAt(INITIAL, steps, k) ==> tr.ManagedDirty()
  {
    InvAlways(INITIAL, t, steps, k);
    if k < |steps| {
      EnabledAt(INITIAL, t, steps, k);
    }
  }

  /** Nothing is due before `bound`. */
  ghost predicate NotBefore(s: State, bound: nat) {
    s.timer.Some? ==> s.timer.value >= bound
  }

  lemma {:induction false} QuietUntil(s: State, t: nat, steps: seq<Timed>, k: nat)
    requires Run(s, t, steps) && NotBefore(s, t + DELAY) && k < |steps| && RestartsAt(s, steps, k)
    ensures steps[k].at >= t + DELAY
  {
    StaysQuiet(s, t, steps, k, t + DELAY);
  }

  lemma {:induction false} StaysQuiet(s: State, t: nat, steps: seq<Timed>, k: nat, bound: nat)
    requires Run(s, t, steps) && NotBefore(s, bound) && bound <= t + DELAY && k < |steps| && RestartsAt(s, steps, k)
    ensures steps[k].at >= bound
    decreases k
  {
    if k > 0 {
      var s2 := Next(s, steps[0].action, steps[0].at).0;
      assert EmittedAt(s, steps, k) == EmittedAt(s2, steps[1..], k - 1);
      assert RestartsAt(s2, steps[1..], k - 1);
      StaysQuiet(s2, steps[0].at, steps[1..], k - 1, bound);
    }
  }

  /** In every run, from any state: no RESTART within the delay after an event of a managed
      kind or after another RESTART. */
  lemma {:induction false} NoEarlyRestart(s: State, t: nat, steps: seq<Timed>, i: nat, j: nat)
    requires Run(s, t, steps) && i < j < |steps|
    requires Managed(steps[i].action) || RestartsAt(s, steps, i)
    requires RestartsAt(s, steps, j)
    ensures steps[j].at >= steps[i].at + DELAY
    decreases i
  {
    var s2 := Next(s, steps[0].action, steps[0].at).0;
    assert EmittedAt(s, steps, j) == EmittedAt(s2, steps[1..], j - 1);
    assert RestartsAt(s2, steps[1..], j - 1);
    if i == 0 {
      QuietUntil(s2, steps[0].at, steps[1..], j - 1);
    } else {
      assert EmittedAt(s, steps, i) == EmittedAt(s2, steps[1..], i - 1);
      assert RestartsAt(s, steps, i) ==> RestartsAt(s2, steps[1..], i - 1);
      NoEarlyRestart(s2, steps[0].at, steps[1..], i - 1, j - 1);
    }
  }

  /** Without an event of a managed kind, nothing at all is emitted from a state whose managed
      flags are clean and whose timer is off: AppConfig events alone never cause a restart. */
  lemma {:induction false} AppConfigAloneIsQuiet(s: State, t: nat, steps: seq<Timed>, k: nat)
    requires Run(s, t, steps) && !s.tracker.ManagedDirty() && s.timer.None?
    requires forall i :: 0 <= i < |steps| ==> !Managed(steps[i].action)
    requires k < |steps|
    ensures EmittedAt(s, steps, k) == []
    decreases k
  {
    if k > 0 {
      var s2 := Next(s, steps[0].action, steps[0].at).0;
      AppConfigAloneIsQuiet(s2, steps[0].at, steps[1..], k - 1);
    }
  }

  // ---------- which flag is dirty when ----------

  predicate Cleans(a: Action) {
    a.CleanEvent? || a == Fire(true)
  }

  ghost predicate NoneCleans(steps: seq<Timed>) {
    forall i :: 0 <= i < |steps| ==> !Cleans(steps[i].action)
  }

  /** A flag's own event came after the last cleaning, or the flag was dirty and none was made clean. */
  ghost predicate DirtySince(start: bool, steps: seq<Timed>, own: Action -> bool) {
    || (start && NoneCleans(steps))
    || exists i :: 0 <= i < |steps| && own(steps[i].action) && NoneCleans(steps[i + 1..])
  }

  lemma DirtyCons(start: bool, steps: seq<Timed>, own: Action -> bool)
    requires steps != [] && !(own(steps[0].action) && Cleans(steps[0].action))
    ensures DirtySince(start, steps, own) <==>
            DirtySince(own(steps[0].action) || (start && !Cleans(steps[0].action)), steps[1..], own)
  {
    var rest := steps[1..];
    assert NoneCleans(steps) <==> !Cleans(steps[0].action) && NoneCleans(rest) by {
      assert steps == [steps[0]] + rest;
    }
    if i :| 0 <= i < |rest| && own(rest[i].action) && NoneCleans(rest[i + 1..]) {
      assert rest[i + 1..] == steps[i + 1 + 1..];
      assert own(steps[i + 1].action) && NoneCleans(steps[i + 1 + 1..]);
    }
    if i :| 0 <= i < |steps| && own(steps[i].action) && NoneCleans(steps[i + 1..]) {
      if i > 0 { assert rest[i - 1 + 1..] == steps[i + 1..]; assert own(rest[i - 1].action) &&
          NoneCleans(rest[i - 1 + 1..]); }
    }
  }

  lemma {:induction false} FlagExactly(s: State, steps: seq<Timed>, k: nat, get: Tracker -> bool, own: Action -> bool)
    requires k <= |steps| && forall a :: own(a) ==> !Cleans(a)
    requires forall x, a, now :: get(Next(x, a, now).0.tracker) <==> own(a) || (get(x.tracker) && !Cleans(a))
    ensures get(StateAt(s, steps, k).tracker) <==> DirtySince(get(s.tracker), steps[..k], own)
    decreases k
  {
    hide DirtySince, Next, Cleans;
    if k > 0 {
      FlagExactly(Next(s, steps[0].action, steps[0].at).0, steps[1..], k - 1, get, own);
      assert steps[..k][1..] == steps[1..][..k - 1] && steps[..k][0] == steps[0];
      DirtyCons(get(s.tracker), steps[..k], own);
    } else {
      assert steps[..0] == [];
      NothingSince(get(s.tracker), own);
    }
  }

  lemma NothingSince(start: bool, own: Action -> bool)
    ensures DirtySince(start, [], own) <==> start
  {}

  /** In every run each flag is dirty exactly when its own event, or the dirty start, came after
      the last cleaning: nothing else sets it and nothing else clears it. */
  lemma FlagsExactly(s: State, steps: seq<Timed>, k: nat)
    requires k <= |steps|
    ensures var now := StateAt(s, steps, k).tracker;
      && (now.shares <==> DirtySince(s.tracker.shares, steps[..k], (a: Action) => a.ShareEvent?))
      && (now.users <==> DirtySince(s.tracker.users, steps[..k], (a: Action) => a.UserEvent?))
      && (now.settings <==> DirtySince(s.tracker.settings, steps[..k], (a: Action) => a.SettingEvent?))
      && (now.appConfig <==> DirtySince(s.tracker.appConfig, steps[..k], (a: Action) => a.AppConfigEvent?))
  {
    hide DirtySince, StateAt;
    FlagExactly(s, steps, k, (t: Tracker) => t.shares, (a: Action) => a.ShareEvent?);
    FlagExactly(s, steps, k, (t: Tracker) => t.users, (a: Action) => a.UserEvent?);
    FlagExactly(s, steps, k, (t: Tracker) => t.settings, (a: Action) => a.SettingEvent?);
    FlagExactly(s, steps, k, (t: Tracker) => t.appConfig, (a: Action) => a.AppConfigEvent?);
  }

  /** In every run a START is emitted exactly at a managed event, or at a poll that finds managed
      data dirty and no timer; a RESTART exactly when the timer fires; each with the tracker. */
  lemma EmittedExactly(s: State, t: nat, steps: seq<Timed>, k: nat)
    requires Run(s, t, steps) && k < |steps|
    ensures var before, after, a := StateAt(s, steps, k), StateAt(s, steps, k + 1), steps[k].action;
      && (a.Fire? ==> before.timer.Some? && after.timer.None? && EmittedAt(s, steps, k) == [Restart(before.tracker)])
      && (Managed(a) || (a.Poll? && before.tracker.ManagedDirty() && before.timer.None?) ==>
            after.timer == Some(steps[k].at + 5000) && EmittedAt(s, steps, k) == [Start(after.tracker)])
      && (a.AppConfigEvent? || (a.Poll? && !(before.tracker.ManagedDirty() && before.timer.None?)) ==>
            after.timer == before.timer && EmittedAt(s, steps, k) == [])
      && (a.CleanEvent? ==> after == State(Tracker(false, false, false, false), None) && EmittedAt(s, steps, k) == [])
  {
    EnabledAt(s, t, steps, k);
    StateAfter(s, steps, k);
  }

  lemma {:induction false} StateAfter(s: State, steps: seq<Timed>, k: nat)
    requires k < |steps|
    ensures StateAt(s, steps, k + 1) == Next(StateAt(s, steps, k), steps[k].action, steps[k].at).0
    decreases k
  {
    var s2 := Next(s, steps[0].action, steps[0].at).0;
    if k > 0 {
      StateAfter(s2, steps[1..], k - 1);
    } else {
      assert StateAt(s2, steps[1..], 0) == s2;
    }
  }

  // ---------- a restart comes ----------

  /** A due timer fires before time goes on. */
  ghost predicate Prompt(s: State, steps: seq<Timed>)
    decreases |steps|
  {
    steps == [] ||
    ((s.timer.Some? ==> steps[0].at <= s.timer.value) && Prompt(Next(s, steps[0].action, steps[0].at).0, steps[1..]))
  }

  /** Time never goes on for more than `interval` past the last poll without another poll. */
  ghost predicate Polled(last: nat, steps: seq<Timed>, interval: nat)
    decreases |steps|
  {
    steps == [] ||
    (steps[0].at <= last + interval &&
     Polled(if steps[0].action.Poll? then steps[0].at else last, steps[1..], interval))
  }

  /** In every run from start-up an armed timer is due within the delay. */
  lemma {:induction false} DueSoon(s: State, t: nat, steps: seq<Timed>, k: nat)
    requires Run(s, t, steps) && 0 < k <= |steps| && (s.timer.Some? ==> s.timer.value <= t + DELAY)
    ensures var due := StateAt(s, steps, k).timer; due.Some? ==> due.value <= steps[k - 1].at + DELAY
    decreases k
  {
    if k > 1 {
      DueSoon(Next(s, steps[0].action, steps[0].at).0, steps[0].at, steps[1..], k - 1);
    } else {
      assert StateAt(s, steps, 1) == Next(s, steps[0].action, steps[0].at).0;
    }
  }

  /** With the health loop polling every `interval`, a dirty managed flag leads to a RESTART
      within `interval` plus the delay, unless it is cleaned or another managed event comes:
      a run that goes on beyond that time has restarted in time. */
  lemma RestartComes(s: State, t: nat, steps: seq<Timed>, interval: nat)
    requires Run(s, t, steps) && Prompt(s, steps) && Polled(t, steps, interval)
    requires s.tracker.ManagedDirty() && (s.timer.Some? ==> s.timer.value <= t + DELAY)
    requires forall i :: 0 <= i < |steps| ==> !Managed(steps[i].action) && !steps[i].action.CleanEvent?
    requires steps != [] && steps[|steps| - 1].at > t + interval + DELAY
    ensures exists k :: 0 <= k < |steps| && RestartsAt(s, steps, k) && steps[k].at <= t + interval + DELAY
  {
    var k := FindRestart(s, t, steps, interval, t, t + interval + DELAY);
  }

  lemma {:induction false} FindRestart(s: State, t: nat, steps: seq<Timed>, interval: nat, last: nat, bound: nat)
      returns (k: nat)
    requires Run(s, t, steps) && Prompt(s, steps) && Polled(last, steps, interval)
    requires s.tracker.ManagedDirty()
    requires if s.timer.Some? then s.timer.value <= bound else last + interval + DELAY <= bound
    requires forall i :: 0 <= i < |steps| ==> !Managed(steps[i].action) && !steps[i].action.CleanEvent?
    requires steps != [] && steps[|steps| - 1].at > bound
    ensures k < |steps| && RestartsAt(s, steps, k) && steps[k].at <= bound
    decreases |steps|
  {
    var a := steps[0];
    if a.action.Fire? {
      k := 0;
      assert Restart(s.tracker) in EmittedAt(s, steps, 0);
    } else {
      var s2 := Next(s, a.action, a.at).0;
      assert |steps| > 1;
      var j := FindRestart(s2, a.at, steps[1..], interval, if a.action.Poll? then a.at else last, bound);
      k := j + 1;
      assert EmittedAt(s, steps, k) == EmittedAt(s2, steps[1..], j);
    }
  }

  // ---------- the health loop ----------

  /** `run` until it is cancelled after `rounds` rounds, each after waiting `interval`: which
      rounds do the heavy work, and when the dirty tracker is polled. */
  method HealthRun(start: nat, interval: nat, rounds: nat) returns (heavy: seq<bool>, polls: seq<Timed>)
    ensures |heavy| == rounds && forall n :: 0 <= n < rounds ==> (heavy[n] <==> n % 12 == 0)
    ensures |polls| == rounds && Polled(start, polls, interval)
    ensures forall n :: 0 <= n < rounds ==> polls[n] == Timed(start + (n + 1) * interval, Poll)
  {
    heavy, polls := [], [];
    var ticks, now := 0, start;
    for n := 0 to rounds
      invariant ticks == n % 12 && now == start + n * interval
      invariant |heavy| == n && forall i :: 0 <= i < n ==> (heavy[i] <==> i % 12 == 0)
      invariant |polls| == n && forall i :: 0 <= i < n ==> polls[i] == Timed(start + (i + 1) * interval, Poll)
    {
      now := now + interval;
      var isHeavyTick := ticks == 0;
      ticks := (ticks + 1) % 12;
      heavy := heavy + [isHeavyTick];
      polls := polls + [Timed(now, Poll)];
    }
    EvenlyPolled(start, polls, interval);
  }

  lemma {:induction false} EvenlyPolled(start: nat, polls: seq<Timed>, interval: nat)
    requires forall n :: 0 <= n < |polls| ==> polls[n] == Timed(start + (n + 1) * interval, Poll)
    ensures Polled(start, polls, interval)
    decreases |polls|
  {
    if polls != [] {
      assert polls[0].at == start + interval;
      forall n | 0 <= n < |polls[1..]|
        ensures polls[1..][n] == Timed(start + interval + (n + 1) * interval, Poll)
      {
        assert (n + 2) * interval == interval + (n + 1) * interval;
      }
      EvenlyPolled(start + interval, polls[1..], interval);
    }
  }

  // ---------- the loop beside everything else ----------

  /** The polls of a run. */
  function PollsOf(steps: seq<Timed>): seq<Timed> {
    if steps == [] then []
    else (if steps[0].action.Poll? then [steps[0]] else []) + PollsOf(steps[1..])
  }

  /** The time of the last poll of a run, `last` if there is none. */
  function LastPoll(last: nat, steps: seq<Timed>): nat {
    if PollsOf(steps) == [] then last else PollsOf(steps)[|PollsOf(steps)| - 1].at
  }

  ghost predicate Ordered(t: nat, steps: seq<Timed>)
    decreases |steps|
  {
    steps == [] || (t <= steps[0].at && Ordered(steps[0].at, steps[1..]))
  }

  lemma {:induction false} RunOrdered(s: State, t: nat, steps: seq<Timed>)
    requires Run(s, t, steps)
    ensures Ordered(t, steps)
    decreases |steps|
  {
    if steps != [] { RunOrdered(Next(s, steps[0].action, steps[0].at).0, steps[0].at, steps[1..]); }
  }

  lemma {:induction false} OrderedLast(t: nat, steps: seq<Timed>)
    requires Ordered(t, steps) && steps != []
    ensures t <= steps[0].at <= steps[|steps| - 1].at
    ensures PollsOf(steps) != [] ==> steps[0].at <= PollsOf(steps)[0].at
    decreases |steps|
  {
    if |steps| > 1 { OrderedLast(steps[0].at, steps[1..]); }
  }

  /** Whatever else happens between the polls of the loop, a run that does not outlive the last
      poll by more than the interval is polled as the loop polls. */
  lemma {:induction false} InterleavedPolled(t: nat, last: nat, steps: seq<Timed>, interval: nat)
    requires Ordered(t, steps) && Polled(last, PollsOf(steps), interval)
    requires steps != [] ==> steps[|steps| - 1].at <= LastPoll(last, steps) + interval
    ensures Polled(last, steps, interval)
    decreases |steps|
  {
    if steps != [] {
      OrderedLast(t, steps);
      var rest := steps[1..];
      if steps[0].action.Poll? {
        assert PollsOf(steps)[1..] == PollsOf(rest);
        InterleavedPolled(steps[0].at, steps[0].at, rest, interval);
      } else {
        assert PollsOf(steps) == PollsOf(rest);
        InterleavedPolled(steps[0].at, last, rest, interval);
      }
    }
  }

  /** Who is polled in time since `a` is polled in time since a later moment. */
  lemma {:induction false} PolledLater(a: nat, b: nat, steps: seq<Timed>, interval: nat)
    requires a <= b && Polled(a, steps, interval)
    ensures Polled(b, steps, interval)
    decreases |steps|
  {
    if steps != [] && !steps[0].action.Poll? { PolledLater(a, b, steps[1..], interval); }
  }

  /** RestartComes for the polls the health loop makes, between any other actions and with the
      dirty state beginning at any moment: the loop ticks every `interval` from `t0` on. */
  lemma LoopRestarts(s: State, t0: nat, t: nat, steps: seq<Timed>, interval: nat)
    requires t0 <= t && Run(s, t, steps) && Prompt(s, steps)
    requires forall n :: 0 <= n < |PollsOf(steps)| ==> PollsOf(steps)[n] == Timed(t0 + (n + 1) * interval, Poll)
    requires steps != [] && t + interval + DELAY < steps[|steps| - 1].at <= LastPoll(t0, steps) + interval
    requires s.tracker.ManagedDirty() && (s.timer.Some? ==> s.timer.value <= t + DELAY)
    requires forall i :: 0 <= i < |steps| ==> !Managed(steps[i].action) && !steps[i].action.CleanEvent?
    ensures exists k :: 0 <= k < |steps| && RestartsAt(s, steps, k) && steps[k].at <= t + interval + DELAY
  {
    RunOrdered(s, t, steps);
    EvenlyPolled(t0, PollsOf(steps), interval);
    InterleavedPolled(t, t0, steps, interval);
    PolledLater(t0, t, steps, interval);
    RestartComes(s, t, steps, interval);
  }
}
