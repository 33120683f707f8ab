/**
 The watcher of the addon options (backend/src/service/addon_config_watcher_service.go):
 several detectors hash the options and report through maybeNotify, which drops repeats; the
 ticker skips the hashing while the modification time stands still.

 The options have a modification time and a content, named by its hash. Whoever hashes them
 reports in a step of its own, so a hash may be delivered after the options have changed again.
 */
module ConfigWatcher {
  import opened Wrappers

  type Hash = string

  datatype Action =
    | Write(mtime: nat, content: Hash)  // somebody else replaces the options
    | Observe                           // the supervisor or fsnotify detector hashes them
    | Deliver(h: Hash)                  // and gets the lock of maybeNotify
    | Stat(ok: bool)                    // the ticker starts a round
    | Read(ok: bool)                    // and hashes the options
    | Report                            // and gets the lock of maybeNotify

  /** Where the ticker is in its round. A skipped round does nothing; its phases mark when it
      would have hashed what. */
  datatype Phase = Idle | Reading(skip: bool) | Holding(h: Hash, skip: bool)

  /** `pending` are the hashes observed but not delivered, `tick` the ticker's lastMtime with 0
      for the zero time, `log` the calls of onChanged. */
  datatype Watch = Watch(mtime: nat, content: Hash, pending: multiset<Hash>, last: Hash, tick: nat, phase: Phase,
      log: seq<Hash>)

  function Notify(w: Watch, h: Hash): Watch {
    if h == w.last then w else w.(last := h, log := w.log + [h])
  }

  /** The ticker has seen this modification time before; the zero time does not count. */
  predicate Unchanged(w: Watch) {
    w.tick != 0 && w.tick == w.mtime
  }

  /** `fast` tells whether the ticker compares modification times, as it does for a local file. */
  function Act(fast: bool, w: Watch, a: Action): Watch {
    match a
    case Write(m, c) => w.(mtime := m, content := c)
    case Observe => w.(pending := w.pending + multiset{w.content})
    case Deliver(h) => if h in w.pending then Notify(w.(pending := w.pending - multiset{h}), h) else w
    case Stat(ok) =>
      if !w.phase.Idle? then w
      else if fast && ok && Unchanged(w) then w.(phase := Reading(true))
      else w.(tick := if ok then w.mtime else w.tick, phase := Reading(false))
    case Read(ok) =>
      if !w.phase.Reading? then w else w.(phase := if ok then Holding(w.content, w.phase.skip) else Idle)
    case Report =>
      if !w.phase.Holding? then w
      else if w.phase.skip then w.(phase := Idle)
      else Notify(w.(phase := Idle), w.phase.h)
  }

  function After(fast: bool, w: Watch, actions: seq<Action>): Watch
    decreases |actions|
  {
    if actions == [] then w else After(fast, Act(fast, w, actions[0]), actions[1..])
  }

  lemma AfterThree(fast: bool, w: Watch, a: Action, b: Action, c: Action)
    ensures After(fast, w, [a, b, c]) == Act(fast, Act(fast, Act(fast, w, a), b), c)
  {
    hide Act;
    var w1 := Act(fast, w, a);
    var w2 := Act(fast, w1, b);
    assert [a, b, c][1..] == [b, c] && [b, c][1..] == [c] && [c][1..] == [];
    assert After(fast, w2, [c]) == Act(fast, w2, c);
    assert After(fast, w1, [b, c]) == After(fast, w2, [c]);
  }

  lemma {:induction false} AfterAppend(fast: bool, w: Watch, a: seq<Action>, b: seq<Action>)
    ensures After(fast, w, a + b) == After(fast, After(fast, w, a), b)
    decreases |a|
  {
    hide Act;
    if a == [] {
      assert a + b == b;
    } else {
      assert (a + b)[1..] == a[1..] + b;
      AfterAppend(fast, Act(fast, w, a[0]), a[1..], b);
    }
  }

  // ---------- the code of the source ----------

  class AddonConfigWatcher {
    var lastHash: Hash
    var changed: seq<Hash>
    /** The local variable of the ticker's loop. */
    var lastMtime: nat

    constructor (initial: Hash)
      ensures lastHash == initial && changed == [] && lastMtime == 0
    {
      lastHash := initial;
      changed, lastMtime := [], 0;
    }

    /** The service beside options of that modification time and content. */
    ghost function Beside(mtime: nat, content: Hash): Watch
      reads this
    {
      Watch(mtime, content, multiset{}, lastHash, lastMtime, Idle, changed)
    }

    /** Runs under the lock, so calls are ordered. */
    method MaybeNotify(h: Hash)
      modifies this
      ensures forall m, c :: Beside(m, c) == Notify(old(Beside(m, c)), h)
    {
      if h == lastHash {
        return;
      }
      lastHash := h;
      changed := changed + [h];
    }

    /** One round of watchViaTicker, nothing else coming in between: `local` is whether a local
        file is watched, `stat` the modification time if it could be read, `hashed` the hash if it
        could be computed. */
    method TickerRound(local: bool, stat: Option<nat>, hashed: Option<Hash>)
      modifies this
      ensures forall m, c :: (stat.Some? ==> m == stat.value) && (hashed.Some? ==> c == hashed.value) ==>
        Beside(m, c) == After(local, old(Beside(m, c)), [Stat(local && stat.Some?), Read(hashed.Some?), Report])
    {
      forall m, c {
        AfterThree(local, Beside(m, c), Stat(local && stat.Some?), Read(hashed.Some?), Report);
      }
      hide After;
      if local && stat.Some? {
        if lastMtime != 0 && stat.value == lastMtime {
          return;
        }
        lastMtime := stat.value;
      }
      if hashed.None? {
        return;
      }
      MaybeNotify(hashed.value);
    }
  }

  // ---------- notifications are the observations without repeats ----------

  function WithoutRepeats(last: Hash, hs: seq<Hash>): seq<Hash>
    decreases |hs|
  {
    if hs == [] then []
    else (if hs[0] == last then [] else [hs[0]]) + WithoutRepeats(hs[0], hs[1..])
  }

  /** The hash an action hands to maybeNotify, if it does. */
  function Handed(w: Watch, a: Action): seq<Hash> {
    match a
    case Deliver(h) => if h in w.pending then [h] else []
    case Report => if w.phase.Holding? && !w.phase.skip then [w.phase.h] else []
    case _ => []
  }

  /** All hashes handed to maybeNotify, in the order of the lock. */
  function LockOrder(fast: bool, w: Watch, actions: seq<Action>): seq<Hash>
    decreases |actions|
  {
    if actions == [] then []
    else Handed(w, actions[0]) + LockOrder(fast, Act(fast, w, actions[0]), actions[1..])
  }

  /** For every interleaving of the detectors, onChanged is called with the observed hashes in
      lock order, without consecutive repeats. */
  lemma {:induction false} NotifiedWithoutRepeats(fast: bool, w: Watch, actions: seq<Action>)
    ensures After(fast, w, actions).log == w.log + WithoutRepeats(w.last, LockOrder(fast, w, actions))
    decreases |actions|
  {
    if actions != [] {
      hide Act, Handed, WithoutRepeats;
      var a := actions[0];
      var w2 := Act(fast, w, a);
      NotifiedWithoutRepeats(fast, w2, actions[1..]);
      OneHanded(fast, w, a);
      RepeatsAppend(w.last, Handed(w, a), LockOrder(fast, w2, actions[1..]), w.log);
    }
  }

  lemma OneHanded(fast: bool, w: Watch, a: Action)
    ensures var w2 := Act(fast, w, a); var hs := Handed(w, a);
      |hs| <= 1 && w2.last == (if hs == [] then w.last else hs[0]) && w2.log == w.log + WithoutRepeats(w.last, hs)
  {
    match a {
      case Deliver(_) =>
      case Report =>
      case _ =>
    }
  }

  lemma RepeatsAppend(last: Hash, hs: seq<Hash>, rest: seq<Hash>, log: seq<Hash>)
    requires |hs| <= 1
    ensures log + WithoutRepeats(last, hs + rest) ==
            log + WithoutRepeats(last, hs) + WithoutRepeats(if hs == [] then last else hs[0], rest)
  {
    if hs == [] {
      assert hs + rest == rest;
    } else {
      assert (hs + rest)[1..] == rest;
    }
  }

  // ---------- at most once per hash? ----------

  ghost predicate Once(hs: seq<Hash>) {
    forall i, j :: 0 <= i < j < |hs| ==> hs[i] != hs[j]
  }

  /** No hash returns after another one, but for the hash known from the start. */
  ghost predicate NoneReturns(last: Hash, hs: seq<Hash>) {
    forall i, j, k :: 0 <= i < j < k < |hs| && hs[i] == hs[k] ==> hs[j] == hs[i] || AllAre(hs[..i + 1], last)
  }

  ghost predicate AllAre(hs: seq<Hash>, h: Hash) {
    forall m :: 0 <= m < |hs| ==> hs[m] == h
  }

  /** The hash `x` is left and met again. */
  ghost predicate MetAgain(x: Hash, hs: seq<Hash>) {
    exists j, k :: 0 <= j < k < |hs| && hs[j] != x && hs[k] == x
  }

  lemma {:induction false} NotifiedMembers(last: Hash, hs: seq<Hash>, x: Hash)
    requires x != last
    ensures x in WithoutRepeats(last, hs) <==> x in hs
    decreases |hs|
  {
    if hs != [] {
      if hs[0] != x { NotifiedMembers(hs[0], hs[1..], x); }
    }
  }

  lemma {:induction false} NotifiedAgain(x: Hash, hs: seq<Hash>)
    ensures x in WithoutRepeats(x, hs) <==> MetAgain(x, hs)
    decreases |hs|
  {
    if hs != [] {
      var rest := hs[1..];
      if hs[0] == x {
        NotifiedAgain(x, rest);
        if MetAgain(x, rest) {
          var j, k :| 0 <= j < k < |rest| && rest[j] != x && rest[k] == x;
          assert hs[j + 1] != x && hs[k + 1] == x;
        }
        if MetAgain(x, hs) {
          var j, k :| 0 <= j < k < |hs| && hs[j] != x && hs[k] == x;
          assert rest[j - 1] != x && rest[k - 1] == x;
        }
      } else {
        NotifiedMembers(hs[0], rest, x);
        if x in rest {
          var k :| 0 <= k < |rest| && rest[k] == x;
          assert hs[0] != x && hs[k + 1] == x;
        }
      }
    }
  }

  /** No hash is notified twice exactly when none is delivered again after another one. */
  lemma {:induction false} OnceExactly(last: Hash, hs: seq<Hash>)
    ensures Once(WithoutRepeats(last, hs)) <==> NoneReturns(last, hs)
    decreases |hs|
  {
    if hs != [] {
      var x, rest := hs[0], hs[1..];
      OnceExactly(x, rest);
      if x == last {
        KnownFirst(last, hs);
        assert WithoutRepeats(last, hs) == WithoutRepeats(x, rest);
      } else {
        NotifiedAgain(x, rest);
        NewFirst(last, hs);
        OnceCons(x, WithoutRepeats(x, rest));
      }
    }
  }

  lemma OnceCons(x: Hash, hs: seq<Hash>)
    ensures Once([x] + hs) <==> x !in hs && Once(hs)
  {
    if Once([x] + hs) {
      forall j | 0 <= j < |hs|
        ensures hs[j] != x
      {
        assert ([x] + hs)[0] != ([x] + hs)[j + 1];
      }
      forall i, j | 0 <= i < j < |hs|
        ensures hs[i] != hs[j]
      {
        assert ([x] + hs)[i + 1] != ([x] + hs)[j + 1];
      }
    }
  }

  lemma AllAreCons(hs: seq<Hash>, i: nat, h: Hash)
    requires 0 < i < |hs|
    ensures AllAre(hs[..i + 1], h) <==> hs[0] == h && AllAre(hs[1..][..i], h)
  {
    assert hs[..i + 1] == [hs[0]] + hs[1..][..i];
  }

  lemma KnownFirst(last: Hash, hs: seq<Hash>)
    requires hs != [] && hs[0] == last
    ensures NoneReturns(last, hs) <==> NoneReturns(last, hs[1..])
  {
    var rest := hs[1..];
    if NoneReturns(last, hs) {
      forall i, j, k | 0 <= i < j < k < |rest| && rest[i] == rest[k]
        ensures rest[j] == rest[i] || AllAre(rest[..i + 1], last)
      {
        assert hs[i + 1] == hs[k + 1] && hs[j + 1] == rest[j];
        AllAreCons(hs, i + 1, last);
      }
    }
    if NoneReturns(last, rest) {
      forall i, j, k | 0 <= i < j < k < |hs| && hs[i] == hs[k]
        ensures hs[j] == hs[i] || AllAre(hs[..i + 1], last)
      {
        if i > 0 {
          assert rest[i - 1] == rest[k - 1] && rest[j - 1] == hs[j];
          AllAreCons(hs, i, last);
        }
      }
    }
  }

  lemma NewFirst(last: Hash, hs: seq<Hash>)
    requires hs != [] && hs[0] != last
    ensures NoneReturns(last, hs) <==> NoneReturns(hs[0], hs[1..]) && !MetAgain(hs[0], hs[1..])
  {
    var x, rest := hs[0], hs[1..];
    if NoneReturns(last, hs) {
      forall j, k | 0 <= j < k < |rest| && rest[k] == x
        ensures rest[j] == x
      {
        assert hs[0] == hs[k + 1] && hs[j + 1] == rest[j];
        assert !AllAre(hs[..0 + 1], last) by { assert hs[..0 + 1][0] == x; }
      }
      forall i, j, k | 0 <= i < j < k < |rest| && rest[i] == rest[k]
        ensures rest[j] == rest[i] || AllAre(rest[..i + 1], x)
      {
        assert hs[i + 1] == hs[k + 1] && hs[j + 1] == rest[j];
        AllAreCons(hs, i + 1, last);
      }
    }
    if NoneReturns(x, rest) && !MetAgain(x, rest) {
      forall i, j, k | 0 <= i < j < k < |hs| && hs[i] == hs[k]
        ensures hs[j] == hs[i]
      {
        if i > 0 {
          assert rest[i - 1] == rest[k - 1] && rest[j - 1] == hs[j];
          if AllAre(rest[..i - 1 + 1], x) { assert rest[..i - 1 + 1][i - 1] == x; }
        } else {
          assert rest[k - 1] == x && rest[j - 1] == hs[j];
        }
      }
    }
  }

  /** The comment on the service says that onChanged is invoked at most once per unique hash.
      Over a run that holds exactly when no hash reaches the lock again after another one, the
      hash known from the start apart. */
  lemma NotifiedOnceExactly(fast: bool, w: Watch, actions: seq<Action>)
    requires w.log == []
    ensures Once(After(fast, w, actions).log) <==> NoneReturns(w.last, LockOrder(fast, w, actions))
  {
    NotifiedWithoutRepeats(fast, w, actions);
    OnceExactly(w.last, LockOrder(fast, w, actions));
    assert w.log + WithoutRepeats(w.last, LockOrder(fast, w, actions)) ==
        WithoutRepeats(w.last, LockOrder(fast, w, actions));
  }

  // ---------- the fast path ----------

  /** The same moment for a ticker that skips nothing. */
  function Unskipped(w: Watch): Watch {
    match w.phase
    case Idle => w
    case Reading(_) => w.(phase := Reading(false))
    case Holding(h, _) => w.(phase := Holding(h, false))
  }

  predicate Quiet(w: Watch, a: Action) {
    a.Report? && w.phase.Holding? && w.phase.skip ==> w.phase.h == w.last
  }

  /** Every skipped round would have been a repeat: at the moment it would have reported a
      hash, that hash is the last notified one. */
  ghost predicate SkipsAreQuiet(w: Watch, actions: seq<Action>)
    decreases |actions|
  {
    actions == [] || (Quiet(w, actions[0]) && SkipsAreQuiet(Act(true, w, actions[0]), actions[1..]))
  }

  ghost predicate AgreeAfter(w: Watch, actions: seq<Action>, k: nat)
    requires k <= |actions|
  {
    After(true, w, actions[..k]).log == After(false, Unskipped(w), actions[..k]).log
  }

  ghost predicate AlwaysAgree(w: Watch, actions: seq<Action>) {
    forall k :: 0 <= k <= |actions| ==> AgreeAfter(w, actions, k)
  }

  lemma StepAgrees(w: Watch, a: Action)
    requires Quiet(w, a)
    ensures Act(false, Unskipped(w), a) == Unskipped(Act(true, w, a))
  {
    match w.phase {
      case Idle =>
      case Reading(_) => ReadingAgrees(w, a);
      case Holding(_, _) => HoldingAgrees(w, a);
    }
  }

  lemma ReadingAgrees(w: Watch, a: Action)
    requires w.phase.Reading?
    ensures Act(false, Unskipped(w), a) == Unskipped(Act(true, w, a))
  {}

  lemma HoldingAgrees(w: Watch, a: Action)
    requires w.phase.Holding? && Quiet(w, a)
    ensures Act(false, Unskipped(w), a) == Unskipped(Act(true, w, a))
  {}

  lemma StepDiffers(w: Watch, a: Action)
    requires !Quiet(w, a)
    ensures Act(false, Unskipped(w), a).log == Act(true, w, a).log + [w.phase.h]
  {}

  lemma {:induction false} SkippingExactly(w: Watch, actions: seq<Action>)
    ensures AlwaysAgree(w, actions) <==> SkipsAreQuiet(w, actions)
    decreases |actions|
  {
    hide Act, Quiet, Unskipped;
    if actions != [] {
      var a := actions[0];
      var f, s := Act(true, w, a), Act(false, Unskipped(w), a);
      if Quiet(w, a) {
        StepAgrees(w, a);
        SkippingExactly(f, actions[1..]);
        AgreeTail(w, actions);
      } else {
        assert |s.log| == |f.log| + 1 by { StepDiffers(w, a); }
        assert actions[..1][1..] == [] && actions[..1][0] == a;
        assert After(true, w, actions[..1]) == f && After(false, Unskipped(w), actions[..1]) == s;
        assert !AgreeAfter(w, actions, 1);
      }
    } else {
      assert actions[..0] == [];
      assert AgreeAfter(w, actions, 0) by { UnskippedLog(w); }
    }
  }

  lemma UnskippedLog(w: Watch)
    ensures Unskipped(w).log == w.log
  {}

  lemma AgreeTail(w: Watch, actions: seq<Action>)
    requires actions != [] && Act(false, Unskipped(w), actions[0]) == Unskipped(Act(true, w, actions[0]))
    ensures AlwaysAgree(w, actions) <==> AlwaysAgree(Act(true, w, actions[0]), actions[1..])
  {
    var w2 := Act(true, w, actions[0]);
    assert AgreeAfter(w, actions, 0) by { UnskippedLog(w); }
    hide Act, Unskipped;
    forall k | 0 < k <= |actions|
      ensures AgreeAfter(w, actions, k) == AgreeAfter(w2, actions[1..], k - 1)
    {
      assert actions[..k][1..] == actions[1..][..k - 1];
    }
    hide AgreeAfter;
    if AlwaysAgree(w, actions) {
      forall k | 0 <= k <= |actions[1..]|
        ensures AgreeAfter(w2, actions[1..], k)
      {
        assert AgreeAfter(w, actions, k + 1);
      }
    }
  }

  /** Skipping by modification time notifies at every moment what hashing in every round would,
      exactly for the runs in which every skipped round would have reported a repeat. */
  lemma FastPathExactly(w: Watch, actions: seq<Action>)
    requires w.phase.Idle?
    ensures (forall k :: 0 <= k <= |actions| ==> AgreeAfter(w, actions, k)) <==> SkipsAreQuiet(w, actions)
    ensures forall k :: 0 <= k <= |actions| ==>
      (AgreeAfter(w, actions, k) <==> After(true, w, actions[..k]).log == After(false, w, actions[..k]).log)
  {
    SkippingExactly(w, actions);
  }

  /** Options change at a later modification time, at any moment but within a skipped round;
      hashing does not fail, and no detector delivers a hash the options no longer have. */
  ghost predicate Orderly(w: Watch, actions: seq<Action>)
    decreases |actions|
  {
    actions == [] ||
    ((match actions[0]
      case Write(m, _) => m > w.mtime && (w.phase.Idle? || !w.phase.skip)
      case Deliver(h) => h == w.content
      case Read(ok) => ok
      case _ => true) &&
     Orderly(Act(true, w, actions[0]), actions[1..]))
  }

  /** In orderly runs the fast path notifies what hashing in every round would. */
  lemma OrderlyRunsAgree(w: Watch, actions: seq<Action>, k: nat)
    requires Orderly(w, actions) && w.tick == 0 && w.phase.Idle? && k <= |actions|
    ensures After(true, w, actions[..k]).log == After(false, w, actions[..k]).log
  {
    OrderlySkipsAreQuiet(w, actions);
    FastPathExactly(w, actions);
    assert AgreeAfter(w, actions, k);
  }

  /** What an orderly run keeps: a modification time the ticker remembers is that of content it
      has reported or is about to report. */
  ghost predicate InStep(w: Watch) {
    && w.tick <= w.mtime
    && (w.phase.Holding? && (w.phase.skip || Unchanged(w)) ==> w.phase.h == w.content)
    && (w.phase.Idle? && Unchanged(w) ==> w.last == w.content)
    && (!w.phase.Idle? && w.phase.skip ==> w.last == w.content)
  }

  lemma {:induction false} OrderlySkipsAreQuiet(w: Watch, actions: seq<Action>)
    requires Orderly(w, actions) && InStep(w)
    ensures SkipsAreQuiet(w, actions)
    decreases |actions|
  {
    if actions != [] {
      OrderlySkipsAreQuiet(Act(true, w, actions[0]), actions[1..]);
    }
  }

  // ---------- runs ----------

  const FIRST := Watch(0, "", multiset{}, "", 0, Idle, [])

  /** A round of the ticker with nothing in between. */
  const ROUND := [Stat(true), Read(true), Report]

  function Rounded(fast: bool, w: Watch): Watch {
    if fast && Unchanged(w) then w else Notify(w.(tick := w.mtime), w.content)
  }

  lemma AfterRound(fast: bool, w: Watch)
    requires w.phase.Idle?
    ensures After(fast, w, ROUND) == Rounded(fast, w)
  {
    AfterThree(fast, w, Stat(true), Read(true), Report);
    hide After;
  }

  /** A round with nothing in between, whatever can be read: without a modification time the options
      are hashed all the same, and without a hash only the modification time is remembered. */
  lemma RoundExactly(fast: bool, w: Watch, stat: bool, hashed: bool)
    requires w.phase.Idle?
    ensures var w2 := After(fast, w, [Stat(stat), Read(hashed), Report]);
      && w2.phase.Idle? && w2.mtime == w.mtime && w2.content == w.content && w2.pending == w.pending
      && (fast && stat && w.tick != 0 && w.tick == w.mtime ==> w2 == w)
      && (!(fast && stat && w.tick != 0 && w.tick == w.mtime) ==>
            && w2.tick == (if stat then w.mtime else w.tick)
            && w2.last == (if hashed then w.content else w.last)
            && w2.log == if hashed && w.content != w.last then w.log + [w.content] else w.log)
  {
    AfterThree(fast, w, Stat(stat), Read(hashed), Report);
    hide After;
  }

  /** Everything a detector holds or has reported is in `hs`. */
  ghost predicate Knows(w: Watch, hs: set<Hash>) {
    && w.content in hs && (forall h :: h in w.pending ==> h in hs) && (w.phase.Holding? ==> w.phase.h in hs)
    && (forall i :: 0 <= i < |w.log| ==> w.log[i] in hs)
  }

  /** Every hash notified is that of a content the options had. */
  lemma {:induction false} NotifiedWereContents(fast: bool, w: Watch, actions: seq<Action>, hs: set<Hash>)
    requires Knows(w, hs) && forall i :: 0 <= i < |actions| && actions[i].Write? ==> actions[i].content in hs
    ensures Knows(After(fast, w, actions), hs)
    decreases |actions|
  {
    if actions != [] {
      ActKnows(fast, w, actions[0], hs);
      hide Act, Knows;
      NotifiedWereContents(fast, Act(fast, w, actions[0]), actions[1..], hs);
    }
  }

  lemma ActKnows(fast: bool, w: Watch, a: Action, hs: set<Hash>)
    requires Knows(w, hs) && (a.Write? ==> a.content in hs)
    ensures Knows(Act(fast, w, a), hs)
  {
    match a {
      case Deliver(h) => if h in w.pending { NotifyKnows(w.(pending := w.pending - multiset{h}), h, hs); }
      case Report =>
        if w.phase.Holding? { NotifyKnows(w.(phase := Idle), w.phase.h, hs); }
      case _ =>
    }
    hide Notify;
  }

  lemma NotifyKnows(w: Watch, h: Hash, hs: set<Hash>)
    requires Knows(w, hs) && (h in hs || h == w.last)
    ensures Knows(Notify(w, h), hs)
  {}

  /** Three actions, then a round. */
  lemma AfterThreeAndRound(fast: bool, w: Watch, a: Action, b: Action, c: Action)
    requires Act(fast, Act(fast, Act(fast, w, a), b), c).phase.Idle?
    ensures After(fast, w, [a, b, c] + ROUND) == Rounded(fast, Act(fast, Act(fast, Act(fast, w, a), b), c))
  {
    AfterAppend(fast, w, [a, b, c], ROUND);
    AfterThree(fast, w, a, b, c);
    AfterRound(fast, Act(fast, Act(fast, Act(fast, w, a), b), c));
  }

  /** Two stretches of three actions and a round each. */
  lemma TwoStretches(fast: bool, w: Watch, a: Action, b: Action, c: Action, d: Action, e: Action, f: Action)
    requires Act(fast, Act(fast, Act(fast, w, a), b), c).phase.Idle?
    requires var w1 := Rounded(fast, Act(fast, Act(fast, Act(fast, w, a), b), c));
      Act(fast, Act(fast, Act(fast, w1, d), e), f).phase.Idle?
    ensures var w1 := Rounded(fast, Act(fast, Act(fast, Act(fast, w, a), b), c));
      After(fast, w, [a, b, c] + ROUND + ([d, e, f] + ROUND)) ==
          Rounded(fast, Act(fast, Act(fast, Act(fast, w1, d), e), f))
  {
    var w1 := Rounded(fast, Act(fast, Act(fast, Act(fast, w, a), b), c));
    AfterThreeAndRound(fast, w, a, b, c);
    AfterAppend(fast, w, [a, b, c] + ROUND, [d, e, f] + ROUND);
    AfterThreeAndRound(fast, w1, d, e, f);
  }

  /** A hash that comes back after another one is notified again. */
  lemma ReturningHashNotifiedAgain(fast: bool, a: Hash, b: Hash)
    requires a != "" && a != b
    ensures After(fast, FIRST, Reported(1, a) + Reported(2, b) + Reported(3, a)).log == [a, b, a]
  {
    var w1 := Watch(1, a, multiset{}, a, 1, Idle, [a]);
    var w2 := Watch(2, b, multiset{}, b, 2, Idle, [a, b]);
    ReportedOnce(fast, FIRST, 1, a);
    ReportedOnce(fast, w1, 2, b);
    ReportedOnce(fast, w2, 3, a);
    hide After, Reported;
    assert [] + [a] == [a] && [a] + [b] == [a, b];
    AfterAppend(fast, FIRST, Reported(1, a), Reported(2, b));
    AfterAppend(fast, FIRST, Reported(1, a) + Reported(2, b), Reported(3, a));
  }

  /** The options change, a detector reports them, and the ticker finds nothing new. */
  function Reported(mtime: nat, h: Hash): seq<Action> {
    [Write(mtime, h), Observe, Deliver(h)] + ROUND
  }

  lemma ReportedOnce(fast: bool, w: Watch, mtime: nat, h: Hash)
    requires w.phase.Idle? && w.pending == multiset{} && w.tick < mtime && w.last != h
    ensures After(fast, w, Reported(mtime, h)) == Watch(mtime, h, multiset{}, h, mtime, Idle, w.log + [h])
  {
    AfterThreeAndRound(fast, w, Write(mtime, h), Observe, Deliver(h));
    hide After;
  }

  /** A hash observed before a change and delivered after it: the next round of the fast path
      does not set it right. */
  lemma StaleDeliveryHidesChange(fast: bool)
    ensures After(fast, FIRST, [Write(1, "a"), Observe, Write(2, "b")] + ROUND +
        ([Deliver("a"), Deliver("a"), Deliver("a")] + ROUND)).log
            == if fast then ["b", "a"] else ["b", "a", "b"]
  {
    TwoStretches(fast, FIRST, Write(1, "a"), Observe, Write(2, "b"), Deliver("a"), Deliver("a"), Deliver("a"));
    hide After;
  }

  /** A failed hashing leaves the modification time behind as seen, and the fast path never
      comes back to the options. */
  lemma FailedHashHidesChange(fast: bool)
    ensures After(fast, FIRST, [Write(1, "a"), Stat(true), Read(false)] + ROUND).log == if fast then [] else ["a"]
  {
    AfterThreeAndRound(fast, FIRST, Write(1, "a"), Stat(true), Read(false));
    hide After;
  }

  /** Content that changes without the modification time is not notified by the fast path. */
  lemma SameTimeHidesChange(fast: bool)
    ensures After(fast, FIRST, [Write(1, "a"), Observe, Deliver("a")] + ROUND +
        ([Write(1, "b"), Observe, Write(1, "b")] + ROUND)).log
            == if fast then ["a"] else ["a", "b"]
  {
    TwoStretches(fast, FIRST, Write(1, "a"), Observe, Deliver("a"), Write(1, "b"), Observe, Write(1, "b"));
    hide After;
  }

  /** Nor is content that returns together with its modification time. */
  lemma OldTimeHidesChange(fast: bool)
    ensures After(fast, FIRST, Reported(1, "a") + ([Write(2, "b"), Observe, Deliver("b")] +
                               ([Write(1, "a"), Write(1, "a"), Write(1, "a")] + ROUND))).log
            == if fast then ["a", "b"] else ["a", "b", "a"]
  {
    var w1 := Watch(1, "a", multiset{}, "a", 1, Idle, ["a"]);
    var w2 := Watch(2, "b", multiset{}, "b", 1, Idle, ["a", "b"]);
    ReportedOnce(fast, FIRST, 1, "a");
    assert After(fast, w1, [Write(2, "b"), Observe, Deliver("b")]) == w2 by {
      AfterThree(fast, w1, Write(2, "b"), Observe, Deliver("b"));
      hide After;
    }
    AfterThreeAndRound(fast, w2, Write(1, "a"), Write(1, "a"), Write(1, "a"));
    hide After, Reported;
    assert [] + ["a"] == ["a"];
    var tail := [Write(1, "a"), Write(1, "a"), Write(1, "a")] + ROUND;
    AfterAppend(fast, w1, [Write(2, "b"), Observe, Deliver("b")], tail);
    AfterAppend(fast, FIRST, Reported(1, "a"), [Write(2, "b"), Observe, Deliver("b")] + tail);
  }
}
