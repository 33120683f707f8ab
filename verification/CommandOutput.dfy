/**
 Command output in the web frontend (frontend/src/App.tsx): merging a snapshot into what
 came over the WebSocket, and the reducers for the command events.
 */
module CommandOutput {
  import opened Text
  import opened Wrappers

  datatype Line = Line(timestamp: int, channel: string, line: string)

  // ---------- the merge key ----------

  function Key(l: Line): string {
    Decimal(l.timestamp) + ":" + l.channel + ":" + l.line
  }

  predicate PlainChannel(l: Line) {
    ':' !in l.channel
  }

  lemma KeyCuts(l: Line)
    requires PlainChannel(l)
    ensures ':' in Key(l) && Cut(Key(l), ':') == (Decimal(l.timestamp), l.channel + ":" + l.line)
    ensures Cut(l.channel + ":" + l.line, ':') == (l.channel, l.line)
  {
    var rest := l.channel + ":" + l.line;
    assert Key(l) == Decimal(l.timestamp) + [':'] + rest;
    assert rest == l.channel + [':'] + l.line;
    assert Key(l)[|Decimal(l.timestamp)|] == ':';
    CutUnique(Decimal(l.timestamp), rest, ':');
    CutUnique(l.channel, l.line, ':');
  }

  /** Lines from channels without a colon, as stdout and stderr are, have keys of their own. */
  lemma KeyInjective(a: Line, b: Line)
    requires PlainChannel(a) && PlainChannel(b) && Key(a) == Key(b)
    ensures a == b
  {
    KeyCuts(a);
    KeyCuts(b);
    DecimalInjective(a.timestamp, b.timestamp);
  }

  ghost predicate Separated(t: int, c: string, d: string) {
    forall x, y :: Key(Line(t, c, x)) == Key(Line(t, d, y)) ==> c == d && x == y
  }

  /** The keys of two channels never collide exactly when neither name continues the other
      after a colon. */
  lemma KeysSeparatedExactly(t: int, c: string, d: string)
    ensures Separated(t, c, d) <==> !(c + ":" <= d) && !(d + ":" <= c)
  {
    forall x, y
      ensures Key(Line(t, c, x)) == Key(Line(t, d, y)) <==> c + ":" + x == d + ":" + y
    {
      KeyRest(t, c, x);
      KeyRest(t, d, y);
      SameStart(Decimal(t) + ":", c + ":" + x, d + ":" + y);
    }
    hide Key;
    if c + ":" <= d { Collide(t, c, d); }
    if d + ":" <= c { Collide(t, d, c); }
    if !(c + ":" <= d) && !(d + ":" <= c) {
      forall x, y | Key(Line(t, c, x)) == Key(Line(t, d, y))
        ensures c == d && x == y
      {
        SplitAlike(c, x, d, y);
      }
    }
  }

  lemma KeyRest(t: int, c: string, x: string)
    ensures Key(Line(t, c, x)) == Decimal(t) + ":" + (c + ":" + x)
  {}

  lemma SameStart(p: string, a: string, b: string)
    ensures p + a == p + b <==> a == b
  {
    assert (p + a)[|p|..] == a && (p + b)[|p|..] == b;
  }

  lemma SplitAlike(c: string, x: string, d: string, y: string)
    requires c + ":" + x == d + ":" + y && !(c + ":" <= d) && !(d + ":" <= c)
    ensures c == d && x == y
  {
    var s := c + ":" + x;
    assert c + ":" == s[..|c| + 1] && d + ":" == s[..|d| + 1];
    assert c == s[..|c|] && d == s[..|d|];
    assert |c| == |d|;
    assert x == s[|c| + 1..] && y == s[|d| + 1..];
  }

  lemma Collide(t: int, c: string, d: string)
    requires c + ":" <= d
    ensures c != d && !Separated(t, c, d) && !Separated(t, d, c)
  {
    var x := d[|c| + 1..] + ":";
    KeyRest(t, c, x);
    KeyRest(t, d, "");
    assert d == c + ":" + d[|c| + 1..];
    assert c + ":" + x == d + ":" + "";
    assert Key(Line(t, c, x)) == Key(Line(t, d, ""));
  }

  // ---------- merging ----------

  function Keys(ls: seq<Line>): set<string> {
    set l | l in ls :: Key(l)
  }

  /** The lines whose key is not in `seen` and does not occur earlier. */
  function Unseen(ls: seq<Line>, seen: set<string>): seq<Line>
    decreases |ls|
  {
    if ls == [] then []
    else if Key(ls[0]) in seen then Unseen(ls[1..], seen)
    else [ls[0]] + Unseen(ls[1..], seen + {Key(ls[0])})
  }

  function Merge(existing: seq<Line>, incoming: seq<Line>): seq<Line> {
    Unseen(incoming + existing, {})
  }

  function OrEmpty(ls: Option<seq<Line>>): seq<Line> {
    if ls.Some? then ls.value else []
  }

  method MergeCommandLines(existing: Option<seq<Line>>, incoming: Option<seq<Line>>) returns (merged: seq<Line>)
    ensures merged == Merge(OrEmpty(existing), OrEmpty(incoming))
  {
    var seen: set<string> := {};
    var a, b := OrEmpty(incoming), OrEmpty(existing);
    merged, seen := AppendLines([], {}, a);
    UnseenAppend(a, b, {});
    hide Key, Keys, Unseen;
    assert {} + Keys(a) == Keys(a);
    merged, seen := AppendLines(merged, seen, b);
  }

  /** The two loops: each line is appended unless its key is in `seen`. */
  method AppendLines(merged: seq<Line>, seen: set<string>, lines: seq<Line>)
      returns (merged2: seq<Line>, seen2: set<string>)
    ensures merged2 == merged + Unseen(lines, seen)
    ensures seen2 == seen + Keys(lines)
  {
    merged2, seen2 := merged, seen;
    assert Keys(lines[..0]) == {} && Unseen(lines[..0], seen) == [];
    hide Key, Keys, Unseen;
    for i := 0 to |lines|
      invariant seen2 == seen + Keys(lines[..i])
      invariant merged2 == merged + Unseen(lines[..i], seen)
    {
      AppendStep(merged, lines, i, seen);
      var l := lines[i];
      var key := Key(l);
      if key !in seen2 {
        seen2 := seen2 + {key};
        merged2 := merged2 + [l];
      }
    }
    assert lines[..|lines|] == lines;
  }

  lemma AppendStep(merged: seq<Line>, lines: seq<Line>, i: nat, seen: set<string>)
    requires i < |lines|
    ensures var was, key := seen + Keys(lines[..i]), Key(lines[i]);
      && seen + Keys(lines[..i + 1]) == (if key in was then was else was + {key})
      && merged + Unseen(lines[..i + 1], seen) ==
         if key in was then merged + Unseen(lines[..i], seen) else merged + Unseen(lines[..i], seen) + [lines[i]]
  {
    hide Key, Keys, Unseen;
    assert lines[..i + 1] == lines[..i] + [lines[i]];
    UnseenSnoc(lines[..i], lines[i], seen);
    KeysSnoc(lines[..i], lines[i]);
  }

  lemma KeysSnoc(ls: seq<Line>, l: Line)
    ensures Keys(ls + [l]) == Keys(ls) + {Key(l)}
  {
    forall k
      ensures k in Keys(ls + [l]) <==> k in Keys(ls) || k == Key(l)
    {
      if k in Keys(ls) { var x :| x in ls && Key(x) == k; assert x in ls + [l]; }
      assert l in ls + [l];
    }
  }

  lemma KeysCons(ls: seq<Line>)
    requires ls != []
    ensures Keys(ls) == {Key(ls[0])} + Keys(ls[1..])
  {
    assert ls == [ls[0]] + ls[1..];
    forall k
      ensures k in Keys(ls) <==> k == Key(ls[0]) || k in Keys(ls[1..])
    {}
  }

  lemma {:induction false} UnseenAppend(a: seq<Line>, b: seq<Line>, seen: set<string>)
    ensures Unseen(a + b, seen) == Unseen(a, seen) + Unseen(b, seen + Keys(a))
    decreases |a|
  {
    hide Key;
    if a == [] {
      assert a + b == b;
      assert seen + Keys(a) == seen;
    } else {
      assert (a + b)[1..] == a[1..] + b;
      KeysCons(a);
      if Key(a[0]) in seen {
        UnseenAppend(a[1..], b, seen);
        assert seen + Keys(a) == seen + Keys(a[1..]);
      } else {
        UnseenAppend(a[1..], b, seen + {Key(a[0])});
        assert seen + Keys(a) == seen + {Key(a[0])} + Keys(a[1..]);
      }
    }
  }

  lemma UnseenSnoc(a: seq<Line>, l: Line, seen: set<string>)
    ensures Unseen(a + [l], seen) == Unseen(a, seen) + (if Key(l) in seen + Keys(a) then [] else [l])
  {
    UnseenAppend(a, [l], seen);
  }

  lemma {:induction false} UnseenMembers(ls: seq<Line>, seen: set<string>)
    ensures Keys(Unseen(ls, seen)) == Keys(ls) - seen
    ensures forall l :: l in Unseen(ls, seen) ==> l in ls && Key(l) !in seen
    ensures forall i, j :: 0 <= i < j < |Unseen(ls, seen)| ==> Key(Unseen(ls, seen)[i]) != Key(Unseen(ls, seen)[j])
    decreases |ls|
  {
    hide Key;
    if ls != [] {
      KeysCons(ls);
      if Key(ls[0]) in seen {
        UnseenMembers(ls[1..], seen);
      } else {
        var rest := Unseen(ls[1..], seen + {Key(ls[0])});
        UnseenMembers(ls[1..], seen + {Key(ls[0])});
        KeysCons([ls[0]] + rest);
        assert ([ls[0]] + rest)[1..] == rest;
      }
    }
  }

  ghost predicate Distinct(ls: seq<Line>) {
    forall i, j :: 0 <= i < j < |ls| ==> ls[i] != ls[j]
  }

  lemma {:induction false} UnseenOfDistinct(ls: seq<Line>, seen: set<string>)
    requires Distinct(ls) && (forall l :: l in ls ==> PlainChannel(l) && Key(l) !in seen)
    ensures Unseen(ls, seen) == ls
    decreases |ls|
  {
    if ls != [] {
      forall l | l in ls[1..]
        ensures Key(l) !in seen + {Key(ls[0])}
      {
        if Key(l) == Key(ls[0]) { KeyInjective(l, ls[0]); }
      }
      UnseenOfDistinct(ls[1..], seen + {Key(ls[0])});
    }
  }

  /** Merged lines have no duplicates, are the lines of both sides, and start with the incoming
      ones in their order. */
  lemma MergeExactly(existing: seq<Line>, incoming: seq<Line>)
    requires forall l :: l in existing || l in incoming ==> PlainChannel(l)
    ensures var m := Merge(existing, incoming);
      && (forall l :: l in m <==> l in existing || l in incoming)
      && Distinct(m)
      && Unseen(incoming, {}) <= m
      && (Distinct(incoming) ==> incoming <= m)
  {
    var m := Merge(existing, incoming);
    UnseenMembers(incoming + existing, {});
    UnseenAppend(incoming, existing, {});
    if Distinct(incoming) { UnseenOfDistinct(incoming, {}); }
    forall l | l in existing || l in incoming
      ensures l in m
    {
      assert l in incoming + existing;
      assert Key(l) in Keys(m);
      var x :| x in m && Key(x) == Key(l);
      KeyInjective(x, l);
    }
  }

  lemma {:induction false} UnseenOfSeen(ls: seq<Line>, seen: set<string>)
    requires Keys(ls) <= seen
    ensures Unseen(ls, seen) == []
    decreases |ls|
  {
    if ls != [] {
      KeysCons(ls);
      UnseenOfSeen(ls[1..], seen);
    }
  }

  lemma {:induction false} UnseenTwice(ls: seq<Line>, seen: set<string>)
    ensures Unseen(Unseen(ls, seen), seen) == Unseen(ls, seen)
    decreases |ls|
  {
    hide Key;
    if ls != [] {
      if Key(ls[0]) in seen {
        UnseenTwice(ls[1..], seen);
      } else {
        var rest := Unseen(ls[1..], seen + {Key(ls[0])});
        UnseenTwice(ls[1..], seen + {Key(ls[0])});
        assert ([ls[0]] + rest)[1..] == rest;
      }
    }
  }

  /** Merging the same lines once more changes nothing, whatever the channels. */
  lemma MergeIdempotent(existing: seq<Line>, incoming: seq<Line>)
    ensures Merge(Merge(existing, incoming), incoming) == Merge(existing, incoming)
  {
    hide Key, Keys, Unseen;
    var k := Keys(incoming);
    var a, b := Unseen(incoming, {}), Unseen(existing, k);
    UnseenAppend(incoming, existing, {});
    assert {} + k == k;
    assert Merge(existing, incoming) == a + b;
    UnseenAppend(incoming, a + b, {});
    UnseenAppend(a, b, k);
    UnseenMembers(incoming, {});
    assert Keys(a) == k && k + k == k;
    UnseenOfSeen(a, k);
    UnseenTwice(existing, k);
    assert Unseen(incoming, k) == [] by { UnseenOfSeen(incoming, k); }
    assert a + ([] + b) == a + b;
  }

  // ---------- sessions ----------

  /** A command execution; a field that JSON leaves out is None. */
  datatype Session = Session(
    executionId: string, commandId: string, title: Option<string>, args: Option<seq<string>>,
    running: bool, exitCode: Option<int>, lines: Option<seq<Line>>)

  function Or<T>(a: Option<T>, b: Option<T>): Option<T> {
    if a.Some? then a else b
  }

  function MergeSession(current: Option<Session>, incoming: Session): Session {
    if current.None? then incoming.(
      args := Or(incoming.args, Some([])),
      lines := Some(Merge([], OrEmpty(incoming.lines))))
    else incoming.(
      title := Or(incoming.title, current.value.title),
      args := Or(incoming.args, Or(current.value.args, Some([]))),
      exitCode := Or(incoming.exitCode, current.value.exitCode),
      lines := Some(Merge(OrEmpty(current.value.lines), OrEmpty(incoming.lines))))
  }

  /** The same snapshot merged twice is the snapshot merged once. */
  lemma MergeSessionIdempotent(current: Option<Session>, incoming: Session)
    ensures MergeSession(Some(MergeSession(current, incoming)), incoming) == MergeSession(current, incoming)
  {
    MergeIdempotent(if current.Some? then OrEmpty(current.value.lines) else [], OrEmpty(incoming.lines));
  }

  // ---------- the reducers ----------

  datatype Event =
    | Output(executionId: string, commandId: string, line: Line, exitCode: Option<int>)
    | Started(executionId: string, commandId: string, title: Option<string>, args: seq<string>)
    | Terminated(executionId: string, commandId: string, code: int)

  /** The sessions and the key of the last output event (commandEventDedupRef). */
  datatype State = State(sessions: map<string, Session>, lastKey: string)

  const KEPT: nat := 500

  /** list.slice(-n) */
  function Tail<T>(n: nat, s: seq<T>): seq<T> {
    if |s| > n then s[|s| - n..] else s
  }

  function ExitText(c: Option<int>): string {
    if c.Some? then Decimal(c.value) else "pending"
  }

  function DedupeKey(e: Event): string
    requires e.Output?
  {
    e.executionId + ":" + e.line.channel + ":" + Decimal(e.line.timestamp) + ":" + e.line.line + ":" +
        ExitText(e.exitCode)
  }

  /** The lines of a session after an output event. */
  function Extended(lines: seq<Line>, l: Line): seq<Line> {
    if lines != [] && lines[|lines| - 1] == l then lines else Tail(KEPT, lines + [l])
  }

  function Reduce(s: State, e: Event): State {
    match e
    case Output(id, cmd, l, _) =>
      if DedupeKey(e) == s.lastKey then s
      else
        var current := if id in s.sessions then s.sessions[id]
            else Session(id, cmd, None, Some([]), true, None, Some([]));
        State(s.sessions[id := current.(commandId := cmd, lines := Some(Extended(OrEmpty(current.lines), l)))],
            DedupeKey(e))
    case Started(id, cmd, title, args) =>
      var lines := if id in s.sessions then OrEmpty(s.sessions[id].lines) else [];
      var code := if id in s.sessions then s.sessions[id].exitCode else None;
      s.(sessions := s.sessions[id := Session(id, cmd, title, Some(args), true, code, Some(lines))])
    case Terminated(id, cmd, code) =>
      var current := if id in s.sessions then s.sessions[id]
          else Session(id, cmd, None, Some([]), false, None, Some([]));
      s.(sessions := s.sessions[id := current.(running := false, exitCode := Some(code))])
  }

  function ReduceAll(s: State, es: seq<Event>): State {
    if es == [] then s else Reduce(ReduceAll(s, es[..|es| - 1]), es[|es| - 1])
  }

  function LinesOf(s: State, id: string): seq<Line> {
    if id in s.sessions then OrEmpty(s.sessions[id].lines) else []
  }

  /** All output lines of an execution in a run. */
  function Outputs(es: seq<Event>, id: string): seq<Line> {
    if es == [] then []
    else
      var e := es[|es| - 1];
      Outputs(es[..|es| - 1], id) + (if e.Output? && e.executionId == id then [e.line] else [])
  }

  /** Without lines equal to the one just before. */
  function NoRepeats(ls: seq<Line>): seq<Line> {
    if |ls| < 2 then ls
    else
      var init, l := ls[..|ls| - 1], ls[|ls| - 1];
      if init[|init| - 1] == l then NoRepeats(init) else NoRepeats(init) + [l]
  }

  lemma {:induction false} NoRepeatsLast(ls: seq<Line>)
    ensures (ls == [] <==> NoRepeats(ls) == [])
    ensures ls != [] ==> NoRepeats(ls)[|NoRepeats(ls)| - 1] == ls[|ls| - 1]
  {
    if |ls| >= 2 { NoRepeatsLast(ls[..|ls| - 1]); }
  }

  lemma NoRepeatsSnoc(ls: seq<Line>, l: Line)
    ensures NoRepeats(ls + [l]) == if ls != [] && ls[|ls| - 1] == l then NoRepeats(ls) else NoRepeats(ls) + [l]
  {
    assert (ls + [l])[..|ls|] == ls;
  }

  /** Appending to the kept tail and cutting again is cutting the whole. */
  lemma ExtendedTail(ls: seq<Line>, l: Line)
    ensures Extended(Tail(KEPT, NoRepeats(ls)), l) == Tail(KEPT, NoRepeats(ls + [l]))
  {
    NoRepeatsLast(ls);
    NoRepeatsSnoc(ls, l);
    var r := NoRepeats(ls);
    hide NoRepeats;
    assert r != [] ==> Tail(KEPT, r)[|Tail(KEPT, r)| - 1] == r[|r| - 1];
    if |r| > KEPT {
      assert Tail(KEPT, r) + [l] == (r + [l])[|r| - KEPT..];
    }
  }

  /** Execution ids are UUIDs, channels stdout and stderr: no colon in either. */
  predicate PlainEvent(e: Event) {
    ':' !in e.executionId && (e.Output? ==> ':' !in e.line.channel)
  }

  /** The part of a dedupe key after execution id and channel. */
  function KeyEnd(e: Event): string
    requires e.Output?
  {
    Decimal(e.line.timestamp) + ":" + (e.line.line + ":" + ExitText(e.exitCode))
  }

  lemma DedupeKeyParts(e: Event)
    requires e.Output? && PlainEvent(e)
    ensures DedupeKey(e) == e.executionId + [':'] + (e.line.channel + [':'] + KeyEnd(e))
    ensures ':' in DedupeKey(e)
    ensures ':' in e.line.channel + [':'] + KeyEnd(e)
  {
    var a, b, c, d, f := e.executionId, e.line.channel, Decimal(e.line.timestamp), e.line.line, ExitText(e.exitCode);
    FiveParts(a, b, c, d, f);
    assert DedupeKey(e)[|a|] == ':';
    assert (b + [':'] + KeyEnd(e))[|b|] == ':';
  }

  lemma FiveParts(a: string, b: string, c: string, d: string, f: string)
    ensures a + ":" + b + ":" + c + ":" + d + ":" + f == a + [':'] + (b + [':'] + (c + ":" + (d + ":" + f)))
  {}

  /** Two output events with the same dedupe key belong to the same execution and have the same
      line: what the reference skips would not have changed the lines. */
  lemma DedupeKeyTells(e: Event, f: Event)
    requires e.Output? && f.Output? && PlainEvent(e) && PlainEvent(f) && DedupeKey(e) == DedupeKey(f)
    ensures e.executionId == f.executionId && e.line == f.line
  {
    DedupeKeyParts(e);
    DedupeKeyParts(f);
    CutUnique(e.executionId, e.line.channel + [':'] + KeyEnd(e), ':');
    CutUnique(f.executionId, f.line.channel + [':'] + KeyEnd(f), ':');
    CutUnique(e.line.channel, KeyEnd(e), ':');
    CutUnique(f.line.channel, KeyEnd(f), ':');
    KeyEndTells(e, f);
  }

  lemma KeyEndTells(e: Event, f: Event)
    requires e.Output? && f.Output? && KeyEnd(e) == KeyEnd(f)
    ensures e.line.timestamp == f.line.timestamp && e.line.line == f.line.line
  {
    var x, y := e.line.line + ":" + ExitText(e.exitCode), f.line.line + ":" + ExitText(f.exitCode);
    assert KeyEnd(e) == Decimal(e.line.timestamp) + [':'] + x && KeyEnd(f) == Decimal(f.line.timestamp) + [':'] + y;
    CutUnique(Decimal(e.line.timestamp), x, ':');
    CutUnique(Decimal(f.line.timestamp), y, ':');
    DecimalInjective(e.line.timestamp, f.line.timestamp);
    assert x == e.line.line + [':'] + ExitText(e.exitCode) && y == f.line.line + [':'] + ExitText(f.exitCode);
    LastColon(e.line.line, ExitText(e.exitCode), f.line.line, ExitText(f.exitCode));
  }

  /** The text before the last colon. */
  lemma LastColon(a: string, b: string, c: string, d: string)
    requires ':' !in b && ':' !in d && a + [':'] + b == c + [':'] + d
    ensures a == c
  {
    var s := a + [':'] + b;
    assert s[|a|] == ':' && s[|c|] == ':';
    assert forall i :: |a| < i < |s| ==> s[i] == b[i - |a| - 1] && s[i] in b;
    assert forall i :: |c| < i < |s| ==> s[i] == d[i - |c| - 1] && s[i] in d;
    assert |a| == |c|;
    assert a == s[..|a|] && c == s[..|c|];
  }

  /** The last output event of a run. */
  function LastOutput(es: seq<Event>): Option<Event> {
    if es == [] then None
    else if es[|es| - 1].Output? then Some(es[|es| - 1])
    else LastOutput(es[..|es| - 1])
  }

  const EMPTY := State(map[], "")

  lemma {:induction false} LastOutputOf(es: seq<Event>)
    ensures LastOutput(es).Some? ==>
      var e := LastOutput(es).value; var ls := Outputs(es, e.executionId);
      e.Output? && e in es && ls != [] && ls[|ls| - 1] == e.line
  {
    if es != [] && !es[|es| - 1].Output? {
      LastOutputOf(es[..|es| - 1]);
    }
  }

  lemma {:induction false} LastKeyIs(es: seq<Event>)
    requires forall e :: e in es ==> PlainEvent(e)
    ensures ReduceAll(EMPTY, es).lastKey ==
        if LastOutput(es).Some? && LastOutput(es).value.Output? then DedupeKey(LastOutput(es).value) else ""
  {
    hide DedupeKey;
    if es != [] {
      LastKeyIs(es[..|es| - 1]);
    }
  }

  /** Over any run of command events the lines of each execution are the last 500 of its
      outputs, consecutive duplicates removed. */
  lemma {:induction false} LinesAreTail(es: seq<Event>, id: string)
    requires forall e :: e in es ==> PlainEvent(e)
    ensures LinesOf(ReduceAll(EMPTY, es), id) == Tail(KEPT, NoRepeats(Outputs(es, id)))
  {
    if es != [] {
      var init, e := es[..|es| - 1], es[|es| - 1];
      LinesAreTail(init, id);
      if e.Output? {
        OutputKeepsTail(init, e, id);
      } else {
        OthersKeepLines(ReduceAll(EMPTY, init), e, id);
        assert Outputs(init, id) + [] == Outputs(init, id);
      }
      hide Reduce, LinesOf, NoRepeats, Tail, DedupeKey, PlainEvent;
    }
  }

  lemma OthersKeepLines(s: State, e: Event, id: string)
    requires !e.Output?
    ensures LinesOf(Reduce(s, e), id) == LinesOf(s, id)
  {}

  lemma OutputKeepsTail(es: seq<Event>, e: Event, id: string)
    requires e.Output? && PlainEvent(e) && forall f :: f in es ==> PlainEvent(f)
    requires LinesOf(ReduceAll(EMPTY, es), id) == Tail(KEPT, NoRepeats(Outputs(es, id)))
    ensures LinesOf(Reduce(ReduceAll(EMPTY, es), e), id) ==
            Tail(KEPT, NoRepeats(Outputs(es, id) + (if e.executionId == id then [e.line] else [])))
  {
    var s := ReduceAll(EMPTY, es);
    LastKeyIs(es);
    LastOutputOf(es);
    DedupeKeyParts(e);
    ExtendedTail(Outputs(es, id), e.line);
    NoRepeatsSnoc(Outputs(es, id), e.line);
    assert Outputs(es, id) + [] == Outputs(es, id);
    if DedupeKey(e) == s.lastKey {
      DedupeKeyTells(e, LastOutput(es).value);
    }
    hide ReduceAll, Outputs, NoRepeats, DedupeKey, LastOutput, Extended, Tail;
  }

  /** Output events never change whether a command counts as running. */
  lemma OutputKeepsRunning(s: State, e: Event, id: string)
    requires e.Output?
    ensures id in s.sessions ==>
        id in Reduce(s, e).sessions && Reduce(s, e).sessions[id].running == s.sessions[id].running
    ensures id !in s.sessions && id in Reduce(s, e).sessions ==>
        id == e.executionId && Reduce(s, e).sessions[id].running
  {
    hide DedupeKey, Extended;
  }
}
