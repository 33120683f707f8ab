/**
 What the command reducers make of any run of events, told from the events alone.
 */
module CommandRuns {
  import opened Text
  import opened Wrappers
  import opened CommandOutput

  // ---------- the events that decide ----------

  /** The last event of a run that satisfies `p`. */
  function Last(es: seq<Event>, p: Event -> bool): (r: Option<Event>)
    ensures r.Some? ==> r.value in es && p(r.value)
    ensures r.None? ==> forall e :: e in es ==> !p(e)
  {
    if es == [] then None
    else if p(es[|es| - 1]) then Some(es[|es| - 1])
    else
      assert es == es[..|es| - 1] + [es[|es| - 1]];
      Last(es[..|es| - 1], p)
  }

  /** `Last` really is the last: everything after it fails `p`. */
  lemma {:induction false} LastPlace(es: seq<Event>, p: Event -> bool) returns (i: nat)
    requires Last(es, p).Some?
    ensures i < |es| && es[i] == Last(es, p).value
    ensures forall j :: i < j < |es| ==> !p(es[j])
  {
    var n := |es| - 1;
    if p(es[n]) {
      i := n;
    } else {
      i := LastPlace(es[..n], p);
      forall j | i < j < |es|
        ensures !p(es[j])
      {
        if j < n { assert es[..n][j] == es[j]; }
      }
    }
  }

  predicate IsStart(e: Event, id: string) {
    e.Started? && e.executionId == id
  }

  predicate IsEnd(e: Event, id: string) {
    e.Terminated? && e.executionId == id
  }

  function Starts(id: string): Event -> bool {
    (e: Event) => IsStart(e, id)
  }

  function Ends(id: string): Event -> bool {
    (e: Event) => IsEnd(e, id)
  }

  function Turns(id: string): Event -> bool {
    (e: Event) => IsStart(e, id) || IsEnd(e, id)
  }

  function Of(id: string): Event -> bool {
    (e: Event) => e.executionId == id
  }

  /** The command id of the last event that names one: a start, an output that does not repeat the
      output before it, or an end if nothing was known before. */
  function Named(es: seq<Event>, id: string): Option<string> {
    if es == [] then None
    else
      var init, e := es[..|es| - 1], es[|es| - 1];
      if e.executionId != id then Named(init, id)
      else if e.Started? || (e.Output? && !RepeatsOutput(init, e)) || Named(init, id).None? then Some(e.commandId)
      else Named(init, id)
  }

  predicate RepeatsOutput(es: seq<Event>, e: Event) {
    e.Output? && LastOutput(es).Some? && LastOutput(es).value.Output? && DedupeKey(LastOutput(es).value) == DedupeKey(e)
  }

  // ---------- the sessions after a run ----------

  /** The session of an execution, but for its lines: running after a start and until an end, or
      if only output was seen; with the code of the last end, the title and arguments of the last
      start, and the command id of the event that named it last. */
  ghost predicate Matches(s: State, es: seq<Event>, id: string) {
    && (id in s.sessions <==> Last(es, Of(id)).Some?)
    && (id in s.sessions ==>
          && var session := s.sessions[id];
          && session.executionId == id
          && Named(es, id) == Some(session.commandId)
          && (session.running <==> Last(es, Turns(id)).None? || Last(es, Turns(id)).value.Started?)
          && session.exitCode == (if Last(es, Ends(id)).Some? && Last(es, Ends(id)).value.Terminated?
                                  then Some(Last(es, Ends(id)).value.code) else None)
          && session.title == (if Last(es, Starts(id)).Some? && Last(es, Starts(id)).value.Started?
                               then Last(es, Starts(id)).value.title else None)
          && session.args == Some(if Last(es, Starts(id)).Some? && Last(es, Starts(id)).value.Started?
                                  then Last(es, Starts(id)).value.args else []))
  }

  lemma LastSnoc(es: seq<Event>, e: Event, p: Event -> bool)
    ensures Last(es + [e], p) == if p(e) then Some(e) else Last(es, p)
  {
    assert (es + [e])[..|es|] == es;
  }

  lemma NamedSnoc(es: seq<Event>, e: Event, id: string)
    ensures Named(es + [e], id) ==
      if e.executionId != id then Named(es, id)
      else if e.Started? || (e.Output? && !RepeatsOutput(es, e)) || Named(es, id).None? then Some(e.commandId)
      else Named(es, id)
  {
    assert (es + [e])[..|es|] == es;
  }

  /** Nothing known of an execution means that no event named it. */
  lemma {:induction false} NamedIfSeen(es: seq<Event>, id: string)
    ensures Named(es, id).Some? <==> Last(es, Of(id)).Some?
  {
    if es != [] { NamedIfSeen(es[..|es| - 1], id); }
  }

  lemma SkippedKnown(es: seq<Event>, e: Event)
    requires (forall f :: f in es ==> PlainEvent(f)) && PlainEvent(e) && e.Output?
    ensures DedupeKey(e) == ReduceAll(EMPTY, es).lastKey <==> RepeatsOutput(es, e)
    ensures RepeatsOutput(es, e) ==> Last(es, Of(e.executionId)).Some?
  {
    LastKeyIs(es);
    LastOutputOf(es);
    DedupeKeyParts(e);
    if RepeatsOutput(es, e) { DedupeKeyTells(e, LastOutput(es).value); }
  }

  lemma OneMoreEvent(es: seq<Event>, e: Event, id: string)
    requires (forall f :: f in es ==> PlainEvent(f)) && PlainEvent(e)
    requires Matches(ReduceAll(EMPTY, es), es, id)
    ensures Matches(Reduce(ReduceAll(EMPTY, es), e), es + [e], id)
  {
    hide ReduceAll, Last, Named, DedupeKey, Extended, RepeatsOutput;
    LastSnoc(es, e, Of(id));
    LastSnoc(es, e, Turns(id));
    LastSnoc(es, e, Ends(id));
    LastSnoc(es, e, Starts(id));
    NamedSnoc(es, e, id);
    NamedIfSeen(es, id);
    NoTurnsUnseen(es, id);
    if e.Output? { SkippedKnown(es, e); }
  }

  lemma NoTurnsUnseen(es: seq<Event>, id: string)
    ensures Last(es, Of(id)).None? ==>
        Last(es, Turns(id)).None? && Last(es, Ends(id)).None? && Last(es, Starts(id)).None?
  {
    hide Last;
  }

  /** After any run of command events every session is what the events say. */
  lemma {:induction false} SessionsExactly(es: seq<Event>, id: string)
    requires forall e :: e in es ==> PlainEvent(e)
    ensures Matches(ReduceAll(EMPTY, es), es, id)
  {
    hide Reduce, Last, Named;
    if es == [] {
      NothingMatches(id);
    } else {
      var init, e := es[..|es| - 1], es[|es| - 1];
      assert es == init + [e];
      SessionsExactly(init, id);
      OneMoreEvent(init, e, id);
    }
  }

  lemma NothingMatches(id: string)
    ensures Matches(EMPTY, [], id)
  {}

  /** A command that has terminated and not been started again is not running, with its code. */
  lemma TerminatedExactly(es: seq<Event>, id: string, i: nat)
    requires (forall e :: e in es ==> PlainEvent(e)) && i < |es| && IsEnd(es[i], id)
    requires forall j :: i < j < |es| ==> !IsStart(es[j], id) && !IsEnd(es[j], id)
    ensures var s := ReduceAll(EMPTY, es);
      id in s.sessions && !s.sessions[id].running && es[i].Terminated? && s.sessions[id].exitCode == Some(es[i].code)
  {
    hide ReduceAll, Last, Named;
    SessionsExactly(es, id);
    LastAt(es, Turns(id), i);
    LastAt(es, Ends(id), i);
    SeenAt(es, id, i);
  }

  lemma SeenAt(es: seq<Event>, id: string, i: nat)
    requires i < |es| && es[i].executionId == id
    ensures Last(es, Of(id)).Some?
  {
    assert es[i] in es && Of(id)(es[i]);
  }

  lemma {:induction false} LastAt(es: seq<Event>, p: Event -> bool, i: nat)
    requires i < |es| && p(es[i]) && forall j :: i < j < |es| ==> !p(es[j])
    ensures Last(es, p) == Some(es[i])
  {
    if i < |es| - 1 { LastAt(es[..|es| - 1], p, i); }
  }

  // ---------- how many lines are kept ----------

  ghost predicate NoNeighboursAlike(ls: seq<Line>) {
    forall i :: 0 <= i < |ls| - 1 ==> ls[i] != ls[i + 1]
  }

  lemma NeighboursSnoc(ls: seq<Line>, l: Line)
    ensures NoNeighboursAlike(ls + [l]) <==> NoNeighboursAlike(ls) && (ls == [] || ls[|ls| - 1] != l)
  {
    var r := ls + [l];
    if NoNeighboursAlike(r) {
      forall i | 0 <= i < |ls| - 1
        ensures ls[i] != ls[i + 1]
      {
        assert r[i] != r[i + 1];
      }
      if ls != [] { assert r[|ls| - 1] != r[|ls| - 1 + 1]; }
    }
  }

  /** Without consecutive repeats: no two neighbours are alike, no line is lost, and where no two
      neighbours were alike nothing changes. */
  lemma {:induction false} NoRepeatsExactly(ls: seq<Line>)
    ensures NoNeighboursAlike(NoRepeats(ls))
    ensures forall l :: l in NoRepeats(ls) <==> l in ls
    ensures NoNeighboursAlike(ls) ==> NoRepeats(ls) == ls
  {
    hide NoNeighboursAlike;
    if |ls| >= 2 {
      var init, l := ls[..|ls| - 1], ls[|ls| - 1];
      assert ls == init + [l];
      NoRepeatsExactly(init);
      NoRepeatsLast(init);
      NeighboursSnoc(init, l);
      NeighboursSnoc(NoRepeats(init), l);
    } else {
      FewNeighbours(ls);
    }
  }

  lemma FewNeighbours(ls: seq<Line>)
    requires |ls| < 2
    ensures NoNeighboursAlike(ls)
  {}

  /** An execution shows its last 500 lines, or all of them if they are fewer. */
  lemma KeptExactly(es: seq<Event>, id: string)
    requires forall e :: e in es ==> PlainEvent(e)
    ensures var all, shown := NoRepeats(Outputs(es, id)), LinesOf(ReduceAll(EMPTY, es), id);
      && |shown| == (if |all| < 500 then |all| else 500)
      && (exists dropped :: all == dropped + shown)
  {
    hide ReduceAll, NoRepeats, Outputs, LinesOf, PlainEvent;
    LinesAreTail(es, id);
    var all, shown := NoRepeats(Outputs(es, id)), LinesOf(ReduceAll(EMPTY, es), id);
    assert all == all[..|all| - |shown|] + shown;
  }

  // ---------- merging a session ----------

  /** What an incoming snapshot says wins, and what it leaves out stays. */
  lemma MergedFields(current: Option<Session>, incoming: Session)
    ensures var m := MergeSession(current, incoming);
      && m.executionId == incoming.executionId && m.commandId == incoming.commandId && m.running == incoming.running
      && (incoming.title.Some? ==> m.title == incoming.title)
      && (incoming.exitCode.Some? ==> m.exitCode == incoming.exitCode)
      && (incoming.args.Some? ==> m.args == incoming.args) && m.args.Some?
      && (current.Some? && incoming.title.None? ==> m.title == current.value.title)
      && (current.Some? && incoming.exitCode.None? ==> m.exitCode == current.value.exitCode)
      && (current.Some? && incoming.args.None? && current.value.args.Some? ==> m.args == current.value.args)
      && (current.None? ==> m.title == incoming.title && m.exitCode == incoming.exitCode)
  {
    hide Merge;
  }

  /** And the lines are those of both sides. */
  lemma MergedLines(current: Option<Session>, incoming: Session)
    requires forall l :: l in OrEmpty(incoming.lines) ==> PlainChannel(l)
    requires current.Some? ==> forall l :: l in OrEmpty(current.value.lines) ==> PlainChannel(l)
    ensures var m := MergeSession(current, incoming);
      && m.lines.Some?
      && forall l :: l in m.lines.value <==>
          l in OrEmpty(incoming.lines) || (current.Some? && l in OrEmpty(current.value.lines))
  {
    hide Merge, PlainChannel;
    MergeExactly(if current.Some? then OrEmpty(current.value.lines) else [], OrEmpty(incoming.lines));
  }

  // ---------- the texts of the keys ----------

  lemma KeyTexts(channel: string, line: string)
    ensures Key(Line(12, channel, line)) == "12:" + channel + ":" + line
    ensures DedupeKey(Output("e1", "c", Line(12, channel, line), None)) == "e1:" + channel + ":12:" + line + ":pending"
    ensures DedupeKey(Output("e1", "c", Line(12, channel, line), Some(-1))) == "e1:" + channel + ":12:" + line + ":-1"
  {
    assert DecimalNat(12) == "12";
    assert Decimal(12) == "12" && Decimal(-1) == "-1";
    assert "e1" + ":" + channel == "e1:" + channel;
  }
}
