/**
 The text frames of the WebSocket: written by the Go backend (backend/src/api/ws.go), parsed
 by the Home Assistant component (custom_components/srat/websocket_client.py), which then
 calls the listeners of the event.
 */
module WireFrames {
  import opened Text
  import opened Wrappers

  // ---------- the sender ----------

  function IdLine(id: int): string {
    "id: " + Decimal(id)
  }

  function EventLine(event: string): string {
    "event: " + event
  }

  function Head(id: int, event: string): string {
    IdLine(id) + ['\n'] + (EventLine(event) + ['\n'] + "data:")
  }

  /** What SendFunc writes for a message. */
  function Frame(id: int, event: string, payload: string): string {
    Head(id, event) + (" " + payload) + "\n\n"
  }

  // ---------- str.strip ----------

  /** The characters Python's str.isspace holds for. */
  predicate IsSpace(c: char) {
    || '\t' <= c <= '\r' || '\U{1c}' <= c <= ' ' || c == '\U{85}' || c == '\U{a0}' || c == '\U{1680}'
    || '\U{2000}' <= c <= '\U{200a}' || c == '\U{2028}' || c == '\U{2029}' || c == '\U{202f}' || c == '\U{205f}' ||
        c == '\U{3000}'
  }

  /** By code point. */
  lemma IsSpaceExactly(c: char)
    ensures IsSpace(c) <==>
      || 9 <= c as int <= 13 || 28 <= c as int <= 32 || c as int in {133, 160, 5760} || 8192 <= c as int <= 8202
      || c as int in {8232, 8233, 8239, 8287, 12288}
  {}

  function LStrip(s: string): string {
    if s != "" && IsSpace(s[0]) then LStrip(s[1..]) else s
  }

  function RStrip(s: string): string {
    if s != "" && IsSpace(s[|s| - 1]) then RStrip(s[..|s| - 1]) else s
  }

  function Strip(s: string): string {
    RStrip(LStrip(s))
  }

  /** Neither end is a space. */
  predicate Trimmed(s: string) {
    s == "" || (!IsSpace(s[0]) && !IsSpace(s[|s| - 1]))
  }

  lemma {:induction false} LStripPart(s: string)
    ensures LStrip(s) == "" || !IsSpace(LStrip(s)[0])
    ensures forall c :: c in LStrip(s) ==> c in s
  {
    if s != "" && IsSpace(s[0]) { LStripPart(s[1..]); }
  }

  lemma {:induction false} RStripPart(s: string)
    ensures RStrip(s) <= s
    ensures RStrip(s) == "" || !IsSpace(RStrip(s)[|RStrip(s)| - 1])
  {
    if s != "" && IsSpace(s[|s| - 1]) { RStripPart(s[..|s| - 1]); }
  }

  lemma StripTrims(s: string)
    ensures Trimmed(Strip(s)) && forall c :: c in Strip(s) ==> c in s
  {
    LStripPart(s);
    RStripPart(LStrip(s));
  }

  ghost predicate AllSpaces(s: string) {
    forall c :: c in s ==> IsSpace(c)
  }

  lemma {:induction false} LStripCuts(s: string) returns (p: string)
    ensures s == p + LStrip(s) && AllSpaces(p)
  {
    hide IsSpace;
    if s != "" && IsSpace(s[0]) {
      var q := LStripCuts(s[1..]);
      p := [s[0]] + q;
      assert s == [s[0]] + s[1..];
    } else {
      p := "";
    }
  }

  lemma {:induction false} RStripCuts(s: string) returns (p: string)
    ensures s == RStrip(s) + p && AllSpaces(p)
  {
    hide IsSpace;
    if s != "" && IsSpace(s[|s| - 1]) {
      var q := RStripCuts(s[..|s| - 1]);
      p := q + [s[|s| - 1]];
      assert s == s[..|s| - 1] + [s[|s| - 1]];
    } else {
      p := "";
    }
  }

  /** Stripping takes spaces from the ends and nothing else, and leaves none there. */
  lemma StripExactly(s: string)
    ensures Trimmed(Strip(s)) && exists p, q :: AllSpaces(p) && AllSpaces(q) && s == p + Strip(s) + q
  {
    StripTrims(s);
    var p := LStripCuts(s);
    var q := RStripCuts(LStrip(s));
    assert s == p + Strip(s) + q;
  }

  lemma StripIdExactly(s: string)
    ensures Strip(s) == s <==> Trimmed(s)
  {
    StripTrims(s);
  }

  lemma {:induction false} RStripSpaces(s: string, t: string)
    requires forall c :: c in t ==> IsSpace(c)
    ensures RStrip(s + t) == RStrip(s)
  {
    if t == "" {
      assert s + t == s;
    } else {
      assert (s + t)[..|s + t| - 1] == s + t[..|t| - 1];
      RStripSpaces(s, t[..|t| - 1]);
    }
  }

  // ---------- the receiver ----------

  predicate StartsWith(s: string, p: string) {
    p <= s
  }

  /** The event name and payload text _parse_ws_message finds in a text, if it is well formed. */
  function Parse(data: string): Option<(string, string)> {
    var lines := Split(Strip(data), '\n');
    if |lines| < 3 || !StartsWith(lines[0], "id:") || !StartsWith(lines[1], "event:") then None
    else if !StartsWith(lines[2], "data:") then None
    else Some((Strip(lines[1][6..]), Strip(lines[2][5..])))
  }

  /** A text of at least three lines with the three heads is parsed, whatever stands on them. */
  lemma ThreeHeadsParsed(id: string, event: string, data: string, rest: string)
    requires '\n' !in id && '\n' !in event && '\n' !in data
    requires Trimmed("id:" + id + "\nevent:" + event + "\ndata:" + data + rest) && (rest == "" || rest[0] == '\n')
    ensures Parse("id:" + id + "\nevent:" + event + "\ndata:" + data + rest) == Some((Strip(event), Strip(data)))
  {
    hide Split, Strip, IsSpace;
    var a, b, c := "id:" + id, "event:" + event, "data:" + data;
    var text := "id:" + id + "\nevent:" + event + "\ndata:" + data + rest;
    assert text == a + ['\n'] + (b + ['\n'] + (c + rest));
    StripIdExactly(text);
    SplitAtFirst(a, b + ['\n'] + (c + rest), '\n');
    SplitAtFirst(b, c + rest, '\n');
    if rest == "" {
      assert c + rest == c;
      SplitWithoutSeparator(c, '\n');
    } else {
      assert c + rest == c + ['\n'] + rest[1..];
      SplitAtFirst(c, rest[1..], '\n');
    }
    assert a[3..] == id && b[6..] == event && c[5..] == data;
  }

  /** And nothing else is: the first three lines of what is parsed have the three heads. */
  lemma ParsedHasHeads(data: string)
    requires Parse(data).Some?
    ensures var lines := Split(Strip(data), '\n');
      && |lines| >= 3 && "id:" <= lines[0] && "event:" <= lines[1] && "data:" <= lines[2]
      && Join(lines, '\n') == Strip(data)
      && Parse(data) == Some((Strip(lines[1][6..]), Strip(lines[2][5..])))
  {
    JoinOfSplit(Strip(data), '\n');
  }

  /** What the sender writes, by an example. */
  lemma FrameText(event: string, payload: string)
    ensures Frame(12, event, payload) == "id: 12\nevent: " + event + "\ndata: " + payload + "\n\n"
  {
    assert Decimal(12) == "12" by { assert DecimalNat(12) == "12"; }
    assert Frame(12, event, payload) == "id: " + "12" + "\n" + "event: " + event + "\n" + "data:" + " " + payload +
        "\n\n";
    assert "id: " + "12" + "\n" + "event: " == "id: 12\nevent: " && "\n" + "data:" + " " == "\ndata: ";
  }

  lemma ParsedIsTrimmed(data: string)
    requires Parse(data).Some?
    ensures Trimmed(Parse(data).value.0) && Trimmed(Parse(data).value.1)
    ensures '\n' !in Parse(data).value.0 && '\n' !in Parse(data).value.1
  {
    var lines := Split(Strip(data), '\n');
    StripTrims(lines[1][6..]);
    StripTrims(lines[2][5..]);
  }

  /** The stripped frame: without a payload the space after "data:" goes as well. */
  lemma StrippedFrame(id: int, event: string, payload: string)
    requires Trimmed(payload)
    ensures Strip(Frame(id, event, payload)) == Head(id, event) + (if payload == "" then "" else " " + payload)
  {
    var f, h := Frame(id, event, payload), Head(id, event);
    assert f[0] == IdLine(id)[0] == 'i' && !IsSpace('i');
    assert LStrip(f) == f;
    assert h[|h| - 1] == ':' && !IsSpace(':');
    hide Head;
    RStripSpaces(h + (" " + payload), "\n\n");
    if payload == "" {
      assert " " + payload == " ";
      RStripSpaces(h, " ");
    } else {
      var body := h + (" " + payload);
      assert body[|body| - 1] == (" " + payload)[|payload|] == payload[|payload| - 1];
    }
  }

  lemma StripSpaceBefore(s: string)
    requires Trimmed(s)
    ensures Strip(" " + s) == s
  {
    assert (" " + s)[1..] == s;
    assert LStrip(" " + s) == LStrip(s);
    StripIdExactly(s);
    assert LStrip(s) == s;
  }

  lemma ThreeLines(a: string, b: string, c: string)
    requires '\n' !in a && '\n' !in b && '\n' !in c
    ensures Split(a + ['\n'] + (b + ['\n'] + c), '\n') == [a, b, c]
  {
    SplitAtFirst(a, b + ['\n'] + c, '\n');
    SplitAtFirst(b, c, '\n');
    SplitWithoutSeparator(c, '\n');
    hide Split;
  }

  /** The three lines of a head and what follows on the last one. */
  lemma HeadLines(id: int, event: string, rest: string)
    requires '\n' !in event && '\n' !in rest
    ensures Split(Head(id, event) + rest, '\n') == [IdLine(id), EventLine(event), "data:" + rest]
  {
    ThreeLines(IdLine(id), EventLine(event), "data:" + rest);
    hide Split, IdLine, EventLine;
    HeadAppend(IdLine(id), EventLine(event), rest);
  }

  lemma HeadAppend(a: string, b: string, rest: string)
    ensures a + ['\n'] + (b + ['\n'] + "data:") + rest == a + ['\n'] + (b + ['\n'] + ("data:" + rest))
  {}

  /** The parser recovers what the sender framed exactly when event name and payload are single
      trimmed lines; JSON payloads and the event names of the backend are. */
  lemma ParseOfFrameExactly(id: int, event: string, payload: string)
    ensures Parse(Frame(id, event, payload)) == Some((event, payload)) <==>
            '\n' !in event && Trimmed(event) && '\n' !in payload && Trimmed(payload)
  {
    if Parse(Frame(id, event, payload)).Some? {
      ParsedIsTrimmed(Frame(id, event, payload));
    }
    if '\n' !in event && Trimmed(event) && '\n' !in payload && Trimmed(payload) {
      var rest := if payload == "" then "" else " " + payload;
      StrippedFrame(id, event, payload);
      HeadLines(id, event, rest);
      StripSpaceBefore(event);
      StripSpaceBefore(payload);
      assert ("event: " + event)[6..] == " " + event;
      assert ("data:" + rest)[5..] == rest;
      StripIdExactly("");
    }
  }

  // ---------- the listeners ----------

  type Listener = nat

  function RemoveFirst(list: seq<Listener>, l: Listener): (r: seq<Listener>)
    requires l in list
    ensures |r| == |list| - 1
    ensures multiset(r) == multiset(list) - multiset{l}
  {
    if list[0] == l then assert list == [l] + list[1..]; list[1..]
    else assert list == [list[0]] + list[1..]; [list[0]] + RemoveFirst(list[1..], l)
  }

  /** It is the list without its first `l`, the rest in the order it had. */
  lemma {:induction false} RemoveFirstExactly(list: seq<Listener>, l: Listener) returns (i: nat)
    requires l in list
    ensures i < |list| && list[i] == l && l !in list[..i]
    ensures RemoveFirst(list, l) == list[..i] + list[i + 1..]
  {
    if list[0] == l {
      i := 0;
    } else {
      var k := RemoveFirstExactly(list[1..], l);
      i := k + 1;
      SkipCons(list, k);
      hide RemoveFirst;
    }
  }

  lemma SkipCons<T>(list: seq<T>, k: nat)
    requires k + 1 < |list|
    ensures list[..k + 1] == [list[0]] + list[1..][..k] && list[k + 1 + 1..] == list[1..][k + 1..]
    ensures [list[0]] + (list[1..][..k] + list[1..][k + 1..]) == list[..k + 1] + list[k + 1 + 1..]
  {}

  /** The list after the call of its i-th listener; `leaves` tells which listeners unregister
      themselves when called. */
  function Next(list: seq<Listener>, i: nat, leaves: Listener -> bool): seq<Listener>
    requires i < |list|
  {
    if leaves(list[i]) then RemoveFirst(list, list[i]) else list
  }

  /** Python's loop over a list that its body may shorten: who is called, from the i-th on. */
  function Called(list: seq<Listener>, i: nat, leaves: Listener -> bool): seq<Listener>
    decreases |list| - i
  {
    if i >= |list| then [] else [list[i]] + Called(Next(list, i, leaves), i + 1, leaves)
  }

  /** Who is still registered after that loop. */
  function Left(list: seq<Listener>, i: nat, leaves: Listener -> bool): seq<Listener>
    decreases |list| - i
  {
    if i >= |list| then list else Left(Next(list, i, leaves), i + 1, leaves)
  }

  function Leavers(called: seq<Listener>, leaves: Listener -> bool): seq<Listener> {
    if called == [] then [] else (if leaves(called[0]) then [called[0]] else []) + Leavers(called[1..], leaves)
  }

  lemma LeaversCons(l: Listener, called: seq<Listener>, leaves: Listener -> bool)
    ensures Leavers([l] + called, leaves) == (if leaves(l) then [l] else []) + Leavers(called, leaves)
  {
    assert ([l] + called)[1..] == called;
  }

  /** The listeners that are gone are those that were called and left. */
  lemma {:induction false} LeftExactly(list: seq<Listener>, i: nat, leaves: Listener -> bool)
    ensures multiset(list) == multiset(Left(list, i, leaves)) + multiset(Leavers(Called(list, i, leaves), leaves))
    decreases |list| - i
  {
    hide Leavers, RemoveFirst;
    if i < |list| {
      LeftExactly(Next(list, i, leaves), i + 1, leaves);
      LeaversCons(list[i], Called(Next(list, i, leaves), i + 1, leaves), leaves);
    } else {
      assert Leavers([], leaves) == [] by { NoLeavers(leaves); }
    }
  }

  lemma NoLeavers(leaves: Listener -> bool)
    ensures Leavers([], leaves) == []
  {}

  lemma {:induction false} CalledAtMost(list: seq<Listener>, i: nat, leaves: Listener -> bool)
    ensures |Called(list, i, leaves)| <= if i < |list| then |list| - i else 0
    decreases |list| - i
  {
    if i < |list| {
      CalledAtMost(Next(list, i, leaves), i + 1, leaves);
    }
  }

  lemma {:induction false} CalledFrom(list: seq<Listener>, i: nat, leaves: Listener -> bool)
    requires i <= |list|
    ensures Called(list, i, leaves) == list[i..] <==> forall j :: i <= j < |list| - 1 ==> !leaves(list[j])
    decreases |list| - i
  {
    if i < |list| {
      if leaves(list[i]) && i < |list| - 1 {
        CalledAtMost(RemoveFirst(list, list[i]), i + 1, leaves);
        assert |Called(list, i, leaves)| < |list[i..]|;
      } else if leaves(list[i]) {
        assert list[i..] == [list[i]];
      } else {
        CalledFrom(list, i + 1, leaves);
        assert list[i..] == [list[i]] + list[i + 1..];
      }
    }
  }

  /** Every listener is called once, in the order of registration, exactly when none but the
      last one unregisters itself during the call; otherwise the next one is skipped. */
  lemma EveryListenerCalledExactly(list: seq<Listener>, leaves: Listener -> bool)
    ensures Called(list, 0, leaves) == list <==> forall j :: 0 <= j < |list| - 1 ==> !leaves(list[j])
  {
    CalledFrom(list, 0, leaves);
    assert list[0..] == list;
  }

  datatype Outcome = Done | KeyError | ValueError

  /** The dictionary with the listeners of one event replaced; an empty list is dropped. */
  function WithList(m: map<string, seq<Listener>>, event: string, list: seq<Listener>): map<string, seq<Listener>> {
    if list == [] then m - {event} else m[event := list]
  }

  class Client {
    var listeners: map<string, seq<Listener>>
    /** Every call made to a listener, with the payload text it was given. */
    var calls: seq<(Listener, string)>

    ghost predicate Valid()
      reads this
    {
      forall e :: e in listeners ==> listeners[e] != []
    }

    constructor ()
      ensures Valid() && listeners == map[] && calls == []
    {
      listeners, calls := map[], [];
    }

    function ListenersOf(event: string): seq<Listener>
      reads this
    {
      if event in listeners then listeners[event] else []
    }

    method RegisterListener(event: string, l: Listener)
      requires Valid()
      modifies this
      ensures Valid() && calls == old(calls)
      ensures listeners == old(listeners)[event := old(ListenersOf(event)) + [l]]
    {
      if event !in listeners {
        listeners := listeners[event := []];
      }
      listeners := listeners[event := listeners[event] + [l]];
    }

    /** What the callable returned by register_listener does. */
    method RemoveListener(event: string, l: Listener) returns (r: Outcome)
      requires Valid()
      modifies this
      ensures Valid() && calls == old(calls)
      ensures r == if event !in old(listeners) then KeyError else if l !in old(listeners)[event] then ValueError
          else Done
      ensures r != Done ==> listeners == old(listeners)
      ensures r == Done ==> listeners == WithList(old(listeners), event, RemoveFirst(old(listeners)[event], l))
    {
      if event !in listeners {
        return KeyError;
      }
      if l !in listeners[event] {
        return ValueError;
      }
      listeners := listeners[event := RemoveFirst(listeners[event], l)];
      if listeners[event] == [] {
        listeners := listeners - {event};
      }
      return Done;
    }

    /** The event and payload a text makes the client dispatch. `json` is the JSON parser, None for
        a syntax error; an empty payload stands for {}. */
    static function Dispatched(data: string, json: string -> Option<string>): Option<(string, string)> {
      var parsed := Parse(data);
      if parsed.None? then None
      else
        var payload := if parsed.value.1 == "" then Some("{}") else json(parsed.value.1);
        if payload.None? then None else Some((parsed.value.0, payload.value))
    }

    method ParseWsMessage(data: string, json: string -> Option<string>, leaves: Listener -> bool)
      requires Valid()
      modifies this
      ensures Valid()
      ensures var d := Dispatched(data, json);
        if d.None? then calls == old(calls) && listeners == old(listeners)
        else
          && calls == old(calls) + Pairs(Called(old(ListenersOf(d.value.0)), 0, leaves), d.value.1)
          && listeners == WithList(old(listeners), d.value.0, Left(old(ListenersOf(d.value.0)), 0, leaves))
    {
      var lines := Split(Strip(data), '\n');
      if |lines| < 3 || !StartsWith(lines[0], "id:") || !StartsWith(lines[1], "event:") {
        return;
      }
      var eventLine := lines[1];
      var dataLine := if |lines| > 2 then lines[2] else "";
      if !StartsWith(eventLine, "event:") || !StartsWith(dataLine, "data:") {
        return;
      }
      var event := Strip(eventLine[6..]);
      var dataStr := Strip(dataLine[5..]);
      var payload := if dataStr != "" then json(dataStr) else Some("{}");
      if payload.None? {
        return;
      }
      Dispatch(event, payload.value, leaves);
    }

    method Dispatch(event: string, payload: string, leaves: Listener -> bool)
      requires Valid()
      modifies this
      ensures Valid()
      ensures calls == old(calls) + Pairs(Called(old(ListenersOf(event)), 0, leaves), payload)
      ensures listeners == WithList(old(listeners), event, Left(old(ListenersOf(event)), 0, leaves))
    {
      hide Pairs, Called, Left, Next, WithList;
      ghost var before := ListenersOf(event);
      WithListLaws(listeners, event, before, before);
      var i := 0;
      while i < |ListenersOf(event)|
        invariant Valid()
        invariant listeners == WithList(old(listeners), event, ListenersOf(event))
        invariant Left(ListenersOf(event), i, leaves) == Left(before, 0, leaves)
        invariant calls + Pairs(Called(ListenersOf(event), i, leaves), payload) == old(calls) +
            Pairs(Called(before, 0, leaves), payload)
        decreases |ListenersOf(event)| - i
      {
        ghost var list, made := ListenersOf(event), calls;
        CallOne(event, i, payload, leaves);
        WithListLaws(old(listeners), event, list, Next(list, i, leaves));
        OneCalled(made, list, i, payload, leaves);
        i := i + 1;
      }
      NoneCalled(calls, ListenersOf(event), i, payload, leaves);
    }

    /** One call; the listener may unregister itself. */
    method CallOne(event: string, i: nat, payload: string, leaves: Listener -> bool)
      requires Valid() && i < |ListenersOf(event)|
      modifies this
      ensures Valid() && calls == old(calls) + [(old(ListenersOf(event)[i]), payload)]
      ensures listeners == WithList(old(listeners), event, Next(old(ListenersOf(event)), i, leaves))
      ensures ListenersOf(event) == Next(old(ListenersOf(event)), i, leaves)
    {
      var l := listeners[event][i];
      calls := calls + [(l, payload)];
      if leaves(l) {
        var _ := RemoveListener(event, l);
      }
    }
  }

  /** A frame makes the client dispatch its event with what JSON makes of its payload, {} for none. */
  lemma DispatchedOfFrame(id: int, event: string, payload: string, json: string -> Option<string>)
    requires '\n' !in event && Trimmed(event) && '\n' !in payload && Trimmed(payload)
    ensures payload == "" ==> Client.Dispatched(Frame(id, event, payload), json) == Some((event, "{}"))
    ensures payload != "" && json(payload).None? ==> Client.Dispatched(Frame(id, event, payload), json) == None
    ensures payload != "" && json(payload).Some? ==>
        Client.Dispatched(Frame(id, event, payload), json) == Some((event, json(payload).value))
  {
    ParseOfFrameExactly(id, event, payload);
    hide Frame, Parse;
  }

  lemma WithListLaws(m: map<string, seq<Listener>>, event: string, a: seq<Listener>, b: seq<Listener>)
    ensures WithList(WithList(m, event, a), event, b) == WithList(m, event, b)
    ensures (event in m && m[event] == a != []) || (event !in m && a == []) ==> WithList(m, event, a) == m
  {}

  /** The loop from the i-th listener on is its call and the loop from the next one on. */
  lemma OneCalled(made: seq<(Listener, string)>, list: seq<Listener>, i: nat, payload: string, leaves: Listener -> bool)
    requires i < |list|
    ensures Next(list, i, leaves) == list || |Next(list, i, leaves)| == |list| - 1
    ensures Left(list, i, leaves) == Left(Next(list, i, leaves), i + 1, leaves)
    ensures made + Pairs(Called(list, i, leaves), payload) ==
            made + [(list[i], payload)] + Pairs(Called(Next(list, i, leaves), i + 1, leaves), payload)
  {
    PairsCons(made, list[i], Called(Next(list, i, leaves), i + 1, leaves), payload);
    hide Pairs;
  }

  lemma NoneCalled(made: seq<(Listener, string)>, list: seq<Listener>, i: nat, payload: string,
      leaves: Listener -> bool)
    requires i >= |list|
    ensures Left(list, i, leaves) == list
    ensures made + Pairs(Called(list, i, leaves), payload) == made
  {}

  function Pairs(ls: seq<Listener>, payload: string): seq<(Listener, string)> {
    seq(|ls|, i requires 0 <= i < |ls| => (ls[i], payload))
  }

  lemma PairsCons(made: seq<(Listener, string)>, l: Listener, ls: seq<Listener>, payload: string)
    ensures made + Pairs([l] + ls, payload) == made + [(l, payload)] + Pairs(ls, payload)
  {}
}
