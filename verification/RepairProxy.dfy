/**
 Repair commands: validated by the Go backend (backend/src/dto/repair_proxy.go), handled by
 the Home Assistant component (custom_components/srat/repairs.py), answered with a lifecycle
 message that the backend routes (backend/src/api/ws.go).
 */
module RepairProxy {
  import opened Wrappers

  /** JSON values as Python sees them; `JOther` carries what str() makes of it. */
  datatype Json =
    | JNull
    | JBool(b: bool)
    | JString(s: string)
    | JObject(o: map<string, Json>)
    | JOther(text: string)

  // ---------- the command in Go ----------

  datatype Action = Upsert | Delete | Reconcile | UnknownAction(name: string)
  datatype Severity = Warning | Error | Critical | UnknownSeverity(name: string)

  datatype Command = Command(
    commandId: string, repairId: string, action: Action, translationKey: string,
    placeholders: map<string, string>, data: map<string, Json>,
    learnMoreUrl: Option<string>, breaksInHaVersion: Option<string>,
    severity: Severity, isFixable: bool, isPersistent: bool)

  function ActionName(a: Action): string {
    match a
    case Upsert => "upsert"
    case Delete => "delete"
    case Reconcile => "reconcile"
    case UnknownAction(name) => name
  }

  function SeverityName(s: Severity): string {
    match s
    case Warning => "warning"
    case Error => "error"
    case Critical => "critical"
    case UnknownSeverity(name) => name
  }

  datatype Validation =
    | Valid
    | CommandIdRequired
    | RepairIdRequired
    | InvalidAction
    | TranslationKeyRequired
    | InvalidSeverity

  function Validate(c: Command): Validation {
    if c.commandId == "" then CommandIdRequired
    else if c.repairId == "" then RepairIdRequired
    else if c.action.UnknownAction? then InvalidAction
    else if !c.action.Delete? && c.translationKey == "" then TranslationKeyRequired
    else if !c.action.Delete? && c.severity.UnknownSeverity? then InvalidSeverity
    else Valid
  }

  function With(o: map<string, Json>, key: string, v: Option<Json>): map<string, Json> {
    if v.Some? then o[key := v.value] else o
  }

  /** The JSON object of a command: empty optional fields are left out, the severity never is. */
  function Marshal(c: Command): map<string, Json> {
    Optional(c, 5)
  }

  /** The required fields and the first `n` optional ones. */
  function Optional(c: Command, n: nat): map<string, Json>
    requires n <= 5
  {
    if n == 0 then Required(c) else With(Optional(c, n - 1), OPTIONAL[n - 1], OptionalField(c, n - 1))
  }

  const OPTIONAL := ["translation_key", "translation_placeholders", "data", "learn_more_url", "breaks_in_ha_version"]

  function OptionalField(c: Command, i: nat): Option<Json>
    requires i < 5
  {
    match i
    case 0 => if c.translationKey != "" then Some(JString(c.translationKey)) else None
    case 1 => if c.placeholders != map[] then Some(JObject(Strings(c.placeholders))) else None
    case 2 => if c.data != map[] then Some(JObject(c.data)) else None
    case 3 => if c.learnMoreUrl.Some? then Some(JString(c.learnMoreUrl.value)) else None
    case 4 => if c.breaksInHaVersion.Some? then Some(JString(c.breaksInHaVersion.value)) else None
  }

  function Required(c: Command): map<string, Json> {
    map["command_id" := JString(c.commandId), "repair_id" := JString(c.repairId),
        "action" := JString(ActionName(c.action)), "severity" := JString(SeverityName(c.severity)),
        "is_fixable" := JBool(c.isFixable), "is_persistent" := JBool(c.isPersistent)]
  }

  function Strings(m: map<string, string>): map<string, Json> {
    map k | k in m :: JString(m[k])
  }

  // ---------- the handler in Python ----------

  datatype IssueSeverity = WARNING | ERROR | CRITICAL

  datatype Issue = Issue(
    translationKey: string, placeholders: Option<map<string, Json>>, data: Option<map<string, Json>>,
    learnMoreUrl: Option<string>, breaksInHaVersion: Option<string>,
    severity: IssueSeverity, isFixable: bool, isPersistent: bool)

  datatype Lifecycle = Lifecycle(repairId: string, commandId: Option<string>, status: string, error: Option<string>)

  function Get(payload: map<string, Json>, key: string): Json {
    if key in payload then payload[key] else JNull
  }

  function Lower(s: string): string {
    seq(|s|, i requires 0 <= i < |s| => if 'A' <= s[i] <= 'Z' then s[i] - 'A' + 'a' else s[i])
  }

  /** str(value) */
  function Str(v: Json): string {
    match v
    case JNull => "None"
    case JBool(b) => if b then "True" else "False"
    case JString(s) => s
    case JObject(_) => "{}"
    case JOther(text) => text
  }

  /** bool(value) */
  predicate Truthy(v: Json) {
    match v
    case JNull => false
    case JBool(b) => b
    case JString(s) => s != ""
    case JObject(o) => o != map[]
    case JOther(text) => text !in ["0", "0.0", "-0.0", "[]"]
  }

  function SeverityFromString(value: string): IssueSeverity {
    var normalized := Lower(value);
    if normalized == "critical" then CRITICAL else if normalized == "error" then ERROR else WARNING
  }

  function StringOf(v: Json): Option<string> {
    if v.JString? then Some(v.s) else None
  }

  function ObjectOf(v: Json): Option<map<string, Json>> {
    if v.JObject? then Some(v.o) else None
  }

  /** What the calls the handler makes come to: the text of the exception the registry call
      raises, if it does, and of the one sending the answer raises; and whether sending the error
      message fails as well. */
  datatype Luck = Luck(registry: Option<string>, send: Option<string>, again: bool)

  class RepairProxy {
    var registry: map<string, Issue>
    var sent: seq<Lifecycle>
    var connected: bool

    constructor (connected: bool)
      ensures registry == map[] && sent == [] && this.connected == connected
    {
      registry, sent := map[], [];
      this.connected := connected;
    }

    /** `raises` is the exception sending gives, should it be tried. */
    method SendLifecycle(m: Lifecycle, raises: Option<string>) returns (err: Option<string>)
      modifies this`sent
      ensures err == if connected then raises else None
      ensures sent == if connected && raises.None? then old(sent) + [m] else old(sent)
    {
      if !connected {
        return None;
      }
      if raises.Some? {
        return raises;
      }
      sent := sent + [m];
      return None;
    }

    method ActionIn(o: map<string, Json>) returns (action: string)
      ensures action == ActionOf(o)
    {
      action := Lower(if "action" in o then Str(o["action"]) else "");
    }

    method ReadIssue(o: map<string, Json>, translationKey: string) returns (issue: Issue)
      ensures issue == IssueIn(o, translationKey)
    {
      var severity := SeverityFromString(if "severity" in o then Str(o["severity"]) else "warning");
      issue := Issue(
        translationKey, ObjectOf(Get(o, "translation_placeholders")), ObjectOf(Get(o, "data")),
        StringOf(Get(o, "learn_more_url")), StringOf(Get(o, "breaks_in_ha_version")),
        severity, Truthy(Get(o, "is_fixable")), Truthy(Get(o, "is_persistent")));
    }

    method HandleRepairCommand(payload: Json, luck: Luck)
      modifies this`registry, this`sent
      ensures (registry, sent) == Handled(old(registry), old(sent), connected, payload, luck)
    {
      hide IssueIn, ActionOf, Lower, Str;
      if !payload.JObject? {
        return;
      }
      var repairId := Get(payload.o, "repair_id");
      var action := ActionIn(payload.o);
      var commandId := StringOf(Get(payload.o, "command_id"));
      if !repairId.JString? || repairId.s == "" {
        return;
      }
      var err := Act(payload.o, repairId.s, action, commandId, luck);
      if err.Some? {
        var _ := SendLifecycle(Lifecycle(repairId.s, commandId, "error", err), if luck.again then Some("") else None);
      }
    }

    /** The body of the handler's try statement; `err` is the text of the exception it raises. */
    method Act(o: map<string, Json>, repairId: string, action: string, commandId: Option<string>, luck: Luck)
        returns (err: Option<string>)
      requires NonEmpty(Get(o, "repair_id")) && repairId == Get(o, "repair_id").s
      requires action == ActionOf(o) && commandId == StringOf(Get(o, "command_id"))
      modifies this`registry, this`sent
      ensures err == Failure(JObject(o), connected, luck)
      ensures registry == if luck.registry.Some? then old(registry) else Effected(old(registry), Effect(JObject(o)))
      ensures sent == if connected && err.None? then old(sent) + [Reply(JObject(o)).value] else old(sent)
    {
      hide IssueIn, ActionOf, Lower, Str;
      if action == "upsert" || action == "reconcile" {
        var translationKey := Get(o, "translation_key");
        if !translationKey.JString? || translationKey.s == "" {
          return Some("translation_key is required for upsert/reconcile");
        }
        var issue := ReadIssue(o, translationKey.s);
        if luck.registry.Some? {
          return luck.registry;
        }
        registry := registry[repairId := issue];
        err := SendLifecycle(Lifecycle(repairId, commandId, if action == "upsert" then "created" else "updated", None),
            luck.send);
        return;
      }
      if action == "delete" {
        if luck.registry.Some? {
          return luck.registry;
        }
        registry := registry - {repairId};
        err := SendLifecycle(Lifecycle(repairId, commandId, "deleted", None), luck.send);
        return;
      }
      return Some("unsupported repair action: " + action);
    }
  }

  function Effected(registry: map<string, Issue>, e: Effects): map<string, Issue> {
    match e
    case Keep => registry
    case Put(id, issue) => registry[id := issue]
    case Drop(id) => registry - {id}
  }

  /** The text of the exception a command ends in, if it does. */
  function Failure(payload: Json, connected: bool, luck: Luck): Option<string> {
    if Reply(payload).None? then None
    else if Reply(payload).value.status == "error" then Reply(payload).value.error
    else if luck.registry.Some? then luck.registry
    else if connected then luck.send
    else None
  }

  /** What one command makes of the registry and of the messages sent. */
  function Handled(registry: map<string, Issue>, sent: seq<Lifecycle>, connected: bool, payload: Json,
      luck: Luck): (map<string, Issue>, seq<Lifecycle>) {
    var reply, failure := Reply(payload), Failure(payload, connected, luck);
    (if luck.registry.Some? then registry else Effected(registry, Effect(payload)),
     if !connected || reply.None? then sent
     else if failure.None? then sent + [reply.value]
     else if luck.again then sent
     else sent + [reply.value.(status := "error", error := failure)])
  }

  datatype Effects = Keep | Put(id: string, issue: Issue) | Drop(id: string)

  function ActionOf(o: map<string, Json>): string {
    Lower(if "action" in o then Str(o["action"]) else "")
  }

  predicate NonEmpty(v: Json) {
    v.JString? && v.s != ""
  }

  function Effect(payload: Json): Effects {
    if !payload.JObject? || !NonEmpty(Get(payload.o, "repair_id")) then Keep
    else
      var o, id := payload.o, Get(payload.o, "repair_id").s;
      if ActionOf(o) == "delete" then Drop(id)
      else if (ActionOf(o) == "upsert" || ActionOf(o) == "reconcile") && NonEmpty(Get(o, "translation_key")) then
        Put(id, IssueIn(o, Get(o, "translation_key").s))
      else Keep
  }

  /** The issue a payload describes. */
  function IssueIn(o: map<string, Json>, translationKey: string): Issue {
    Issue(translationKey, ObjectOf(Get(o, "translation_placeholders")), ObjectOf(Get(o, "data")),
          StringOf(Get(o, "learn_more_url")), StringOf(Get(o, "breaks_in_ha_version")),
          SeverityFromString(if "severity" in o then Str(o["severity"]) else "warning"),
          Truthy(Get(o, "is_fixable")), Truthy(Get(o, "is_persistent")))
  }

  function Reply(payload: Json): Option<Lifecycle> {
    if !payload.JObject? || !NonEmpty(Get(payload.o, "repair_id")) then None
    else
      var o, id, cmd := payload.o, Get(payload.o, "repair_id").s, StringOf(Get(payload.o, "command_id"));
      if ActionOf(o) == "delete" then Some(Lifecycle(id, cmd, "deleted", None))
      else if ActionOf(o) == "upsert" || ActionOf(o) == "reconcile" then
        (if !NonEmpty(Get(o, "translation_key"))
            then Some(Lifecycle(id, cmd, "error", Some("translation_key is required for upsert/reconcile")))
         else Some(Lifecycle(id, cmd, if ActionOf(o) == "upsert" then "created" else "updated", None)))
      else Some(Lifecycle(id, cmd, "error", Some("unsupported repair action: " + ActionOf(o))))
  }

  // ---------- one validated command ----------

  /** The issue a command stands for in Home Assistant. */
  function IssueOf(c: Command): Issue {
    Issue(c.translationKey,
          if c.placeholders == map[] then None else Some(Strings(c.placeholders)),
          if c.data == map[] then None else Some(c.data),
          c.learnMoreUrl, c.breaksInHaVersion,
          match c.severity case Critical => CRITICAL case Error => ERROR case _ => WARNING,
          c.isFixable, c.isPersistent)
  }

  function StatusOf(a: Action): string {
    match a
    case Upsert => "created"
    case Reconcile => "updated"
    case Delete => "deleted"
    case UnknownAction(_) => "error"
  }

  lemma LowerNames()
    ensures forall s :: s in ["upsert", "delete", "reconcile", "warning", "error", "critical"] ==> Lower(s) == s
  {
    forall s | s in ["upsert", "delete", "reconcile", "warning", "error", "critical"]
      ensures Lower(s) == s
    {}
  }

  lemma RequiredFields(c: Command)
    ensures var o := Required(c);
      && "command_id" in o && o["command_id"] == JString(c.commandId)
      && "repair_id" in o && o["repair_id"] == JString(c.repairId)
      && "action" in o && o["action"] == JString(ActionName(c.action))
      && "severity" in o && o["severity"] == JString(SeverityName(c.severity))
      && "is_fixable" in o && o["is_fixable"] == JBool(c.isFixable)
      && "is_persistent" in o && o["is_persistent"] == JBool(c.isPersistent)
    ensures forall k :: k in OPTIONAL ==> k !in Required(c)
  {}

  lemma OptionalDistinct()
    ensures forall i, j :: 0 <= i < j < 5 ==> OPTIONAL[i] != OPTIONAL[j]
  {
    assert |OPTIONAL[0]| == 15 && |OPTIONAL[1]| == 24 && |OPTIONAL[2]| == 4 && |OPTIONAL[3]| == 14 &&
        |OPTIONAL[4]| == 20;
  }

  lemma MarshalFields(c: Command)
    ensures var o := Marshal(c);
      && Get(o, "command_id") == JString(c.commandId) && Get(o, "repair_id") == JString(c.repairId)
      && "action" in o && o["action"] == JString(ActionName(c.action))
      && "severity" in o && o["severity"] == JString(SeverityName(c.severity))
      && Get(o, "is_fixable") == JBool(c.isFixable) && Get(o, "is_persistent") == JBool(c.isPersistent)
  {
    RequiredFields(c);
    MarshalKeeps(c);
    hide Required, Marshal;
    assert "command_id" in Required(c) && "repair_id" in Required(c) && "is_fixable" in Required(c) &&
        "is_persistent" in Required(c);
  }

  lemma {:induction false} OptionalKeeps(c: Command, n: nat, k: string)
    requires n <= 5
    ensures k !in OPTIONAL ==> (k in Optional(c, n) <==> k in Required(c))
    ensures k !in OPTIONAL && k in Required(c) ==> Optional(c, n)[k] == Required(c)[k]
    decreases n
  {
    hide Required, OptionalField;
    if n > 0 {
      OptionalKeeps(c, n - 1, k);
      assert OPTIONAL[n - 1] in OPTIONAL;
    }
  }

  lemma {:induction false} OptionalGet(c: Command, n: nat, i: nat)
    requires i < 5 && n <= 5
    ensures Get(Optional(c, n), OPTIONAL[i]) ==
        if i < n && OptionalField(c, i).Some? then OptionalField(c, i).value else JNull
    decreases n
  {
    RequiredFields(c);
    OptionalDistinct();
    hide Required, OptionalField;
    if n > 0 {
      OptionalGet(c, n - 1, i);
    } else {
      assert OPTIONAL[i] in OPTIONAL;
    }
  }

  lemma MarshalKeeps(c: Command)
    ensures forall k :: k in Required(c) ==> k in Marshal(c) && Marshal(c)[k] == Required(c)[k]
  {
    RequiredFields(c);
    hide Required, Optional;
    forall k | k in Required(c)
      ensures k in Optional(c, 5) && Optional(c, 5)[k] == Required(c)[k]
    {
      assert k !in OPTIONAL;
      OptionalKeeps(c, 5, k);
    }
  }

  lemma MarshalOptions(c: Command)
    ensures var o := Marshal(c);
      && Get(o, "translation_key") == (if c.translationKey != "" then JString(c.translationKey) else JNull)
      && ObjectOf(Get(o, "translation_placeholders")) == IssueOf(c).placeholders
      && ObjectOf(Get(o, "data")) == IssueOf(c).data
      && StringOf(Get(o, "learn_more_url")) == c.learnMoreUrl
      && StringOf(Get(o, "breaks_in_ha_version")) == c.breaksInHaVersion
  {
    OptionalGet(c, 5, 0);
    OptionalGet(c, 5, 1);
    OptionalGet(c, 5, 2);
    OptionalGet(c, 5, 3);
    OptionalGet(c, 5, 4);
    hide Optional, Strings;
  }

  /** A command the backend accepts is carried out and answered, never with an error. */
  lemma AcceptedIsHandled(c: Command)
    requires Validate(c) == Valid
    ensures Effect(JObject(Marshal(c))) == if c.action.Delete? then Drop(c.repairId) else Put(c.repairId, IssueOf(c))
    ensures Reply(JObject(Marshal(c))) == Some(Answer(c))
  {
    LowerNames();
    MarshalFields(c);
    MarshalOptions(c);
    hide Marshal, Lower;
  }

  function Answer(c: Command): Lifecycle {
    Lifecycle(c.repairId, Some(c.commandId), StatusOf(c.action), None)
  }

  // ---------- runs ----------

  /** A command, and how the calls made for it end. */
  datatype Round = Round(command: Command, luck: Luck)

  predicate Raises(luck: Luck) {
    luck.registry.Some? || luck.send.Some?
  }

  function HandledAll(registry: map<string, Issue>, sent: seq<Lifecycle>, connected: bool,
      rs: seq<Round>): (map<string, Issue>, seq<Lifecycle>)
    decreases |rs|
  {
    if rs == [] then (registry, sent)
    else
      var (r, s) := Handled(registry, sent, connected, JObject(Marshal(rs[0].command)), rs[0].luck);
      HandledAll(r, s, connected, rs[1..])
  }

  /** The message sent for an accepted command: its answer, or the error instead. */
  function Message(r: Round): seq<Lifecycle> {
    if !Raises(r.luck) then [Answer(r.command)]
    else if r.luck.again then []
    else [Answer(r.command).(status := "error", error := if r.luck.registry.Some? then r.luck.registry
        else r.luck.send)]
  }

  function Messages(rs: seq<Round>): seq<Lifecycle> {
    if rs == [] then [] else Messages(rs[..|rs| - 1]) + Message(rs[|rs| - 1])
  }

  function Answers(rs: seq<Round>): seq<Lifecycle> {
    seq(|rs|, i requires 0 <= i < |rs| => Answer(rs[i].command))
  }

  /** The commands whose registry call went well. */
  function Done(rs: seq<Round>): seq<Command> {
    if rs == [] then []
    else Done(rs[..|rs| - 1]) + (if rs[|rs| - 1].luck.registry.Some? then [] else [rs[|rs| - 1].command])
  }

  /** The last command of a run for a repair id. */
  function LastFor(cs: seq<Command>, id: string): Option<Command>
    decreases |cs|
  {
    if cs == [] then None
    else if cs[|cs| - 1].repairId == id then Some(cs[|cs| - 1])
    else LastFor(cs[..|cs| - 1], id)
  }

  /** The registry holds exactly the repairs whose last command was not a delete, each as its
      last command describes it. */
  ghost predicate Reflects(registry: map<string, Issue>, cs: seq<Command>) {
    && (forall id :: id in registry <==> LastFor(cs, id).Some? && !LastFor(cs, id).value.action.Delete?)
    && (forall id :: id in registry ==> registry[id] == IssueOf(LastFor(cs, id).value))
  }

  lemma LastForSnoc(cs: seq<Command>, c: Command, id: string)
    ensures LastFor(cs + [c], id) == if c.repairId == id then Some(c) else LastFor(cs, id)
  {
    assert (cs + [c])[..|cs|] == cs;
  }

  function Applied(registry: map<string, Issue>, c: Command): map<string, Issue> {
    if c.action.Delete? then registry - {c.repairId} else registry[c.repairId := IssueOf(c)]
  }

  lemma ReflectsOneMore(registry: map<string, Issue>, cs: seq<Command>, c: Command)
    requires Reflects(registry, cs)
    ensures Reflects(Applied(registry, c), cs + [c])
  {
    hide IssueOf, LastFor;
    forall id
      ensures LastFor(cs + [c], id) == if c.repairId == id then Some(c) else LastFor(cs, id)
    {
      LastForSnoc(cs, c, id);
    }
  }

  lemma HandledAccepted(registry: map<string, Issue>, sent: seq<Lifecycle>, r: Round)
    requires Validate(r.command) == Valid
    ensures Handled(registry, sent, true, JObject(Marshal(r.command)), r.luck) ==
            (if r.luck.registry.Some? then registry else Applied(registry, r.command), sent + Message(r))
  {
    AcceptedIsHandled(r.command);
    AnswerNoError(r.command);
    hide Effect, Reply, Marshal, IssueOf, StatusOf, Validate;
    assert sent + [] == sent;
  }

  lemma AnswerNoError(c: Command)
    requires Validate(c) == Valid
    ensures Answer(c).status != "error" && Answer(c).error.None?
  {}

  /** Over any run of accepted commands, handled by a connected proxy that starts with an empty
      registry: each command gets its answer or, where a call raises, an error message at most,
      and the registry reflects the last command that reached it for each repair. */
  lemma {:induction false} RunOfAccepted(rs: seq<Round>)
    requires forall i :: 0 <= i < |rs| ==> Validate(rs[i].command) == Valid
    ensures HandledAll(map[], [], true, rs).1 == Messages(rs)
    ensures Reflects(HandledAll(map[], [], true, rs).0, Done(rs))
    decreases |rs|
  {
    hide Handled, Marshal, Reflects, Validate, Message, Applied;
    if rs == [] {
      EmptyReflects();
    } else {
      var init, r := rs[..|rs| - 1], rs[|rs| - 1];
      assert init + [r] == rs;
      RunOfAccepted(init);
      HandledAllSnoc(map[], [], init, r);
      var before := HandledAll(map[], [], true, init);
      HandledAccepted(before.0, before.1, r);
      if r.luck.registry.None? {
        ReflectsOneMore(before.0, Done(init), r.command);
      } else {
        assert Done(init) + [] == Done(init);
      }
    }
  }

  lemma EmptyReflects()
    ensures Reflects(map[], [])
  {}

  lemma {:induction false} HandledAllSnoc(registry: map<string, Issue>, sent: seq<Lifecycle>, rs: seq<Round>, r: Round)
    ensures HandledAll(registry, sent, true, rs + [r]) ==
            (var (g, s) := HandledAll(registry, sent, true, rs); Handled(g, s, true, JObject(Marshal(r.command)),
                r.luck))
    decreases |rs|
  {
    hide Handled, Marshal;
    if rs == [] {
      assert rs + [r] == [r] && [r][1..] == [];
    } else {
      var (g, s) := Handled(registry, sent, true, JObject(Marshal(rs[0].command)), rs[0].luck);
      HandledAllSnoc(g, s, rs[1..], r);
      assert (rs + [r])[1..] == rs[1..] + [r];
    }
  }

  /** A run of accepted commands is answered one by one and without an error exactly when no
      call made for it raises; then the registry reflects all of its commands. */
  lemma UndisturbedExactly(rs: seq<Round>)
    requires forall i :: 0 <= i < |rs| ==> Validate(rs[i].command) == Valid
    ensures HandledAll(map[], [], true, rs).1 == Answers(rs) <==> forall i :: 0 <= i < |rs| ==> !Raises(rs[i].luck)
    ensures forall i :: 0 <= i < |Answers(rs)| ==> Answers(rs)[i].status != "error" && Answers(rs)[i].error.None?
    ensures (forall i :: 0 <= i < |rs| ==> !Raises(rs[i].luck)) ==>
      Reflects(HandledAll(map[], [], true, rs).0, seq(|rs|, i requires 0 <= i < |rs| => rs[i].command))
  {
    RunOfAccepted(rs);
    MessagesAreAnswers(rs);
    NoAnswerIsError(rs);
    hide HandledAll, Reflects, Validate, Answers, Messages;
    if forall i :: 0 <= i < |rs| ==> !Raises(rs[i].luck) { AllDone(rs); }
  }

  lemma NoAnswerIsError(rs: seq<Round>)
    requires forall i :: 0 <= i < |rs| ==> Validate(rs[i].command) == Valid
    ensures forall i :: 0 <= i < |Answers(rs)| ==> Answers(rs)[i].status != "error" && Answers(rs)[i].error.None?
  {
    forall i | 0 <= i < |rs|
      ensures Answer(rs[i].command).status != "error" && Answer(rs[i].command).error.None?
    {
      AnswerNoError(rs[i].command);
    }
  }

  lemma {:induction false} AllDone(rs: seq<Round>)
    requires forall i :: 0 <= i < |rs| ==> !Raises(rs[i].luck)
    ensures Done(rs) == seq(|rs|, i requires 0 <= i < |rs| => rs[i].command)
    decreases |rs|
  {
    if rs != [] { AllDone(rs[..|rs| - 1]); }
  }

  lemma {:induction false} MessagesAreAnswers(rs: seq<Round>)
    requires forall i :: 0 <= i < |rs| ==> Validate(rs[i].command) == Valid
    ensures |Messages(rs)| <= |rs|
    ensures Messages(rs) == Answers(rs) <==> forall i :: 0 <= i < |rs| ==> !Raises(rs[i].luck)
    decreases |rs|
  {
    if rs != [] {
      var init, r := rs[..|rs| - 1], rs[|rs| - 1];
      MessagesAreAnswers(init);
      AnswersSnoc(rs);
      MessageIsAnswer(r);
      var a, m := Messages(init), Message(r);
      assert Messages(rs) == a + m;
      var b, n := Answers(init), [Answer(r.command)];
      hide Messages, Answers, Message, Answer, Raises, Validate;
      SameHalves(a, m, b, n);
      assert rs == init + [r];
    }
  }

  lemma SameHalves<T>(a: seq<T>, m: seq<T>, b: seq<T>, n: seq<T>)
    requires |a| <= |b| && |m| <= |n|
    ensures a + m == b + n <==> a == b && m == n
  {
    if a + m == b + n {
      assert |a| == |b| && |m| == |n|;
      assert a == (a + m)[..|a|] && m == (a + m)[|a|..];
    }
  }

  lemma MessageIsAnswer(r: Round)
    requires Validate(r.command) == Valid
    ensures |Message(r)| <= 1
    ensures Message(r) == [Answer(r.command)] <==> !Raises(r.luck)
  {
    AnswerNoError(r.command);
    if Raises(r.luck) && !r.luck.again {
      assert Message(r)[0].status == "error";
    }
  }

  lemma AnswersSnoc(rs: seq<Round>)
    requires rs != []
    ensures Answers(rs) == Answers(rs[..|rs| - 1]) + [Answer(rs[|rs| - 1].command)]
    ensures |Answers(rs)| == |rs| && |Answers(rs[..|rs| - 1])| == |rs| - 1
  {}

  /** Validation accepts exactly the commands with a command id and known action and severity that
      the proxy, asked in those terms, answers without an error. */
  lemma ValidatedExactly(c: Command)
    ensures Validate(c) == Valid <==>
      && c.commandId != "" && !c.action.UnknownAction? && (c.action.Delete? || !c.severity.UnknownSeverity?)
      && Reply(JObject(Marshal(c))).Some? && Reply(JObject(Marshal(c))).value.status != "error"
  {
    LowerNames();
    MarshalFields(c);
    MarshalOptions(c);
    hide Marshal, Lower;
  }

  /** Which requirement a refused command misses, the first one being reported. */
  lemma RefusedExactly(c: Command)
    ensures Validate(c) == CommandIdRequired <==> c.commandId == ""
    ensures Validate(c) == RepairIdRequired <==> c.commandId != "" && c.repairId == ""
    ensures c.commandId != "" && c.repairId != "" ==>
      && (Validate(c) == InvalidAction <==> c.action.UnknownAction?)
      && (c.action.Delete? ==> Validate(c) == Valid)
      && (c.action.Upsert? || c.action.Reconcile? ==>
            && (Validate(c) == TranslationKeyRequired <==> c.translationKey == "")
            && (Validate(c) == InvalidSeverity <==> c.translationKey != "" && c.severity.UnknownSeverity?))
  {}

  /** The registry changes exactly where the answer tells a change, and under the id it tells. */
  lemma EffectExactly(payload: Json)
    ensures Effect(payload).Keep? <==> Reply(payload).None? || Reply(payload).value.status == "error"
    ensures Effect(payload).Drop? <==> Reply(payload).Some? && Reply(payload).value.status == "deleted"
    ensures Effect(payload).Put? <==> Reply(payload).Some? && Reply(payload).value.status in {"created", "updated"}
    ensures Effect(payload).Put? || Effect(payload).Drop? ==> Effect(payload).id == Reply(payload).value.repairId
    ensures Reply(payload).Some? ==>
      && payload.JObject? && Get(payload.o, "repair_id") == JString(Reply(payload).value.repairId)
      && Reply(payload).value.commandId == StringOf(Get(payload.o, "command_id"))
      && (Reply(payload).value.error.Some? <==> Reply(payload).value.status == "error")
  {
    hide IssueIn, ActionOf;
  }

  /** Lower-casing is letter by letter, and what counts as true is what Python takes for it. */
  lemma PythonTexts(s: string)
    ensures |Lower(s)| == |s| && forall i :: 0 <= i < |s| ==> Lower(s)[i] == LowerChar(s[i])
    ensures Lower("UPSERT") == "upsert" && Lower("Critical") == "critical"
    ensures Str(JBool(true)) == "True" && Str(JBool(false)) == "False" && Str(JNull) == "None" && Str(JString(s)) == s
    ensures Truthy(JBool(true)) && !Truthy(JBool(false)) && !Truthy(JNull) && !Truthy(JObject(map[]))
    ensures (Truthy(JString(s)) <==> s != "") && Truthy(JObject(map[s := JNull])) && Truthy(JOther("1"))
    ensures !Truthy(JOther("0")) && !Truthy(JOther("0.0")) && !Truthy(JOther("-0.0")) && !Truthy(JOther("[]"))
  {
    var m := map[s := JNull];
    assert s in m;
  }

  function LowerChar(c: char): char {
    if c in "ABCDEFGHIJKLMNOPQRSTUVWXYZ" then c + ' ' else c
  }

  /** An accepted command is answered with the status of its action. */
  lemma StatusExactly(c: Command)
    requires Validate(c) == Valid
    ensures Reply(JObject(Marshal(c))).Some?
    ensures var answer := Reply(JObject(Marshal(c))).value;
      && (c.action.Upsert? <==> answer.status == "created") && (c.action.Reconcile? <==> answer.status == "updated")
      && (c.action.Delete? <==> answer.status == "deleted")
      && answer.repairId == c.repairId && answer.commandId == Some(c.commandId) && answer.error.None?
  {
    AcceptedIsHandled(c);
    hide Marshal, Reply;
  }

  /** The fields of a message; what is missing is left out. */
  lemma FieldsExactly(m: Lifecycle)
    ensures var o := Fields(m);
      && Get(o, "repair_id") == JString(m.repairId) && Get(o, "status") == JString(m.status)
      && Get(o, "command_id") == (if m.commandId.Some? then JString(m.commandId.value) else JNull)
      && Get(o, "error") == (if m.error.Some? then JString(m.error.value) else JNull)
      && o.Keys <= {"repair_id", "status", "command_id", "error"}
  {}

  lemma AnswerText(m: Lifecycle)
    requires m.commandId.Some? && m.error.None?
    ensures Fields(m) == map["repair_id" := JString(m.repairId), "status" := JString(m.status),
                             "command_id" := JString(m.commandId.value)]
  {
    var empty: map<string, Json> := map[];
    var fields := map["repair_id" := JString(m.repairId), "status" := JString(m.status)];
    assert Fields(m) == fields + map["command_id" := JString(m.commandId.value)] + empty;
  }

  /** What goes over the wire for a command, and for an answer. */
  lemma WireTexts(c: Command, m: Lifecycle)
    requires c.translationKey != "" && c.placeholders == map[] && c.data == map[]
    requires c.learnMoreUrl.None? && c.breaksInHaVersion.None? && m.commandId.Some? && m.error.None?
    ensures Marshal(c) ==
      map["command_id" := JString(c.commandId), "repair_id" := JString(c.repairId),
          "action" := JString(ActionName(c.action)), "severity" := JString(SeverityName(c.severity)),
          "is_fixable" := JBool(c.isFixable), "is_persistent" := JBool(c.isPersistent),
          "translation_key" := JString(c.translationKey)]
    ensures Envelope(m) ==
      map["event" := JString("repair_lifecycle"),
          "data" := JObject(map["repair_id" := JString(m.repairId), "status" := JString(m.status),
                                "command_id" := JString(m.commandId.value)])]
    ensures ActionName(Upsert) == "upsert" && ActionName(Delete) == "delete" && ActionName(Reconcile) == "reconcile"
    ensures SeverityName(Warning) == "warning" && SeverityName(Error) == "error" && SeverityName(Critical) == "critical"
  {
    assert Optional(c, 1) == With(Required(c), "translation_key", Some(JString(c.translationKey)));
    assert Optional(c, 3) == Optional(c, 2) == Optional(c, 1);
    assert Optional(c, 5) == Optional(c, 4) == Optional(c, 3);
    hide Optional, Required;
    AnswerText(m);
  }

  /** What becomes of the fields of a payload: those of a wrong type are dropped, the severity
      counts in any case and is a warning unless it says otherwise. */
  lemma IssueFields(o: map<string, Json>, translationKey: string)
    ensures var i := IssueIn(o, translationKey);
      && i.translationKey == translationKey
      && (i.placeholders.Some? <==> "translation_placeholders" in o && o["translation_placeholders"].JObject?)
      && (i.placeholders.Some? ==> JObject(i.placeholders.value) == o["translation_placeholders"])
      && (i.data.Some? <==> "data" in o && o["data"].JObject?)
      && (i.data.Some? ==> JObject(i.data.value) == o["data"])
      && (i.learnMoreUrl.Some? <==> "learn_more_url" in o && o["learn_more_url"].JString?)
      && (i.learnMoreUrl.Some? ==> JString(i.learnMoreUrl.value) == o["learn_more_url"])
      && (i.breaksInHaVersion.Some? <==> "breaks_in_ha_version" in o && o["breaks_in_ha_version"].JString?)
      && (i.breaksInHaVersion.Some? ==> JString(i.breaksInHaVersion.value) == o["breaks_in_ha_version"])
      && (i.severity == CRITICAL <==> "severity" in o && Lower(Str(o["severity"])) == "critical")
      && (i.severity == ERROR <==> "severity" in o && Lower(Str(o["severity"])) == "error")
      && (i.isFixable <==> "is_fixable" in o && Truthy(o["is_fixable"]))
      && (i.isPersistent <==> "is_persistent" in o && Truthy(o["is_persistent"]))
  {
    assert |Lower("warning")| == 7;
    hide Lower;
  }

  /** The proxy sends "error" for exactly the commands with a repair id whose action it does not
      know, that lack a translation key, or for which a call raises; unless it is disconnected
      or that message fails as well. */
  lemma ErrorExactly(registry: map<string, Issue>, connected: bool, payload: Json, luck: Luck)
    ensures var sent := Handled(registry, [], connected, payload, luck).1;
      sent != [] && sent[0].status == "error" <==>
      && connected && !luck.again && payload.JObject? && NonEmpty(Get(payload.o, "repair_id"))
      && var o := payload.o;
         (Raises(luck) || (ActionOf(o) != "delete"
                           && !(ActionOf(o) in ["upsert", "reconcile"] && NonEmpty(Get(o, "translation_key")))))
  {
    hide ActionOf, Effect;
  }

  // ---------- the way back ----------

  /** What async_send_repair_lifecycle_event puts on the wire. */
  function Envelope(m: Lifecycle): map<string, Json> {
    map["event" := JString("repair_lifecycle"), "data" := JObject(Fields(m))]
  }

  function Fields(m: Lifecycle): map<string, Json> {
    map["repair_id" := JString(m.repairId), "status" := JString(m.status)]
    + (if m.commandId.Some? then map["command_id" := JString(m.commandId.value)] else map[])
    + (if m.error.Some? then map["error" := JString(m.error.value)] else map[])
  }

  const LIFECYCLE_STATUSES := {"created", "updated", "ignored", "fixed", "dismissed", "deleted", "error"}

  /** The messages handleInboundMessage applies as repair lifecycle messages: routed by their
      `type`, then validated. */
  predicate BackendAccepts(o: map<string, Json>) {
    && Get(o, "type") == JString("repair_lifecycle")
    && NonEmpty(Get(o, "repair_id"))
    && Get(o, "status").JString? && Get(o, "status").s in LIFECYCLE_STATUSES
  }

  /** The component sends `event` and `data` where the backend reads a flat message with a
      `type`: no message of the proxy is ever applied, whatever it says. */
  lemma AnswersAreNeverAccepted(m: Lifecycle)
    ensures !BackendAccepts(Envelope(m))
  {
    assert "type" !in Envelope(m);
  }

  /** The fields themselves would do, sent flat with the type, for exactly the messages with a
      repair id and a status of the list. */
  lemma FlatAcceptedExactly(m: Lifecycle)
    ensures BackendAccepts(Fields(m)["type" := JString("repair_lifecycle")]) <==>
            m.repairId != "" && m.status in LIFECYCLE_STATUSES
  {}

  /** Every message the proxy sends, for any payload and whichever calls raise, is one of them. */
  lemma FlatAnswersWouldBeAccepted(registry: map<string, Issue>, connected: bool, payload: Json, luck: Luck)
    ensures forall m :: m in Handled(registry, [], connected, payload, luck).1 ==>
      BackendAccepts(Fields(m)["type" := JString("repair_lifecycle")])
  {
    hide ActionOf, Effect, Fields, BackendAccepts;
    forall m | m in Handled(registry, [], connected, payload, luck).1
      ensures BackendAccepts(Fields(m)["type" := JString("repair_lifecycle")])
    {
      FlatAcceptedExactly(m);
    }
  }
}
