/**
 Settings as rows of the property table and back (backend/src/converter/dto_to_dbom_conv.go):
 a conversion driven by the dynamic type of each value, in memory and after the value went
 through its JSON column.
 */
module SettingsTable {
  import opened Text
  import opened Wrappers

  /** The types of the fields of Settings. */
  datatype FieldType = TString | TBool | TStrings | TBoolPointer | TTelemetry | TSmart | TSecret

  /** The fields of Settings (backend/src/dto/settings.go:6-22). */
  function Schema(): map<string, FieldType> {
    map[
      "Hostname" := TString, "Workgroup" := TString, "AllowHost" := TStrings, "CompatibilityMode" := TBool,
      "Interfaces" := TStrings, "BindAllInterfaces" := TBool, "MultiChannel" := TBool, "AllowGuest" := TBoolPointer,
      "TelemetryMode" := TTelemetry, "LocalMaster" := TBoolPointer, "ExportStatsToHA" := TBoolPointer,
      "HAUseNFS" := TBoolPointer, "HASmbPassword" := TSecret, "SMBoverQUIC" := TBoolPointer, "SmartMode" := TSmart,
      "ExperimentalLabMode" := TBool, "MDNSRegistration" := TBoolPointer
    ]
  }

  /** The value of a field; a slice or pointer may be nil, an enum is its number. */
  datatype Field =
    | FString(s: string)
    | FBool(b: bool)
    | FStrings(list: Option<seq<string>>)
    | FBoolPointer(p: Option<bool>)
    | FEnum(code: int)
    | FSecret(secret: string)

  predicate HasType(f: Field, ty: FieldType) {
    match ty
    case TString => f.FString?
    case TBool => f.FBool?
    case TStrings => f.FStrings?
    case TBoolPointer => f.FBoolPointer?
    case TTelemetry => f.FEnum?
    case TSmart => f.FEnum?
    case TSecret => f.FSecret?
  }

  function Zero(ty: FieldType): (f: Field)
    ensures HasType(f, ty)
  {
    match ty
    case TString => FString("")
    case TBool => FBool(false)
    case TStrings => FStrings(None)
    case TBoolPointer => FBoolPointer(None)
    case TTelemetry => FEnum(0)
    case TSmart => FEnum(0)
    case TSecret => FSecret("")
  }

  type Settings = map<string, Field>

  ghost predicate WellTyped(s: Settings) {
    s.Keys == Schema().Keys && forall k :: k in s ==> HasType(s[k], Schema()[k])
  }

  function FreshSettings(): Settings {
    map k | k in Schema() :: Zero(Schema()[k])
  }

  /** A value of type `any`, by its dynamic type: []string and *bool may be nil and still not
      be the nil interface; a JSON number is a VNumber if it is whole and
      a VFraction if not, an object is VOther. */
  datatype Any =
    | Nil
    | VString(s: string)
    | VBool(b: bool)
    | VStrings(list: Option<seq<string>>)
    | VBoolPointer(p: Option<bool>)
    | VAny(items: seq<Any>)
    | VNumber(n: int)
    | VFraction
    | VOther

  /** `stamp` stands for the time columns; a row nobody wrote has them all zero. */
  datatype Property = Property(key: string, value: Any, stamp: nat)
  type Properties = map<string, Property>

  const NO_PROPERTY := Property("", Nil, 0)

  ghost predicate WellKeyed(t: Properties) {
    forall k :: k in t ==> t[k].key == k && k != ""
  }

  // ---------- enums ----------

  function EnumNames(ty: FieldType): seq<string> {
    if ty.TTelemetry? then ["Ask", "All", "Errors", "Disabled"] else ["none", "legacy", "direct"]
  }

  function EnumName(ty: FieldType, code: int): string {
    if 0 <= code < |EnumNames(ty)| then EnumNames(ty)[code]
    else (if ty.TTelemetry? then "telemetrymode(" else "smartmode(") + Decimal(code) + ")"
  }

  const INVALID_ENUM := -1

  /** Names are looked up, numbers count from one, anything unknown becomes the invalid
      enum without an error, and other types are an error. */
  function ParseEnum(ty: FieldType, v: Any): Option<int> {
    match v
    case VString(s) =>
      var names := EnumNames(ty);
      Some(if s == names[0] then 0 else if s == names[1] then 1 else if s == names[2] then 2
           else if |names| == 4 && s == names[3] then 3 else INVALID_ENUM)
    case VFraction => Some(INVALID_ENUM)
    case VNumber(n) => Some(if 0 < n <= |EnumNames(ty)| then n - 1 else INVALID_ENUM)
    case _ => None
  }

  /** Every enum value but the invalid ones other than -1 survives its name. */
  predicate EnumKept(ty: FieldType, code: int) {
    0 <= code < |EnumNames(ty)| || code == INVALID_ENUM
  }

  lemma EnumRoundTripExactly(ty: FieldType, code: int)
    requires ty.TTelemetry? || ty.TSmart?
    ensures ParseEnum(ty, VString(EnumName(ty, code))) == Some(if EnumKept(ty, code) then code else INVALID_ENUM)
  {
    var name := EnumName(ty, code);
    if !(0 <= code < |EnumNames(ty)|) {
      assert name[0] == if ty.TTelemetry? then 't' else 's';
      assert forall i :: 0 <= i < |EnumNames(ty)| ==> EnumNames(ty)[i][0] != name[0];
    }
  }

  /** The names, in the order the settings list them. */
  lemma TelemetryNamesExactly()
    ensures Join(EnumNames(TTelemetry), ',') == "Ask,All,Errors,Disabled"
  {
    var t := EnumNames(TTelemetry);
    assert t[1..] == ["All", "Errors", "Disabled"];
    assert t[1..][1..] == ["Errors", "Disabled"] && t[1..][1..][1..] == ["Disabled"];
  }

  lemma SmartNamesExactly()
    ensures Join(EnumNames(TSmart), ',') == "none,legacy,direct"
  {
    var s := EnumNames(TSmart);
    assert s[1..] == ["legacy", "direct"] && s[1..][1..] == ["direct"];
  }

  /** An invalid enum is written with its number. */
  lemma InvalidNameExactly(code: int)
    ensures code < 0 || code >= 4 ==> EnumName(TTelemetry, code) == "telemetrymode(" + Decimal(code) + ")"
    ensures code < 0 || code >= 3 ==> EnumName(TSmart, code) == "smartmode(" + Decimal(code) + ")"
  {}

  /** A number stands for the name at its place, counted from one; any other for the invalid enum. */
  lemma EnumNumbersExactly(ty: FieldType, n: int)
    requires ty.TTelemetry? || ty.TSmart?
    ensures 1 <= n <= |EnumNames(ty)| ==>
        ParseEnum(ty, VNumber(n)) == ParseEnum(ty, VString(EnumNames(ty)[n - 1])) &&
            ParseEnum(ty, VNumber(n)) == Some(n - 1)
    ensures !(1 <= n <= |EnumNames(ty)|) ==> ParseEnum(ty, VNumber(n)) == Some(-1)
    ensures ParseEnum(ty, VFraction) == Some(-1)
  {
    if 1 <= n <= |EnumNames(ty)| {
      EnumRoundTripExactly(ty, n - 1);
    }
  }

  /** The fields of the settings, by type. */
  lemma SchemaExactly(k: string)
    ensures k in Schema() && Schema()[k] == TString <==> k in {"Hostname", "Workgroup"}
    ensures k in Schema() && Schema()[k] == TStrings <==> k in {"AllowHost", "Interfaces"}
    ensures k in Schema() && Schema()[k] == TBool <==>
        k in {"CompatibilityMode", "BindAllInterfaces", "MultiChannel", "ExperimentalLabMode"}
    ensures k in Schema() && Schema()[k] == TBoolPointer <==>
        k in {"AllowGuest", "LocalMaster", "ExportStatsToHA", "HAUseNFS", "SMBoverQUIC", "MDNSRegistration"}
    ensures k in Schema() && Schema()[k] == TTelemetry <==> k == "TelemetryMode"
    ensures k in Schema() && Schema()[k] == TSmart <==> k == "SmartMode"
    ensures k in Schema() && Schema()[k] == TSecret <==> k == "HASmbPassword"
  {}

  // ---------- one field, out and in ----------

  /** What SettingsToProperties puts into a row for a field. */
  function Expose(ty: FieldType, f: Field): Any
    requires HasType(f, ty)
  {
    match f
    case FString(s) => VString(s)
    case FBool(b) => VBool(b)
    case FStrings(list) => VStrings(list)
    case FBoolPointer(p) => VBoolPointer(p)
    case FEnum(code) => VString(EnumName(ty, code))
    case FSecret(s) => VString(s)
  }

  /** The value read back from the JSON column it was written to. */
  function ThroughJson(v: Any): Any {
    match v
    case VStrings(list) =>
      if list.None? then Nil else VAny(seq(|list.value|, i requires 0 <= i < |list.value| => VString(list.value[i])))
    case VBoolPointer(p) => if p.None? then Nil else VBool(p.value)
    case _ => v
  }

  datatype Outcome<T> = Loaded(value: T) | TypeError | Panic

  /** reflect's CanConvert, between the types that occur. */
  function Converted(ty: FieldType, v: Any): Option<Field> {
    match (ty, v)
    case (TString, VString(s)) => Some(FString(s))
    case (TBool, VBool(b)) => Some(FBool(b))
    case (TStrings, VStrings(list)) => Some(FStrings(list))
    case (TBoolPointer, VBoolPointer(p)) => Some(FBoolPointer(p))
    case _ => None
  }

  /** Appending the items of a []any to a []string; an item of another type panics. */
  function Appended(current: Option<seq<string>>, items: seq<Any>): Outcome<Option<seq<string>>>
    decreases |items|
  {
    if items == [] then Loaded(current)
    else if !items[0].VString? then Panic
    else Appended(Some((if current.Some? then current.value else []) + [items[0].s]), items[1..])
  }

  /** The cascade of PropertiesToSettings for one field that holds `current`. */
  function Load(ty: FieldType, current: Field, v: Any): Outcome<Field>
    requires HasType(current, ty)
  {
    if v.Nil? then Loaded(Zero(ty))
    else if Converted(ty, v).Some? then Loaded(Converted(ty, v).value)
    else if v.VBoolPointer? && v.p.Some? && Converted(ty, VBool(v.p.value)).Some? then Loaded(FBool(v.p.value))
    else if ty.TBoolPointer? && v.VBool? then Loaded(FBoolPointer(Some(v.b)))
    else if ty.TTelemetry? || ty.TSmart? then
      (if ParseEnum(ty, v).Some? then Loaded(FEnum(ParseEnum(ty, v).value)) else TypeError)
    else if ty.TStrings? then
      (if !v.VAny? then Panic
       else match Appended(current.list, v.items)
         case Loaded(list) => Loaded(FStrings(list))
         case TypeError => TypeError
         case Panic => Panic)
    else if ty.TSecret? then (if v.VString? then Loaded(FSecret(v.s)) else Panic)
    else TypeError
  }

  /** The field that comes back: the same, but for an invalid enum. */
  function Kept(ty: FieldType, f: Field): Field {
    if f.FEnum? && !EnumKept(ty, f.code) then FEnum(INVALID_ENUM) else f
  }

  /** Through JSON a list is appended to what the field holds; a nil one empties the field. */
  function KeptOnto(ty: FieldType, current: Field, f: Field): Field
    requires HasType(f, ty) && HasType(current, ty)
  {
    if f.FStrings? && f.list.Some?
        then FStrings(if f.list.value == [] then current.list else Some(Items(current.list) + f.list.value))
    else Kept(ty, f)
  }

  function Items(list: Option<seq<string>>): seq<string> {
    if list.Some? then list.value else []
  }

  lemma FieldRoundTrip(ty: FieldType, f: Field, current: Field)
    requires HasType(f, ty) && HasType(current, ty)
    ensures Load(ty, current, Expose(ty, f)) == Loaded(Kept(ty, f))
  {
    if f.FEnum? { EnumRoundTripExactly(ty, f.code); }
  }

  lemma {:induction false} AppendedStrings(current: Option<seq<string>>, list: seq<string>, items: seq<Any>)
    requires |items| == |list| && forall i :: 0 <= i < |list| ==> items[i] == VString(list[i])
    ensures Appended(current, items) ==
            Loaded(if list == [] then current else Some((if current.Some? then current.value else []) + list))
    decreases |list|
  {
    if list != [] {
      var next := (if current.Some? then current.value else []) + [list[0]];
      AppendedStrings(Some(next), list[1..], items[1..]);
      assert list == [list[0]] + list[1..];
      assert next + list[1..] == (if current.Some? then current.value else []) + list;
      assert list[1..] == [] ==> next + list[1..] == next;
    }
  }

  /** Through JSON a list is appended to what the field holds: a fresh field gets the list,
      any other its old items as well. */
  lemma ListThroughJson(current: Option<seq<string>>, list: seq<string>)
    ensures Load(TStrings, FStrings(current), ThroughJson(VStrings(Some(list)))) ==
            Loaded(FStrings(if list == [] then current else Some((if current.Some? then current.value else []) + list)))
  {
    AppendedStrings(current, list, ThroughJson(VStrings(Some(list))).items);
  }

  lemma FieldRoundTripThroughJson(ty: FieldType, f: Field, current: Field)
    requires HasType(f, ty) && HasType(current, ty)
    ensures Load(ty, current, ThroughJson(Expose(ty, f))) == Loaded(KeptOnto(ty, current, f))
  {
    if f.FEnum? { EnumRoundTripExactly(ty, f.code); }
    if f.FStrings? && f.list.Some? {
      ListThroughJson(current.list, f.list.value);
    }
  }

  // ---------- all fields ----------

  function Row(was: Option<Property>, key: string, v: Any): Property {
    if was.None? || was.value == NO_PROPERTY then Property(key, v, 0) else was.value.(value := v)
  }

  function RowAt(t: Properties, k: string): Option<Property> {
    if k in t then Some(t[k]) else None
  }

  /** The table after SettingsToProperties: one row per field, other rows as they were. */
  ghost predicate Stored(s: Settings, t: Properties, t2: Properties) {
    && t2.Keys == t.Keys + Schema().Keys
    && (forall k :: k in Schema() ==>
        k in s && HasType(s[k], Schema()[k]) && t2[k] == Row(RowAt(t, k), k, Expose(Schema()[k], s[k])))
    && (forall k :: k in t && k !in Schema() ==> t2[k] == t[k])
  }

  /** The rows of the fields not in `left` are written. */
  ghost predicate StoredSoFar(s: Settings, t: Properties, t2: Properties, left: set<string>) {
    && t2.Keys == t.Keys + (s.Keys - left)
    && forall k :: k in t2 ==>
         RowAt(t2, k) == if k in s && k !in left && k in Schema() && HasType(s[k], Schema()[k])
                         then Some(Row(RowAt(t, k), k, Expose(Schema()[k], s[k]))) else RowAt(t, k)
  }

  lemma OneMoreRow(s: Settings, t: Properties, t1: Properties, left: set<string>, k: string)
    requires StoredSoFar(s, t, t1, left) && k in left && k in s && k in Schema() && HasType(s[k], Schema()[k])
    ensures RowAt(t1, k) == RowAt(t, k)
    ensures StoredSoFar(s, t, t1[k := Row(RowAt(t, k), k, Expose(Schema()[k], s[k]))], left - {k})
  {
    hide Schema, Expose, Row, HasType;
  }

  lemma AllStored(s: Settings, t: Properties, t2: Properties)
    requires WellTyped(s) && StoredSoFar(s, t, t2, {})
    ensures Stored(s, t, t2)
  {
    hide Schema, Expose, Row, HasType;
  }

  /** A well keyed table stays one. */
  lemma StoredWellKeyed(s: Settings, t: Properties, t2: Properties)
    requires Stored(s, t, t2) && WellKeyed(t)
    ensures WellKeyed(t2)
  {
    NoEmptyField();
    hide Schema, Expose, HasType;
  }

  method SettingsToProperties(source: Settings, target: Properties) returns (t: Properties)
    requires WellTyped(source)
    ensures Stored(source, target, t)
  {
    NothingStored(source, target);
    hide Schema, Expose, Row, StoredSoFar, HasType, WellTyped, Stored;
    t := target;
    var keys := source.Keys;
    while keys != {}
      invariant keys <= source.Keys
      invariant StoredSoFar(source, target, t, keys)
      decreases |keys|
    {
      TypedAt(source, keys);
      hide Schema, Expose, Row, StoredSoFar, HasType, WellTyped, WellKeyed, Stored;
      var key :| key in keys;
      OneMoreRow(source, target, t, keys, key);
      var valToSet := Expose(Schema()[key], source[key]);
      t := PutRow(t, key, valToSet);
      keys := keys - {key};
    }
    AllStored(source, target, t);
  }

  lemma NothingStored(s: Settings, t: Properties)
    ensures StoredSoFar(s, t, t, s.Keys)
  {
    hide Schema, Expose, HasType;
  }

  lemma TypedAt(s: Settings, keys: set<string>)
    requires WellTyped(s) && keys <= s.Keys
    ensures forall k :: k in keys ==> k in s && k in Schema() && HasType(s[k], Schema()[k])
  {
    hide Schema, HasType;
  }

  /** Updates the row of a key, or makes one where there is none. */
  method PutRow(t: Properties, key: string, v: Any) returns (t2: Properties)
    ensures t2 == t[key := Row(RowAt(t, key), key, v)]
  {
    var prop := if key in t then t[key] else NO_PROPERTY;
    if prop == NO_PROPERTY {
      prop := Property(key, v, 0);
    } else {
      prop := prop.(value := v);
    }
    t2 := t[key := prop];
  }

  lemma NoEmptyField()
    ensures "" !in Schema()
  {}

  /** What the row of a field does to it. */
  function FieldAfter(t: Properties, s: Settings, k: string): Outcome<Field>
    requires k in Schema() && k in s && HasType(s[k], Schema()[k])
  {
    if k in t then Load(Schema()[k], s[k], t[k].value) else Loaded(s[k])
  }

  /** The rows are taken in any order; for a well keyed table the order does not matter:
      either every field loads and the result is determined, or some field does not load. */
  method PropertiesToSettings(source: Properties, target: Settings) returns (r: Outcome<Settings>)
    requires WellTyped(target) && WellKeyed(source)
    ensures r.Loaded? <==> forall k :: k in Schema() ==> FieldAfter(source, target, k).Loaded?
    ensures r.Loaded? ==> WellTyped(r.value) && forall k :: k in Schema() ==>
        FieldAfter(source, target, k) == Loaded(r.value[k])
  {
    hide Schema, Load, HasType;
    var s := target;
    var keys := source.Keys;
    while keys != {}
      invariant keys <= source.Keys
      invariant LoadedSoFar(source, target, s, keys)
      decreases |keys|
    {
      hide Schema, Load, HasType, WellTyped, FieldAfter, LoadedSoFar;
      var key :| key in keys;
      var prop := source[key];
      assert prop.key == key;
      if prop.key in Schema() {
        OneMoreField(source, target, s, keys, key);
        var outcome := Load(Schema()[prop.key], s[prop.key], prop.value);
        match outcome {
          case Loaded(f) => s := s[prop.key := f];
          case TypeError => return TypeError;
          case Panic => return Panic;
        }
      } else {
        NoField(source, target, s, keys, key);
      }
      keys := keys - {key};
    }
    r := Loaded(s);
  }

  /** The rows not in `left` have been read. */
  ghost predicate LoadedSoFar(t: Properties, before: Settings, s: Settings, left: set<string>) {
    && WellTyped(before) && WellTyped(s)
    && (forall k :: k in Schema() && (k !in t || k in left) ==> s[k] == before[k])
    && (forall k :: k in Schema() && k in t && k !in left ==> FieldAfter(t, before, k) == Loaded(s[k]))
  }

  lemma OneMoreField(t: Properties, before: Settings, s: Settings, left: set<string>, k: string)
    requires LoadedSoFar(t, before, s, left) && k in left && k in t && k in Schema()
    ensures k in s && k in before && HasType(s[k], Schema()[k]) && HasType(before[k], Schema()[k])
    ensures Load(Schema()[k], s[k], t[k].value) == FieldAfter(t, before, k)
    ensures var o := Load(Schema()[k], s[k], t[k].value); o.Loaded? ==>
        LoadedSoFar(t, before, s[k := o.value], left - {k})
  {
    LoadKeepsType(Schema()[k], s[k], t[k].value);
    hide Schema, Load, HasType;
  }

  lemma NoField(t: Properties, before: Settings, s: Settings, left: set<string>, k: string)
    requires LoadedSoFar(t, before, s, left) && k !in Schema()
    ensures LoadedSoFar(t, before, s, left - {k})
  {
    hide Schema, Load, HasType, FieldAfter;
  }

  /** Go's zero value of a type. */
  predicate IsZero(ty: FieldType, f: Field) {
    match ty
    case TString => f == FString("")
    case TBool => f == FBool(false)
    case TStrings => f == FStrings(None)
    case TBoolPointer => f == FBoolPointer(None)
    case TSecret => f == FSecret("")
    case _ => f == FEnum(0)
  }

  predicate AllStrings(items: seq<Any>) {
    forall i :: 0 <= i < |items| ==> items[i].VString?
  }

  /** The values a field takes, by the types of both, without regard to the order of the cascade. */
  predicate Takes(ty: FieldType, v: Any) {
    || v.Nil?
    || (ty.TString? && v.VString?)
    || (ty.TBool? && (v.VBool? || (v.VBoolPointer? && v.p.Some?)))
    || (ty.TBoolPointer? && (v.VBool? || v.VBoolPointer?))
    || (ty.TStrings? && (v.VStrings? || (v.VAny? && AllStrings(v.items))))
    || ((ty.TTelemetry? || ty.TSmart?) && (v.VString? || v.VNumber? || v.VFraction?))
    || (ty.TSecret? && v.VString?)
  }

  lemma {:induction false} AppendedExactly(current: Option<seq<string>>, items: seq<Any>)
    ensures Appended(current, items).Loaded? <==> AllStrings(items)
    ensures !Appended(current, items).Loaded? ==> Appended(current, items).Panic?
    decreases |items|
  {
    if items != [] {
      assert AllStrings(items) <==> items[0].VString? && AllStrings(items[1..]) by {
        assert items == [items[0]] + items[1..];
      }
      if items[0].VString? { AppendedExactly(Some(Items(current) + [items[0].s]), items[1..]); }
    }
  }

  /** A field loads exactly the values it takes, as they are; for any other a list or secret panics
      and the rest report a type error. */
  lemma LoadExactly(ty: FieldType, current: Field, v: Any)
    requires HasType(current, ty)
    ensures Load(ty, current, v).Loaded? <==> Takes(ty, v)
    ensures !Takes(ty, v) ==> Load(ty, current, v) == if ty.TStrings? || ty.TSecret? then Panic else TypeError
    ensures v.VString? && ty.TString? ==> Load(ty, current, v) == Loaded(FString(v.s))
    ensures v.VString? && ty.TSecret? ==> Load(ty, current, v) == Loaded(FSecret(v.s))
    ensures v.VBool? && ty.TBool? ==> Load(ty, current, v) == Loaded(FBool(v.b))
    ensures v.VBool? && ty.TBoolPointer? ==> Load(ty, current, v) == Loaded(FBoolPointer(Some(v.b)))
    ensures v.VBoolPointer? && v.p.Some? && ty.TBool? ==> Load(ty, current, v) == Loaded(FBool(v.p.value))
    ensures v.VBoolPointer? && ty.TBoolPointer? ==> Load(ty, current, v) == Loaded(FBoolPointer(v.p))
    ensures v.VStrings? && ty.TStrings? ==> Load(ty, current, v) == Loaded(FStrings(v.list))
    ensures v.Nil? ==> Load(ty, current, v).Loaded? && IsZero(ty, Load(ty, current, v).value)
  {
    hide Appended, AllStrings, EnumNames;
    if ty.TStrings? && v.VAny? { AppendedExactly(current.list, v.items); }
  }

  /** What a row holds for a field, and what comes back from its JSON column. */
  lemma ExposedExactly(s: string, b: bool, list: seq<string>)
    ensures Expose(TString, FString(s)) == VString(s) && Expose(TSecret, FSecret(s)) == VString(s)
    ensures Expose(TBool, FBool(b)) == VBool(b) && Expose(TBoolPointer, FBoolPointer(Some(b))) == VBoolPointer(Some(b))
    ensures Expose(TStrings, FStrings(Some(list))) == VStrings(Some(list))
    ensures Expose(TTelemetry, FEnum(0)) == VString("Ask") && Expose(TSmart, FEnum(2)) == VString("direct")
    ensures ThroughJson(VBoolPointer(Some(b))) == VBool(b) &&
        ThroughJson(VBoolPointer(None)) == ThroughJson(VStrings(None)) == Nil
    ensures var v := ThroughJson(VStrings(Some(list)));
      v.VAny? && |v.items| == |list| && forall i :: 0 <= i < |list| ==> v.items[i] == VString(list[i])
  {}

  /** Writing settings keeps the time stamps of all rows, and new rows have none. */
  lemma StoredKeepsStamps(s: Settings, t: Properties, t2: Properties, k: string)
    requires Stored(s, t, t2)
    ensures k in t ==> k in t2 && t2[k].stamp == t[k].stamp
    ensures k in t2 && k !in t ==> t2[k].stamp == 0 && t2[k].key == k
    ensures k in t && t[k] != NO_PROPERTY ==> t2[k].key == t[k].key
  {
    hide Schema, Expose, HasType;
  }

  lemma LoadKeepsType(ty: FieldType, current: Field, v: Any)
    requires HasType(current, ty)
    ensures Load(ty, current, v).Loaded? ==> HasType(Load(ty, current, v).value, ty)
  {}

  // ---------- the round trips ----------

  ghost predicate Reads(t: Properties, s: Settings, r: Settings) {
    WellTyped(r) && forall k :: k in Schema() ==>
        k in s && HasType(s[k], Schema()[k]) && FieldAfter(t, s, k) == Loaded(r[k])
  }

  ghost predicate EnumsKept(s: Settings) {
    forall k :: k in s && k in Schema() && s[k].FEnum? ==> EnumKept(Schema()[k], s[k].code)
  }

  lemma RowValue(t: Properties, s: Settings, t2: Properties, k: string)
    requires Stored(s, t, t2) && k in Schema()
    ensures t2[k].value == Expose(Schema()[k], s[k])
  {}

  lemma StoredField(s: Settings, t: Properties, t2: Properties, before: Settings, k: string)
    requires Stored(s, t, t2) && k in Schema() && k in before && HasType(before[k], Schema()[k])
    ensures k in s && HasType(s[k], Schema()[k])
    ensures FieldAfter(t2, before, k) == Loaded(Kept(Schema()[k], s[k]))
    ensures HasType(Kept(Schema()[k], s[k]), Schema()[k])
  {
    hide Schema, Load, Expose, EnumKept;
    RowValue(t, s, t2, k);
    FieldRoundTrip(Schema()[k], s[k], before[k]);
  }

  /** Writing settings to any well keyed table and reading them into settings of any content
      always succeeds, and gives the same settings exactly when their enums are valid or -1. */
  lemma RoundTripExactly(s: Settings, t: Properties, t2: Properties, before: Settings)
    requires WellTyped(s) && WellTyped(before) && Stored(s, t, t2)
    ensures exists r :: Reads(t2, before, r)
    ensures forall r :: Reads(t2, before, r) ==> (r == s <==> EnumsKept(s))
  {
    hide Schema, EnumKept, Load, Expose, FieldAfter, Stored;
    var expected := map k | k in s :: Kept(Schema()[k], s[k]);
    forall k | k in Schema()
      ensures FieldAfter(t2, before, k) == Loaded(expected[k]) && HasType(expected[k], Schema()[k])
    {
      StoredField(s, t, t2, before, k);
    }
    assert Reads(t2, before, expected);
    forall r | Reads(t2, before, r)
      ensures r == s <==> EnumsKept(s)
    {
      forall k | k in Schema()
        ensures r[k] == Kept(Schema()[k], s[k])
      {
        assert FieldAfter(t2, before, k) == Loaded(expected[k]);
      }
      if EnumsKept(s) {
        assert forall k :: k in s ==> r[k] == s[k];
      } else {
        var k :| k in s && k in Schema() && s[k].FEnum? && !EnumKept(Schema()[k], s[k].code);
        InvalidNotKept(Schema()[k], s[k].code);
        assert r[k] != s[k];
      }
    }
  }

  lemma InvalidNotKept(ty: FieldType, code: int)
    ensures !EnumKept(ty, code) ==> code != INVALID_ENUM
  {}

  /** The table as it comes back from the database. */
  function Restored(t: Properties): Properties {
    map k | k in t :: t[k].(value := ThroughJson(t[k].value))
  }

  lemma FreshWellTyped()
    ensures WellTyped(FreshSettings())
  {
    hide Schema;
  }

  lemma RestoredField(s: Settings, t: Properties, t2: Properties, before: Settings, k: string)
    requires Stored(s, t, t2) && k in Schema() && k in before && HasType(before[k], Schema()[k])
    ensures k in s && HasType(s[k], Schema()[k])
    ensures FieldAfter(Restored(t2), before, k) == Loaded(KeptOnto(Schema()[k], before[k], s[k]))
    ensures HasType(KeptOnto(Schema()[k], before[k], s[k]), Schema()[k])
  {
    hide Schema, Load, ThroughJson, Expose, EnumKept;
    RowValue(t, s, t2, k);
    FieldRoundTripThroughJson(Schema()[k], s[k], before[k]);
  }

  /** Every list that is not nil goes into an empty field. */
  ghost predicate ListsFit(s: Settings, before: Settings) {
    forall k :: k in s && k in before && s[k].FStrings? && before[k].FStrings? ==>
        s[k].list.None? || Items(before[k].list) == []
  }

  /** The same after the table went through the database, nil and empty lists taken as equal:
      here the settings read into must not hold items already, except where a nil list was stored. */
  lemma RoundTripThroughJson(s: Settings, t: Properties, t2: Properties, before: Settings)
    requires WellTyped(s) && WellTyped(before) && Stored(s, t, t2)
    ensures exists r :: Reads(Restored(t2), before, r)
    ensures forall r :: Reads(Restored(t2), before, r) ==> (SameButEmpty(r, s) <==> EnumsKept(s) && ListsFit(s, before))
  {
    hide Schema, EnumKept, Load, ThroughJson, Expose, FieldAfter, Restored, Stored, KeptOnto, EnumsKept, ListsFit;
    var expected := map k | k in s && k in before && k in Schema() && HasType(s[k], Schema()[k]) &&
        HasType(before[k], Schema()[k])
      :: KeptOnto(Schema()[k], before[k], s[k]);
    forall k | k in Schema()
      ensures k in expected && FieldAfter(Restored(t2), before, k) == Loaded(expected[k]) &&
          HasType(expected[k], Schema()[k])
    {
      RestoredField(s, t, t2, before, k);
    }
    assert Reads(Restored(t2), before, expected);
    forall r | Reads(Restored(t2), before, r)
      ensures SameButEmpty(r, s) <==> EnumsKept(s) && ListsFit(s, before)
    {
      forall k | k in Schema()
        ensures r[k] == expected[k]
      {
        assert FieldAfter(Restored(t2), before, k) == Loaded(expected[k]);
      }
      SameExactly(s, before, r);
    }
  }

  lemma SameExactly(s: Settings, before: Settings, r: Settings)
    requires WellTyped(s) && WellTyped(before) && WellTyped(r)
    requires forall k :: k in Schema() ==> r[k] == KeptOnto(Schema()[k], before[k], s[k])
    ensures SameButEmpty(r, s) <==> EnumsKept(s) && ListsFit(s, before)
  {
    hide Schema, EnumKept, KeptOnto, SameField;
    forall k | k in Schema()
      ensures SameField(r[k], s[k]) <==>
        && (s[k].FEnum? ==> EnumKept(Schema()[k], s[k].code))
        && (s[k].FStrings? && before[k].FStrings? ==> s[k].list.None? || Items(before[k].list) == [])
    {
      SameFieldExactly(Schema()[k], before[k], s[k]);
    }
  }

  lemma SameFieldExactly(ty: FieldType, current: Field, f: Field)
    requires HasType(f, ty) && HasType(current, ty)
    ensures SameField(KeptOnto(ty, current, f), f) <==>
      && (f.FEnum? ==> EnumKept(ty, f.code))
      && (f.FStrings? && current.FStrings? ==> f.list.None? || Items(current.list) == [])
  {
    hide EnumNames;
    if f.FEnum? { InvalidNotKept(ty, f.code); }
    if f.FStrings? && f.list.Some? && f.list.value != [] && current.list.Some? && current.list.value != [] {
      assert |current.list.value + f.list.value| > |f.list.value|;
    }
    if f.FStrings? && f.list.Some? && Items(current.list) == [] {
      assert Items(current.list) + f.list.value == f.list.value;
    }
  }

  /** Into fresh settings the stored ones come back exactly when their enums are valid or -1. */
  lemma FreshRoundTripThroughJson(s: Settings, t: Properties, t2: Properties)
    requires WellTyped(s) && Stored(s, t, t2)
    ensures exists r :: Reads(Restored(t2), FreshSettings(), r)
    ensures forall r :: Reads(Restored(t2), FreshSettings(), r) ==> (SameButEmpty(r, s) <==> EnumsKept(s))
  {
    hide Schema, EnumKept, Restored, Stored, Reads, SameButEmpty, EnumsKept;
    FreshWellTyped();
    FreshFits(s);
    RoundTripThroughJson(s, t, t2, FreshSettings());
  }

  lemma FreshFits(s: Settings)
    ensures ListsFit(s, FreshSettings())
  {
    hide Schema;
  }

  predicate SameField(a: Field, b: Field) {
    a == b || (a.FStrings? && b.FStrings? && Items(a.list) == Items(b.list) == [])
  }

  ghost predicate SameButEmpty(a: Settings, b: Settings) {
    a.Keys == b.Keys && forall k :: k in a ==> SameField(a[k], b[k])
  }
}
