/**
 The event printer against a reference that reads the heap by itself: what a value is made
 of, how its text is put together from the texts of its parts, and how deep it goes.
 */
module EventPrinterReference {
  import opened Text
  import opened Wrappers
  import opened EventPrinter
  import opened EventPrinterLaws

  // ---------- the parts of a value ----------

  function Exported(fields: seq<Field>): seq<Field> {
    if fields == [] then []
    else (if fields[0].exported then [fields[0]] else []) + Exported(fields[1..])
  }

  function ValuesOf(fields: seq<Field>): seq<Value> {
    seq(|fields|, i requires 0 <= i < |fields| => fields[i].value)
  }

  /** Key and value of each entry, for the keys in the order given. */
  function InOrder(m: map<string, (Value, Value)>, keys: seq<string>): seq<Value>
    requires forall k :: k in keys ==> k in m
  {
    if keys == [] then [] else [m[keys[0]].0, m[keys[0]].1] + InOrder(m, keys[1..])
  }

  /** Whether the driver.Valuer hook answers for a value; it is not asked for nil. */
  predicate Answered(w: World, v: Value) {
    !v.Invalid? && !v.NilInterface? && v != Plain(NilPointer) && w.hook(v).Some?
  }

  /** The values the text of `v` is made of: the hook's answer, or else what is stored. */
  ghost function Parts(w: World, v: Value): seq<Value> {
    if Answered(w, v) then [w.hook(v).value]
    else if v.Invalid? || v.NilInterface? then []
    else Stored(w, v.inner)
  }

  ghost function Stored(w: World, c: Concrete): seq<Value> {
    match c
    case Pointer(a) => if a in w.heap && w.heap[a].Box? then [w.heap[a].v] else [Invalid]
    case Struct(_, fields) => ValuesOf(Exported(fields))
    case Array(_, elems) => elems
    case Slice(_, a) => if a in w.heap && w.heap[a].Elements? then w.heap[a].vs else []
    case Map(_, a) =>
      if a in w.heap && w.heap[a].Entries? then InOrder(w.heap[a].m, SortedKeys(w.heap[a].m.Keys)) else []
    case _ => []
  }

  function ValuesIn(kids: seq<(string, Value)>): seq<Value> {
    seq(|kids|, i requires 0 <= i < |kids| => kids[i].1)
  }

  lemma {:induction false} FieldParts(fields: seq<Field>, first: bool)
    ensures ValuesIn(FieldKids(fields, first)) == ValuesOf(Exported(fields))
  {
    hide ValuesIn, ValuesOf;
    if fields == [] {
      NoParts();
    } else {
      FieldParts(fields[1..], if fields[0].exported then false else first);
      if fields[0].exported {
        ConsParts(FieldKids(fields, first));
        ConsValues(fields[0], Exported(fields[1..]));
        assert FieldKids(fields, first)[1..] == FieldKids(fields[1..], false);
      } else {
        assert Exported(fields) == Exported(fields[1..]);
      }
    }
  }

  lemma NoParts()
    ensures ValuesIn([]) == [] && ValuesOf([]) == []
  {}

  lemma ConsValues(f: Field, fields: seq<Field>)
    ensures ValuesOf([f] + fields) == [f.value] + ValuesOf(fields)
  {}

  lemma ConsParts(kids: seq<(string, Value)>)
    requires kids != []
    ensures ValuesIn(kids) == [kids[0].1] + ValuesIn(kids[1..])
  {}

  lemma {:induction false} EntryParts(m: map<string, (Value, Value)>, keys: seq<string>, first: bool)
    requires forall k :: k in keys ==> k in m
    ensures ValuesIn(EntryKids(m, keys, first)) == InOrder(m, keys)
  {
    if keys != [] { EntryParts(m, keys[1..], false); }
  }

  lemma ElementParts(elems: seq<Value>)
    ensures ValuesIn(ElementKids(elems)) == elems
  {}

  /** The printer enters exactly the parts of a value: nothing stored is passed over. */
  lemma ChildrenAreParts(w: World, v: Value)
    ensures Children(w, v) == Parts(w, v)
  {
    hide LookInside, Stored;
    if !Answered(w, v) && !v.Invalid? && !v.NilInterface? {
      StoredExactly(w, v.inner);
      assert Look(w, v) == LookInside(w, v.inner);
      if Look(w, v).Node? { assert Children(w, v) == ValuesIn(Look(w, v).kids); }
    }
  }

  lemma StoredExactly(w: World, c: Concrete)
    ensures match LookInside(w, c)
      case Leaf(_) => Stored(w, c) == []
      case Ref(_, child) => Stored(w, c) == [child]
      case Node(_, kids) => Stored(w, c) == ValuesIn(kids)
      case Redirect(_) => false
  {
    hide SortedKeys, FieldKids, ElementKids, EntryKids, Exported, InOrder, Quote, ValuesIn;
    match c {
      case Struct(_, fields) => FieldParts(fields, true);
      case Array(_, elems) => ElementParts(elems);
      case Slice(_, a) => ElementParts(ElementsAt(w, a));
      case Map(_, a) =>
        EntryParts(EntriesAt(w, a), SortedKeys(EntriesAt(w, a).Keys), true);
        NoEntries(w, {}, 0);
        if !(a in w.heap && w.heap[a].Entries?) { assert EntriesAt(w, a).Keys == {}; }
      case _ =>
    }
  }

  // ---------- how a text is put together ----------

  /** Texts joined by a comma and a space. */
  function Joined(texts: seq<seq<Piece>>): seq<Piece> {
    if texts == [] then []
    else if |texts| == 1 then texts[0]
    else texts[0] + Lit(", ") + Joined(texts[1..])
  }

  ghost function FieldTexts(w: World, fields: seq<Field>, seen: set<Addr>, left: nat): seq<seq<Piece>> {
    if fields == [] then []
    else
      var text := Lit(fields[0].name) + Lit(": ") + Print(w, fields[0].value, seen, left);
      [text] + FieldTexts(w, fields[1..], seen, left)
  }

  ghost function ElementTexts(w: World, elems: seq<Value>, seen: set<Addr>, left: nat): seq<seq<Piece>> {
    if elems == [] then [] else [Print(w, elems[0], seen, left)] + ElementTexts(w, elems[1..], seen, left)
  }

  ghost function EntryTexts(w: World, m: map<string, (Value, Value)>, keys: seq<string>, seen: set<Addr>,
      left: nat): seq<seq<Piece>>
    requires forall k :: k in keys ==> k in m
  {
    if keys == [] then []
    else
      var key, value := Print(w, m[keys[0]].0, seen, left), Print(w, m[keys[0]].1, seen, left);
      [key + Lit(": ") + value] + EntryTexts(w, m, keys[1..], seen, left)
  }

  /** Joined texts, preceded by a comma unless they are the first or there are none. */
  function Continued(first: bool, texts: seq<seq<Piece>>): seq<Piece> {
    if first || texts == [] then Joined(texts) else Lit(", ") + Joined(texts)
  }

  lemma ContinuedCons(first: bool, text: seq<Piece>, rest: seq<seq<Piece>>)
    ensures Continued(first, [text] + rest) == Lit(Separator(first)) + text + Continued(false, rest)
  {
    assert ([text] + rest)[1..] == rest;
    if rest != [] { Associative(Lit(Separator(first)), text, Lit(", ") + Joined(rest)); }
  }

  lemma {:induction false} FieldsJoined(w: World, fields: seq<Field>, first: bool, seen: set<Addr>, left: nat)
    ensures PrintAll(w, FieldKids(fields, first), seen, left) ==
        Continued(first, FieldTexts(w, Exported(fields), seen, left))
    decreases |fields|
  {
    hide Print, Joined, Lit;
    if fields == [] {
      NothingJoined(first);
    } else if !fields[0].exported {
      FieldsJoined(w, fields[1..], first, seen, left);
      assert [] + Exported(fields[1..]) == Exported(fields[1..]);
    } else {
      var f, rest := fields[0], FieldKids(fields[1..], false);
      var text := Lit(f.name) + Lit(": ") + Print(w, f.value, seen, left);
      FieldsJoined(w, fields[1..], false, seen, left);
      assert Exported(fields)[1..] == Exported(fields[1..]);
      ContinuedCons(first, text, FieldTexts(w, Exported(fields[1..]), seen, left));
      assert FieldKids(fields, first)[1..] == rest;
      Labelled(first, f.name, Print(w, f.value, seen, left));
    }
  }

  lemma Labelled(first: bool, name: string, text: seq<Piece>)
    ensures Lit(Separator(first) + name + ": ") + text == Lit(Separator(first)) + (Lit(name) + Lit(": ") + text)
  {
    LitAppend([], Separator(first) + name, ": ");
    LitAppend([], Separator(first), name);
    assert Lit(Separator(first) + name + ": ") == Lit(Separator(first)) + Lit(name) + Lit(": ");
  }

  lemma NothingJoined(first: bool)
    ensures Continued(first, []) == []
  {}

  lemma {:induction false} ElementsJoined(w: World, kids: seq<(string, Value)>, first: bool, seen: set<Addr>, left: nat)
    requires forall i :: 0 <= i < |kids| ==> kids[i].0 == Separator(first && i == 0)
    ensures PrintAll(w, kids, seen, left) == Continued(first, ElementTexts(w, ValuesIn(kids), seen, left))
    decreases |kids|
  {
    hide Print, Joined, Lit;
    if kids == [] {
      NothingJoined(first);
    } else {
      ElementsJoined(w, kids[1..], false, seen, left);
      assert ValuesIn(kids)[1..] == ValuesIn(kids[1..]);
      ContinuedCons(first, Print(w, kids[0].1, seen, left), ElementTexts(w, ValuesIn(kids[1..]), seen, left));
    }
  }

  lemma {:induction false} EntriesJoined(w: World, m: map<string, (Value, Value)>, keys: seq<string>, first: bool,
      seen: set<Addr>, left: nat)
    requires forall k :: k in keys ==> k in m
    ensures PrintAll(w, EntryKids(m, keys, first), seen, left) == Continued(first, EntryTexts(w, m, keys, seen, left))
    decreases |keys|
  {
    hide Print, Joined, Lit;
    if keys == [] {
      NothingJoined(first);
    } else {
      var key, value := Print(w, m[keys[0]].0, seen, left), Print(w, m[keys[0]].1, seen, left);
      var kids, rest := EntryKids(m, keys, first), EntryKids(m, keys[1..], false);
      EntriesJoined(w, m, keys[1..], false, seen, left);
      ContinuedCons(first, key + Lit(": ") + value, EntryTexts(w, m, keys[1..], seen, left));
      assert kids[1..][1..] == rest && kids[1..][0] == (": ", m[keys[0]].1);
      assert PrintAll(w, kids[1..], seen, left) == Lit(": ") + value + PrintAll(w, rest, seen, left);
      hide PrintAll, EntryKids, Continued;
      Regrouped(Lit(Separator(first)), key, Lit(": "), value, PrintAll(w, rest, seen, left));
    }
  }

  lemma Regrouped<T>(a: seq<T>, b: seq<T>, c: seq<T>, d: seq<T>, e: seq<T>)
    ensures a + b + (c + d + e) == a + (b + c + d) + e
  {}

  ghost function Braced(ty: string, texts: seq<seq<Piece>>): seq<Piece> {
    Lit(ty + "{") + Joined(texts) + Lit("}")
  }

  /** The text of a value as far as it may be entered, from what the heap holds for it. */
  ghost predicate PrintsAs(w: World, v: Value, seen: set<Addr>, left: nat, text: seq<Piece>) {
    if v.Invalid? then text == Lit("nil")
    else if left == 0 then text == [DepthMark]
    else if Answered(w, v) then text == Print(w, w.hook(v).value, seen, left - 1)
    else if v.NilInterface? then text == Lit("nil")
    else match v.inner
      case NilPointer => text == Lit("nil")
      case Pointer(a) =>
        text == if a in seen then [CycleMark] else Print(w, Parts(w, v)[0], seen + {a}, left - 1)
      case Struct(ty, fields) => text == Braced(ty, FieldTexts(w, Exported(fields), seen, left - 1))
      case Array(ty, elems) => text == Braced(ty, ElementTexts(w, elems, seen, left - 1))
      case Slice(ty, a) => text == Braced(ty, ElementTexts(w, Parts(w, v), seen, left - 1))
      case Map(ty, a) =>
        if a in w.heap && w.heap[a].Entries?
        then text == Braced(ty, EntryTexts(w, w.heap[a].m, SortedKeys(w.heap[a].m.Keys), seen, left - 1))
        else text == Braced(ty, [])
      case Str(s) => text == Lit(Quote(w, s))
      case Scalar(t) => text == Lit(t)
      case Opaque(ty) => text == Lit("<" + ty + ">")
  }

  lemma PrintExactly(w: World, v: Value, seen: set<Addr>, left: nat)
    ensures PrintsAs(w, v, seen, left, Print(w, v, seen, left))
  {
    hide SortedKeys, FieldKids, EntryKids, ElementKids, Exported, Quote, Joined, PrintAll, InOrder, Lit, FieldTexts,
        ElementTexts, EntryTexts;
    if left > 0 && !Answered(w, v) && !v.Invalid? && !v.NilInterface? {
      match v.inner {
        case Struct(_, fields) => FieldsJoined(w, fields, true, seen, left - 1);
        case Array(_, elems) => ListJoined(w, elems, seen, left - 1);
        case Slice(_, a) => ListJoined(w, ElementsAt(w, a), seen, left - 1);
        case Map(_, a) =>
          EntriesJoined(w, EntriesAt(w, a), SortedKeys(EntriesAt(w, a).Keys), true, seen, left - 1);
          NoEntries(w, seen, left - 1);
          if !(a in w.heap && w.heap[a].Entries?) { assert EntriesAt(w, a).Keys == {}; }
        case _ =>
      }
    }
  }

  lemma ListJoined(w: World, elems: seq<Value>, seen: set<Addr>, left: nat)
    ensures PrintAll(w, ElementKids(elems), seen, left) == Joined(ElementTexts(w, elems, seen, left))
  {
    ElementsJoined(w, ElementKids(elems), true, seen, left);
    ElementParts(elems);
  }

  lemma NoEntries(w: World, seen: set<Addr>, left: nat)
    ensures SortedKeys({}) == [] && InOrder(map[], SortedKeys({})) == []
    ensures EntryTexts(w, map[], [], seen, left) == []
  {}

  // ---------- how deep it goes ----------

  /** A scalar in `k` arrays. */
  function Nested(k: nat): Value {
    if k == 0 then Plain(Scalar("1")) else Plain(Array("[1]any", [Nested(k - 1)]))
  }

  lemma {:induction false} NestedFits(w: World, k: nat, n: nat)
    requires forall v :: w.hook(v).None?
    ensures Fits(w, Nested(k), n) <==> k < n
    decreases k
  {
    hide Children;
    ChildrenAreParts(w, Nested(k));
    if k > 0 && n > 0 {
      NestedFits(w, k - 1, n - 1);
      assert Parts(w, Nested(k)) == [Nested(k - 1)];
      assert Nested(k - 1) in Children(w, Nested(k));
    }
  }

  /** Five levels are entered below the value itself, and not a sixth. */
  lemma DepthExactly(w: World, k: nat)
    requires forall v :: w.hook(v).None?
    ensures Unmarked(Format(w, Nested(k))) <==> k <= 5
  {
    NestedFits(w, k, MAX_DEPTH + 1);
    UnmarkedExactly(w, Nested(k));
  }

  // ---------- quoting ----------

  function Pow16(n: nat): nat {
    if n == 0 then 1 else 16 * Pow16(n - 1)
  }

  function HexDigitValue(c: char): nat {
    if '0' <= c <= '9' then c as int - '0' as int else if 'a' <= c <= 'f' then c as int - 'a' as int + 10 else 0
  }

  function HexValue(s: string): nat {
    if s == "" then 0 else 16 * HexValue(s[..|s| - 1]) + HexDigitValue(s[|s| - 1])
  }

  lemma {:induction false} HexExactly(n: nat, width: nat)
    requires n < Pow16(width)
    ensures |Hex(n, width)| == width && HexValue(Hex(n, width)) == n
  {
    hide HexDigitValue;
    if width > 0 {
      assert n / 16 < Pow16(width - 1);
      HexExactly(n / 16, width - 1);
      HexSnoc(Hex(n / 16, width - 1), n % 16);
    }
  }

  lemma HexSnoc(s: string, d: nat)
    requires d < 16
    ensures HexValue(s + ["0123456789abcdef"[d]]) == 16 * HexValue(s) + d
  {
    assert (s + ["0123456789abcdef"[d]])[..|s|] == s;
  }

  function CharOf(n: nat): char {
    if n < 0xd800 || 0xe000 <= n < 0x11_0000 then n as char else '?'
  }

  /** The character a Go string literal goes on with, and how much of the text stands for it. */
  function ReadChar(t: string): (char, nat)
    requires t != ""
  {
    if t[0] != '\\' || |t| < 2 then (t[0], 1)
    else match t[1]
      case 'a' => ('\U{7}', 2)
      case 'b' => ('\U{8}', 2)
      case 't' => ('\t', 2)
      case 'n' => ('\n', 2)
      case 'v' => ('\U{b}', 2)
      case 'f' => ('\U{c}', 2)
      case 'r' => ('\r', 2)
      case 'x' => if |t| < 4 then ('?', 2) else (CharOf(HexValue(t[2..4])), 4)
      case 'u' => if |t| < 6 then ('?', 2) else (CharOf(HexValue(t[2..6])), 6)
      case 'U' => if |t| < 10 then ('?', 2) else (CharOf(HexValue(t[2..10])), 10)
      case c => (c, 2)
  }

  function ReadBody(t: string): string {
    if t == "" then ""
    else
      var (c, n) := ReadChar(t);
      [c] + (if n <= |t| then ReadBody(t[n..]) else "")
  }

  lemma Powers()
    ensures Pow16(2) == 0x100 && Pow16(4) == 0x1_0000 && Pow16(8) == 0x1_0000_0000
  {
    assert Pow16(2) == 16 * Pow16(1);
    assert Pow16(4) == 16 * Pow16(3) && Pow16(3) == 16 * Pow16(2);
    assert Pow16(6) == 16 * Pow16(5) && Pow16(5) == 16 * Pow16(4);
    assert Pow16(8) == 16 * Pow16(7) && Pow16(7) == 16 * Pow16(6);
  }

  /** A character escaped by its number. */
  lemma ReadHex(c: char, mark: char, width: nat, rest: string)
    requires (mark, width) in {('x', 2), ('u', 4), ('U', 8)} && c as int < Pow16(width)
    ensures var q := ['\\', mark] + Hex(c as int, width);
      |q| == 2 + width && ReadChar(q + rest) == (c, |q|)
  {
    HexExactly(c as int, width);
    var t := ['\\', mark] + Hex(c as int, width) + rest;
    assert t[2..2 + width] == Hex(c as int, width);
    hide Hex, HexValue;
  }

  lemma ReadQuoted(w: World, c: char, rest: string)
    ensures QuoteChar(w, c) != "" && ReadChar(QuoteChar(w, c) + rest) == (c, |QuoteChar(w, c)|)
  {
    hide Hex, HexValue, Pow16;
    Powers();
    ReadEscapes(w, c, rest);
    if NumberEscape(w, c) {
      if c < '\U{80}' {
        ReadHex(c, 'x', 2, rest);
        assert QuoteChar(w, c) == ['\\', 'x'] + Hex(c as int, 2);
      } else if c < '\U{10000}' {
        ReadHex(c, 'u', 4, rest);
        assert QuoteChar(w, c) == ['\\', 'u'] + Hex(c as int, 4);
      } else {
        ReadHex(c, 'U', 8, rest);
        assert QuoteChar(w, c) == ['\\', 'U'] + Hex(c as int, 8);
      }
    }
  }

  predicate NumberEscape(w: World, c: char) {
    && !(if c < '\U{80}' then ' ' <= c <= '~' else w.printable(c))
    && !('\U{7}' <= c <= '\U{d}')
  }

  lemma ReadEscapes(w: World, c: char, rest: string)
    ensures !NumberEscape(w, c) ==> QuoteChar(w, c) != "" && ReadChar(QuoteChar(w, c) + rest) == (c, |QuoteChar(w, c)|)
  {
    hide Hex, HexValue;
  }

  /** A quoted string is read back character by character, whatever is printable. */
  lemma {:induction false} QuoteReadBack(w: World, s: string)
    ensures Quote(w, s) == "\"" + QuoteBody(w, s) + "\"" && ReadBody(QuoteBody(w, s)) == s
  {
    if s != "" {
      ReadQuoted(w, s[0], QuoteBody(w, s[1..]));
      QuoteReadBack(w, s[1..]);
      var q := QuoteChar(w, s[0]);
      assert QuoteBody(w, s)[|q|..] == QuoteBody(w, s[1..]);
      assert s == [s[0]] + s[1..];
    }
  }

  /** No quote ends the text early, and what is printable stays readable. */
  lemma {:induction false} PlainTextStays(w: World, s: string)
    requires forall c :: c in s ==> ' ' <= c <= '~' && c != '"' && c != '\\'
    ensures QuoteBody(w, s) == s && Quote(w, s) == "\"" + s + "\""
  {
    if s != "" {
      assert s[0] in s && s == [s[0]] + s[1..];
      forall c | c in s[1..]
        ensures c in s
      {}
      PlainTextStays(w, s[1..]);
    }
  }
}
