/**
 The log printer of the event bus (backend/src/events/event_bus.go): it prints an
 arbitrary, possibly cyclic, graph of Go values without showing an address.

 Memory is explicit: a pointer, slice or map value holds an address and the heap says
 what is stored there, so cycles of every kind can be expressed.
 */
module EventPrinter {
  import opened Text
  import opened Wrappers

  type Addr = nat

  datatype Field = Field(name: string, exported: bool, value: Value)

  /** A reflect.Value: invalid, of interface kind, or of any other kind. */
  datatype Value =
    | Invalid
    | NilInterface
    | Interface(inner: Concrete)
    | Plain(inner: Concrete)

  /** `Scalar` carries the text strconv gives a boolean or a number; `Opaque` is a
      channel, function or unsafe pointer. */
  datatype Concrete =
    | NilPointer
    | Pointer(addr: Addr)
    | Struct(ty: string, fields: seq<Field>)
    | Array(ty: string, elems: seq<Value>)
    | Slice(ty: string, addr: Addr)
    | Map(ty: string, addr: Addr)
    | Str(s: string)
    | Scalar(text: string)
    | Opaque(ty: string)

  /** A map holds each key and its value under the text fmt.Sprint gives the key, by which the
      keys are sorted. */
  datatype Cell = Box(v: Value) | Elements(vs: seq<Value>) | Entries(m: map<string, (Value, Value)>)

  /** The heap, the driver.Valuer hook (what Value() returns for the values that implement it
      without an error), and which characters beyond ASCII count as printable. */
  datatype World = World(heap: map<Addr, Cell>, hook: Value -> Option<Value>, printable: char -> bool)

  /** One unit of output. The two marks are kept apart from ordinary characters, because a
      printed string may itself contain the text of a mark. */
  datatype Piece = Char(c: char) | CycleMark | DepthMark

  function Lit(s: string): seq<Piece> {
    seq(|s|, i requires 0 <= i < |s| => Char(s[i]))
  }

  /** strconv.Quote */
  function Quote(w: World, s: string): string {
    "\"" + QuoteBody(w, s) + "\""
  }

  function QuoteBody(w: World, s: string): string {
    if s == "" then "" else QuoteChar(w, s[0]) + QuoteBody(w, s[1..])
  }

  function QuoteChar(w: World, c: char): string {
    if c == '"' || c == '\\' then ['\\', c]
    else if (if c < '\U{80}' then ' ' <= c <= '~' else w.printable(c)) then [c]
    else if '\U{7}' <= c <= '\U{d}' then ['\\', "abtnvfr"[c as int - 7]]
    else if c < '\U{80}' then "\\x" + Hex(c as int, 2)
    else if c < '\U{10000}' then "\\u" + Hex(c as int, 4)
    else "\\U" + Hex(c as int, 8)
  }

  function Hex(n: nat, width: nat): string {
    if width == 0 then "" else Hex(n / 16, width - 1) + ["0123456789abcdef"[n % 16]]
  }

  // ---------- one step: what a value is made of ----------

  function Target(w: World, a: Addr): Value {
    if a in w.heap && w.heap[a].Box? then w.heap[a].v else Invalid
  }

  function ElementsAt(w: World, a: Addr): seq<Value> {
    if a in w.heap && w.heap[a].Elements? then w.heap[a].vs else []
  }

  function EntriesAt(w: World, a: Addr): map<string, (Value, Value)> {
    if a in w.heap && w.heap[a].Entries? then w.heap[a].m else map[]
  }

  /** The hook is asked for every value but an invalid one, a nil pointer and a nil interface. */
  function Hooked(w: World, v: Value): Option<Value> {
    if v == Plain(NilPointer) || v.NilInterface? || v.Invalid? then None else w.hook(v)
  }

  datatype Shape =
    | Leaf(text: string)
    | Redirect(child: Value)
    | Ref(addr: Addr, child: Value)
    | Node(open: string, kids: seq<(string, Value)>)

  ghost function Look(w: World, v: Value): Shape {
    if Hooked(w, v).Some? then Redirect(Hooked(w, v).value)
    else if v.Invalid? || v.NilInterface? then Leaf("nil")
    else LookInside(w, v.inner)
  }

  ghost function LookInside(w: World, c: Concrete): Shape {
    match c
      case NilPointer => Leaf("nil")
      case Pointer(a) => Ref(a, Target(w, a))
      case Struct(ty, fields) => Node(ty + "{", FieldKids(fields, true))
      case Array(ty, elems) => Node(ty + "{", ElementKids(elems))
      case Slice(ty, a) => Node(ty + "{", ElementKids(ElementsAt(w, a)))
      case Map(ty, a) => Node(ty + "{", EntryKids(EntriesAt(w, a), SortedKeys(EntriesAt(w, a).Keys), true))
      case Str(s) => Leaf(Quote(w, s))
      case Scalar(text) => Leaf(text)
      case Opaque(ty) => Leaf("<" + ty + ">")
  }

  function Separator(first: bool): string {
    if first then "" else ", "
  }

  function FieldKids(fields: seq<Field>, first: bool): seq<(string, Value)> {
    if fields == [] then []
    else if !fields[0].exported then FieldKids(fields[1..], first)
    else [(Separator(first) + fields[0].name + ": ", fields[0].value)] + FieldKids(fields[1..], false)
  }

  function ElementKids(elems: seq<Value>): seq<(string, Value)> {
    seq(|elems|, i requires 0 <= i < |elems| => (Separator(i == 0), elems[i]))
  }

  function EntryKids(m: map<string, (Value, Value)>, keys: seq<string>, first: bool): seq<(string, Value)>
    requires forall k :: k in keys ==> k in m
  {
    if keys == [] then []
    else [(Separator(first), m[keys[0]].0), (": ", m[keys[0]].1)] + EntryKids(m, keys[1..], false)
  }

  // ---------- the printer as a function ----------

  /** What is written for `v` when `left` levels may still be entered. */
  ghost function Print(w: World, v: Value, seen: set<Addr>, left: nat): seq<Piece>
    decreases left, 0
  {
    if v.Invalid? then Lit("nil")
    else if left == 0 then [DepthMark]
    else match Look(w, v)
      case Leaf(text) => Lit(text)
      case Redirect(c) => Print(w, c, seen, left - 1)
      case Ref(a, c) => if a in seen then [CycleMark] else Print(w, c, seen + {a}, left - 1)
      case Node(open, kids) => Lit(open) + PrintAll(w, kids, seen, left - 1) + Lit("}")
  }

  ghost function PrintAll(w: World, kids: seq<(string, Value)>, seen: set<Addr>, left: nat): seq<Piece>
    decreases left, 1, |kids|
  {
    if kids == [] then []
    else Lit(kids[0].0) + Print(w, kids[0].1, seen, left) + PrintAll(w, kids[1..], seen, left)
  }

  const MAX_DEPTH: nat := 5

  ghost function Format(w: World, v: Value): seq<Piece> {
    Print(w, v, {}, MAX_DEPTH + 1)
  }

  lemma {:induction false} PrintAllAppend(w: World, a: seq<(string, Value)>, b: seq<(string, Value)>, seen: set<Addr>,
      left: nat)
    ensures PrintAll(w, a + b, seen, left) == PrintAll(w, a, seen, left) + PrintAll(w, b, seen, left)
  {
    hide Print, Lit;
    if a == [] {
      assert a + b == b;
    } else {
      PrintAllAppend(w, a[1..], b, seen, left);
      assert (a + b)[1..] == a[1..] + b;
      assert (a + b)[0] == a[0];
      Associative(Lit(a[0].0) + Print(w, a[0].1, seen, left), PrintAll(w, a[1..], seen, left),
          PrintAll(w, b, seen, left));
    }
  }

  lemma PrintAllSnoc(w: World, kids: seq<(string, Value)>, kid: (string, Value), seen: set<Addr>, left: nat,
      start: seq<Piece>)
    ensures start + PrintAll(w, kids + [kid], seen, left) ==
            start + PrintAll(w, kids, seen, left) + Lit(kid.0) + Print(w, kid.1, seen, left)
  {
    hide Print;
    PrintAllAppend(w, kids, [kid], seen, left);
    Associative(start, PrintAll(w, kids, seen, left), Lit(kid.0) + Print(w, kid.1, seen, left));
    Associative(start + PrintAll(w, kids, seen, left), Lit(kid.0), Print(w, kid.1, seen, left));
  }

  lemma PrintAllNil(w: World, seen: set<Addr>, left: nat, start: seq<Piece>)
    ensures start + PrintAll(w, [], seen, left) == start
  {}

  lemma LitAppend(start: seq<Piece>, a: string, b: string)
    ensures start + Lit(a + b) == start + Lit(a) + Lit(b)
  {}

  lemma Associative<T>(a: seq<T>, b: seq<T>, c: seq<T>)
    ensures a + (b + c) == a + b + c
  {}

  lemma {:induction false} FieldKidsSnoc(fields: seq<Field>, f: Field, first: bool)
    ensures FieldKids(fields + [f], first) ==
            FieldKids(fields, first) +
            (if f.exported then [(Separator(first && FieldKids(fields, first) == []) + f.name + ": ", f.value)] else [])
  {
    if fields == [] {
      assert fields + [f] == [f];
    } else {
      FieldKidsSnoc(fields[1..], f, if fields[0].exported then false else first);
      assert (fields + [f])[1..] == fields[1..] + [f];
    }
  }

  lemma {:induction false} EntryKidsSnoc(m: map<string, (Value, Value)>, keys: seq<string>, k: string, first: bool)
    requires forall x :: x in keys + [k] ==> x in m
    ensures EntryKids(m, keys + [k], first) ==
            EntryKids(m, keys, first) + [(Separator(first && keys == []), m[k].0), (": ", m[k].1)]
  {
    if keys == [] {
      assert keys + [k] == [k];
    } else {
      assert forall x :: x in keys[1..] + [k] ==> x in keys + [k];
      EntryKidsSnoc(m, keys[1..], k, false);
      assert (keys + [k])[1..] == keys[1..] + [k];
    }
  }

  // ---------- the printer as the source writes it ----------

  class Printer {
    const w: World
    var b: seq<Piece>
    var seen: set<Addr>

    constructor (w: World)
      ensures this.w == w && b == [] && seen == {}
    {
      this.w := w;
      b, seen := [], {};
    }

    method WriteString(s: string)
      modifies this`b
      ensures b == old(b) + Lit(s)
    {
      b := b + Lit(s);
    }

    /** Terminates on every heap, writes what `Print` says and leaves `seen` as it was. */
    method WriteValue(v: Value, depth: nat, maxDepth: nat)
      requires depth <= maxDepth + 1
      modifies this
      ensures b == old(b) + Print(w, v, old(seen), maxDepth + 1 - depth)
      ensures seen == old(seen)
      decreases maxDepth + 1 - depth, 1
    {
      hide PrintAll, FieldKids, ElementKids, EntryKids, SortedKeys, Quote;
      if v.Invalid? {
        WriteString("nil");
        return;
      }
      if depth > maxDepth {
        b := b + [DepthMark];
        return;
      }
      var hooked := Hooked(w, v);
      if hooked.Some? {
        WriteValue(hooked.value, depth + 1, maxDepth);
        return;
      }
      if v.NilInterface? {
        WriteString("nil");
        return;
      }
      match v.inner {
        case NilPointer =>
          WriteString("nil");
        case Pointer(ptr) =>
          if ptr in seen {
            b := b + [CycleMark];
            return;
          }
          seen := seen + {ptr};
          WriteValue(Target(w, ptr), depth + 1, maxDepth);
          seen := seen - {ptr};
        case Struct(ty, fields) =>
          WriteStruct(ty, fields, depth, maxDepth);
        case Array(ty, elems) =>
          WriteElements(ty, elems, depth, maxDepth);
        case Slice(ty, a) =>
          WriteElements(ty, ElementsAt(w, a), depth, maxDepth);
        case Map(ty, a) =>
          WriteMap(ty, EntriesAt(w, a), depth, maxDepth);
        case Str(s) =>
          WriteString(Quote(w, s));
        case Scalar(text) =>
          WriteString(text);
        case Opaque(ty) =>
          WriteString("<" + ty + ">");
      }
    }

    method WriteStruct(ty: string, fields: seq<Field>, depth: nat, maxDepth: nat)
      requires depth <= maxDepth
      modifies this
      ensures b == old(b) + (Lit(ty + "{") + PrintAll(w, FieldKids(fields, true), old(seen), maxDepth - depth) +
          Lit("}"))
      ensures seen == old(seen)
      decreases maxDepth + 1 - depth, 0
    {
      hide Print, PrintAll;
      WriteOpening(ty);
      ghost var start := b;
      PrintAllNil(w, seen, maxDepth - depth, start);
      ghost var kids := [];
      var first := true;
      for i := 0 to |fields|
        invariant kids == FieldKids(fields[..i], true)
        invariant first <==> kids == []
        invariant b == start + PrintAll(w, kids, old(seen), maxDepth - depth)
        invariant seen == old(seen)
      {
        assert fields[..i + 1] == fields[..i] + [fields[i]];
        FieldKidsSnoc(fields[..i], fields[i], true);
        if !fields[i].exported {
          continue;
        }
        ghost var before, kid := b, (Separator(first) + fields[i].name + ": ", fields[i].value);
        if !first {
          WriteString(", ");
        }
        first := false;
        WriteString(fields[i].name);
        WriteString(": ");
        LitAppend(before, Separator(kids == []), fields[i].name);
        LitAppend(before, Separator(kids == []) + fields[i].name, ": ");
        assert b == before + Lit(kid.0);
        WriteValue(fields[i].value, depth + 1, maxDepth);
        PrintAllSnoc(w, kids, kid, seen, maxDepth - depth, start);
        kids := kids + [kid];
      }
      assert fields[..|fields|] == fields;
      WriteClosing(old(b), Lit(ty + "{"), PrintAll(w, kids, seen, maxDepth - depth));
    }

    method WriteOpening(ty: string)
      modifies this`b
      ensures b == old(b) + Lit(ty + "{")
    {
      LitAppend(b, ty, "{");
      WriteString(ty);
      WriteString("{");
    }

    method WriteClosing(ghost start: seq<Piece>, ghost open: seq<Piece>, ghost body: seq<Piece>)
      requires b == start + open + body
      modifies this`b
      ensures b == start + (open + body + Lit("}"))
    {
      WriteString("}");
      Associative(start, open, body);
      Associative(start, open + body, Lit("}"));
    }

    method WriteElements(ty: string, elems: seq<Value>, depth: nat, maxDepth: nat)
      requires depth <= maxDepth
      modifies this
      ensures b == old(b) + (Lit(ty + "{") + PrintAll(w, ElementKids(elems), old(seen), maxDepth - depth) + Lit("}"))
      ensures seen == old(seen)
      decreases maxDepth + 1 - depth, 0
    {
      hide Print, PrintAll;
      WriteOpening(ty);
      ghost var start := b;
      PrintAllNil(w, seen, maxDepth - depth, start);
      for i := 0 to |elems|
        invariant b == start + PrintAll(w, ElementKids(elems)[..i], old(seen), maxDepth - depth)
        invariant seen == old(seen)
      {
        ghost var before, kids := b, ElementKids(elems);
        if i > 0 {
          WriteString(", ");
        }
        assert kids[i] == (Separator(i == 0), elems[i]);
        assert b == before + Lit(Separator(i == 0));
        WriteValue(elems[i], depth + 1, maxDepth);
        assert kids[..i + 1] == kids[..i] + [kids[i]];
        PrintAllSnoc(w, kids[..i], kids[i], seen, maxDepth - depth, start);
      }
      assert ElementKids(elems)[..|elems|] == ElementKids(elems);
      WriteClosing(old(b), Lit(ty + "{"), PrintAll(w, ElementKids(elems), seen, maxDepth - depth));
    }

    /** The keys come in any order; sorting them makes the output independent of it. */
    method WriteMap(ty: string, m: map<string, (Value, Value)>, depth: nat, maxDepth: nat)
      requires depth <= maxDepth
      modifies this
      ensures b == old(b) + (Lit(ty + "{") +
          PrintAll(w, EntryKids(m, SortedKeys(m.Keys), true), old(seen), maxDepth - depth) + Lit("}"))
      ensures seen == old(seen)
      decreases maxDepth + 1 - depth, 0
    {
      hide Print, PrintAll, SortedKeys;
      WriteOpening(ty);
      ghost var start := b;
      PrintAllNil(w, seen, maxDepth - depth, start);
      var keys := SortedMapKeys(m);
      for i := 0 to |keys|
        invariant b == start + PrintAll(w, EntryKids(m, keys[..i], true), old(seen), maxDepth - depth)
        invariant seen == old(seen)
      {
        ghost var before, kids := b, EntryKids(m, keys[..i], true);
        ghost var key, value := (Separator(i == 0), m[keys[i]].0), (": ", m[keys[i]].1);
        if i > 0 {
          WriteString(", ");
        }
        assert b == before + Lit(Separator(i == 0));
        WriteValue(m[keys[i]].0, depth + 1, maxDepth);
        PrintAllSnoc(w, kids, key, seen, maxDepth - depth, start);
        WriteString(": ");
        WriteValue(m[keys[i]].1, depth + 1, maxDepth);
        PrintAllSnoc(w, kids + [key], value, seen, maxDepth - depth, start);
        assert keys[..i + 1] == keys[..i] + [keys[i]];
        EntryKidsSnoc(m, keys[..i], keys[i], true);
        assert kids + [key] + [value] == kids + [key, value];
      }
      assert keys[..|keys|] == keys;
      WriteClosing(old(b), Lit(ty + "{"), PrintAll(w, EntryKids(m, keys, true), seen, maxDepth - depth));
    }

    static method SortedMapKeys(m: map<string, (Value, Value)>) returns (keys: seq<string>)
      ensures keys == SortedKeys(m.Keys)
    {
      var unsorted := MapKeys(m);
      keys := SortByKey(unsorted, x => x);
      SortedKeysSorted(m.Keys);
      SortedUnique(SortedKeys(m.Keys), keys, x => x);
    }

    static method MapKeys(m: map<string, (Value, Value)>) returns (keys: seq<string>)
      ensures multiset(keys) == multiset(m.Keys)
    {
      keys := [];
      var todo := m.Keys;
      while todo != {}
        invariant todo <= m.Keys
        invariant multiset(keys) == multiset(m.Keys - todo)
        decreases |todo|
      {
        var k :| k in todo;
        assert m.Keys - (todo - {k}) == (m.Keys - todo) + {k};
        todo := todo - {k};
        keys := keys + [k];
      }
      assert m.Keys - todo == m.Keys;
    }
  }

  method FormatWithoutPointerAddresses(w: World, v: Value) returns (out: seq<Piece>)
    ensures out == Format(w, v)
  {
    var p := new Printer(w);
    p.WriteValue(v, 0, MAX_DEPTH);
    out := p.b;
  }
}
