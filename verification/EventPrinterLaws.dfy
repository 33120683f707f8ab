/**
 What the event printer guarantees on every heap: no address shows, the cycle mark stands
 for a real cycle, and a value without marks is printed as a printer with neither cycle
 detection nor depth bound would print it.
 */
module EventPrinterLaws {
  import opened Text
  import opened Wrappers
  import opened EventPrinter

  // ---------- no address leaks ----------

  function Rename(rho: Addr -> Addr, v: Value): Value {
    match v
    case Invalid => Invalid
    case NilInterface => NilInterface
    case Interface(c) => Interface(RenameConcrete(rho, c))
    case Plain(c) => Plain(RenameConcrete(rho, c))
  }

  function RenameConcrete(rho: Addr -> Addr, c: Concrete): Concrete {
    match c
    case Pointer(a) => Pointer(rho(a))
    case Struct(ty, fields) =>
      Struct(ty, seq(|fields|, i requires 0 <= i < |fields| =>
        Field(fields[i].name, fields[i].exported, Rename(rho, fields[i].value))))
    case Array(ty, elems) => Array(ty, RenameAll(rho, elems))
    case Slice(ty, a) => Slice(ty, rho(a))
    case Map(ty, a) => Map(ty, rho(a))
    case _ => c
  }

  function RenameAll(rho: Addr -> Addr, vs: seq<Value>): seq<Value> {
    seq(|vs|, i requires 0 <= i < |vs| => Rename(rho, vs[i]))
  }

  function RenameCell(rho: Addr -> Addr, c: Cell): Cell {
    match c
    case Box(v) => Box(Rename(rho, v))
    case Elements(vs) => Elements(RenameAll(rho, vs))
    case Entries(m) => Entries(map k | k in m :: (Rename(rho, m[k].0), Rename(rho, m[k].1)))
  }

  function RenameOption(rho: Addr -> Addr, o: Option<Value>): Option<Value> {
    if o.Some? then Some(Rename(rho, o.value)) else None
  }

  /** `w2` is `w` with every object moved to another address, distinct objects staying
      distinct; the hook gives corresponding answers on corresponding values, and map keys have
      the same texts, as keys have that hold no pointers. */
  ghost predicate Moved(rho: Addr -> Addr, w: World, w2: World) {
    && (forall a, b :: rho(a) == rho(b) ==> a == b)
    && (forall a :: a in w.heap <==> rho(a) in w2.heap)
    && (forall a :: a in w.heap ==> w2.heap[rho(a)] == RenameCell(rho, w.heap[a]))
    && (forall v :: w2.hook(Rename(rho, v)) == RenameOption(rho, w.hook(v)))
    && w2.printable == w.printable
  }

  function RenameKids(rho: Addr -> Addr, kids: seq<(string, Value)>): seq<(string, Value)> {
    seq(|kids|, i requires 0 <= i < |kids| => (kids[i].0, Rename(rho, kids[i].1)))
  }

  function RenameSet(rho: Addr -> Addr, s: set<Addr>): set<Addr> {
    set a | a in s :: rho(a)
  }

  lemma {:induction false} FieldKidsMoved(rho: Addr -> Addr, fields: seq<Field>, fields2: seq<Field>, first: bool)
    requires |fields2| == |fields|
    requires forall i :: 0 <= i < |fields| ==>
      fields2[i] == Field(fields[i].name, fields[i].exported, Rename(rho, fields[i].value))
    ensures FieldKids(fields2, first) == RenameKids(rho, FieldKids(fields, first))
  {
    if fields != [] {
      FieldKidsMoved(rho, fields[1..], fields2[1..], if fields[0].exported then false else first);
    }
  }

  lemma {:induction false} EntryKidsMoved(rho: Addr -> Addr, m: map<string, (Value, Value)>,
      m2: map<string, (Value, Value)>, keys: seq<string>, first: bool)
    requires forall k :: k in keys ==> k in m && k in m2 && m2[k] == (Rename(rho, m[k].0), Rename(rho, m[k].1))
    ensures EntryKids(m2, keys, first) == RenameKids(rho, EntryKids(m, keys, first))
  {
    if keys != [] {
      EntryKidsMoved(rho, m, m2, keys[1..], false);
    }
  }

  ghost function RenameShape(rho: Addr -> Addr, s: Shape): Shape {
    match s
    case Leaf(text) => s
    case Redirect(c) => Redirect(Rename(rho, c))
    case Ref(a, c) => Ref(rho(a), Rename(rho, c))
    case Node(open, kids) => Node(open, RenameKids(rho, kids))
  }

  lemma LookMoved(rho: Addr -> Addr, w: World, w2: World, v: Value)
    requires Moved(rho, w, w2)
    ensures Look(w2, Rename(rho, v)) == RenameShape(rho, Look(w, v))
  {
    hide LookInside;
    assert Hooked(w2, Rename(rho, v)) == RenameOption(rho, Hooked(w, v));
    if v.Plain? || v.Interface? {
      LookInsideMoved(rho, w, w2, v.inner);
    }
  }

  lemma LookInsideMoved(rho: Addr -> Addr, w: World, w2: World, c: Concrete)
    requires Moved(rho, w, w2)
    ensures LookInside(w2, RenameConcrete(rho, c)) == RenameShape(rho, LookInside(w, c))
  {
    hide Moved, Quote, FieldKids, EntryKids, ElementKids, RenameKids, SortedKeys, Target, ElementsAt, EntriesAt;
    match c {
      case Struct(_, fields) => FieldKidsMoved(rho, fields, RenameConcrete(rho, c).fields, true);
      case Map(_, a) => EntriesMoved(rho, w, w2, a);
      case Slice(_, a) => ElementsMoved(rho, w, w2, a);
      case Array(_, elems) => ElementKidsMoved(rho, elems, RenameAll(rho, elems));
      case Pointer(a) => TargetMoved(rho, w, w2, a);
      case Str(s) => QuoteMoved(rho, w, w2, s);
      case _ =>
    }
  }

  lemma QuoteMoved(rho: Addr -> Addr, w: World, w2: World, s: string)
    requires Moved(rho, w, w2)
    ensures Quote(w2, s) == Quote(w, s)
  {
    QuoteBodyMoved(w, w2, s);
  }

  lemma {:induction false} QuoteBodyMoved(w: World, w2: World, s: string)
    requires w2.printable == w.printable
    ensures QuoteBody(w2, s) == QuoteBody(w, s)
  {
    if s != "" { QuoteBodyMoved(w, w2, s[1..]); }
  }

  lemma TargetMoved(rho: Addr -> Addr, w: World, w2: World, a: Addr)
    requires Moved(rho, w, w2)
    ensures Target(w2, rho(a)) == Rename(rho, Target(w, a))
  {}

  lemma ElementsMoved(rho: Addr -> Addr, w: World, w2: World, a: Addr)
    requires Moved(rho, w, w2)
    ensures ElementKids(ElementsAt(w2, rho(a))) == RenameKids(rho, ElementKids(ElementsAt(w, a)))
  {
    hide ElementKids, RenameKids;
    ElementKidsMoved(rho, ElementsAt(w, a), ElementsAt(w2, rho(a)));
  }

  lemma EntriesMoved(rho: Addr -> Addr, w: World, w2: World, a: Addr)
    requires Moved(rho, w, w2)
    ensures EntryKids(EntriesAt(w2, rho(a)), SortedKeys(EntriesAt(w2, rho(a)).Keys), true) ==
            RenameKids(rho, EntryKids(EntriesAt(w, a), SortedKeys(EntriesAt(w, a).Keys), true))
  {
    hide SortedKeys, EntryKids;
    var m, m2 := EntriesAt(w, a), EntriesAt(w2, rho(a));
    assert m2.Keys == m.Keys;
    EntryKidsMoved(rho, m, m2, SortedKeys(m.Keys), true);
  }

  lemma ElementKidsMoved(rho: Addr -> Addr, vs: seq<Value>, vs2: seq<Value>)
    requires vs2 == RenameAll(rho, vs)
    ensures ElementKids(vs2) == RenameKids(rho, ElementKids(vs))
  {
    hide Rename;
  }

  lemma InjectiveMove(rho: Addr -> Addr, w: World, w2: World)
    requires Moved(rho, w, w2)
    ensures forall x, y :: rho(x) == rho(y) ==> x == y
  {}

  lemma SeenMoved(rho: Addr -> Addr, seen: set<Addr>, a: Addr)
    requires forall x, y :: rho(x) == rho(y) ==> x == y
    ensures RenameSet(rho, seen + {a}) == RenameSet(rho, seen) + {rho(a)}
    ensures rho(a) in RenameSet(rho, seen) <==> a in seen
  {}

  lemma {:induction false} PrintMoved(rho: Addr -> Addr, w: World, w2: World, v: Value, seen: set<Addr>, left: nat)
    requires Moved(rho, w, w2)
    ensures Print(w2, Rename(rho, v), RenameSet(rho, seen), left) == Print(w, v, seen, left)
    decreases left, 0
  {
    hide Look, Moved, RenameConcrete, RenameKids, RenameSet, PrintAll;
    if !v.Invalid? && left > 0 {
      LookMoved(rho, w, w2, v);
      match Look(w, v) {
        case Leaf(_) =>
        case Redirect(c) => PrintMoved(rho, w, w2, c, seen, left - 1);
        case Ref(a, c) =>
          PrintMoved(rho, w, w2, c, seen + {a}, left - 1);
          InjectiveMove(rho, w, w2);
          SeenMoved(rho, seen, a);
        case Node(_, kids) => PrintAllMoved(rho, w, w2, kids, seen, left - 1);
      }
    }
  }

  lemma {:induction false} PrintAllMoved(rho: Addr -> Addr, w: World, w2: World, kids: seq<(string, Value)>,
      seen: set<Addr>, left: nat)
    requires Moved(rho, w, w2)
    ensures PrintAll(w2, RenameKids(rho, kids), RenameSet(rho, seen), left) == PrintAll(w, kids, seen, left)
    decreases left, 1, |kids|
  {
    hide Print;
    if kids != [] {
      PrintMoved(rho, w, w2, kids[0].1, seen, left);
      PrintAllMoved(rho, w, w2, kids[1..], seen, left);
      assert RenameKids(rho, kids)[1..] == RenameKids(rho, kids[1..]);
    }
  }

  /** The text depends on what is stored, never on where: moving every object leaves it as it is. */
  lemma OutputIgnoresAddresses(rho: Addr -> Addr, w: World, w2: World, v: Value)
    requires Moved(rho, w, w2)
    ensures Format(w2, Rename(rho, v)) == Format(w, v)
  {
    PrintMoved(rho, w, w2, v, {}, MAX_DEPTH + 1);
    assert RenameSet(rho, {}) == {};
  }

  // ---------- the cycle mark ----------

  ghost function Children(w: World, v: Value): seq<Value> {
    match Look(w, v)
    case Leaf(_) => []
    case Redirect(c) => [c]
    case Ref(_, c) => [c]
    case Node(_, kids) => seq(|kids|, i requires 0 <= i < |kids| => kids[i].1)
  }

  lemma KidsAreChildren(w: World, v: Value)
    requires Look(w, v).Node?
    ensures forall i :: 0 <= i < |Look(w, v).kids| ==> Look(w, v).kids[i].1 in Children(w, v)
  {
    hide Look;
    forall i | 0 <= i < |Look(w, v).kids| ensures Look(w, v).kids[i].1 in Children(w, v) {
      assert Children(w, v)[i] == Look(w, v).kids[i].1;
    }
  }

  ghost function PointerOf(w: World, v: Value): Option<Addr> {
    if Look(w, v).Ref? then Some(Look(w, v).addr) else None
  }

  /** A way down through the values the printer would enter. */
  ghost predicate Walk(w: World, v: Value, path: seq<Value>)
    decreases |path|
  {
    path != [] && path[0] == v && (|path| > 1 ==> path[1] in Children(w, v) && Walk(w, path[1], path[1..]))
  }

  /** Some pointer on the path is in `seen` or stands on the path earlier as well. */
  ghost predicate Returns(w: World, path: seq<Value>, seen: set<Addr>) {
    exists j :: 0 <= j < |path| && ReturnsAt(w, path, seen, j)
  }

  ghost predicate ReturnsAt(w: World, path: seq<Value>, seen: set<Addr>, j: nat)
    requires j < |path|
  {
    var p := PointerOf(w, path[j]);
    p.Some? && (p.value in seen || exists i :: 0 <= i < j && PointerOf(w, path[i]) == p)
  }

  lemma {:induction false} MarkInKid(w: World, kids: seq<(string, Value)>, seen: set<Addr>, left: nat, mark: Piece)
    requires mark.CycleMark? || mark.DepthMark?
    ensures mark in PrintAll(w, kids, seen, left) <==>
            exists i :: 0 <= i < |kids| && mark in Print(w, kids[i].1, seen, left)
  {
    hide Print;
    if kids != [] {
      MarkInKid(w, kids[1..], seen, left, mark);
      assert forall i :: 1 <= i < |kids| ==> kids[i] == kids[1..][i - 1];
      assert mark !in Lit(kids[0].0);
    }
  }

  lemma KidMark(w: World, kids: seq<(string, Value)>, i: nat, seen: set<Addr>, left: nat, mark: Piece)
    requires i < |kids| && (mark.CycleMark? || mark.DepthMark?)
    requires mark in Print(w, kids[i].1, seen, left)
    ensures mark in PrintAll(w, kids, seen, left)
  {
    hide Print, PrintAll;
    MarkInKid(w, kids, seen, left, mark);
  }

  /** A path that goes back to `seen` or to itself shortens to one from its second value. */
  lemma ReturnsTail(w: World, path: seq<Value>, seen: set<Addr>, j: nat)
    requires 0 < j < |path| && ReturnsAt(w, path, seen, j)
    ensures Returns(w, path[1..], SeenBelow(w, path[0], seen))
  {
    var seen2 := SeenBelow(w, path[0], seen);
    var tail := path[1..];
    var p := PointerOf(w, path[j]);
    if p.value !in seen {
      var i :| 0 <= i < j && PointerOf(w, path[i]) == p;
      if i > 0 { assert PointerOf(w, tail[i - 1]) == p; }
    }
    assert ReturnsAt(w, tail, seen2, j - 1);
  }

  lemma ReturnsCons(w: World, v: Value, tail: seq<Value>, seen: set<Addr>)
    requires Returns(w, tail, SeenBelow(w, v, seen))
    ensures Returns(w, [v] + tail, seen)
  {
    var seen2 := SeenBelow(w, v, seen);
    var j :| 0 <= j < |tail| && ReturnsAt(w, tail, seen2, j);
    var path := [v] + tail;
    var p := PointerOf(w, tail[j]);
    assert path[j + 1] == tail[j];
    if p.value !in seen && p != PointerOf(w, v) {
      var i :| 0 <= i < j && PointerOf(w, tail[i]) == p;
      assert PointerOf(w, path[i + 1]) == p;
    } else if p.value !in seen {
      assert PointerOf(w, path[0]) == p;
    }
    assert ReturnsAt(w, path, seen, j + 1);
  }

  /** The pointers in force below `v`. */
  ghost function SeenBelow(w: World, v: Value, seen: set<Addr>): set<Addr> {
    if PointerOf(w, v).Some? then seen + {PointerOf(w, v).value} else seen
  }

  lemma MarkOnPath(w: World, v: Value, seen: set<Addr>, left: nat)
    requires PointerOf(w, v).Some? && PointerOf(w, v).value in seen && left > 0
    ensures CycleMark in Print(w, v, seen, left)
  {}

  lemma MarkBelow(w: World, v: Value, child: Value, seen: set<Addr>, left: nat)
    requires left > 0 && child in Children(w, v)
    requires CycleMark in Print(w, child, SeenBelow(w, v, seen), left - 1)
    ensures CycleMark in Print(w, v, seen, left)
  {
    assert v.Invalid? ==> Look(w, v).Leaf?;
    hide Look, PrintAll;
    if Look(w, v).Node? {
      var i :| 0 <= i < |Look(w, v).kids| && Look(w, v).kids[i].1 == child;
      KidMark(w, Look(w, v).kids, i, seen, left - 1, CycleMark);
      assert PointerOf(w, v).None?;
    }
  }

  lemma {:induction false} WalkMeansMark(w: World, v: Value, path: seq<Value>, seen: set<Addr>, left: nat)
    requires Walk(w, v, path) && |path| <= left && Returns(w, path, seen)
    ensures CycleMark in Print(w, v, seen, left)
    decreases left
  {
    hide Look, Print, Children;
    var j :| 0 <= j < |path| && ReturnsAt(w, path, seen, j);
    if PointerOf(w, v).Some? && PointerOf(w, v).value in seen {
      MarkOnPath(w, v, seen, left);
    } else {
      ReturnsTail(w, path, seen, j);
      WalkMeansMark(w, path[1], path[1..], SeenBelow(w, v, seen), left - 1);
      MarkBelow(w, v, path[1], seen, left);
    }
  }

  lemma {:induction false} MarkMeansWalk(w: World, v: Value, seen: set<Addr>, left: nat) returns (path: seq<Value>)
    requires CycleMark in Print(w, v, seen, left)
    ensures Walk(w, v, path) && |path| <= left && Returns(w, path, seen)
    decreases left
  {
    hide Look, PrintAll;
    if PointerOf(w, v).Some? && PointerOf(w, v).value in seen {
      path := [v];
      assert ReturnsAt(w, path, seen, 0);
    } else {
      var child;
      var seen2 := seen;
      match Look(w, v) {
        case Redirect(c) => child := c;
        case Ref(a, c) => child := c; seen2 := seen + {a};
        case Node(_, kids) =>
          MarkInKid(w, kids, seen, left - 1, CycleMark);
          var i :| 0 <= i < |kids| && CycleMark in Print(w, kids[i].1, seen, left - 1);
          child := kids[i].1;
          assert child == Children(w, v)[i];
      }
      var tail := MarkMeansWalk(w, child, seen2, left - 1);
      path := [v] + tail;
      assert path[1..] == tail;
      ReturnsCons(w, v, tail, seen);
    }
  }

  ghost predicate MeetsPointerTwice(w: World, v: Value, n: nat) {
    exists path :: Walk(w, v, path) && |path| <= n && Returns(w, path, {})
  }

  /** `<cycle>` is printed exactly when some path within the depth bound meets a pointer twice;
      an object that is only shared never gives the mark. */
  lemma CycleMarkExactly(w: World, v: Value)
    ensures CycleMark in Format(w, v) <==> MeetsPointerTwice(w, v, MAX_DEPTH + 1)
  {
    hide Print;
    if CycleMark in Format(w, v) {
      var path := MarkMeansWalk(w, v, {}, MAX_DEPTH + 1);
    }
    if path :| Walk(w, v, path) && |path| <= MAX_DEPTH + 1 && Returns(w, path, {}) {
      WalkMeansMark(w, v, path, {}, MAX_DEPTH + 1);
    }
  }

  // ---------- agreement with a naive printer ----------

  /** Every path from `v` ends within `n` levels. */
  ghost predicate Fits(w: World, v: Value, n: nat)
    decreases n
  {
    v.Invalid? || (n > 0 && forall c :: c in Children(w, v) ==> Fits(w, c, n - 1))
  }

  /** A printer that follows every reference; `n` only bounds its recursion. */
  ghost function Naive(w: World, v: Value, n: nat): seq<Piece>
    requires Fits(w, v, n)
    decreases n, 0
  {
    if v.Invalid? then Lit("nil")
    else match Look(w, v)
      case Leaf(text) => Lit(text)
      case Redirect(c) => assert c in Children(w, v); Naive(w, c, n - 1)
      case Ref(_, c) => assert c in Children(w, v); Naive(w, c, n - 1)
      case Node(open, kids) =>
        KidsAreChildren(w, v);
        Lit(open) + NaiveAll(w, kids, n - 1) + Lit("}")
  }

  ghost function NaiveAll(w: World, kids: seq<(string, Value)>, n: nat): seq<Piece>
    requires forall i :: 0 <= i < |kids| ==> Fits(w, kids[i].1, n)
    decreases n, 1, |kids|
  {
    if kids == [] then []
    else Lit(kids[0].0) + Naive(w, kids[0].1, n) + NaiveAll(w, kids[1..], n)
  }

  lemma {:induction false} FitsLonger(w: World, v: Value, n: nat)
    requires Fits(w, v, n)
    ensures Fits(w, v, n + 1)
    decreases n
  {
    if !v.Invalid? {
      forall c | c in Children(w, v) ensures Fits(w, c, n) { FitsLonger(w, c, n - 1); }
    }
  }

  /** The bound on the recursion of the naive printer does not show in what it prints. */
  lemma {:induction false} NaiveStable(w: World, v: Value, n: nat)
    requires Fits(w, v, n) && Fits(w, v, n + 1)
    ensures Naive(w, v, n) == Naive(w, v, n + 1)
    decreases n, 0
  {
    hide Look, NaiveAll, Target;
    if !v.Invalid? {
      match Look(w, v) {
        case Leaf(_) =>
        case Redirect(c) => assert c in Children(w, v); NaiveStable(w, c, n - 1);
        case Ref(_, c) => assert c in Children(w, v); NaiveStable(w, c, n - 1);
        case Node(_, kids) =>
          KidsAreChildren(w, v);
          NaiveAllStable(w, kids, n - 1);
      }
    }
  }

  lemma {:induction false} NaiveAllStable(w: World, kids: seq<(string, Value)>, n: nat)
    requires forall i :: 0 <= i < |kids| ==> Fits(w, kids[i].1, n) && Fits(w, kids[i].1, n + 1)
    ensures NaiveAll(w, kids, n) == NaiveAll(w, kids, n + 1)
    decreases n, 1, |kids|
  {
    hide Naive;
    if kids != [] {
      NaiveStable(w, kids[0].1, n);
      NaiveAllStable(w, kids[1..], n);
    }
  }

  /** No pointer in `seen` can be met by a value that ends within `n` levels. */
  ghost predicate Above(w: World, seen: set<Addr>, n: nat) {
    forall a :: a in seen && n > 0 ==> !Fits(w, Target(w, a), n - 1)
  }

  lemma AboveShorter(w: World, seen: set<Addr>, n: nat)
    requires n > 0 && Above(w, seen, n)
    ensures Above(w, seen, n - 1)
  {
    forall a | a in seen && n > 1
      ensures !Fits(w, Target(w, a), n - 2)
    {
      if Fits(w, Target(w, a), n - 2) { FitsLonger(w, Target(w, a), n - 2); }
    }
  }

  lemma RefChild(w: World, v: Value)
    requires Look(w, v).Ref?
    ensures Children(w, v) == [Look(w, v).child] && Look(w, v).child == Target(w, Look(w, v).addr)
    ensures Look(w, v).child in Children(w, v)
  {
    assert Children(w, v)[0] == Look(w, v).child;
  }

  lemma {:induction false} PrintIsNaive(w: World, v: Value, seen: set<Addr>, left: nat, n: nat)
    requires Fits(w, v, n) && n <= left && Above(w, seen, n)
    ensures Print(w, v, seen, left) == Naive(w, v, n)
    decreases n, 0
  {
    hide Look, PrintAll, NaiveAll, Target;
    if v.Invalid? {
    } else if Fits(w, v, n - 1) {
      AboveShorter(w, seen, n);
      PrintIsNaive(w, v, seen, left, n - 1);
      NaiveStable(w, v, n - 1);
    } else {
      AboveShorter(w, seen, n);
      match Look(w, v) {
        case Leaf(_) =>
        case Redirect(c) =>
          assert c in Children(w, v);
          PrintIsNaive(w, c, seen, left - 1, n - 1);
        case Ref(a, c) =>
          RefChild(w, v);
          assert Above(w, seen + {a}, n - 1);
          PrintIsNaive(w, c, seen + {a}, left - 1, n - 1);
        case Node(_, kids) =>
          KidsAreChildren(w, v);
          PrintAllIsNaive(w, kids, seen, left - 1, n - 1);
      }
    }
  }

  lemma {:induction false} PrintAllIsNaive(w: World, kids: seq<(string, Value)>, seen: set<Addr>, left: nat, n: nat)
    requires forall i :: 0 <= i < |kids| ==> Fits(w, kids[i].1, n)
    requires n <= left && Above(w, seen, n)
    ensures PrintAll(w, kids, seen, left) == NaiveAll(w, kids, n)
    decreases n, 1, |kids|
  {
    hide Print, Naive;
    if kids != [] {
      PrintIsNaive(w, kids[0].1, seen, left, n);
      PrintAllIsNaive(w, kids[1..], seen, left, n);
    }
  }

  ghost predicate Unmarked(out: seq<Piece>) {
    CycleMark !in out && DepthMark !in out
  }

  lemma {:induction false} UnmarkedFits(w: World, v: Value, seen: set<Addr>, left: nat)
    requires Unmarked(Print(w, v, seen, left))
    ensures Fits(w, v, left)
    decreases left
  {
    hide Look, PrintAll, Target;
    if !v.Invalid? {
      match Look(w, v) {
        case Leaf(_) =>
        case Redirect(c) => UnmarkedFits(w, c, seen, left - 1);
        case Ref(a, c) => UnmarkedFits(w, c, seen + {a}, left - 1);
        case Node(_, kids) =>
          MarkInKid(w, kids, seen, left - 1, CycleMark);
          MarkInKid(w, kids, seen, left - 1, DepthMark);
          forall i | 0 <= i < |kids| ensures Fits(w, kids[i].1, left - 1) {
            UnmarkedFits(w, kids[i].1, seen, left - 1);
          }
      }
    }
  }

  lemma {:induction false} NaiveUnmarked(w: World, v: Value, n: nat)
    requires Fits(w, v, n)
    ensures Unmarked(Naive(w, v, n))
    decreases n, 0
  {
    hide Look, NaiveAll, Target;
    if !v.Invalid? {
      match Look(w, v) {
        case Leaf(_) =>
        case Redirect(c) => assert c in Children(w, v); NaiveUnmarked(w, c, n - 1);
        case Ref(_, c) => assert c in Children(w, v); NaiveUnmarked(w, c, n - 1);
        case Node(_, kids) =>
          KidsAreChildren(w, v);
          NaiveAllUnmarked(w, kids, n - 1);
      }
    }
  }

  lemma {:induction false} NaiveAllUnmarked(w: World, kids: seq<(string, Value)>, n: nat)
    requires forall i :: 0 <= i < |kids| ==> Fits(w, kids[i].1, n)
    ensures Unmarked(NaiveAll(w, kids, n))
    decreases n, 1, |kids|
  {
    hide Naive;
    if kids != [] {
      NaiveUnmarked(w, kids[0].1, n);
      NaiveAllUnmarked(w, kids[1..], n);
    }
  }

  /** The output is free of marks exactly for the values that end within the depth bound, and
      then it is what the naive printer writes. */
  lemma UnmarkedExactly(w: World, v: Value)
    ensures Unmarked(Format(w, v)) <==> Fits(w, v, MAX_DEPTH + 1)
    ensures Fits(w, v, MAX_DEPTH + 1) ==> Format(w, v) == Naive(w, v, MAX_DEPTH + 1)
  {
    if Unmarked(Format(w, v)) { UnmarkedFits(w, v, {}, MAX_DEPTH + 1); }
    if Fits(w, v, MAX_DEPTH + 1) {
      PrintIsNaive(w, v, {}, MAX_DEPTH + 1, MAX_DEPTH + 1);
      NaiveUnmarked(w, v, MAX_DEPTH + 1);
    }
  }
}
