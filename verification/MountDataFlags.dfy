/**
 Mount flags as stored in the database (backend/src/dbom/mount_data_flag.go): a list of
 named flags, read from and written to a comma-separated text.
 */
module MountDataFlags {
  import opened Text

  datatype Flag = Flag(name: string, needsValue: bool, value: string)

  /** A database column value, by its Go type. */
  datatype Column = Null | TextValue(text: string) | OtherValue

  const NAME: Flag -> string := (f: Flag) => f.name

  // ---------- reading ----------

  /** The flag a token stands for; an empty token stands for none. */
  function Token(t: string): seq<Flag> {
    if '=' in t then var (n, v) := Cut(t, '='); [Flag(n, true, v)]
    else if t != "" then [Flag(t, false, "")]
    else []
  }

  /** All flags of a text, in order and with repetitions. */
  function Tokens(parts: seq<string>): seq<Flag> {
    if parts == [] then [] else Token(parts[0]) + Tokens(parts[1..])
  }

  predicate Named(s: seq<Flag>, n: string) {
    exists i :: 0 <= i < |s| && s[i].name == n
  }

  /** The place of the first flag of that name. */
  function Find(s: seq<Flag>, n: string): (i: nat)
    requires Named(s, n)
    ensures i < |s| && s[i].name == n && !Named(s[..i], n)
  {
    if s[0].name == n then 0
    else
      assert Named(s[1..], n) by {
        var i :| 0 <= i < |s| && s[i].name == n;
        assert s[1..][i - 1].name == n;
      }
      var j := Find(s[1..], n);
      assert s[..1 + j] == [s[0]] + s[1..][..j];
      1 + j
  }

  function Added(s: seq<Flag>, f: Flag): seq<Flag> {
    if Named(s, f.name) then s[Find(s, f.name) := f] else s + [f]
  }

  function AddedAll(s: seq<Flag>, fs: seq<Flag>): seq<Flag>
    decreases |fs|
  {
    if fs == [] then s else AddedAll(Added(s, fs[0]), fs[1..])
  }

  function Scanned(s: seq<Flag>, text: string): seq<Flag> {
    AddedAll(s, Tokens(Split(text, ',')))
  }

  // ---------- writing ----------

  function Show(f: Flag): string {
    if f.needsValue then f.name + "=" + f.value else f.name
  }

  function ShowAll(s: seq<Flag>): seq<string> {
    seq(|s|, i requires 0 <= i < |s| => Show(s[i]))
  }

  /** A text Value may return: any sorted arrangement, as sort.Slice is not stable. */
  ghost predicate IsValue(s: seq<Flag>, text: string) {
    exists t :: IsSorting(s, t) && text == Join(ShowAll(t), ',')
  }

  ghost predicate IsSorting(s: seq<Flag>, t: seq<Flag>) {
    multiset(t) == multiset(s) && Sorted(t, NAME)
  }

  // ---------- the methods of the source ----------

  class MounDataFlags {
    var flags: seq<Flag>

    constructor ()
      ensures flags == []
    {
      flags := [];
    }

    method Add(value: Flag)
      modifies this
      ensures flags == Added(old(flags), value)
    {
      var i := 0;
      while i < |flags|
        invariant 0 <= i <= |flags| && flags == old(flags)
        invariant !Named(flags[..i], value.name)
      {
        if flags[i].name == value.name {
          assert Find(flags, value.name) == i by { FirstPlace(flags, value.name, i); }
          flags := flags[i := value];
          return;
        }
        assert flags[..i + 1] == flags[..i] + [flags[i]];
        i := i + 1;
      }
      assert flags[..i] == flags;
      flags := flags + [value];
    }

    /** NULL reads as no flags; anything else but a text is an error. */
    method Scan(value: Column) returns (ok: bool)
      modifies this
      ensures ok <==> !value.OtherValue?
      ensures flags == if value.TextValue? then Scanned(old(flags), value.text) else old(flags)
    {
      if value.TextValue? {
        ScanText(value.text);
      }
      ok := !value.OtherValue?;
    }

    method ScanText(svalue: string)
      modifies this
      ensures flags == Scanned(old(flags), svalue)
    {
      var parts := Split(svalue, ',');
      for i := 0 to |parts|
        invariant AddedAll(flags, Tokens(parts[i..])) == Scanned(old(flags), svalue)
      {
        var flag := parts[i];
        assert parts[i..][1..] == parts[i + 1..];
        AddedAllToken(flags, flag, Tokens(parts[i + 1..]));
        if '=' in flag {
          var (name, value) := Cut(flag, '=');
          Add(Flag(name, true, value));
        } else if flag != "" {
          Add(Flag(flag, false, ""));
        }
      }
    }

    method Value() returns (text: string)
      ensures IsValue(flags, text)
    {
      var sorted := SortByKey(flags, NAME);
      assert IsSorting(flags, sorted);
      var parts := [];
      for ix := 0 to |sorted|
        invariant parts == ShowAll(sorted)[..ix]
      {
        parts := parts + [if sorted[ix].needsValue then sorted[ix].name + "=" + sorted[ix].value else sorted[ix].name];
      }
      assert parts == ShowAll(sorted);
      text := Join(parts, ',');
    }
  }

  lemma AddedAllToken(s: seq<Flag>, t: string, rest: seq<Flag>)
    ensures AddedAll(s, Token(t) + rest) == AddedAll(if Token(t) == [] then s else Added(s, Token(t)[0]), rest)
  {
    if Token(t) == [] {
      assert Token(t) + rest == rest;
    } else {
      assert (Token(t) + rest)[1..] == rest;
    }
  }

  lemma NotNamedBefore(s: seq<Flag>, n: string, i: nat)
    requires i <= |s| && !Named(s[..i], n)
    ensures forall k :: 0 <= k < i ==> s[k].name != n
  {
    forall k | 0 <= k < i
      ensures s[k].name != n
    {
      assert s[..i][k] == s[k];
    }
  }

  lemma FirstPlace(s: seq<Flag>, n: string, i: nat)
    requires i < |s| && s[i].name == n && !Named(s[..i], n)
    ensures Named(s, n) && Find(s, n) == i
  {
    NotNamedBefore(s, n, i);
    NotNamedBefore(s, n, Find(s, n));
  }

  // ---------- the texts ----------

  /** A token with an equals sign is a name and a value, any other a name, and "" is nothing. */
  lemma TokenExactly(n: string, v: string)
    requires '=' !in n
    ensures Token(n + "=" + v) == [Flag(n, true, v)]
    ensures Token(n) == if n == "" then [] else [Flag(n, false, "")]
    ensures Show(Flag(n, true, v)) == n + "=" + v && Show(Flag(n, false, v)) == n
  {
    assert n + "=" + v == n + ['='] + v;
    assert (n + ['='] + v)[|n|] == '=';
    CutUnique(n, v, '=');
  }

  /** Commas separate the tokens. */
  lemma TwoTokens(a: string, b: string)
    requires ',' !in a
    ensures Tokens(Split(a + "," + b, ',')) == Token(a) + Tokens(Split(b, ','))
  {
    assert a + "," + b == a + [','] + b;
    SplitAtFirst(a, b, ',');
    assert ([a] + Split(b, ','))[1..] == Split(b, ',');
  }

  /** Two flags are written in the order of their names, with a comma between. */
  lemma TwoShown(a: Flag, b: Flag, text: string)
    requires a.name != b.name && LessEq(a.name, b.name)
    ensures IsValue([b, a], text) ==> text == Show(a) + "," + Show(b)
  {
    if t :| IsSorting([b, a], t) && text == Join(ShowAll(t), ',') {
      assert multiset([b, a]) == multiset([a, b]);
      SortedUnique([a, b], t, NAME);
      assert ShowAll(t) == [Show(a), Show(b)];
      assert [Show(a), Show(b)][1..] == [Show(b)];
      assert Join([Show(a), Show(b)], ',') == Show(a) + [','] + Join([Show(b)], ',');
    }
  }

  /** As the flags rw and noatime are, whichever comes first in the list. */
  lemma WrittenAscending(text: string)
    ensures IsValue([Flag("rw", false, ""), Flag("noatime", false, "")], text) ==> text == "noatime,rw"
  {
    TwoShown(Flag("noatime", false, ""), Flag("rw", false, ""), text);
  }

  /** Adding a flag replaces the first one of its name where it stands, or comes last; every other
      flag keeps its place. */
  lemma AddedInPlace(s: seq<Flag>, f: Flag)
    ensures |Added(s, f)| == if exists i :: 0 <= i < |s| && s[i].name == f.name then |s| else |s| + 1
    ensures forall i :: 0 <= i < |s| ==>
        Added(s, f)[i] == if s[i].name == f.name && !Named(s[..i], f.name) then f else s[i]
    ensures f in Added(s, f) && (|Added(s, f)| > |s| ==> Added(s, f)[|s|] == f)
  {
    if Named(s, f.name) {
      var k := Find(s, f.name);
      assert Added(s, f)[k] == f;
      forall i | 0 <= i < |s| && s[i].name == f.name && !Named(s[..i], f.name)
        ensures i == k
      {
        FirstPlace(s, f.name, i);
      }
    } else {
      assert Added(s, f)[|s|] == f;
      forall i | 0 <= i < |s|
        ensures s[i].name != f.name
      {}
    }
  }

  // ---------- distinct names, the last occurrence winning ----------

  ghost predicate Distinct(s: seq<Flag>) {
    DistinctKeys(s, NAME)
  }

  lemma AddedDistinct(s: seq<Flag>, f: Flag)
    requires Distinct(s)
    ensures Distinct(Added(s, f))
    ensures forall n :: Named(Added(s, f), n) <==> n == f.name || Named(s, n)
    ensures forall g :: g in Added(s, f) <==> g == f || (g in s && g.name != f.name)
  {
    var r := Added(s, f);
    if Named(s, f.name) {
      var i := Find(s, f.name);
      assert r[i] == f;
      assert forall j :: 0 <= j < |r| && j != i ==> r[j] == s[j] && NAME(s[j]) != NAME(s[i]);
      forall n
        ensures Named(r, n) <==> n == f.name || Named(s, n)
      {
        if Named(s, n) && n != f.name { var j :| 0 <= j < |s| && s[j].name == n; assert r[j].name == n; }
        if Named(r, n) && n != f.name { var j :| 0 <= j < |r| && r[j].name == n; assert s[j].name == n; }
      }
    } else {
      assert r[|s|] == f;
      forall n
        ensures Named(r, n) <==> n == f.name || Named(s, n)
      {
        if Named(s, n) { var j :| 0 <= j < |s| && s[j].name == n; assert r[j].name == n; }
        if Named(r, n) && n != f.name { var j :| 0 <= j < |r| && r[j].name == n; assert s[j].name == n; }
      }
    }
  }

  /** The last flag of a list that has the name, if any does. */
  ghost predicate LastNamed(fs: seq<Flag>, g: Flag) {
    exists i :: 0 <= i < |fs| && fs[i] == g && !Named(fs[i + 1..], g.name)
  }

  lemma {:induction false} AddedAllKeepsLast(s: seq<Flag>, fs: seq<Flag>)
    requires Distinct(s)
    ensures Distinct(AddedAll(s, fs))
    ensures forall g :: g in AddedAll(s, fs) <==> LastNamed(fs, g) || (g in s && !Named(fs, g.name))
    decreases |fs|
  {
    if fs != [] {
      var s1, rest := Added(s, fs[0]), fs[1..];
      AddedDistinct(s, fs[0]);
      AddedAllKeepsLast(s1, rest);
      forall g
        ensures g in AddedAll(s, fs) <==> LastNamed(fs, g) || (g in s && !Named(fs, g.name))
      {
        NamedCons(fs, g.name);
        LastNamedCons(fs, g);
      }
    }
  }

  lemma NamedCons(fs: seq<Flag>, n: string)
    requires fs != []
    ensures Named(fs, n) <==> fs[0].name == n || Named(fs[1..], n)
  {
    if Named(fs[1..], n) { var i :| 0 <= i < |fs[1..]| && fs[1..][i].name == n; assert fs[i + 1].name == n; }
    if Named(fs, n) && fs[0].name != n { var i :| 0 <= i < |fs| && fs[i].name == n; assert fs[1..][i - 1].name == n; }
  }

  lemma LastNamedCons(fs: seq<Flag>, g: Flag)
    requires fs != []
    ensures LastNamed(fs, g) <==> LastNamed(fs[1..], g) || (fs[0] == g && !Named(fs[1..], g.name))
  {
    var rest := fs[1..];
    if LastNamed(rest, g) {
      var i :| 0 <= i < |rest| && rest[i] == g && !Named(rest[i + 1..], g.name);
      assert rest[i + 1..] == fs[i + 2..];
      assert fs[i + 1] == g;
    }
    if LastNamed(fs, g) {
      var i :| 0 <= i < |fs| && fs[i] == g && !Named(fs[i + 1..], g.name);
      if i > 0 {
        assert rest[i..] == fs[i + 1..];
        assert rest[i - 1] == g;
      }
    }
  }

  /** Scanning a text into an empty list gives each name once, with its last occurrence. */
  lemma ScannedKeepsLast(text: string)
    ensures Distinct(Scanned([], text))
    ensures forall g :: g in Scanned([], text) <==> LastNamed(Tokens(Split(text, ',')), g)
  {
    AddedAllKeepsLast([], Tokens(Split(text, ',')));
  }

  // ---------- Value does not depend on the arrangement ----------

  /** Lists with distinct names have one text, the same for all their permutations. */
  lemma ValueIgnoresOrder(s: seq<Flag>, t: seq<Flag>, a: string, b: string)
    requires Distinct(s) && multiset(s) == multiset(t)
    requires IsValue(s, a) && IsValue(t, b)
    ensures a == b
  {
    var u :| IsSorting(s, u) && a == Join(ShowAll(u), ',');
    var v :| IsSorting(t, v) && b == Join(ShowAll(v), ',');
    DistinctKeysPermuted(s, u, NAME);
    SortedUnique(u, v, NAME);
  }

  // ---------- reading back what was written ----------

  /** What scanning produces: no separator inside a name or value, and no empty flag. */
  predicate Clean(f: Flag) {
    && ',' !in f.name && '=' !in f.name && ',' !in f.value
    && (!f.needsValue ==> f.name != "" && f.value == "")
  }

  lemma TokenOfShow(f: Flag)
    requires Clean(f)
    ensures Token(Show(f)) == [f] && ',' !in Show(f)
  {
    if f.needsValue {
      assert Show(f) == f.name + ['='] + f.value;
      CutUnique(f.name, f.value, '=');
      assert '=' in Show(f) by { assert Show(f)[|f.name|] == '='; }
    }
  }

  lemma {:induction false} TokensOfShowAll(s: seq<Flag>)
    requires forall i :: 0 <= i < |s| ==> Clean(s[i])
    ensures Tokens(ShowAll(s)) == s
    ensures forall i :: 0 <= i < |s| ==> ',' !in ShowAll(s)[i]
  {
    if s != [] {
      TokenOfShow(s[0]);
      TokensOfShowAll(s[1..]);
      assert ShowAll(s)[1..] == ShowAll(s[1..]);
      assert s == [s[0]] + s[1..];
    }
  }

  lemma {:induction false} TokensClean(parts: seq<string>)
    requires forall i :: 0 <= i < |parts| ==> ',' !in parts[i]
    ensures forall i :: 0 <= i < |Tokens(parts)| ==> Clean(Tokens(parts)[i])
  {
    if parts != [] {
      TokensClean(parts[1..]);
      if '=' in parts[0] {
        var (n, v) := Cut(parts[0], '=');
        assert forall c :: c in n || c in v ==> c in parts[0];
      }
    }
  }

  lemma {:induction false} AddedAllFresh(s: seq<Flag>, fs: seq<Flag>)
    requires Distinct(s + fs)
    ensures AddedAll(s, fs) == s + fs
    decreases |fs|
  {
    if fs != [] {
      forall i | 0 <= i < |s|
        ensures s[i].name != fs[0].name
      {
        assert NAME((s + fs)[i]) != NAME((s + fs)[|s|]);
      }
      assert s + fs == (s + [fs[0]]) + fs[1..];
      AddedAllFresh(s + [fs[0]], fs[1..]);
    }
  }

  /** The text of a clean list with distinct names is read back as its sorted arrangement. */
  lemma ScanOfValue(s: seq<Flag>, t: seq<Flag>)
    requires Distinct(s) && IsSorting(s, t) && forall g :: g in s ==> Clean(g)
    ensures Scanned([], Join(ShowAll(t), ',')) == t
  {
    DistinctKeysPermuted(s, t, NAME);
    forall i | 0 <= i < |t|
      ensures Clean(t[i])
    {
      assert t[i] in multiset(t);
    }
    hide Clean, Sorted, DistinctKeys;
    TokensOfShowAll(t);
    if t != [] {
      SplitOfJoin(ShowAll(t), ',');
      assert [] + t == t;
      AddedAllFresh([], t);
    }
  }

  /** Scanning and writing once more changes nothing: `b` is the text of the flags read from
      `a`, which is itself the text of the flags read from `text`. */
  lemma NormalFormIdempotent(text: string, a: string, b: string)
    requires IsValue(Scanned([], text), a)
    requires IsValue(Scanned([], a), b)
    ensures a == b
  {
    var s := Scanned([], text);
    ScannedKeepsLast(text);
    TokensClean(Split(text, ','));
    forall g | g in s
      ensures Clean(g)
    {
      var fs := Tokens(Split(text, ','));
      assert LastNamed(fs, g);
      var i :| 0 <= i < |fs| && fs[i] == g && !Named(fs[i + 1..], g.name);
    }
    var t :| IsSorting(s, t) && a == Join(ShowAll(t), ',');
    ScanOfValue(s, t);
    DistinctKeysPermuted(s, t, NAME);
    assert IsSorting(t, t);
    assert IsValue(t, a);
    ValueIgnoresOrder(t, t, a, b);
  }
}
