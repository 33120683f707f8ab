/** Machine words as the sets of the positions of their one bits. */
module Bits {
  type Mask = set<nat>

  /** 1 << n */
  function Bit(n: nat): Mask {
    {n}
  }

  predicate OneBit(m: Mask) {
    exists n :: n in m && m == {n}
  }

  function Or(a: Mask, b: Mask): Mask {
    a + b
  }

  function And(a: Mask, b: Mask): Mask {
    a * b
  }

  predicate Hits(v: Mask, m: Mask) {
    And(v, m) != {}
  }

  lemma OneBitAbsorbed(v: Mask, m: Mask)
    requires OneBit(m)
    ensures Hits(v, m) ==> And(v, m) == m
    ensures !Hits(v, m) ==> And(v, m) == {}
  {}

  lemma OrLaws(v: Mask, a: Mask, b: Mask, c: Mask)
    ensures And(v, Or(a, b)) == Or(And(v, a), And(v, b))
    ensures Or(a, b) == Or(b, a)
    ensures Or(Or(a, b), c) == Or(a, Or(b, c))
    ensures Or({}, a) == a == Or(a, {}) && And(a, {}) == {}
  {}
}

/**
 Mount options (backend/src/dto/filesystem_type.go): read from a text, a list, a map or a
 bit mask, and written as a text or a bit mask. No deduplication takes place.
 */
module MountFlags {
  import opened Text
  import opened Bits

  /** `note` stands for the three descriptive fields, which reading leaves empty. */
  datatype Flag = Flag(name: string, needsValue: bool, value: string, note: string)

  // ---------- the text form ----------

  function OfToken(t: string): Flag {
    if '=' in t then var (n, v) := Cut(t, '='); Flag(n, true, v, "") else Flag(t, false, "", "")
  }

  function OfTokens(parts: seq<string>): seq<Flag> {
    seq(|parts|, i requires 0 <= i < |parts| => OfToken(parts[i]))
  }

  function Show(f: Flag): string {
    if f.needsValue then f.name + "=" + f.value else f.name
  }

  function ShowAll(s: seq<Flag>): seq<string> {
    seq(|s|, i requires 0 <= i < |s| => Show(s[i]))
  }

  function StringOf(s: seq<Flag>): string {
    Join(ShowAll(s), ',')
  }

  /** A flag that its own text determines. */
  predicate WellFormed(f: Flag) {
    && ',' !in f.name && '=' !in f.name && ',' !in f.value && f.note == ""
    && (!f.needsValue ==> f.value == "")
  }

  predicate AllWellFormed(s: seq<Flag>) {
    forall i :: 0 <= i < |s| ==> WellFormed(s[i])
  }

  lemma ShowOfToken(t: string)
    ensures Show(OfToken(t)) == t
  {
    if '=' in t {
      var (n, v) := Cut(t, '=');
      assert t == n + ['='] + v;
    }
  }

  /** Reading a text and writing it gives exactly that text, whatever the text. */
  lemma StringOfScan(text: string)
    ensures StringOf(OfTokens(Split(text, ','))) == text
  {
    var parts := Split(text, ',');
    forall i | 0 <= i < |parts|
      ensures ShowAll(OfTokens(parts))[i] == parts[i]
    {
      ShowOfToken(parts[i]);
    }
    assert ShowAll(OfTokens(parts)) == parts;
    JoinOfSplit(text, ',');
  }

  lemma OfTokenWellFormed(t: string)
    requires ',' !in t
    ensures WellFormed(OfToken(t))
  {
    if '=' in t {
      var (n, v) := Cut(t, '=');
      assert forall c :: c in n || c in v ==> c in t;
    }
  }

  lemma TokenOfShow(f: Flag)
    requires WellFormed(f)
    ensures OfToken(Show(f)) == f && ',' !in Show(f)
  {
    if f.needsValue {
      assert Show(f) == f.name + ['='] + f.value;
      CutUnique(f.name, f.value, '=');
      assert Show(f)[|f.name|] == '=';
    }
  }

  /** Writing a list and reading it back gives the list exactly when it is not empty and
      well formed: the empty list is written as "", which is read as one flag without a name. */
  lemma ScanOfStringExactly(s: seq<Flag>)
    ensures OfTokens(Split(StringOf(s), ',')) == s <==> s != [] && AllWellFormed(s)
  {
    var parts := ShowAll(s);
    if s != [] && AllWellFormed(s) {
      forall i | 0 <= i < |s|
        ensures ',' !in parts[i] && OfToken(parts[i]) == s[i]
      {
        TokenOfShow(s[i]);
      }
      SplitOfJoin(parts, ',');
      assert OfTokens(parts) == s;
    }
    var back := OfTokens(Split(StringOf(s), ','));
    assert |back| >= 1;
    forall i | 0 <= i < |back|
      ensures WellFormed(back[i])
    {
      OfTokenWellFormed(Split(StringOf(s), ',')[i]);
    }
  }

  /** The two forms of a token, and of a flag. */
  lemma TokenExactly(n: string, v: string)
    requires '=' !in n
    ensures OfToken(n + "=" + v) == Flag(n, true, v, "") && OfToken(n) == Flag(n, false, "", "")
    ensures Show(Flag(n, true, v, "")) == n + "=" + v && Show(Flag(n, false, v, "")) == n
  {
    assert n + "=" + v == n + ['='] + v;
    assert (n + ['='] + v)[|n|] == '=';
    CutUnique(n, v, '=');
  }

  /** Commas stand between the flags. */
  lemma StringOfCons(f: Flag, s: seq<Flag>)
    requires s != []
    ensures StringOf([f] + s) == Show(f) + "," + StringOf(s) && StringOf([f]) == Show(f) && StringOf([]) == ""
  {
    assert ShowAll([f] + s) == [Show(f)] + ShowAll(s);
    assert ([Show(f)] + ShowAll(s))[1..] == ShowAll(s);
    assert Show(f) + [','] + StringOf(s) == Show(f) + "," + StringOf(s);
  }

  /** A pair is written as its key, followed by its value unless that is empty. */
  lemma PairText(k: string, v: string)
    ensures Show(OfPair(k, v)) == if v == "" then k else k + "=" + v
    ensures OfPair(k, v).name == k && OfPair(k, v).note == "" && (OfPair(k, v).needsValue <==> v != "")
  {}

  // ---------- the bit mask form ----------

  function MountFlagsMap(): map<string, Mask> {
    map[
      "ro" := Bit(0), "nosuid" := Bit(1), "nodev" := Bit(2), "noexec" := Bit(3), "sync" := Bit(4), "remount" := Bit(5),
      "mand" := Bit(6), "dirsync" := Bit(7), "noatime" := Bit(10), "nodiratime" := Bit(11), "bind" := Bit(12),
      "rec" := Bit(14), "silent" := Bit(15), "posixacl" := Bit(16), "acl" := Bit(16), "unbindable" := Bit(17),
      "private" := Bit(18), "slave" := Bit(19), "shared" := Bit(20), "relatime" := Bit(21), "strictatime" := Bit(24)
    ]
  }

  /** The mount flags of Linux by name (mount(2), linux/mount.h). */
  function LinuxFlags(): map<string, bv32> {
    map[
      "ro" := 0x1, "nosuid" := 0x2, "nodev" := 0x4, "noexec" := 0x8, "sync" := 0x10, "remount" := 0x20, "mand" := 0x40,
      "dirsync" := 0x80, "noatime" := 0x400, "nodiratime" := 0x800, "bind" := 0x1000, "rec" := 0x4000,
      "silent" := 0x8000, "posixacl" := 0x1_0000, "acl" := 0x1_0000, "unbindable" := 0x2_0000, "private" := 0x4_0000,
      "slave" := 0x8_0000, "shared" := 0x10_0000, "relatime" := 0x20_0000, "strictatime" := 0x100_0000
    ]
  }

  /** A mask of one bit, and the number with that bit. */
  ghost predicate IsNumber(m: Mask, x: bv32) {
    exists n: nat :: n < 32 && m == {n} && (1 as bv32) << n == x
  }

  lemma NumberAt(n: nat, x: bv32)
    requires n < 32 && (1 as bv32) << n == x
    ensures IsNumber(Bit(n), x)
  {}

  /** The table names the flags of Linux, each with its number. */
  lemma TableIsLinux()
    ensures MountFlagsMap().Keys == LinuxFlags().Keys
    ensures forall n :: n in LinuxFlags() ==> IsNumber(MountFlagsMap()[n], LinuxFlags()[n])
  {
    hide IsNumber, Bit;
    NumberAt(0, 0x1);
    NumberAt(1, 0x2);
    NumberAt(2, 0x4);
    NumberAt(3, 0x8);
    NumberAt(4, 0x10);
    NumberAt(5, 0x20);
    NumberAt(6, 0x40);
    NumberAt(7, 0x80);
    NumberAt(10, 0x400);
    NumberAt(11, 0x800);
    NumberAt(12, 0x1000);
    NumberAt(14, 0x4000);
    NumberAt(15, 0x8000);
    NumberAt(16, 0x1_0000);
    NumberAt(17, 0x2_0000);
    NumberAt(18, 0x4_0000);
    NumberAt(19, 0x8_0000);
    NumberAt(20, 0x10_0000);
    NumberAt(21, 0x20_0000);
    NumberAt(24, 0x100_0000);
  }

  /** The OR of the masks a list of names has in a table. */
  function OrOf(t: map<string, Mask>, names: seq<string>): Mask
    requires forall n :: n in names ==> n in t
  {
    if names == [] then {} else Or(t[names[0]], OrOf(t, names[1..]))
  }

  /** The names of a table that a value has a bit of, in the order of a list of names. */
  function Present(t: map<string, Mask>, names: seq<string>, v: Mask): (r: seq<string>)
    requires forall n :: n in names ==> n in t
    ensures forall n :: n in r ==> n in names
  {
    if names == [] then []
    else (if Hits(v, t[names[0]]) then [names[0]] else []) + Present(t, names[1..], v)
  }

  function Plain(n: string): Flag {
    Flag(n, false, "", "")
  }

  function PlainAll(names: seq<string>): seq<Flag> {
    seq(|names|, i requires 0 <= i < |names| => Plain(names[i]))
  }

  function NamesOf(s: seq<Flag>): seq<string> {
    seq(|s|, i requires 0 <= i < |s| => s[i].name)
  }

  ghost predicate IsOrder(t: map<string, Mask>, order: seq<string>) {
    multiset(order) == multiset(t.Keys)
  }

  lemma InOrder(t: map<string, Mask>, order: seq<string>)
    requires IsOrder(t, order)
    ensures forall n :: n in order <==> n in t
  {
    assert forall n :: n in order <==> n in multiset(order);
  }

  /** The bits of `v` that the table knows, found name by name. */
  lemma {:induction false} OrOfPresent(t: map<string, Mask>, names: seq<string>, v: Mask)
    requires forall n :: n in names ==> n in t && OneBit(t[n])
    ensures OrOf(t, Present(t, names, v)) == And(v, OrOf(t, names))
  {
    OrLaws(v, v, v, v);
    hide OneBit, Or, And, Hits;
    if names == [] {
    } else {
      var m, rest := t[names[0]], OrOf(t, names[1..]);
      OrOfPresent(t, names[1..], v);
      OneBitAbsorbed(v, m);
      OrLaws(v, m, rest, {});
      OrLaws(v, And(v, rest), {}, {});
      if Hits(v, m) {
        assert Present(t, names, v)[1..] == Present(t, names[1..], v);
      } else {
        assert Present(t, names, v) == Present(t, names[1..], v);
      }
    }
  }

  /** The OR of a table does not depend on the order it is taken in. */
  lemma {:induction false} OrOfPermuted(t: map<string, Mask>, a: seq<string>, b: seq<string>)
    requires multiset(a) == multiset(b) && forall n :: n in a ==> n in t
    ensures forall n :: n in b ==> n in t
    ensures OrOf(t, a) == OrOf(t, b)
  {
    hide Or;
    assert forall n :: n in b ==> n in multiset(a);
    if a != [] {
      var i := Extract(a, b);
      OrOfPermuted(t, a[1..], b[..i] + b[i + 1..]);
      OrOfExtracted(t, b, i);
    } else {
      assert |b| == |multiset(b)| == 0;
    }
  }

  lemma Extract(a: seq<string>, b: seq<string>) returns (i: nat)
    requires multiset(a) == multiset(b) && a != []
    ensures i < |b| && b[i] == a[0]
    ensures multiset(a[1..]) == multiset(b[..i] + b[i + 1..])
  {
    assert a[0] in multiset(b);
    i :| 0 <= i < |b| && b[i] == a[0];
    assert b == b[..i] + [a[0]] + b[i + 1..];
    TailMultiset(a);
  }

  lemma {:induction false} OrOfExtracted(t: map<string, Mask>, b: seq<string>, i: nat)
    requires i < |b| && forall n :: n in b ==> n in t
    ensures OrOf(t, b) == Or(t[b[i]], OrOf(t, b[..i] + b[i + 1..]))
  {
    hide Or;
    var rest := b[..i] + b[i + 1..];
    if i == 0 {
      assert rest == b[1..];
    } else {
      OrOfExtracted(t, b[1..], i - 1);
      assert b[1..][..i - 1] + b[1..][i..] == rest[1..];
      var x, y, z := t[b[0]], t[b[i]], OrOf(t, rest[1..]);
      OrLaws(x, x, y, z);
      OrLaws(x, y, x, z);
    }
  }

  lemma TableOneBit()
    ensures forall n :: n in MountFlagsMap() ==> OneBit(MountFlagsMap()[n])
  {
    forall n | n in MountFlagsMap()
      ensures OneBit(MountFlagsMap()[n])
    {
      BitIsOneBit();
    }
  }

  lemma BitIsOneBit()
    ensures forall n: nat :: OneBit(Bit(n))
  {
    forall n: nat
      ensures OneBit(Bit(n))
    {
      assert n in Bit(n);
    }
  }

  /** Scanning a number and writing the mask of the result keeps exactly the bits of the
      table, in whatever order the table is gone through; `order` is that order and `all`
      any other order of the table. */
  lemma MaskOfScan(v: Mask, order: seq<string>, all: seq<string>)
    requires IsOrder(MountFlagsMap(), order) && IsOrder(MountFlagsMap(), all)
    ensures forall n :: n in order || n in all ==> n in MountFlagsMap()
    ensures OrOf(MountFlagsMap(), Present(MountFlagsMap(), order, v)) == And(v, OrOf(MountFlagsMap(), all))
  {
    TableOneBit();
    var t := MountFlagsMap();
    hide MountFlagsMap, OneBit, Or, And, Hits;
    InOrder(t, order);
    InOrder(t, all);
    OrOfPresent(t, order, v);
    OrOfPermuted(t, order, all);
  }

  // ---------- the methods of the source ----------

  /** A value to scan, by its Go type; the three number types are 64 bits wide alike. */
  datatype Source =
    | Number(v: Mask)
    | Strings(list: seq<string>)
    | Text(text: string)
    | Pairs(m: map<string, string>)
    | OtherSource

  function OfPair(k: string, v: string): Flag {
    if v == "" then Plain(k) else Flag(k, true, v, "")
  }

  class MountFlagList {
    var flags: seq<Flag>

    constructor ()
      ensures flags == []
    {
      flags := [];
    }

    method Add(value: Flag)
      modifies this
      ensures flags == old(flags) + [value]
    {
      flags := flags + [value];
    }

    /** Appends one flag per token, per set bit known or per pair; maps come in any order. */
    method Scan(value: Source) returns (ok: bool)
      modifies this
      ensures ok <==> !value.OtherSource?
      ensures value.OtherSource? ==> flags == old(flags)
      ensures value.Text? ==> flags == old(flags) + OfTokens(Split(value.text, ','))
      ensures value.Strings? ==> flags == old(flags) + OfTokens(value.list)
      ensures value.Number? ==> exists order :: ScannedNumber(old(flags), order, value.v, flags)
      ensures value.Pairs? ==> old(flags) <= flags && PairsRead(value.m, flags[|old(flags)|..])
    {
      ok := true;
      match value {
        case Number(v) => ScanNumber(v);
        case Strings(list) => ScanTokens(list);
        case Text(text) => ScanTokens(Split(text, ','));
        case Pairs(m) => ScanPairs(m);
        case OtherSource => ok := false;
      }
    }

    method ScanTokens(tokens: seq<string>)
      modifies this
      ensures flags == old(flags) + OfTokens(tokens)
    {
      for i := 0 to |tokens|
        invariant flags == old(flags) + OfTokens(tokens)[..i]
      {
        var flag := tokens[i];
        if '=' !in flag {
          Add(Flag(flag, false, "", ""));
        } else {
          var (name, v) := Cut(flag, '=');
          Add(Flag(name, true, v, ""));
        }
      }
    }

    method ScanNumber(v: Mask)
      modifies this
      ensures exists order :: ScannedNumber(old(flags), order, v, flags)
    {
      var t := MountFlagsMap();
      hide MountFlagsMap, Hits, Present;
      ghost var order: seq<string> := [];
      var todo := t.Keys;
      NonePresent(t, v);
      while todo != {}
        invariant todo <= t.Keys && multiset(order) == multiset(t.Keys - todo)
        invariant NumberSoFar(old(flags), t, order, v, flags)
        decreases |todo|
      {
        var n :| n in todo;
        OneMoreName(old(flags), t, order, n, v, flags);
        if Hits(v, t[n]) {
          Add(Flag(n, false, "", ""));
        }
        assert t.Keys - (todo - {n}) == (t.Keys - todo) + {n};
        order := order + [n];
        todo := todo - {n};
      }
      assert t.Keys - todo == t.Keys;
      assert ScannedNumber(old(flags), order, v, flags);
    }

    method ScanPairs(m: map<string, string>)
      modifies this
      ensures old(flags) <= flags && PairsRead(m, flags[|old(flags)|..])
    {
      var todo := m.Keys;
      while todo != {}
        invariant todo <= m.Keys && old(flags) <= flags
        invariant PairsSoFar(m, todo, flags[|old(flags)|..])
        decreases |todo|
      {
        var k :| k in todo;
        ghost var was := flags[|old(flags)|..];
        if m[k] == "" {
          Add(Flag(k, false, "", ""));
        } else {
          Add(Flag(k, true, m[k], ""));
        }
        assert flags[|old(flags)|..] == was + [OfPair(k, m[k])];
        OnePairMore(m, todo, was, k);
        todo := todo - {k};
      }
    }

    /** The OR of the masks of all flags; a name the table does not know is an error. */
    method UintPtrValue() returns (ok: bool, mask: Mask)
      ensures ok <==> forall n :: n in NamesOf(flags) ==> n in MountFlagsMap()
      ensures ok ==> mask == OrOf(MountFlagsMap(), NamesOf(flags))
      ensures !ok ==> mask == {}
    {
      var t := MountFlagsMap();
      hide MountFlagsMap;
      ghost var names := NamesOf(flags);
      mask := {};
      assert names[..0] == [];
      for i := 0 to |flags|
        invariant forall n :: n in names[..i] ==> n in t
        invariant mask == OrOf(t, names[..i])
      {
        assert names[..i + 1] == names[..i] + [flags[i].name];
        if flags[i].name in t {
          OrOfSnoc(t, names[..i], flags[i].name);
          mask := Or(mask, t[flags[i].name]);
        } else {
          assert names[i] == flags[i].name;
          return false, {};
        }
      }
      assert names[..|flags|] == names;
      ok := true;
    }

    method StringValue() returns (text: string)
      ensures text == StringOf(flags)
    {
      var dest := [];
      for i := 0 to |flags|
        invariant dest == ShowAll(flags)[..i]
      {
        if flags[i].needsValue {
          dest := dest + [flags[i].name + "=" + flags[i].value];
        } else {
          dest := dest + [flags[i].name];
        }
      }
      assert dest == ShowAll(flags);
      text := Join(dest, ',');
    }
  }

  ghost predicate ScannedNumber(before: seq<Flag>, order: seq<string>, v: Mask, after: seq<Flag>) {
    IsOrder(MountFlagsMap(), order) && NumberSoFar(before, MountFlagsMap(), order, v, after)
  }

  ghost predicate NumberSoFar(before: seq<Flag>, t: map<string, Mask>, names: seq<string>, v: Mask, after: seq<Flag>) {
    (forall n :: n in names ==> n in t) && after == before + PlainAll(Present(t, names, v))
  }

  lemma NonePresent(t: map<string, Mask>, v: Mask)
    ensures PlainAll(Present(t, [], v)) == []
  {}

  lemma OneMoreName(before: seq<Flag>, t: map<string, Mask>, names: seq<string>, n: string, v: Mask, after: seq<Flag>)
    requires n in t && NumberSoFar(before, t, names, v, after)
    ensures NumberSoFar(before, t, names + [n], v, if Hits(v, t[n]) then after + [Plain(n)] else after)
  {
    PresentSnoc(t, names, n, v);
    hide Hits, Present;
    assert PlainAll(Present(t, names, v) + [n]) == PlainAll(Present(t, names, v)) + [Plain(n)];
  }

  /** One flag per pair and nothing else. */
  ghost predicate PairsRead(m: map<string, string>, fs: seq<Flag>) {
    PairsSoFar(m, {}, fs)
  }

  ghost predicate PairsSoFar(m: map<string, string>, todo: set<string>, fs: seq<Flag>) {
    && (forall i :: 0 <= i < |fs| ==>
        fs[i].name in m && fs[i].name !in todo && fs[i] == OfPair(fs[i].name, m[fs[i].name]))
    && (forall i, j :: 0 <= i < j < |fs| ==> fs[i].name != fs[j].name)
    && (forall k :: k in m && k !in todo ==> OfPair(k, m[k]) in fs)
  }

  lemma OnePairMore(m: map<string, string>, todo: set<string>, fs: seq<Flag>, k: string)
    requires PairsSoFar(m, todo, fs) && k in todo && k in m
    ensures PairsSoFar(m, todo - {k}, fs + [OfPair(k, m[k])])
  {
    assert (fs + [OfPair(k, m[k])])[|fs|] == OfPair(k, m[k]);
  }

  lemma {:induction false} PresentSnoc(t: map<string, Mask>, names: seq<string>, n: string, v: Mask)
    requires n in t && forall x :: x in names ==> x in t
    ensures Present(t, names + [n], v) == Present(t, names, v) + (if Hits(v, t[n]) then [n] else [])
  {
    hide Hits;
    if names == [] {
      assert names + [n] == [n];
    } else {
      PresentSnoc(t, names[1..], n, v);
      assert (names + [n])[1..] == names[1..] + [n];
    }
  }

  lemma {:induction false} OrOfSnoc(t: map<string, Mask>, names: seq<string>, n: string)
    requires n in t && forall x :: x in names ==> x in t
    ensures OrOf(t, names + [n]) == Or(OrOf(t, names), t[n])
  {
    hide Or;
    if names == [] {
      assert names + [n] == [n];
      OrLaws(t[n], t[n], t[n], t[n]);
    } else {
      OrOfSnoc(t, names[1..], n);
      assert (names + [n])[1..] == names[1..] + [n];
      OrLaws(t[n], t[names[0]], OrOf(t, names[1..]), t[n]);
    }
  }

  /** From a number to flags to a mask, as the methods do it. */
  method MaskThroughFlags(v: Mask, ghost all: seq<string>) returns (ok: bool, mask: Mask)
    requires IsOrder(MountFlagsMap(), all)
    ensures forall n :: n in all ==> n in MountFlagsMap()
    ensures ok && mask == And(v, OrOf(MountFlagsMap(), all))
  {
    hide MountFlagsMap;
    var list := new MountFlagList();
    list.ScanNumber(v);
    ghost var order :| ScannedNumber([], order, v, list.flags);
    assert NamesOf(list.flags) == Present(MountFlagsMap(), order, v);
    MaskOfScan(v, order, all);
    ok, mask := list.UintPtrValue();
  }
}
