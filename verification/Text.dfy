/**
 Strings as the modelled code uses them: byte order, sorting by a string key,
 splitting and joining at a separator character, and decimal rendering.
 */
module Text {

  // ---------- order and sorting ----------

  /** Lexicographic order, as Go's `<=` on strings. */
  predicate LessEq(a: string, b: string) {
    || a == ""
    || (b != "" && (a[0] < b[0] || (a[0] == b[0] && LessEq(a[1..], b[1..]))))
  }

  /** It is the order of the first difference, a prefix coming first. */
  lemma {:induction false} LessEqExactly(a: string, b: string)
    ensures LessEq(a, b) <==> a <= b || exists i :: FirstDifference(a, b, i) && a[i] < b[i]
  {
    if a != "" && b != "" {
      var x, y := a[1..], b[1..];
      LessEqExactly(x, y);
      if a[0] == b[0] {
        assert a == [a[0]] + x && b == [b[0]] + y;
        assert x <= y <==> a <= b;
        if i :| FirstDifference(x, y, i) && x[i] < y[i] {
          assert a[..i + 1] == [a[0]] + x[..i] && b[..i + 1] == [b[0]] + y[..i];
          assert FirstDifference(a, b, i + 1);
        }
        if i :| FirstDifference(a, b, i) && a[i] < b[i] {
          assert x[..i - 1] == a[..i][1..] && y[..i - 1] == b[..i][1..];
          assert FirstDifference(x, y, i - 1);
        }
      } else {
        assert FirstDifference(a, b, 0);
      }
    }
  }

  predicate FirstDifference(a: string, b: string, i: int) {
    0 <= i < |a| && i < |b| && a[..i] == b[..i] && a[i] != b[i]
  }

  lemma {:induction false} LessEqTotal(a: string, b: string)
    ensures LessEq(a, b) || LessEq(b, a)
    ensures LessEq(a, b) && LessEq(b, a) ==> a == b
  {
    if a != "" && b != "" && a[0] == b[0] {
      LessEqTotal(a[1..], b[1..]);
      assert a == [a[0]] + a[1..] && b == [b[0]] + b[1..];
    }
  }

  lemma {:induction false} LessEqTransitive(a: string, b: string, c: string)
    requires LessEq(a, b) && LessEq(b, c)
    ensures LessEq(a, c)
  {
    if a != "" && a[0] == b[0] == c[0] {
      LessEqTransitive(a[1..], b[1..], c[1..]);
    }
  }

  ghost predicate Sorted<T>(s: seq<T>, key: T -> string) {
    forall i, j :: 0 <= i < j < |s| ==> LessEq(key(s[i]), key(s[j]))
  }

  ghost predicate DistinctKeys<T>(s: seq<T>, key: T -> string) {
    forall i, j :: 0 <= i < j < |s| ==> key(s[i]) != key(s[j])
  }

  /** A sorting routine of which nothing is known but its contract. */
  method SortByKey<T>(s: seq<T>, key: T -> string) returns (r: seq<T>)
    ensures multiset(r) == multiset(s)
    ensures Sorted(r, key)
  {
    r := [];
    for n := 0 to |s|
      invariant multiset(r) == multiset(s[..n])
      invariant Sorted(r, key)
    {
      r := InsertByKey(r, s[n], key);
      assert s[..n + 1] == s[..n] + [s[n]];
    }
    assert s[..|s|] == s;
  }

  method InsertByKey<T>(s: seq<T>, x: T, key: T -> string) returns (r: seq<T>)
    requires Sorted(s, key)
    ensures multiset(r) == multiset(s) + multiset{x}
    ensures Sorted(r, key)
  {
    var i := 0;
    while i < |s| && LessEq(key(s[i]), key(x))
      invariant 0 <= i <= |s|
      invariant forall j :: 0 <= j < i ==> LessEq(key(s[j]), key(x))
    {
      i := i + 1;
    }
    if i < |s| { LessEqTotal(key(s[i]), key(x)); }
    SortedInsert(s, x, i, key);
    assert s == s[..i] + s[i..];
    r := s[..i] + [x] + s[i..];
  }

  lemma SortedInsert<T>(s: seq<T>, x: T, i: nat, key: T -> string)
    requires Sorted(s, key) && i <= |s|
    requires forall j :: 0 <= j < i ==> LessEq(key(s[j]), key(x))
    requires i < |s| ==> LessEq(key(x), key(s[i]))
    ensures Sorted(s[..i] + [x] + s[i..], key)
  {
    var r := s[..i] + [x] + s[i..];
    forall a, b | 0 <= a < b < |r|
      ensures LessEq(key(r[a]), key(r[b]))
    {
      if a == i {
        if b > i + 1 { LessEqTransitive(key(x), key(s[i]), key(s[b - 1])); }
      }
    }
  }

  lemma SortedFirst<T>(a: seq<T>, b: seq<T>, key: T -> string)
    requires a != [] && b != [] && multiset(a) == multiset(b)
    requires Sorted(a, key) && Sorted(b, key) && DistinctKeys(a, key)
    ensures a[0] == b[0]
  {
    hide LessEq;
    assert a[0] in multiset(b) && b[0] in multiset(a);
    var i :| 0 <= i < |b| && b[i] == a[0];
    var j :| 0 <= j < |a| && a[j] == b[0];
    LessEqTotal(key(a[0]), key(b[0]));
    assert key(a[0]) == key(a[j]);
  }

  /** With distinct keys there is only one sorted arrangement. */
  lemma {:induction false} SortedUnique<T>(a: seq<T>, b: seq<T>, key: T -> string)
    requires multiset(a) == multiset(b)
    requires Sorted(a, key) && Sorted(b, key) && DistinctKeys(a, key)
    ensures a == b
  {
    hide LessEq, Sorted, DistinctKeys;
    assert |a| == |multiset(a)| == |multiset(b)| == |b|;
    if a != [] {
      SortedFirst(a, b, key);
      TailMultiset(a);
      TailMultiset(b);
      SortedTail(a, key);
      SortedTail(b, key);
      SortedUnique(a[1..], b[1..], key);
    }
  }

  lemma SortedTail<T>(a: seq<T>, key: T -> string)
    requires a != [] && Sorted(a, key)
    ensures Sorted(a[1..], key) && (DistinctKeys(a, key) ==> DistinctKeys(a[1..], key))
  {}

  lemma TailMultiset<T>(a: seq<T>)
    requires a != []
    ensures a == [a[0]] + a[1..]
    ensures multiset(a[1..]) == multiset(a) - multiset{a[0]}
  {
    assert a == [a[0]] + a[1..];
  }

  /** Distinctness of keys does not depend on the arrangement. */
  lemma DistinctKeysPermuted<T>(a: seq<T>, b: seq<T>, key: T -> string)
    requires multiset(a) == multiset(b)
    requires DistinctKeys(a, key)
    ensures DistinctKeys(b, key)
  {
    forall i, j | 0 <= i < j < |b|
      ensures key(b[i]) != key(b[j])
    {
      if key(b[i]) == key(b[j]) {
        assert b[i] in multiset(a) && b[j] in multiset(a);
        assert b[i] == b[j];
        assert b == b[..j] + [b[j]] + b[j + 1..];
        assert b[i] in multiset(b[..j]);
        assert multiset(b)[b[i]] >= 2;
        OccursTwice(a, b[i]);
        assert false;
      }
    }
  }

  lemma OccursTwice<T>(a: seq<T>, x: T)
    requires multiset(a)[x] >= 2
    ensures exists i, j :: 0 <= i < j < |a| && a[i] == x && a[j] == x
  {
    var i :| 0 <= i < |a| && a[i] == x;
    assert a == a[..i] + [a[i]] + a[i + 1..];
    var rest := a[..i] + a[i + 1..];
    assert multiset(a) == multiset(rest) + multiset{x};
    assert x in rest;
    var k :| 0 <= k < |rest| && rest[k] == x;
    var j := if k < i then k else k + 1;
    assert a[j] == x && j != i;
    if j < i { assert a[j] == x && a[i] == x; }
  }

  // ---------- the keys of a map, in order ----------

  lemma Smallest(s: set<string>) returns (k: string)
    requires s != {}
    ensures k in s && forall x :: x in s ==> LessEq(k, x)
  {
    var c :| c in s;
    LessEqTotal(c, c);
    if s == {c} {
      k := c;
    } else {
      var m := Smallest(s - {c});
      LessEqTotal(c, m);
      k := if LessEq(c, m) then c else m;
      forall x | x in s ensures LessEq(k, x) {
        if x != c && k == c { LessEqTransitive(c, m, x); }
      }
    }
  }

  lemma SmallestExists(s: set<string>)
    requires s != {}
    ensures exists k :: k in s && IsSmallest(k, s)
  {
    var k := Smallest(s);
    assert IsSmallest(k, s);
  }

  ghost predicate IsSmallest(k: string, s: set<string>) {
    forall x :: x in s ==> LessEq(k, x)
  }

  ghost function SortedKeys(s: set<string>): (r: seq<string>)
    ensures multiset(r) == multiset(s)
    ensures forall k :: k in r <==> k in s
  {
    if s == {} then []
    else
      SmallestExists(s);
      var k :| k in s && IsSmallest(k, s);
      var r := SortedKeys(s - {k});
      assert multiset(s) == multiset(s - {k}) + multiset{k};
      [k] + r
  }

  lemma {:induction false} SortedKeysSorted(s: set<string>)
    ensures Sorted(SortedKeys(s), x => x) && DistinctKeys(SortedKeys(s), x => x)
  {
    hide LessEq;
    if s != {} {
      SmallestExists(s);
      var r := SortedKeys(s);
      var k := r[0];
      assert k in s && IsSmallest(k, s) && r[1..] == SortedKeys(s - {k});
      SortedKeysSorted(s - {k});
      SortedCons(k, r[1..]);
      assert r == [k] + r[1..];
    }
  }

  lemma SortedCons(k: string, r: seq<string>)
    requires Sorted(r, x => x) && DistinctKeys(r, x => x)
    requires forall x :: x in r ==> LessEq(k, x) && k != x
    ensures Sorted([k] + r, x => x) && DistinctKeys([k] + r, x => x)
  {
    hide LessEq;
  }

  // ---------- splitting and joining ----------

  /** Go's strings.Split and Python's str.split, at a one-character separator. */
  function Split(s: string, sep: char): (r: seq<string>)
    ensures |r| >= 1
    ensures forall i :: 0 <= i < |r| ==> sep !in r[i]
  {
    if s == "" then [""]
    else
      var rest := Split(s[1..], sep);
      if s[0] == sep then [""] + rest else [[s[0]] + rest[0]] + rest[1..]
  }

  /** Go's strings.Join with a one-character separator. */
  function Join(parts: seq<string>, sep: char): string {
    if |parts| == 0 then ""
    else if |parts| == 1 then parts[0]
    else parts[0] + [sep] + Join(parts[1..], sep)
  }

  lemma {:induction false} JoinOfSplit(s: string, sep: char)
    ensures Join(Split(s, sep), sep) == s
  {
    if s != "" {
      var rest := Split(s[1..], sep);
      JoinOfSplit(s[1..], sep);
      if s[0] == sep {
        assert ([""] + rest)[1..] == rest;
        assert s == "" + [sep] + s[1..];
      } else {
        JoinCons([s[0]], rest, sep);
        assert s == [s[0]] + s[1..];
      }
    }
  }

  lemma JoinCons(p: string, rest: seq<string>, sep: char)
    requires rest != []
    ensures Join([p + rest[0]] + rest[1..], sep) == p + Join(rest, sep)
  {
    var parts := [p + rest[0]] + rest[1..];
    if |rest| > 1 {
      assert parts[1..] == rest[1..];
      assert Join(parts, sep) == p + (rest[0] + [sep] + Join(rest[1..], sep));
    }
  }

  /** The text before the first separator is the first part. */
  lemma {:induction false} SplitAtFirst(p: string, t: string, sep: char)
    requires sep !in p
    ensures Split(p + [sep] + t, sep) == [p] + Split(t, sep)
  {
    var s := p + [sep] + t;
    if p == "" {
      assert s[1..] == t;
    } else {
      assert s[1..] == p[1..] + [sep] + t;
      SplitAtFirst(p[1..], t, sep);
      assert p == [p[0]] + p[1..];
    }
  }

  lemma {:induction false} SplitWithoutSeparator(p: string, sep: char)
    requires sep !in p
    ensures Split(p, sep) == [p]
  {
    if p != "" {
      SplitWithoutSeparator(p[1..], sep);
      assert p == [p[0]] + p[1..];
    }
  }

  lemma {:induction false} SplitOfJoin(parts: seq<string>, sep: char)
    requires parts != []
    requires forall i :: 0 <= i < |parts| ==> sep !in parts[i]
    ensures Split(Join(parts, sep), sep) == parts
  {
    if |parts| == 1 {
      SplitWithoutSeparator(parts[0], sep);
    } else {
      SplitOfJoin(parts[1..], sep);
      SplitAtFirst(parts[0], Join(parts[1..], sep), sep);
      assert Join(parts, sep) == parts[0] + [sep] + Join(parts[1..], sep);
      assert parts == [parts[0]] + parts[1..];
    }
  }

  /** Cutting at the first separator, as strings.SplitN(s, sep, 2) does when it is there. */
  function Cut(s: string, sep: char): (r: (string, string))
    requires sep in s
    ensures sep !in r.0 && s == r.0 + [sep] + r.1
  {
    if s[0] == sep then ("", s[1..])
    else var (a, b) := Cut(s[1..], sep); ([s[0]] + a, b)
  }

  lemma {:induction false} CutUnique(a: string, b: string, sep: char)
    requires sep !in a
    ensures Cut(a + [sep] + b, sep) == (a, b)
  {
    var s := a + [sep] + b;
    if a == "" {
      assert s[1..] == b;
    } else {
      assert s[1..] == a[1..] + [sep] + b;
      CutUnique(a[1..], b, sep);
      assert a == [a[0]] + a[1..];
    }
  }

  // ---------- decimal numbers ----------

  function Digit(d: nat): char
    requires d < 10
  {
    '0' + (d as char)
  }

  function DecimalNat(n: nat): (r: string)
    ensures r != "" && forall c :: c in r ==> '0' <= c <= '9'
  {
    if n < 10 then [Digit(n)] else DecimalNat(n / 10) + [Digit(n % 10)]
  }

  /** A whole number in decimal, as %d and a JavaScript template literal print it. */
  function Decimal(n: int): (r: string)
    ensures r != "" && forall c :: c in r ==> c == '-' || '0' <= c <= '9'
  {
    if n < 0 then "-" + DecimalNat(-n) else DecimalNat(n)
  }

  /** The number a string of digits stands for. */
  function Value(digits: string): nat {
    if digits == "" then 0
    else
      var d := digits[|digits| - 1];
      10 * Value(digits[..|digits| - 1]) + (if '0' <= d <= '9' then d as int - '0' as int else 0)
  }

  lemma {:induction false} ValueOfDecimalNat(n: nat)
    ensures Value(DecimalNat(n)) == n && (n > 0 ==> DecimalNat(n)[0] != '0')
  {
    var r := DecimalNat(n);
    if n >= 10 {
      ValueOfDecimalNat(n / 10);
      assert r[..|r| - 1] == DecimalNat(n / 10);
    }
  }

  /** The digits stand for the number, without a zero in front, after a sign where it is negative. */
  lemma DecimalExactly(n: int)
    ensures n >= 0 ==> Value(Decimal(n)) == n
    ensures n < 0 ==> Decimal(n)[0] == '-' && Value(Decimal(n)[1..]) == -n
    ensures n > 0 ==> Decimal(n)[0] != '0' && Decimal(0) == "0"
  {
    ValueOfDecimalNat(if n < 0 then -n else n);
  }

  lemma {:induction false} DecimalNatInjective(m: nat, n: nat)
    requires DecimalNat(m) == DecimalNat(n)
    ensures m == n
  {
    var a, b := DecimalNat(m), DecimalNat(n);
    assert a[|a| - 1] == Digit(m % 10) && b[|b| - 1] == Digit(n % 10);
    if m >= 10 && n >= 10 {
      assert DecimalNat(m / 10) == a[..|a| - 1] == b[..|b| - 1] == DecimalNat(n / 10);
      DecimalNatInjective(m / 10, n / 10);
    }
  }

  lemma DecimalInjective(m: int, n: int)
    requires Decimal(m) == Decimal(n)
    ensures m == n
  {
    assert m >= 0 ==> DecimalNat(m)[0] in DecimalNat(m);
    assert n >= 0 ==> DecimalNat(n)[0] in DecimalNat(n);
    if m < 0 {
      assert DecimalNat(-m) == Decimal(m)[1..] == Decimal(n)[1..] == DecimalNat(-n);
      DecimalNatInjective(-m, -n);
    } else {
      DecimalNatInjective(m, n);
    }
  }
}
