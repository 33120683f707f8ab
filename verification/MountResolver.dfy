/**
 From a mount path to its device, twice (mountPathToDeviceId in
 backend/src/converter/goverter.go and PathToSource in backend/src/converter/config_to_dto.go),
 and between devices and their by-id names. The mount table and the file system stand still.
 */
module MountResolver {
  import opened Wrappers

  datatype Mount = Mount(dir: string, source: string)

  /** Whether a table entry answers for a path: `same` is the same-filesystem test. */
  predicate Answers(m: Mount, same: (string, string) -> bool, path: string) {
    m.dir == path || same(path, m.dir)
  }

  /** The first entry that answers for a path; |t| if there is none. */
  function First(t: seq<Mount>, same: (string, string) -> bool, path: string): (i: nat)
    ensures i <= |t| && (i < |t| ==> Answers(t[i], same, path))
    ensures forall j :: 0 <= j < i ==> !Answers(t[j], same, path)
  {
    if t == [] then 0
    else if Answers(t[0], same, path) then 0
    else 1 + First(t[1..], same, path)
  }

  /** An entry for the path itself answers, whatever the file systems are; and it comes before the
      entry that shares a file system only if it stands before it. */
  lemma DirectEntryAnswers(t: seq<Mount>, same: (string, string) -> bool, path: string, i: nat)
    requires i < |t| && t[i].dir == path
    ensures First(t, same, path) <= i
    ensures (forall j :: 0 <= j < i ==> t[j].dir != path && !same(path, t[j].dir)) ==> First(t, same, path) == i
  {
    assert Answers(t[i], same, path);
  }

  /** An entry on the file system of the path answers as well. */
  lemma SharedEntryAnswers(t: seq<Mount>, same: (string, string) -> bool, path: string, i: nat)
    requires i < |t| && same(path, t[i].dir)
    ensures First(t, same, path) <= i
  {
    assert Answers(t[i], same, path);
  }

  /** The entry mountPathToDeviceId ends at. It terminates for every relation: the directory of
      an entry is answered for by that entry at the latest, and then exactly. */
  function Resolved(t: seq<Mount>, same: (string, string) -> bool, path: string): Option<nat>
    decreases First(t, same, path), if First(t, same, path) < |t| && t[First(t, same, path)].dir != path then 1 else 0
  {
    var i := First(t, same, path);
    if i == |t| then None
    else if t[i].dir == path then Some(i)
    else Resolved(t, same, t[i].dir)
  }

  lemma {:induction false} ResolvedAtMost(t: seq<Mount>, same: (string, string) -> bool, path: string)
    ensures First(t, same, path) < |t| <==> Resolved(t, same, path).Some?
    ensures Resolved(t, same, path).Some? ==> Resolved(t, same, path).value <= First(t, same, path)
    decreases First(t, same, path), if First(t, same, path) < |t| && t[First(t, same, path)].dir != path then 1 else 0
  {
    var i := First(t, same, path);
    if i < |t| && t[i].dir != path {
      ResolvedAtMost(t, same, t[i].dir);
    }
  }

  /** Both functions meet the same entry exactly when the first entry that answers for the path
      is also the first that answers for that entry's own directory. */
  lemma SameEntryExactly(t: seq<Mount>, same: (string, string) -> bool, path: string)
    requires First(t, same, path) < |t|
    ensures var i := First(t, same, path);
      Resolved(t, same, path) == Some(i) <==> t[i].dir == path || forall j :: 0 <= j < i ==> !same(t[i].dir, t[j].dir)
  {
    var i := First(t, same, path);
    if t[i].dir != path {
      ResolvedAtMost(t, same, t[i].dir);
      var k := First(t, same, t[i].dir);
      assert k <= i;
      if forall j :: 0 <= j < i ==> !same(t[i].dir, t[j].dir) {
        assert forall j :: 0 <= j < i ==> t[j].dir != t[i].dir;
        assert k == i;
      } else {
        var j :| 0 <= j < i && same(t[i].dir, t[j].dir);
        assert k <= j;
      }
    }
  }

  /** So they agree for every relation that is symmetric and transitive, */
  lemma EquivalenceAgrees(t: seq<Mount>, same: (string, string) -> bool, path: string)
    requires forall a, b :: same(a, b) ==> same(b, a)
    requires forall a, b, c :: same(a, b) && same(b, c) ==> same(a, c)
    ensures First(t, same, path) < |t| ==> Resolved(t, same, path) == Some(First(t, same, path))
    ensures First(t, same, path) == |t| ==> Resolved(t, same, path) == None
  {
    var i := First(t, same, path);
    if i < |t| {
      SameEntryExactly(t, same, path);
      if t[i].dir != path {
        forall j | 0 <= j < i
          ensures !same(t[i].dir, t[j].dir)
        {
          assert !Answers(t[j], same, path);
          assert same(path, t[i].dir);
        }
      }
    }
  }

  /** as the comparison of device numbers is, even though it is not reflexive: a path that
      cannot be examined is on no file system. */
  function SameDevice(dev: string -> Option<nat>): (string, string) -> bool {
    (a, b) => dev(a).Some? && dev(a) == dev(b)
  }

  lemma DeviceNumbersAgree(t: seq<Mount>, dev: string -> Option<nat>, path: string)
    ensures var same := SameDevice(dev);
      Resolved(t, same, path) == if First(t, same, path) < |t| then Some(First(t, same, path)) else None
  {
    EquivalenceAgrees(t, SameDevice(dev), path);
  }

  // ---------- devices and their names ----------

  const BY_ID := "/dev/disk/by-id/"

  /** The entries of the by-id directory in listing order, and what a path resolves to;
      None if it does not exist. */
  datatype Disks = Disks(entries: Option<seq<(string, bool)>>, resolve: string -> Option<string>)

  predicate Matches(fs: Disks, e: (string, bool), source: string) {
    e.1 && fs.resolve(BY_ID + e.0).Some? && (fs.resolve(BY_ID + e.0).value == source || BY_ID + e.0 == source)
  }

  function FirstMatch(fs: Disks, es: seq<(string, bool)>, source: string): (r: Option<string>)
    ensures r.None? <==> forall e :: e in es ==> !Matches(fs, e, source)
    ensures r.Some? ==> (r.value, true) in es && Matches(fs, (r.value, true), source)
    ensures r.Some? ==> exists i :: FirstAt(fs, es, source, i) && es[i].0 == r.value
  {
    if es == [] then None
    else if Matches(fs, es[0], source) then
      assert FirstAt(fs, es, source, 0);
      Some(es[0].0)
    else
      var r := FirstMatch(fs, es[1..], source);
      assert r.Some? ==> exists i :: FirstAt(fs, es, source, i) && es[i].0 == r.value by {
        if i :| FirstAt(fs, es[1..], source, i) && es[1..][i].0 == r.value {
          assert FirstAt(fs, es, source, i + 1);
        }
      }
      r
  }

  /** Entry `i` matches and none before it does. */
  ghost predicate FirstAt(fs: Disks, es: seq<(string, bool)>, source: string, i: int) {
    0 <= i < |es| && Matches(fs, es[i], source) && forall j :: 0 <= j < i ==> !Matches(fs, es[j], source)
  }

  /** A link in /dev/disk/by-id matches the device it leads to and its own path. */
  lemma MatchesExactly(fs: Disks, name: string, link: bool, source: string)
    ensures Matches(fs, (name, link), source) <==>
      && link && fs.resolve("/dev/disk/by-id/" + name).Some?
      && (fs.resolve("/dev/disk/by-id/" + name) == Some(source) || source == "/dev/disk/by-id/" + name)
    ensures DeviceIdToDevice(fs, name).1 <==> fs.resolve("/dev/disk/by-id/" + name).Some?
    ensures !DeviceIdToDevice(fs, name).1 ==> DeviceIdToDevice(fs, name).0 == "/dev/disk/by-id/" + name
  {}

  method DeviceToDeviceId(fs: Disks, source: string) returns (deviceId: string)
    ensures deviceId == DeviceIdOf(fs, source)
  {
    deviceId := source;
    if fs.entries.Some? {
      var es := fs.entries.value;
      var i := 0;
      while i < |es|
        invariant 0 <= i <= |es|
        invariant FirstMatch(fs, es, source) == FirstMatch(fs, es[i..], source)
      {
        if es[i].1 {
          var resolved := fs.resolve(BY_ID + es[i].0);
          if resolved.Some? && (resolved.value == source || BY_ID + es[i].0 == source) {
            deviceId := es[i].0;
            return;
          }
        }
        i := i + 1;
      }
    }
  }

  function DeviceIdOf(fs: Disks, source: string): string {
    var m := if fs.entries.Some? then FirstMatch(fs, fs.entries.value, source) else None;
    if m.Some? then m.value else source
  }

  /** The path and whether it exists; the link path itself where it does not. */
  function DeviceIdToDevice(fs: Disks, name: string): (string, bool) {
    var resolved := fs.resolve(BY_ID + name);
    if resolved.Some? then (resolved.value, true) else (BY_ID + name, false)
  }

  predicate ReachedByLink(fs: Disks, d: string) {
    fs.entries.Some? && exists e :: e in fs.entries.value && e.1 && fs.resolve(BY_ID + e.0) == Some(d)
  }

  /** A resolved path contains no link, as filepath.EvalSymlinks promises. */
  ghost predicate Resolving(fs: Disks) {
    forall p, q :: fs.resolve(p) == Some(q) ==> fs.resolve(q) == Some(q)
  }

  /** Where deviceToDeviceId finds a name for a device, DeviceIdToDevice leads back to it exactly
      when some by-id link leads to it; the others are named by their own link path. */
  lemma DeviceRoundTripExactly(fs: Disks, d: string)
    requires Resolving(fs) && fs.entries.Some? && FirstMatch(fs, fs.entries.value, d).Some?
    ensures DeviceIdToDevice(fs, DeviceIdOf(fs, d)) == (d, true) <==> ReachedByLink(fs, d)
    ensures !ReachedByLink(fs, d) ==> d == BY_ID + DeviceIdOf(fs, d)
  {
    var name := FirstMatch(fs, fs.entries.value, d).value;
    assert Matches(fs, (name, true), d);
    if DeviceIdToDevice(fs, DeviceIdOf(fs, d)) == (d, true) {
      assert (name, true) in fs.entries.value && fs.resolve(BY_ID + (name, true).0) == Some(d);
    }
  }

  /** Every device some by-id link leads to has a name that leads back to it. */
  lemma LinkedDeviceRoundTrip(fs: Disks, d: string)
    requires Resolving(fs) && ReachedByLink(fs, d)
    ensures DeviceIdToDevice(fs, DeviceIdOf(fs, d)) == (d, true)
  {
    var e :| e in fs.entries.value && e.1 && fs.resolve(BY_ID + e.0) == Some(d);
    assert Matches(fs, e, d);
    DeviceRoundTripExactly(fs, d);
  }

  /** A mount source that is itself a by-id path is not led back to: the way back ends at the
      device behind it. */
  lemma LinkPathNotLedBack(fs: Disks, name: string, x: string)
    requires fs.entries == Some([(name, true)]) && fs.resolve(BY_ID + name) == Some(x) && x != BY_ID + name
    ensures DeviceIdToDevice(fs, DeviceIdOf(fs, BY_ID + name)) == (x, true) != (BY_ID + name, true)
  {
    assert Matches(fs, (name, true), BY_ID + name);
  }

  // ---------- the lookups as the source writes them ----------

  method MountPathToDeviceId(fs: Disks, info: Option<seq<Mount>>, same: (string, string) -> bool, path: string)
      returns (id: string)
    ensures info.None? ==> id == ""
    ensures info.Some? ==>
      id == if Resolved(info.value, same, path).Some?
          then DeviceIdOf(fs, info.value[Entry(info.value, same, path)].source) else ""
    decreases if info.Some? then First(info.value, same, path) else 0,
              if info.Some? && First(info.value, same, path) < |info.value| &&
                  info.value[First(info.value, same, path)].dir != path then 1 else 0
  {
    if info.None? {
      return "";
    }
    var t := info.value;
    for i := 0 to |t|
      invariant First(t, same, path) >= i
    {
      if t[i].dir == path {
        assert First(t, same, path) == i;
        id := DeviceToDeviceId(fs, t[i].source);
        return;
      } else if same(path, t[i].dir) {
        assert First(t, same, path) == i;
        id := MountPathToDeviceId(fs, info, same, t[i].dir);
        return;
      }
    }
    id := "";
  }

  function Entry(t: seq<Mount>, same: (string, string) -> bool, path: string): (i: nat)
    requires Resolved(t, same, path).Some?
    ensures i < |t|
  {
    ResolvedAtMost(t, same, path);
    Resolved(t, same, path).value
  }

  function WithoutDev(s: string): string {
    if "/dev/" <= s then s[5..] else s
  }

  /** Exactly the prefix /dev/ goes. */
  lemma WithoutDevExactly(s: string)
    ensures WithoutDev("/dev/" + s) == s
    ensures !("/dev/" <= s) ==> WithoutDev(s) == s
    ensures "/dev/" <= s ==> "/dev/" + WithoutDev(s) == s
  {
    assert ("/dev/" + s)[5..] == s;
  }

  method PathToSource(info: Option<seq<Mount>>, same: (string, string) -> bool, path: string) returns (source: string)
    ensures info.None? ==> source == ""
    ensures info.Some? ==>
      source == if First(info.value, same, path) < |info.value|
          then WithoutDev(info.value[First(info.value, same, path)].source) else ""
  {
    if info.None? {
      return "";
    }
    var t := info.value;
    for i := 0 to |t|
      invariant First(t, same, path) >= i
    {
      if t[i].dir == path {
        assert First(t, same, path) == i;
        return WithoutDev(t[i].source);
      } else if same(path, t[i].dir) {
        assert First(t, same, path) == i;
        return WithoutDev(t[i].source);
      }
    }
    source := "";
  }
}
