/**
 A snapshot is a finite tree of fixed depth whatever the graph was, shows what the graph
 shows, and is out of reach of every later operation on the disk index.
 */
module SnapshotLaws {
  import opened Wrappers
  import opened Disks
  import opened DiskLaws
  import opened Snapshot

  // ---------- finite depth ----------

  lemma ShareEnds(h: Heap, s: Share)
    requires s.mount.None?
    ensures EndsWithin(h, AtShare(s), 1)
  {}

  lemma MountCopyEnds(h: Heap, m: MountPoint, lo: Ref)
    requires MountCopy(h, m, lo)
    ensures EndsWithin(h, AtMount(m), 2)
  {
    forall b | Edge(h, AtMount(m), b)
      ensures EndsWithin(h, b, 1)
    {
      ShareEnds(h, b.s);
    }
  }

  lemma ShareCopyEnds(h: Heap, s: Share, lo: Ref)
    requires ShareCopy(h, s, lo)
    ensures EndsWithin(h, AtShare(s), 2)
  {
    forall b | Edge(h, AtShare(s), b)
      ensures EndsWithin(h, b, 1)
    {
      assert b == AtMount(h.points[s.mount.value]);
    }
  }

  lemma MountsCopyEnds(h: Heap, r: Ref, lo: Ref)
    requires MountsCopy(h, Some(r), lo)
    ensures EndsWithin(h, AtMounts(r), 3)
  {
    forall b | Edge(h, AtMounts(r), b)
      ensures EndsWithin(h, b, 2)
    {
      var k :| k in h.mounts[r] && h.mounts[r][k] == b.m;
      MountCopyEnds(h, h.mounts[r][k], lo);
    }
  }

  lemma PartitionCopyEnds(h: Heap, p: Partition, lo: Ref)
    requires PartitionCopy(h, p, lo)
    ensures EndsWithin(h, AtPartition(p), 4)
  {
    forall b | Edge(h, AtPartition(p), b)
      ensures EndsWithin(h, b, 3)
    {
      MountsCopyEnds(h, b.r, lo);
    }
  }

  /** The longest path in the copy of a disk is disk, partition map, partition, mount map, mount
      point, share. */
  lemma DiskCopyEnds(h: Heap, d: Disk, lo: Ref)
    requires DiskCopy(h, d, lo)
    ensures EndsWithin(h, AtDisk(d), 6)
  {
    forall b | Edge(h, AtDisk(d), b)
      ensures EndsWithin(h, b, 5)
    {
      TableCopyEnds(h, b.r, lo);
    }
  }

  lemma TableCopyEnds(h: Heap, r: Ref, lo: Ref)
    requires r in h.tables && forall k :: k in h.tables[r] ==> PartitionCopy(h, h.tables[r][k], lo)
    ensures EndsWithin(h, AtTable(r), 5)
  {
    forall b | Edge(h, AtTable(r), b)
      ensures EndsWithin(h, b, 4)
    {
      var k :| k in h.tables[r] && h.tables[r][k] == b.p;
      PartitionCopyEnds(h, h.tables[r][k], lo);
    }
  }

  lemma {:induction false} CycleNeverEnds(h: Heap, r: Ref, m: MountPoint, p: Partition, n: nat)
    requires Edge(h, AtMounts(r), AtMount(m)) && Edge(h, AtMount(m), AtPartition(p)) &&
        Edge(h, AtPartition(p), AtMounts(r))
    ensures !EndsWithin(h, AtMounts(r), n)
    decreases n
  {
    if EndsWithin(h, AtMounts(r), n) {
      assert EndsWithin(h, AtMount(m), n - 1);
      assert EndsWithin(h, AtPartition(p), n - 2);
      assert EndsWithin(h, AtMounts(r), n - 3);
      CycleNeverEnds(h, r, m, p, n - 3);
    }
  }

  /** Storing a mount point without a partition makes the graph of the live index endless:
      no bound holds for it, while six levels do for its snapshot. */
  lemma LiveGraphNeverEnds(s: State, dk: string, pk: string, mp: MountPoint, s2: State, n: nat)
    requires Inv(s) && mp.partition.None?
    requires Step(s, PutMountPoint(dk, pk, mp), s2) && Effective(s, PutMountPoint(dk, pk, mp))
    ensures MountsRef(s2, dk, pk).Some? && !EndsWithin(s2.heap, AtMounts(MountsRef(s2, dk, pk).value), n)
  {
    MountPointPutBuildsCycle(s, dk, pk, mp, s2);
    var m := Slot(s2, dk, pk, mp.path).value;
    var p := s2.heap.parts[m.partition.value];
    var r := MountsRef(s2, dk, pk).value;
    assert mp.path in s2.heap.mounts[r] && s2.heap.mounts[r][mp.path] == m;
    CycleNeverEnds(s2.heap, r, m, p, n);
  }

  // ---------- the dispatcher ----------

  /** The payload types SanitizeWebEventData tells apart; anything else passes through. */
  datatype Payload =
    | DiskSlice(disks: Option<seq<Option<Ref>>>)
    | ShareSlice(shares: Option<seq<Share>>)
    | ShareValue(share: Share)
    | SharePointer(shareRef: Option<Ref>)
    | MountValue(mount: MountPoint)
    | MountPointer(mountRef: Option<Ref>)
    | Other(text: string)

  ghost predicate ShareAllSound(h: Heap, s: Share) {
    ShareSound(h, s) && (s.mount.Some? ==> MountSound(h, h.points[s.mount.value]))
  }

  ghost predicate DiskPointerSound(h: Heap, d: Option<Ref>) {
    d.Some? ==> d.value in h.disks && DiskSound(h, h.disks[d.value])
  }

  ghost predicate Sound(h: Heap, p: Payload) {
    match p
    case DiskSlice(ds) => ds.Some? ==> forall i :: 0 <= i < |ds.value| ==> DiskPointerSound(h, ds.value[i])
    case ShareSlice(ss) => ss.Some? ==> forall i :: 0 <= i < |ss.value| ==> ShareAllSound(h, ss.value[i])
    case ShareValue(s) => ShareAllSound(h, s)
    case SharePointer(r) => r.Some? ==> r.value in h.shares && ShareAllSound(h, h.shares[r.value])
    case MountValue(m) => MountSound(h, m)
    case MountPointer(r) => r.Some? ==> r.value in h.points && MountSound(h, h.points[r.value])
    case Other(_) => true
  }

  /** `q` is a snapshot of `p`: fresh, a tree, and showing the same. */
  ghost predicate SnapshotOf(h: Heap, p: Payload, h2: Heap, q: Payload) {
    match (p, q)
    case (DiskSlice(a), DiskSlice(b)) => (a.Some? <==> b.Some?) && (a.Some? ==> DisksCopied(h, a.value, h2, b.value))
    case (ShareSlice(a), ShareSlice(b)) => (a.Some? <==> b.Some?) && (a.Some? ==> SharesCopied(h, a.value, h2, b.value))
    case (ShareValue(a), ShareValue(b)) => ShareCopied(h, a, h2, b)
    case (SharePointer(a), SharePointer(b)) => (a.Some? <==> b.Some?) &&
      (a.Some? ==>
        && b.value >= h.next && a.value in h.shares && b.value in h2.shares
        && ShareCopied(h, h.shares[a.value], h2, h2.shares[b.value]))
    case (MountValue(a), MountValue(b)) => MountCopied(h, a, h2, b)
    case (MountPointer(a), MountPointer(b)) => (a.Some? <==> b.Some?) &&
      (a.Some? ==>
        && b.value >= h.next && a.value in h.points && b.value in h2.points
        && MountCopied(h, h.points[a.value], h2, h2.points[b.value]))
    case (Other(a), Other(b)) => a == b && h2 == h
    case _ => false
  }

  ghost predicate DiskCopied(h: Heap, a: Option<Ref>, h2: Heap, b: Option<Ref>) {
    && (a.Some? <==> b.Some?)
    && (a.Some? ==>
          && b.value >= h.next && a.value in h.disks && b.value in h2.disks
          && DiskCopy(h2, h2.disks[b.value], h.next) && EndsWithin(h2, AtDisk(h2.disks[b.value]), 6)
          && DiskUnshared(h2, h2.disks[b.value]) && b.value !in DiskRefs(h2, h2.disks[b.value])
          && TreeOfDisk(h2, h2.disks[b.value]) == TreeOfDisk(h, h.disks[a.value]))
  }

  ghost predicate DisksCopied(h: Heap, a: seq<Option<Ref>>, h2: Heap, b: seq<Option<Ref>>) {
    |a| == |b| && (forall i :: 0 <= i < |a| ==> DiskCopied(h, a[i], h2, b[i])) && DisksUnshared(h2, b)
  }

  /** The references of a disk pointer and of what it reaches. */
  function PointerRefs(h: Heap, d: Option<Ref>): set<Ref> {
    if d.Some? && d.value in h.disks then {d.value} + DiskRefs(h, h.disks[d.value]) else {}
  }

  /** Each disk keeps its references to itself. */
  ghost predicate DisksUnshared(h: Heap, ds: seq<Option<Ref>>) {
    forall i, j :: 0 <= i < j < |ds| ==> PointerRefs(h, ds[i]) !! PointerRefs(h, ds[j])
  }

  ghost predicate SharesUnshared(ss: seq<Share>) {
    forall i, j :: 0 <= i < j < |ss| && ss[i].mount.Some? ==> ss[i].mount != ss[j].mount
  }

  ghost predicate ShareCopied(h: Heap, a: Share, h2: Heap, b: Share) {
    ShareCopy(h2, b, h.next) && EndsWithin(h2, AtShare(b), 2) && TreeOfShare(h2, b) == TreeOfShare(h, a)
  }

  ghost predicate SharesCopied(h: Heap, a: seq<Share>, h2: Heap, b: seq<Share>) {
    |a| == |b| && (forall i :: 0 <= i < |a| ==> ShareCopied(h, a[i], h2, b[i])) && SharesUnshared(b)
  }

  ghost predicate MountCopied(h: Heap, a: MountPoint, h2: Heap, b: MountPoint) {
    MountCopy(h2, b, h.next) && EndsWithin(h2, AtMount(b), 2) && TreeOfMount(h2, b, true) == TreeOfMount(h, a, true)
  }

  method SanitizeWebEventData(h: Heap, data: Payload) returns (h2: Heap, safe: Payload)
    requires Fresh(h) && Sound(h, data)
    ensures Grows(h, h2)
    ensures SnapshotOf(h, data, h2, safe)
    ensures View(h2, safe) == View(h, data) == View(h2, data)
  {
    hide Grows, Fresh, ShareSound, MountSound, DiskPointerSound, DiskCopied, DisksCopied, SharesCopied, EndsWithin,
        View;
    hide TreeOfDisk, TreeOfShare, TreeOfMount, DiskCopy, ShareCopy, MountCopy;
    NothingGrows(h);
    h2, safe := h, data;
    match data {
      case DiskSlice(disks) =>
        if disks.Some? {
          var cloned;
          h2, cloned := SnapshotDiskSlice(h, disks.value);
          safe := DiskSlice(Some(cloned));
        }
      case ShareSlice(shares) =>
        if shares.Some? {
          var cloned;
          h2, cloned := SnapshotShareSlice(h, shares.value);
          safe := ShareSlice(Some(cloned));
        }
      case ShareValue(share) =>
        var cloned;
        h2, cloned := SnapshotShare(h, share, true);
        ShareCopyEnds(h2, cloned, h.next);
        safe := ShareValue(cloned);
      case SharePointer(r) =>
        if r.Some? {
          var cloned;
          h2, cloned := SnapshotShareTarget(h, r.value);
          safe := SharePointer(Some(cloned));
        }
      case MountValue(mount) =>
        var cloned;
        h2, cloned := SnapshotMount(h, mount, true);
        MountCopyEnds(h2, cloned, h.next);
        safe := MountValue(cloned);
      case MountPointer(r) =>
        if r.Some? {
          var cloned;
          h2, cloned := SnapshotMountTarget(h, r.value);
          safe := MountPointer(Some(cloned));
        }
      case Other(_) =>
    }
    SnapshotShowsTheSame(h, data, h2, safe);
    SourceStays(h, h2, data);
  }

  method SnapshotShareTarget(h: Heap, r: Ref) returns (h2: Heap, cloned: Ref)
    requires Fresh(h) && r in h.shares && ShareAllSound(h, h.shares[r])
    ensures Grows(h, h2) && cloned >= h.next && cloned in h2.shares
    ensures ShareCopied(h, h.shares[r], h2, h2.shares[cloned])
  {
    var h1, copy := SnapshotShare(h, h.shares[r], true);
    h2 := h1.(shares := h1.shares[h1.next := copy], next := h1.next + 1);
    cloned := h1.next;
    PointerGrows(h, h1, MountPoint("", "", None, None, ""), copy);
    ShareCopyStays(h1, h2, copy, h.next);
    ShareCopyEnds(h2, copy, h.next);
  }

  method SnapshotMountTarget(h: Heap, r: Ref) returns (h2: Heap, cloned: Ref)
    requires Fresh(h) && r in h.points && MountSound(h, h.points[r])
    ensures Grows(h, h2) && cloned >= h.next && cloned in h2.points
    ensures MountCopied(h, h.points[r], h2, h2.points[cloned])
  {
    var h1, copy := SnapshotMount(h, h.points[r], true);
    h2 := h1.(points := h1.points[h1.next := copy], next := h1.next + 1);
    cloned := h1.next;
    PointerGrows(h, h1, copy, Share("", [], [], [], None, ""));
    MountCopyStays(h1, h2, copy, h.next);
    MountCopyEnds(h2, copy, h.next);
  }

  lemma PointerGrows(h: Heap, h1: Heap, m: MountPoint, s: Share)
    requires Fresh(h) && Grows(h, h1)
    ensures var h2 := h1.(points := h1.points[h1.next := m], next := h1.next + 1); Grows(h, h2) && Grows(h1, h2)
    ensures var h2 := h1.(shares := h1.shares[h1.next := s], next := h1.next + 1); Grows(h, h2) && Grows(h1, h2)
  {
    var h2 := h1.(points := h1.points[h1.next := m], next := h1.next + 1);
    var h3 := h1.(shares := h1.shares[h1.next := s], next := h1.next + 1);
    GrowsFresh(h, h1);
    PointGrows(h1, m);
    ShareGrows(h1, s);
    hide Grows;
    GrowsTransitive(h, h1, h2);
    GrowsTransitive(h, h1, h3);
  }

  lemma PointGrows(h: Heap, m: MountPoint)
    requires Fresh(h)
    ensures Grows(h, h.(points := h.points[h.next := m], next := h.next + 1))
  {}

  lemma ShareGrows(h: Heap, s: Share)
    requires Fresh(h)
    ensures Grows(h, h.(shares := h.shares[h.next := s], next := h.next + 1))
  {}

  lemma ShareCopyStays(h: Heap, h2: Heap, s: Share, lo: Ref)
    requires Grows(h, h2) && ShareCopy(h, s, lo)
    ensures ShareCopy(h2, s, lo) && TreeOfShare(h2, s) == TreeOfShare(h, s)
  {}

  lemma ShareSoundStays(h: Heap, h2: Heap, s: Share)
    requires Grows(h, h2) && ShareAllSound(h, s)
    ensures ShareAllSound(h2, s) && TreeOfShare(h2, s) == TreeOfShare(h, s)
  {}

  lemma DiskSoundStays(h: Heap, h2: Heap, d: Option<Ref>)
    requires Grows(h, h2) && DiskPointerSound(h, d)
    ensures DiskPointerSound(h2, d)
    ensures d.Some? ==> TreeOfDisk(h2, h2.disks[d.value]) == TreeOfDisk(h, h.disks[d.value])
  {
    if d.Some? && h.disks[d.value].partitions.Some? {
      var t := h.tables[h.disks[d.value].partitions.value];
      forall k | k in t
        ensures PartitionSound(h2, t[k]) && TreeOfPartition(h2, t[k]) == TreeOfPartition(h, t[k])
      {
        PartitionSoundStays(h, h2, t[k]);
      }
      assert TreeOfDisk(h2, h2.disks[d.value]).partitions.value == TreeOfDisk(h, h.disks[d.value]).partitions.value;
    }
  }

  method SnapshotDiskSlice(h: Heap, disks: seq<Option<Ref>>) returns (h2: Heap, cloned: seq<Option<Ref>>)
    requires Fresh(h) && forall i :: 0 <= i < |disks| ==> DiskPointerSound(h, disks[i])
    ensures Grows(h, h2) && DisksCopied(h, disks, h2, cloned)
  {
    hide Grows, DiskPointerSound, DiskCopied, PointerRefs;
    NothingGrows(h);
    h2, cloned := h, [];
    for i := 0 to |disks|
      invariant Fresh(h2) && Grows(h, h2)
      invariant DisksCopied(h, disks[..i], h2, cloned)
    {
      hide Grows, Fresh, DiskPointerSound, DiskCopied, DisksUnshared;
      DiskSoundStays(h, h2, disks[i]);
      var before, copy := h2, disks[i];
      h2, copy := SnapshotOneDisk(h, h2, disks[i]);
      forall j | 0 <= j < i
        ensures DiskCopied(h, disks[j], h2, cloned[j])
      {
        assert DiskCopied(h, disks[..i][j], before, cloned[j]);
        DiskCopiedStays(h, disks[j], before, h2, cloned[j]);
      }
      NewDiskUnshared(h, disks[..i], before, h2, cloned, copy);
      cloned := cloned + [copy];
    }
    assert disks[..|disks|] == disks;
  }

  /** One round of the loop: the heap has grown from `h` to `h1` already. */
  method SnapshotOneDisk(ghost h: Heap, h1: Heap, src: Option<Ref>) returns (h2: Heap, copy: Option<Ref>)
    requires Fresh(h) && Grows(h, h1) && DiskPointerSound(h, src)
    ensures Fresh(h2) && Grows(h1, h2) && Grows(h, h2) && DiskCopied(h, src, h2, copy)
    ensures Within(PointerRefs(h2, copy), h1.next, h2.next)
  {
    hide Grows, Fresh, DiskCopy, DiskUnshared, TreeOfDisk, EndsWithin, DiskRefs;
    GrowsFresh(h, h1);
    DiskSoundStays(h, h1, src);
    h2, copy := SnapshotDisk(h1, src);
    GrowsTransitive(h, h1, h2);
    GrowsFresh(h1, h2);
    if src.Some? {
      DiskWithin(h2, h2.disks[copy.value], h1.next);
      DiskLower(h2, h2.disks[copy.value], h1.next, h.next);
      DiskCopyEnds(h2, h2.disks[copy.value], h.next);
    }
  }

  lemma NewDiskUnshared(h: Heap, a: seq<Option<Ref>>, h1: Heap, h2: Heap, b: seq<Option<Ref>>, copy: Option<Ref>)
    requires Fresh(h1) && Grows(h1, h2) && DisksCopied(h, a, h1, b) && Within(PointerRefs(h2, copy), h1.next, h2.next)
    ensures DisksUnshared(h2, b + [copy])
  {
    hide Grows, Fresh, DiskCopied, PointerRefs;
    forall i | 0 <= i < |b|
      ensures PointerRefs(h2, b[i]) == PointerRefs(h1, b[i]) && Within(PointerRefs(h1, b[i]), h.next, h1.next)
    {
      assert DiskCopied(h, a[i], h1, b[i]);
      PointerRefsStay(h, a[i], h1, h2, b[i]);
    }
  }

  lemma PointerRefsStay(h: Heap, a: Option<Ref>, h1: Heap, h2: Heap, b: Option<Ref>)
    requires Fresh(h1) && Grows(h1, h2) && DiskCopied(h, a, h1, b)
    ensures PointerRefs(h2, b) == PointerRefs(h1, b) && Within(PointerRefs(h1, b), h.next, h1.next)
  {
    hide Grows, Fresh, DiskCopy, DiskUnshared, TreeOfDisk, EndsWithin, DiskRefs;
    if b.Some? {
      DiskRefsStay(h1, h2, h1.disks[b.value], h.next);
      DiskWithin(h1, h1.disks[b.value], h.next);
      BelowNext(h1, h2, b.value);
    }
  }

  lemma BelowNext(h: Heap, h2: Heap, d: Ref)
    requires Fresh(h) && Grows(h, h2) && d in h.disks
    ensures d < h.next && d in h2.disks && h2.disks[d] == h.disks[d]
  {}

  lemma DiskLower(h: Heap, d: Disk, lo: Ref, lo2: Ref)
    requires DiskCopy(h, d, lo) && lo2 <= lo
    ensures DiskCopy(h, d, lo2)
  {
    if d.partitions.Some? {
      forall k | k in h.tables[d.partitions.value]
        ensures PartitionCopy(h, h.tables[d.partitions.value][k], lo2)
      {
        PartitionLower(h, h.tables[d.partitions.value][k], lo, lo2);
      }
    }
  }

  lemma DiskCopiedStays(h: Heap, a: Option<Ref>, h1: Heap, h2: Heap, b: Option<Ref>)
    requires Grows(h1, h2) && DiskCopied(h, a, h1, b)
    ensures DiskCopied(h, a, h2, b)
  {
    if a.Some? {
      DiskCopyStays(h1, h2, h1.disks[b.value], h.next);
      DiskRefsStay(h1, h2, h1.disks[b.value], h.next);
      DiskCopyEnds(h2, h2.disks[b.value], h.next);
    }
  }

  method SnapshotShareSlice(h: Heap, shares: seq<Share>) returns (h2: Heap, cloned: seq<Share>)
    requires Fresh(h) && forall i :: 0 <= i < |shares| ==> ShareAllSound(h, shares[i])
    ensures Grows(h, h2) && SharesCopied(h, shares, h2, cloned)
  {
    hide Grows, TreeOfShare, TreeOfMount, ShareCopy;
    NothingGrows(h);
    h2, cloned := h, [];
    for i := 0 to |shares|
      invariant Fresh(h2) && Grows(h, h2)
      invariant SharesCopied(h, shares[..i], h2, cloned)
    {
      hide SharesUnshared;
      ShareSoundStays(h, h2, shares[i]);
      var before, copy := h2, shares[i];
      h2, copy := SnapshotShare(h2, shares[i], true);
      GrowsTransitive(h, before, h2);
      GrowsFresh(h, before);
      GrowsFresh(before, h2);
      ShareLower(h2, copy, before.next, h.next);
      ShareCopyEnds(h2, copy, h.next);
      forall j | 0 <= j < i
        ensures ShareCopied(h, shares[j], h2, cloned[j])
      {
        assert ShareCopied(h, shares[..i][j], before, cloned[j]);
        ShareCopyStays(before, h2, cloned[j], h.next);
        ShareCopyEnds(h2, cloned[j], h.next);
      }
      NewShareUnshared(h, shares[..i], before, h2, cloned, copy);
      cloned := cloned + [copy];
    }
    assert shares[..|shares|] == shares;
  }

  lemma NewShareUnshared(h: Heap, a: seq<Share>, h1: Heap, h2: Heap, b: seq<Share>, copy: Share)
    requires SharesCopied(h, a, h1, b) && ShareCopy(h2, copy, h1.next)
    ensures SharesUnshared(b + [copy])
  {
    hide TreeOfShare, EndsWithin;
    forall i | 0 <= i < |b| && b[i].mount.Some?
      ensures b[i].mount.value < h1.next
    {
      assert ShareCopied(h, a[i], h1, b[i]);
    }
  }

  lemma ShareLower(h: Heap, s: Share, lo: Ref, lo2: Ref)
    requires ShareCopy(h, s, lo) && lo2 <= lo
    ensures ShareCopy(h, s, lo2)
  {}

  /** What a payload shows to a reader. */
  datatype Seen =
    | SeenDisks(disks: Option<seq<Option<DiskTree>>>)
    | SeenShares(shares: Option<seq<ShareTree>>)
    | SeenShare(share: Option<ShareTree>)
    | SeenMount(mount: Option<MountTree>)
    | SeenOther(text: string)

  function SeenDisk(h: Heap, d: Option<Ref>): Option<DiskTree> {
    if d.Some? && d.value in h.disks then Some(TreeOfDisk(h, h.disks[d.value])) else None
  }

  function View(h: Heap, p: Payload): Seen {
    match p
    case DiskSlice(ds) =>
      SeenDisks(if ds.Some? then Some(seq(|ds.value|, i requires 0 <= i < |ds.value| => SeenDisk(h, ds.value[i])))
          else None)
    case ShareSlice(ss) =>
      SeenShares(if ss.Some? then Some(seq(|ss.value|, i requires 0 <= i < |ss.value| => TreeOfShare(h, ss.value[i])))
          else None)
    case ShareValue(s) => SeenShare(Some(TreeOfShare(h, s)))
    case SharePointer(r) => SeenShare(if r.Some? && r.value in h.shares then Some(TreeOfShare(h, h.shares[r.value]))
        else None)
    case MountValue(m) => SeenMount(Some(TreeOfMount(h, m, true)))
    case MountPointer(r) =>
      SeenMount(if r.Some? && r.value in h.points then Some(TreeOfMount(h, h.points[r.value], true)) else None)
    case Other(text) => SeenOther(text)
  }

  /** A snapshot shows every disk id, partition key, mount path and attached share that the
      payload shows. */
  lemma SnapshotShowsTheSame(h: Heap, p: Payload, h2: Heap, q: Payload)
    requires SnapshotOf(h, p, h2, q)
    ensures View(h2, q) == View(h, p)
  {
    hide TreeOfDisk, TreeOfShare, TreeOfMount, DiskCopy, ShareCopy, MountCopy, EndsWithin;
    match (p, q) {
      case (DiskSlice(a), DiskSlice(b)) =>
        if a.Some? {
          forall i | 0 <= i < |a.value|
            ensures SeenDisk(h2, b.value[i]) == SeenDisk(h, a.value[i])
          {
            assert DiskCopied(h, a.value[i], h2, b.value[i]);
          }
          assert View(h2, q).disks.value == View(h, p).disks.value;
        }
      case (ShareSlice(a), ShareSlice(b)) =>
        if a.Some? {
          forall i | 0 <= i < |a.value|
            ensures TreeOfShare(h2, b.value[i]) == TreeOfShare(h, a.value[i])
          {
            assert ShareCopied(h, a.value[i], h2, b.value[i]);
          }
          assert View(h2, q).shares.value == View(h, p).shares.value;
        }
      case _ =>
    }
  }

  /** A payload shows the same in a heap that has only grown. */
  lemma SourceStays(h: Heap, h2: Heap, p: Payload)
    requires Grows(h, h2) && Sound(h, p)
    ensures View(h2, p) == View(h, p) && Sound(h2, p)
  {
    hide Grows, TreeOfDisk, TreeOfShare, TreeOfMount, ShareAllSound, DiskPointerSound, MountSound;
    match p {
      case DiskSlice(ds) => if ds.Some? { DisksStay(h, h2, ds.value); }
      case ShareSlice(ss) => if ss.Some? { SharesStay(h, h2, ss.value); }
      case ShareValue(s) => ShareSoundStays(h, h2, s);
      case SharePointer(r) => if r.Some? { PointersStay(h, h2); ShareSoundStays(h, h2, h.shares[r.value]); }
      case MountValue(m) => MountStays(h, h2, m);
      case MountPointer(r) => if r.Some? { PointersStay(h, h2); MountStays(h, h2, h.points[r.value]); }
      case Other(_) =>
    }
  }

  lemma PointersStay(h: Heap, h2: Heap)
    requires Grows(h, h2)
    ensures forall r :: r in h.shares ==> r in h2.shares && h2.shares[r] == h.shares[r]
    ensures forall r :: r in h.points ==> r in h2.points && h2.points[r] == h.points[r]
    ensures forall r :: r in h.disks ==> r in h2.disks && h2.disks[r] == h.disks[r]
  {}

  lemma DisksStay(h: Heap, h2: Heap, ds: seq<Option<Ref>>)
    requires Grows(h, h2) && forall i :: 0 <= i < |ds| ==> DiskPointerSound(h, ds[i])
    ensures View(h2, DiskSlice(Some(ds))) == View(h, DiskSlice(Some(ds)))
    ensures forall i :: 0 <= i < |ds| ==> DiskPointerSound(h2, ds[i])
  {
    forall i | 0 <= i < |ds|
      ensures SeenDisk(h2, ds[i]) == SeenDisk(h, ds[i]) && DiskPointerSound(h2, ds[i])
    {
      DiskSoundStays(h, h2, ds[i]);
      hide Grows, TreeOfDisk, DiskSound;
    }
    hide Grows, SeenDisk, DiskPointerSound;
    assert View(h2, DiskSlice(Some(ds))).disks.value == View(h, DiskSlice(Some(ds))).disks.value;
  }

  lemma SharesStay(h: Heap, h2: Heap, ss: seq<Share>)
    requires Grows(h, h2) && forall i :: 0 <= i < |ss| ==> ShareAllSound(h, ss[i])
    ensures View(h2, ShareSlice(Some(ss))) == View(h, ShareSlice(Some(ss)))
    ensures forall i :: 0 <= i < |ss| ==> ShareAllSound(h2, ss[i])
  {
    hide Grows, TreeOfShare, ShareAllSound;
    forall i | 0 <= i < |ss|
      ensures TreeOfShare(h2, ss[i]) == TreeOfShare(h, ss[i]) && ShareAllSound(h2, ss[i])
    {
      ShareSoundStays(h, h2, ss[i]);
    }
    assert View(h2, ShareSlice(Some(ss))).shares.value == View(h, ShareSlice(Some(ss))).shares.value;
  }

  /** What a snapshot reaches exists, so a snapshot can be taken of it again. */
  lemma SnapshotIsSound(h: Heap, p: Payload, h2: Heap, q: Payload)
    requires SnapshotOf(h, p, h2, q) && Sound(h, p)
    ensures Sound(h2, q)
  {
    hide EndsWithin, TreeOfDisk, TreeOfShare, TreeOfMount;
    match (p, q) {
      case (DiskSlice(a), DiskSlice(b)) =>
        if a.Some? {
          forall i | 0 <= i < |b.value|
            ensures DiskPointerSound(h2, b.value[i])
          {
            assert DiskCopied(h, a.value[i], h2, b.value[i]);
            if b.value[i].Some? { DiskCopySound(h2, h2.disks[b.value[i].value], h.next); }
          }
        }
      case (ShareSlice(a), ShareSlice(b)) =>
        if a.Some? {
          forall i | 0 <= i < |b.value|
            ensures ShareAllSound(h2, b.value[i])
          {
            assert ShareCopied(h, a.value[i], h2, b.value[i]);
          }
        }
      case _ =>
    }
  }

  lemma DiskCopySound(h: Heap, d: Disk, lo: Ref)
    requires DiskCopy(h, d, lo)
    ensures DiskSound(h, d)
  {
    if d.partitions.Some? {
      forall k | k in h.tables[d.partitions.value]
        ensures PartitionSound(h, h.tables[d.partitions.value][k])
      {
        assert PartitionCopy(h, h.tables[d.partitions.value][k], lo);
        assert forall m :: MountCopy(h, m, lo) ==> MountSound(h, m);
      }
    }
  }

  /** The code run on its own output gives, once more, what was shown at first. */
  method SanitizeTwice(h: Heap, data: Payload) returns (h2: Heap, once: Payload, h3: Heap, twice: Payload)
    requires Fresh(h) && Sound(h, data)
    ensures Grows(h, h2) && SnapshotOf(h, data, h2, once)
    ensures Grows(h2, h3) && SnapshotOf(h2, once, h3, twice)
    ensures View(h3, twice) == View(h3, once) == View(h2, once) == View(h, data)
  {
    h2, once := SanitizeWebEventData(h, data);
    SnapshotIsSound(h, data, h2, once);
    GrowsFresh(h, h2);
    h3, twice := SanitizeWebEventData(h2, once);
  }

  // ---------- later operations do not reach a snapshot ----------

  /** The index reaches none of the references lo..hi. */
  ghost predicate Apart(s: State, lo: Ref, hi: Ref) {
    && hi <= s.heap.next
    && (forall k :: k in s.index ==> !(lo <= s.index[k] < hi))
    && (forall k :: TableRef(s, k).Some? ==> !(lo <= TableRef(s, k).value < hi))
    && (forall dk, pk :: MountsRef(s, dk, pk).Some? ==> !(lo <= MountsRef(s, dk, pk).value < hi))
  }

  /** No operation is handed a disk or a mount map from lo..hi. */
  ghost predicate ArgumentApart(s: State, op: Op, lo: Ref, hi: Ref) {
    match op
    case AddDisk(d) =>
      && !(lo <= d < hi)
      && (d in s.heap.disks ==>
            && (s.heap.disks[d].partitions.Some? ==> !(lo <= s.heap.disks[d].partitions.value < hi))
            && var t := TableOf(s.heap, s.heap.disks[d]);
            (forall pk :: pk in t && t[pk].mounts.Some? ==> !(lo <= t[pk].mounts.value < hi)))
    case AddPartition(_, p) => p.mounts.Some? ==> !(lo <= p.mounts.value < hi)
    case _ => true
  }

  /** The references lo..hi hold the same in both heaps. */
  ghost predicate SameIn(h: Heap, h2: Heap, lo: Ref, hi: Ref) {
    && (forall r :: lo <= r < hi && r in h.disks ==> r in h2.disks && h2.disks[r] == h.disks[r])
    && (forall r :: lo <= r < hi && r in h.tables ==> r in h2.tables && h2.tables[r] == h.tables[r])
    && (forall r :: lo <= r < hi && r in h.mounts ==> r in h2.mounts && h2.mounts[r] == h.mounts[r])
    && (forall r :: r in h.shares ==> r in h2.shares && h2.shares[r] == h.shares[r])
    && (forall r :: r in h.points ==> r in h2.points && h2.points[r] == h.points[r])
  }

  lemma StepStaysApart(s: State, op: Op, s2: State, lo: Ref, hi: Ref)
    requires Inv(s) && Step(s, op, s2) && Apart(s, lo, hi) && ArgumentApart(s, op, lo, hi)
    ensures Apart(s2, lo, hi) && SameIn(s.heap, s2.heap, lo, hi)
  {
    hide Keyed, Apart, SameIn, PutSlot, CutSlot, CutPartition, PartitionAdded, MountPointPut, PutDisk;
    SameSelf(s.heap, lo, hi);
    if Effective(s, op) {
      match op {
        case AddDisk(d) => AddDiskApart(s, d, lo, hi);
        case RemoveDisk(id) => RemovedApart(s, id, lo, hi);
        case PutMountPoint(dk, pk, mp) => MountPointApart(s, dk, pk, mp, lo, hi);
        case RemoveMountPoint(dk, pk, path) => CutSlotApart(s, dk, pk, path, lo, hi);
        case AddPartition(dk, p) => PartitionApart(s, dk, p, lo, hi);
        case RemovePartition(dk, pk) => CutPartitionApart(s, dk, pk, lo, hi);
        case AddShare(share) =>
          var dk, pk, path :| ShareAdded(s, share.value, dk, pk, path, s2);
          PutSlotApart(s, dk, pk, path, Slot(s, dk, pk, path).value.(share := share), lo, hi);
        case RemoveShare(name) =>
          var dk, pk, path :| ShareRemoved(s, name, dk, pk, path, s2);
          PutSlotApart(s, dk, pk, path, Slot(s, dk, pk, path).value.(share := None), lo, hi);
        case SetHDIdle(dk, x) => PutDiskApart(s, dk, s.heap.disks[s.index[dk]].(hdIdle := Some(x)), lo, hi);
        case SetSmart(dk, x) => PutDiskApart(s, dk, s.heap.disks[s.index[dk]].(smart := Some(x)), lo, hi);
      }
    }
  }

  lemma SameSelf(h: Heap, lo: Ref, hi: Ref)
    ensures SameIn(h, h, lo, hi)
  {}

  lemma SameTransitive(a: Heap, b: Heap, c: Heap, lo: Ref, hi: Ref)
    requires SameIn(a, b, lo, hi) && SameIn(b, c, lo, hi)
    ensures SameIn(a, c, lo, hi)
  {}

  lemma RemovedApart(s: State, id: string, lo: Ref, hi: Ref)
    requires Apart(s, lo, hi)
    ensures Apart(s.(index := s.index - {id}), lo, hi)
  {
    var s2 := s.(index := s.index - {id});
    forall k
      ensures TableRef(s2, k).Some? ==> TableRef(s2, k) == TableRef(s, k)
    {}
    forall dk, pk
      ensures MountsRef(s2, dk, pk).Some? ==> MountsRef(s2, dk, pk) == MountsRef(s, dk, pk)
    {}
  }

  lemma AddDiskApart(s: State, d: Ref, lo: Ref, hi: Ref)
    requires Apart(s, lo, hi) && d in s.heap.disks && s.heap.disks[d].id.Some? && ArgumentApart(s, AddDisk(d), lo, hi)
    ensures Apart(s.(index := s.index[s.heap.disks[d].id.value := d]), lo, hi)
  {
    DiskAddedExactly(s, s.heap.disks[d].id.value, d);
    DiskAddedSlots(s, s.heap.disks[d].id.value, d);
    hide TableRef, MountsRef, PartitionAt, Slot, TableOf;
  }

  lemma PutSlotApart(s: State, dk: string, pk: string, path: string, mp: MountPoint, lo: Ref, hi: Ref)
    requires Unaliased(s) && Apart(s, lo, hi) && MountsRef(s, dk, pk).Some?
    ensures var s2 := PutSlot(s, dk, pk, path, mp); Apart(s2, lo, hi) && SameIn(s.heap, s2.heap, lo, hi)
  {
    hide TableRef, MountsRef, PartitionAt, Slot;
    PutSlotExactly(s, dk, pk, path, mp);
  }

  lemma CutSlotApart(s: State, dk: string, pk: string, path: string, lo: Ref, hi: Ref)
    requires Unaliased(s) && Apart(s, lo, hi) && MountsRef(s, dk, pk).Some?
    ensures var s2 := CutSlot(s, dk, pk, path); Apart(s2, lo, hi) && SameIn(s.heap, s2.heap, lo, hi)
  {
    CutSlotExactly(s, dk, pk, path);
    hide TableRef, MountsRef, PartitionAt, Slot;
  }

  lemma CopyApart(s: State, p: Partition, lo: Ref, hi: Ref)
    requires Apart(s, lo, hi)
    ensures var s2 := WithPartitionCopy(s, p); Apart(s2, lo, hi) && SameIn(s.heap, s2.heap, lo, hi)
  {
    CopyExactly(s, p);
    SlotsFollowPartitions(s);
    SlotsFollowPartitions(WithPartitionCopy(s, p));
    hide TableRef, MountsRef, PartitionAt, Slot;
  }

  lemma PutDiskApart(s: State, dk: string, d: Disk, lo: Ref, hi: Ref)
    requires Inv(s) && Apart(s, lo, hi) && dk in s.index
    requires d.id == s.heap.disks[s.index[dk]].id && d.partitions == s.heap.disks[s.index[dk]].partitions
    ensures var s2 := PutDisk(s, s.index[dk], d); Apart(s2, lo, hi) && SameIn(s.heap, s2.heap, lo, hi)
  {
    hide TableRef, MountsRef, PartitionAt, Slot, Keyed;
    PutDiskExactly(s, dk, d);
    SlotsFollowPartitions(s);
    SlotsFollowPartitions(PutDisk(s, s.index[dk], d));
  }

  lemma CutPartitionApart(s: State, dk: string, pk: string, lo: Ref, hi: Ref)
    requires Inv(s) && Apart(s, lo, hi) && TableRef(s, dk).Some?
    ensures var s2 := CutPartition(s, dk, pk); Apart(s2, lo, hi) && SameIn(s.heap, s2.heap, lo, hi)
  {
    CutPartitionExactly(s, dk, pk);
    SlotsFollowPartitions(s);
    SlotsFollowPartitions(CutPartition(s, dk, pk));
    hide TableRef, MountsRef, PartitionAt, Slot, Keyed;
  }

  lemma PartitionApart(s: State, dk: string, p: Partition, lo: Ref, hi: Ref)
    requires Inv(s) && Apart(s, lo, hi) && dk in s.index && p.id.Some?
    requires p.mounts.Some? ==> !(lo <= p.mounts.value < hi)
    ensures var s2 := PartitionAdded(s, dk, p); Apart(s2, lo, hi) && SameIn(s.heap, s2.heap, lo, hi)
  {
    hide TableRef, MountsRef, PartitionAt, Slot, PartitionAdded, SameIn, Fresh;
    PartitionAddedIsOneMore(s, dk, p);
    PartitionAddedExactly(s, dk, p);
    OneMorePartitionSlots(s, PartitionAdded(s, dk, p), dk, p.id.value, p.(diskId := Some(dk)));
    PartitionSame(s, dk, p, lo, hi);
  }

  lemma PartitionSame(s: State, dk: string, p: Partition, lo: Ref, hi: Ref)
    requires Closed(s) && Apart(s, lo, hi) && dk in s.index && p.id.Some?
    ensures SameIn(s.heap, PartitionAdded(s, dk, p).heap, lo, hi) && s.heap.next <= PartitionAdded(s, dk, p).heap.next
  {
    hide MountsRef, PartitionAt, Slot;
  }

  lemma MountPointApart(s: State, dk: string, pk: string, mp: MountPoint, lo: Ref, hi: Ref)
    requires Inv(s) && Apart(s, lo, hi) && PartitionAt(s, dk, pk).Some?
    ensures var s2 := MountPointPut(s, dk, pk, mp); Apart(s2, lo, hi) && SameIn(s.heap, s2.heap, lo, hi)
  {
    WithMountsApart(s, dk, pk, lo, hi);
    var s1, s3 := MountPointPutIsPutSlot(s, dk, pk, mp);
    var stored := Completed(s1, WithMountMap(s, dk, pk), mp);
    hide Apart, SameIn, Keyed, WithMounts, MountPointPut, PutSlot;
    CopyApart(s1, WithMountMap(s, dk, pk), lo, hi);
    PutSlotApart(s3, dk, pk, mp.path, stored, lo, hi);
    SameSelf(s1.heap, lo, hi);
    SameTransitive(s.heap, s1.heap, s3.heap, lo, hi);
    SameTransitive(s.heap, s3.heap, PutSlot(s3, dk, pk, mp.path, stored).heap, lo, hi);
  }

  lemma WithMountsApart(s: State, dk: string, pk: string, lo: Ref, hi: Ref)
    requires Inv(s) && Apart(s, lo, hi) && PartitionAt(s, dk, pk).Some?
    ensures var s2 := WithMounts(s, dk, pk); Apart(s2, lo, hi) && SameIn(s.heap, s2.heap, lo, hi)
  {
    hide TableRef, MountsRef, PartitionAt, Slot, WithMounts, SameIn, Fresh;
    WithMountsExactly(s, dk, pk);
    WithMountsReads(s, dk, pk);
    SlotsFollowPartitions(s);
    MountsSame(s, dk, pk, lo, hi);
  }

  lemma MountsSame(s: State, dk: string, pk: string, lo: Ref, hi: Ref)
    requires Closed(s) && Apart(s, lo, hi) && PartitionAt(s, dk, pk).Some?
    ensures SameIn(s.heap, WithMounts(s, dk, pk).heap, lo, hi) && s.heap.next <= WithMounts(s, dk, pk).heap.next
  {
    hide Slot;
  }

  /** The disk `r` is a copy made at the references lo..hi, as SnapshotDisk makes it. */
  ghost predicate SnapshotAt(h: Heap, r: Ref, lo: Ref, hi: Ref) {
    && lo <= r < hi <= h.next && r in h.disks
    && DiskCopy(h.(next := hi), h.disks[r], lo)
  }

  lemma SameDisk(h: Heap, h2: Heap, r: Ref, lo: Ref, hi: Ref)
    requires SnapshotAt(h, r, lo, hi) && SameIn(h, h2, lo, hi) && hi <= h2.next
    ensures SnapshotAt(h2, r, lo, hi) && TreeOfDisk(h2, h2.disks[r]) == TreeOfDisk(h, h.disks[r])
  {
    if h.disks[r].partitions.Some? {
      var t := h.tables[h.disks[r].partitions.value];
      forall k | k in t
        ensures PartitionCopy(h2.(next := hi), t[k], lo) && TreeOfPartition(h2, t[k]) == TreeOfPartition(h, t[k])
      {
        SameMounts(h, h2, t[k].mounts, lo, hi);
        SameMounts(h, h2, t[k].hostMounts, lo, hi);
      }
      assert TreeOfDisk(h2, h2.disks[r]).partitions.value == TreeOfDisk(h, h.disks[r]).partitions.value;
    }
  }

  lemma SameMounts(h: Heap, h2: Heap, r: Option<Ref>, lo: Ref, hi: Ref)
    requires MountsCopy(h.(next := hi), r, lo) && SameIn(h, h2, lo, hi)
    ensures MountsCopy(h2.(next := hi), r, lo) && TreesOfMounts(h2, r) == TreesOfMounts(h, r)
  {
    if r.Some? {
      var m := h.mounts[r.value];
      forall k | k in m
        ensures MountCopy(h2.(next := hi), m[k], lo) && TreeOfMount(h2, m[k], true) == TreeOfMount(h, m[k], true)
      {
        assert MountCopy(h.(next := hi), m[k], lo);
      }
      assert TreesOfMounts(h2, r).value == TreesOfMounts(h, r).value;
    }
  }

  /** The payload `q` reaches only copies made at the references lo..hi. */
  ghost predicate Held(h: Heap, q: Payload, lo: Ref, hi: Ref) {
    match q
    case DiskSlice(ds) => ds.Some? ==> forall i :: 0 <= i < |ds.value| && ds.value[i].Some? ==>
        SnapshotAt(h, ds.value[i].value, lo, hi)
    case ShareSlice(ss) => ss.Some? ==> forall i :: 0 <= i < |ss.value| ==> ShareCopy(h.(next := hi), ss.value[i], lo)
    case ShareValue(s) => ShareCopy(h.(next := hi), s, lo)
    case SharePointer(r) => r.Some? ==> r.value in h.shares && ShareCopy(h.(next := hi), h.shares[r.value], lo)
    case MountValue(m) => MountCopy(h.(next := hi), m, lo)
    case MountPointer(r) => r.Some? ==> r.value in h.points && MountCopy(h.(next := hi), h.points[r.value], lo)
    case Other(_) => true
  }

  lemma SameShare(h: Heap, h2: Heap, s: Share, lo: Ref, hi: Ref)
    requires ShareCopy(h.(next := hi), s, lo) && SameIn(h, h2, lo, hi)
    ensures ShareCopy(h2.(next := hi), s, lo) && TreeOfShare(h2, s) == TreeOfShare(h, s)
  {}

  lemma SameMount(h: Heap, h2: Heap, m: MountPoint, lo: Ref, hi: Ref)
    requires MountCopy(h.(next := hi), m, lo) && SameIn(h, h2, lo, hi)
    ensures MountCopy(h2.(next := hi), m, lo) && TreeOfMount(h2, m, true) == TreeOfMount(h, m, true)
  {}

  lemma SamePointers(h: Heap, h2: Heap, lo: Ref, hi: Ref)
    requires SameIn(h, h2, lo, hi)
    ensures forall r :: r in h.shares ==> r in h2.shares && h2.shares[r] == h.shares[r]
    ensures forall r :: r in h.points ==> r in h2.points && h2.points[r] == h.points[r]
  {}

  lemma SameDisks(h: Heap, h2: Heap, ds: seq<Option<Ref>>, lo: Ref, hi: Ref)
    requires Held(h, DiskSlice(Some(ds)), lo, hi) && SameIn(h, h2, lo, hi) && hi <= h2.next
    ensures Held(h2, DiskSlice(Some(ds)), lo, hi)
    ensures View(h2, DiskSlice(Some(ds))) == View(h, DiskSlice(Some(ds)))
  {
    hide SameIn, TreeOfDisk;
    forall i | 0 <= i < |ds|
      ensures SeenDisk(h2, ds[i]) == SeenDisk(h, ds[i]) && (ds[i].Some? ==> SnapshotAt(h2, ds[i].value, lo, hi))
    {
      if ds[i].Some? { SameDisk(h, h2, ds[i].value, lo, hi); }
    }
    hide SnapshotAt, SeenDisk;
    assert View(h2, DiskSlice(Some(ds))).disks.value == View(h, DiskSlice(Some(ds))).disks.value;
  }

  lemma SameShares(h: Heap, h2: Heap, ss: seq<Share>, lo: Ref, hi: Ref)
    requires Held(h, ShareSlice(Some(ss)), lo, hi) && SameIn(h, h2, lo, hi)
    ensures Held(h2, ShareSlice(Some(ss)), lo, hi)
    ensures View(h2, ShareSlice(Some(ss))) == View(h, ShareSlice(Some(ss)))
  {
    hide SameIn, TreeOfShare, ShareCopy;
    forall i | 0 <= i < |ss|
      ensures TreeOfShare(h2, ss[i]) == TreeOfShare(h, ss[i]) && ShareCopy(h2.(next := hi), ss[i], lo)
    {
      SameShare(h, h2, ss[i], lo, hi);
    }
    assert View(h2, ShareSlice(Some(ss))).shares.value == View(h, ShareSlice(Some(ss))).shares.value;
  }

  lemma HeldStays(h: Heap, h2: Heap, q: Payload, lo: Ref, hi: Ref)
    requires Held(h, q, lo, hi) && SameIn(h, h2, lo, hi) && hi <= h2.next
    ensures Held(h2, q, lo, hi) && View(h2, q) == View(h, q)
  {
    hide SameIn, TreeOfShare, TreeOfMount, ShareCopy, MountCopy, SnapshotAt;
    SamePointers(h, h2, lo, hi);
    match q {
      case DiskSlice(ds) => if ds.Some? { SameDisks(h, h2, ds.value, lo, hi); }
      case ShareSlice(ss) => if ss.Some? { SameShares(h, h2, ss.value, lo, hi); }
      case ShareValue(s) => SameShare(h, h2, s, lo, hi);
      case SharePointer(r) => if r.Some? { SameShare(h, h2, h.shares[r.value], lo, hi); }
      case MountValue(m) => SameMount(h, h2, m, lo, hi);
      case MountPointer(r) => if r.Some? { SameMount(h, h2, h.points[r.value], lo, hi); }
      case Other(_) =>
    }
  }

  lemma {:induction false} HeldSurvivesRun(states: seq<State>, ops: seq<Op>, q: Payload, lo: Ref, hi: Ref)
    requires Run(states, ops) && Inv(states[0]) && Apart(states[0], lo, hi)
    requires forall i :: 0 <= i < |ops| ==> ArgumentApart(states[i], ops[i], lo, hi)
    requires Held(states[0].heap, q, lo, hi)
    ensures View(states[|ops|].heap, q) == View(states[0].heap, q)
  {
    hide Inv, Step, Apart, ArgumentsFit, ArgumentApart, View, Held;
    if ops != [] {
      StepKeepsInv(states[0], ops[0], states[1]);
      StepStaysApart(states[0], ops[0], states[1], lo, hi);
      assert hi <= states[1].heap.next by { ApartBound(states[1], lo, hi); }
      HeldStays(states[0].heap, states[1].heap, q, lo, hi);
      HeldSurvivesRun(states[1..], ops[1..], q, lo, hi);
    }
  }

  lemma ApartBound(s: State, lo: Ref, hi: Ref)
    requires Apart(s, lo, hi)
    ensures hi <= s.heap.next
  {}

  lemma GrownReads(s: State, h2: Heap)
    requires Closed(s) && Grows(s.heap, h2)
    ensures var s2 := s.(heap := h2);
      && (forall k :: TableRef(s2, k) == TableRef(s, k) && Table(s2, k) == Table(s, k))
      && (forall dk, pk :: PartitionAt(s2, dk, pk) == PartitionAt(s, dk, pk))
      && (forall dk, pk :: MountsRef(s2, dk, pk) == MountsRef(s, dk, pk))
      && (forall dk, pk, path :: Slot(s2, dk, pk, path) == Slot(s, dk, pk, path))
  {
    var s2 := s.(heap := h2);
    forall k
      ensures TableRef(s2, k) == TableRef(s, k) && Table(s2, k) == Table(s, k)
    {
      assert TableRef(s, k).Some? ==> TableRef(s, k).value in s.heap.tables;
    }
    forall dk, pk, path
      ensures Slot(s2, dk, pk, path) == Slot(s, dk, pk, path)
    {
      assert MountsRef(s2, dk, pk) == MountsRef(s, dk, pk);
    }
  }

  /** Taking a snapshot keeps the index well formed. */
  lemma SnapshotKeepsInv(s: State, h2: Heap)
    requires Inv(s) && Grows(s.heap, h2)
    ensures Inv(s.(heap := h2))
  {
    hide TableRef, Table, MountsRef, PartitionAt, Slot;
    GrownReads(s, h2);
  }

  /** A snapshot just taken is out of reach of the index. */
  lemma SnapshotStartsApart(s: State, p: Payload, h2: Heap, q: Payload)
    requires Closed(s) && Grows(s.heap, h2) && SnapshotOf(s.heap, p, h2, q)
    ensures Apart(s.(heap := h2), s.heap.next, h2.next) && Held(h2, q, s.heap.next, h2.next)
  {
    hide TableRef, Table, MountsRef, PartitionAt, Slot, Grows, EndsWithin, TreeOfDisk, TreeOfShare, TreeOfMount,
        DiskCopy, ShareCopy, MountCopy;
    GrownReads(s, h2);
    assert h2.(next := h2.next) == h2;
    GrowsFresh(s.heap, h2);
    match (p, q) {
      case (DiskSlice(a), DiskSlice(b)) =>
        if b.Some? {
          forall i | 0 <= i < |b.value| && b.value[i].Some?
            ensures SnapshotAt(h2, b.value[i].value, s.heap.next, h2.next)
          {
            assert DiskCopied(s.heap, a.value[i], h2, b.value[i]);
          }
        }
      case (ShareSlice(a), ShareSlice(b)) =>
        if b.Some? {
          forall i | 0 <= i < |b.value|
            ensures ShareCopy(h2, b.value[i], s.heap.next)
          {
            assert ShareCopied(s.heap, a.value[i], h2, b.value[i]);
          }
        }
      case _ =>
    }
  }

  /** Whatever operations run on the index after a payload was sanitized, the snapshot still
      shows what the payload showed: partition keys, mount paths, shares and all. */
  lemma SnapshotSurvivesRun(s: State, p: Payload, h2: Heap, q: Payload, states: seq<State>, ops: seq<Op>)
    requires Inv(s) && Grows(s.heap, h2) && SnapshotOf(s.heap, p, h2, q)
    requires Run(states, ops) && states[0] == s.(heap := h2)
    requires forall i :: 0 <= i < |ops| ==> ArgumentApart(states[i], ops[i], s.heap.next, h2.next)
    ensures View(states[|ops|].heap, q) == View(s.heap, p)
  {
    hide Closed, Unaliased, Keyed, SnapshotOf, View, Held, Apart, Grows, ArgumentApart;
    SnapshotKeepsInv(s, h2);
    SnapshotStartsApart(s, p, h2, q);
    SnapshotShowsTheSame(s.heap, p, h2, q);
    HeldSurvivesRun(states, ops, q, s.heap.next, h2.next);
  }
}
