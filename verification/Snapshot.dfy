/**
 Snapshots of disks and shares before they are broadcast (backend/src/dto/webevent_snapshot.go):
 the graph, which may be cyclic, is copied to a fresh tree.
 */
module Snapshot {
  import opened Wrappers
  import opened Disks

  // ---------- the graph ----------

  /** A place in the graph: a record, or a map reached through a pointer. */
  datatype Node =
    | AtDisk(d: Disk)
    | AtTable(r: Ref)
    | AtPartition(p: Partition)
    | AtMounts(r: Ref)
    | AtMount(m: MountPoint)
    | AtShare(s: Share)

  ghost predicate Edge(h: Heap, a: Node, b: Node) {
    match (a, b)
    case (AtDisk(d), AtTable(r)) => d.partitions == Some(r)
    case (AtTable(r), AtPartition(p)) => r in h.tables && exists k :: k in h.tables[r] && h.tables[r][k] == p
    case (AtPartition(p), AtMounts(r)) => p.mounts == Some(r) || p.hostMounts == Some(r)
    case (AtMounts(r), AtMount(m)) => r in h.mounts && exists k :: k in h.mounts[r] && h.mounts[r][k] == m
    case (AtMount(m), AtPartition(p)) => m.partition.Some? && m.partition.value in h.parts &&
        h.parts[m.partition.value] == p
    case (AtMount(m), AtShare(s)) => m.share.Some? && m.share.value in h.shares && h.shares[m.share.value] == s
    case (AtShare(s), AtMount(m)) => s.mount.Some? && s.mount.value in h.points && h.points[s.mount.value] == m
    case _ => false
  }

  /** Every path from `a` ends within `n` places. */
  ghost predicate EndsWithin(h: Heap, a: Node, n: nat)
    decreases n
  {
    n > 0 && forall b :: Edge(h, a, b) ==> EndsWithin(h, b, n - 1)
  }

  // ---------- what is seen of a graph ----------

  datatype ShareLeaf = ShareLeaf(name: string, users: seq<string>, roUsers: seq<string>, vetoFiles: seq<string>,
      info: string)
  datatype MountTree = MountTree(path: string, deviceId: string, info: string, share: Option<ShareLeaf>)
  datatype PartitionTree = PartitionTree(id: Option<string>, diskId: Option<string>, info: string,
                                         mounts: Option<map<string, MountTree>>,
                                         hostMounts: Option<map<string, MountTree>>)
  datatype DiskTree = DiskTree(id: Option<string>, hdIdle: Option<Ref>, smart: Option<Ref>, info: string,
                               partitions: Option<map<string, PartitionTree>>)
  datatype ShareTree = ShareTree(leaf: ShareLeaf, mount: Option<MountTree>)

  function LeafOf(s: Share): ShareLeaf {
    ShareLeaf(s.name, s.users, s.roUsers, s.vetoFiles, s.info)
  }

  function TreeOfMount(h: Heap, m: MountPoint, withShare: bool): MountTree {
    MountTree(m.path, m.deviceId, m.info,
              if withShare && m.share.Some? && m.share.value in h.shares then Some(LeafOf(h.shares[m.share.value]))
                  else None)
  }

  function TreesOfMounts(h: Heap, r: Option<Ref>): Option<map<string, MountTree>> {
    if r.Some? && r.value in h.mounts
    then Some(map k | k in h.mounts[r.value] :: TreeOfMount(h, h.mounts[r.value][k], true))
    else None
  }

  function TreeOfPartition(h: Heap, p: Partition): PartitionTree {
    PartitionTree(p.id, p.diskId, p.info, TreesOfMounts(h, p.mounts), TreesOfMounts(h, p.hostMounts))
  }

  function TreeOfDisk(h: Heap, d: Disk): DiskTree {
    DiskTree(d.id, d.hdIdle, d.smart, d.info,
             if d.partitions.Some? && d.partitions.value in h.tables
             then Some(map k | k in h.tables[d.partitions.value] :: TreeOfPartition(h, h.tables[d.partitions.value][k]))
             else None)
  }

  function TreeOfShare(h: Heap, s: Share): ShareTree {
    ShareTree(LeafOf(s),
              if s.mount.Some? && s.mount.value in h.points then Some(TreeOfMount(h, h.points[s.mount.value], false))
                  else None)
  }

  // ---------- the shape of a snapshot ----------

  /** `h2` has everything `h` has, unchanged, and new objects only at new references. */
  ghost predicate Grows(h: Heap, h2: Heap) {
    && h.next <= h2.next && Fresh(h2)
    && (forall r :: r in h.disks ==> r in h2.disks && h2.disks[r] == h.disks[r])
    && (forall r :: r in h.tables ==> r in h2.tables && h2.tables[r] == h.tables[r])
    && (forall r :: r in h.mounts ==> r in h2.mounts && h2.mounts[r] == h.mounts[r])
    && (forall r :: r in h.parts ==> r in h2.parts && h2.parts[r] == h.parts[r])
    && (forall r :: r in h.points ==> r in h2.points && h2.points[r] == h.points[r])
    && (forall r :: r in h.shares ==> r in h2.shares && h2.shares[r] == h.shares[r])
  }

  /** A copied mount point: no partition, and at most a share of its own that refers to nothing. */
  ghost predicate MountCopy(h: Heap, m: MountPoint, lo: Ref) {
    && m.partition.None?
    && (m.share.Some? ==>
          lo <= m.share.value < h.next && m.share.value in h.shares && h.shares[m.share.value].mount.None?)
  }

  ghost predicate MountsCopy(h: Heap, r: Option<Ref>, lo: Ref) {
    r.Some? ==> lo <= r.value < h.next && r.value in h.mounts && forall k :: k in h.mounts[r.value] ==>
        MountCopy(h, h.mounts[r.value][k], lo)
  }

  ghost predicate PartitionCopy(h: Heap, p: Partition, lo: Ref) {
    MountsCopy(h, p.mounts, lo) && MountsCopy(h, p.hostMounts, lo)
  }

  ghost predicate DiskCopy(h: Heap, d: Disk, lo: Ref) {
    d.partitions.Some? ==>
      && lo <= d.partitions.value < h.next && d.partitions.value in h.tables
      && forall k :: k in h.tables[d.partitions.value] ==> PartitionCopy(h, h.tables[d.partitions.value][k], lo)
  }

  ghost predicate ShareCopy(h: Heap, s: Share, lo: Ref) {
    s.mount.Some? ==>
      && lo <= s.mount.value < h.next && s.mount.value in h.points
      && h.points[s.mount.value].partition.None? && h.points[s.mount.value].share.None?
  }

  /** No pointer of the part of the graph that is copied dangles. */
  ghost predicate MountSound(h: Heap, m: MountPoint) {
    m.share.Some? ==> m.share.value in h.shares
  }

  ghost predicate MountsSound(h: Heap, r: Option<Ref>) {
    r.Some? ==> r.value in h.mounts && forall k :: k in h.mounts[r.value] ==> MountSound(h, h.mounts[r.value][k])
  }

  ghost predicate PartitionSound(h: Heap, p: Partition) {
    MountsSound(h, p.mounts) && MountsSound(h, p.hostMounts)
  }

  ghost predicate DiskSound(h: Heap, d: Disk) {
    d.partitions.Some? ==>
      && d.partitions.value in h.tables
      && forall k :: k in h.tables[d.partitions.value] ==> PartitionSound(h, h.tables[d.partitions.value][k])
  }

  ghost predicate ShareSound(h: Heap, s: Share) {
    s.mount.Some? ==> s.mount.value in h.points
  }

  // ---------- nothing in a copy is reached twice ----------

  /** Different mount points have different shares. */
  ghost predicate DistinctShares(m: map<string, MountPoint>) {
    forall j, k :: j in m && k in m && j != k && m[j].share.Some? ==> m[j].share != m[k].share
  }

  function SharesIn(m: map<string, MountPoint>): set<Ref> {
    set k | k in m && m[k].share.Some? :: m[k].share.value
  }

  /** The references of a mount map and of what it reaches. */
  function MountsRefs(h: Heap, r: Option<Ref>): set<Ref> {
    if r.Some? && r.value in h.mounts then {r.value} + SharesIn(h.mounts[r.value]) else {}
  }

  function PartitionRefs(h: Heap, p: Partition): set<Ref> {
    MountsRefs(h, p.mounts) + MountsRefs(h, p.hostMounts)
  }

  function TableRefs(h: Heap, t: map<string, Partition>): set<Ref> {
    set k, x | k in t && x in PartitionRefs(h, t[k]) :: x
  }

  function DiskRefs(h: Heap, d: Disk): set<Ref> {
    if d.partitions.Some? && d.partitions.value in h.tables
    then {d.partitions.value} + TableRefs(h, h.tables[d.partitions.value]) else {}
  }

  ghost predicate MountsUnshared(h: Heap, r: Option<Ref>) {
    r.Some? ==> r.value in h.mounts && DistinctShares(h.mounts[r.value]) && r.value !in SharesIn(h.mounts[r.value])
  }

  ghost predicate PartitionUnshared(h: Heap, p: Partition) {
    MountsUnshared(h, p.mounts) && MountsUnshared(h, p.hostMounts) &&
        MountsRefs(h, p.mounts) !! MountsRefs(h, p.hostMounts)
  }

  /** Each partition keeps its references to itself. */
  ghost predicate TableUnshared(h: Heap, t: map<string, Partition>) {
    && (forall k :: k in t ==> PartitionUnshared(h, t[k]))
    && (forall j, k :: j in t && k in t && j != k ==> PartitionRefs(h, t[j]) !! PartitionRefs(h, t[k]))
  }

  ghost predicate DiskUnshared(h: Heap, d: Disk) {
    d.partitions.Some? ==>
      && d.partitions.value in h.tables && TableUnshared(h, h.tables[d.partitions.value])
      && d.partitions.value !in TableRefs(h, h.tables[d.partitions.value])
  }

  ghost predicate Within(refs: set<Ref>, lo: Ref, hi: Ref) {
    forall x :: x in refs ==> lo <= x < hi
  }

  lemma MountsWithin(h: Heap, r: Option<Ref>, lo: Ref)
    requires MountsCopy(h, r, lo)
    ensures Within(MountsRefs(h, r), lo, h.next)
  {
    if r.Some? {
      forall k | k in h.mounts[r.value] && h.mounts[r.value][k].share.Some?
        ensures lo <= h.mounts[r.value][k].share.value < h.next
      {
        assert MountCopy(h, h.mounts[r.value][k], lo);
      }
    }
  }

  lemma PartitionWithin(h: Heap, p: Partition, lo: Ref)
    requires PartitionCopy(h, p, lo)
    ensures Within(PartitionRefs(h, p), lo, h.next)
  {
    hide MountsCopy, MountsRefs;
    MountsWithin(h, p.mounts, lo);
    MountsWithin(h, p.hostMounts, lo);
  }

  lemma TableWithin(h: Heap, t: map<string, Partition>, lo: Ref)
    requires forall k :: k in t ==> PartitionCopy(h, t[k], lo)
    ensures Within(TableRefs(h, t), lo, h.next)
  {
    hide PartitionCopy, PartitionRefs;
    forall k | k in t
      ensures Within(PartitionRefs(h, t[k]), lo, h.next)
    {
      PartitionWithin(h, t[k], lo);
    }
  }

  lemma DiskWithin(h: Heap, d: Disk, lo: Ref)
    requires DiskCopy(h, d, lo)
    ensures Within(DiskRefs(h, d), lo, h.next)
  {
    hide PartitionCopy, TableRefs;
    if d.partitions.Some? { TableWithin(h, h.tables[d.partitions.value], lo); }
  }

  lemma MountsRefsStay(h: Heap, h2: Heap, r: Option<Ref>, lo: Ref)
    requires Grows(h, h2) && MountsCopy(h, r, lo)
    ensures MountsRefs(h2, r) == MountsRefs(h, r) && (MountsUnshared(h, r) ==> MountsUnshared(h2, r))
  {}

  lemma PartitionRefsStay(h: Heap, h2: Heap, p: Partition, lo: Ref)
    requires Grows(h, h2) && PartitionCopy(h, p, lo)
    ensures PartitionRefs(h2, p) == PartitionRefs(h, p) && (PartitionUnshared(h, p) ==> PartitionUnshared(h2, p))
  {
    hide Grows, MountsCopy, MountsRefs, MountsUnshared;
    MountsRefsStay(h, h2, p.mounts, lo);
    MountsRefsStay(h, h2, p.hostMounts, lo);
  }

  lemma TableRefsStay(h: Heap, h2: Heap, t: map<string, Partition>, lo: Ref)
    requires Grows(h, h2) && forall k :: k in t ==> PartitionCopy(h, t[k], lo)
    ensures TableRefs(h2, t) == TableRefs(h, t) && (TableUnshared(h, t) ==> TableUnshared(h2, t))
  {
    hide Grows, PartitionCopy, PartitionRefs, PartitionUnshared;
    forall k | k in t
      ensures PartitionRefs(h2, t[k]) == PartitionRefs(h, t[k]) &&
          (PartitionUnshared(h, t[k]) ==> PartitionUnshared(h2, t[k]))
    {
      PartitionRefsStay(h, h2, t[k], lo);
    }
  }

  lemma DiskRefsStay(h: Heap, h2: Heap, d: Disk, lo: Ref)
    requires Grows(h, h2) && DiskCopy(h, d, lo)
    ensures DiskRefs(h2, d) == DiskRefs(h, d) && (DiskUnshared(h, d) ==> DiskUnshared(h2, d))
  {
    hide PartitionCopy, TableRefs, TableUnshared;
    if d.partitions.Some? { TableRefsStay(h, h2, h.tables[d.partitions.value], lo); }
  }

  // ---------- growing the heap keeps what is seen ----------

  lemma GrowsTransitive(a: Heap, b: Heap, c: Heap)
    requires Grows(a, b) && Grows(b, c)
    ensures Grows(a, c)
  {}

  lemma MountsStay(h: Heap, h2: Heap, r: Option<Ref>)
    requires Grows(h, h2) && MountsSound(h, r)
    ensures TreesOfMounts(h2, r) == TreesOfMounts(h, r) && MountsSound(h2, r)
  {
    if r.Some? {
      forall k | k in h.mounts[r.value]
        ensures TreeOfMount(h2, h2.mounts[r.value][k], true) == TreeOfMount(h, h.mounts[r.value][k], true)
      {
        assert MountSound(h, h.mounts[r.value][k]);
      }
      assert TreesOfMounts(h2, r).value == TreesOfMounts(h, r).value;
    }
  }

  lemma MountsCopyStays(h: Heap, h2: Heap, r: Option<Ref>, lo: Ref)
    requires Grows(h, h2) && MountsCopy(h, r, lo)
    ensures MountsCopy(h2, r, lo) && MountsSound(h, r)
  {
    if r.Some? {
      forall k | k in h.mounts[r.value]
        ensures MountSound(h, h.mounts[r.value][k]) && MountCopy(h2, h2.mounts[r.value][k], lo)
      {
        assert MountCopy(h, h.mounts[r.value][k], lo);
      }
    }
  }

  lemma PartitionStays(h: Heap, h2: Heap, p: Partition, lo: Ref)
    requires Grows(h, h2) && PartitionCopy(h, p, lo)
    ensures PartitionCopy(h2, p, lo) && TreeOfPartition(h2, p) == TreeOfPartition(h, p)
  {
    MountsCopyStays(h, h2, p.mounts, lo);
    MountsCopyStays(h, h2, p.hostMounts, lo);
    MountsStay(h, h2, p.mounts);
    MountsStay(h, h2, p.hostMounts);
  }

  // ---------- the snapshot functions ----------

  method SnapshotMount(h: Heap, src: MountPoint, includeShare: bool) returns (h2: Heap, cloned: MountPoint)
    requires Fresh(h) && MountSound(h, src)
    ensures Grows(h, h2) && MountCopy(h2, cloned, h.next)
    ensures TreeOfMount(h2, cloned, true) == TreeOfMount(h, src, includeShare)
    ensures !includeShare ==> cloned.share.None? && h2 == h
    decreases includeShare
  {
    h2 := h;
    cloned := src.(partition := None);
    if src.share.Some? && includeShare {
      var share;
      h2, share := SnapshotShare(h2, h.shares[src.share.value], false);
      h2 := h2.(shares := h2.shares[h2.next := share], next := h2.next + 1);
      cloned := cloned.(share := Some(h2.next - 1));
    } else {
      cloned := cloned.(share := None);
    }
  }

  method SnapshotShare(h: Heap, src: Share, includeMountPoint: bool) returns (h2: Heap, cloned: Share)
    requires Fresh(h) && (includeMountPoint ==>
        ShareSound(h, src) && (src.mount.Some? ==> MountSound(h, h.points[src.mount.value])))
    ensures Grows(h, h2) && ShareCopy(h2, cloned, h.next)
    ensures LeafOf(cloned) == LeafOf(src)
    ensures includeMountPoint ==> TreeOfShare(h2, cloned) == TreeOfShare(h, src)
    ensures !includeMountPoint ==> cloned.mount.None? && h2 == h
    decreases includeMountPoint
  {
    h2 := h;
    cloned := src;
    if src.mount.Some? && includeMountPoint {
      var mountPoint;
      h2, mountPoint := SnapshotMount(h2, h.points[src.mount.value], false);
      h2 := h2.(points := h2.points[h2.next := mountPoint], next := h2.next + 1);
      cloned := cloned.(mount := Some(h2.next - 1));
    } else if !includeMountPoint {
      cloned := cloned.(mount := None);
    }
  }

  /** One mount map; the copy gets a reference of its own. */
  method SnapshotMounts(h: Heap, src: Option<Ref>) returns (h2: Heap, cloned: Option<Ref>)
    requires Fresh(h) && MountsSound(h, src)
    ensures Grows(h, h2) && MountsCopy(h2, cloned, h.next)
    ensures TreesOfMounts(h2, cloned) == TreesOfMounts(h, src)
    ensures (cloned.Some? <==> src.Some?) && MountsUnshared(h2, cloned)
  {
    h2, cloned := h, src;
    if src.Some? {
      var copies;
      h2, copies := CopyMounts(h, src.value);
      MountsStored(h, h2, copies, src.value);
      MountsStoredUnshared(h, h2, copies, src.value);
      h2 := h2.(mounts := h2.mounts[h2.next := copies], next := h2.next + 1);
      cloned := Some(h2.next - 1);
    }
  }

  ghost predicate MountsCopied(h: Heap, m: map<string, MountPoint>, h2: Heap, copies: map<string, MountPoint>) {
    forall k :: k in copies ==>
      k in m && MountCopy(h2, copies[k], h.next) && TreeOfMount(h2, copies[k], true) == TreeOfMount(h, m[k], true)
  }

  lemma OneMoreMount(h: Heap, m: map<string, MountPoint>, h1: Heap, h2: Heap, copies: map<string, MountPoint>,
      k: string, copy: MountPoint)
    requires Grows(h, h1) && Grows(h1, h2) && MountsCopied(h, m, h1, copies) && k in m
    requires MountCopy(h2, copy, h1.next) &&
        TreeOfMount(h2, copy, true) == TreeOfMount(h1, m[k], true) == TreeOfMount(h, m[k], true)
    ensures Grows(h, h2) && MountsCopied(h, m, h2, copies[k := copy])
  {
    hide Grows, TreeOfMount;
    GrowsTransitive(h, h1, h2);
    GrowsFresh(h, h1);
    forall j | j in copies
      ensures MountCopy(h2, copies[j], h.next) && TreeOfMount(h2, copies[j], true) == TreeOfMount(h, m[j], true)
    {
      MountCopyStays(h1, h2, copies[j], h.next);
    }
  }

  lemma NewShareDistinct(h: Heap, m: map<string, MountPoint>, h1: Heap, h2: Heap, copies: map<string, MountPoint>,
      k: string, copy: MountPoint)
    requires MountsCopied(h, m, h1, copies) && MountCopy(h2, copy, h1.next)
    ensures DistinctShares(copies) ==> DistinctShares(copies[k := copy])
  {
    hide TreeOfMount;
    assert forall j :: j in copies && copies[j].share.Some? ==> copies[j].share.value < h1.next;
  }

  /** The loop over the entries, in any order. */
  method CopyMounts(h: Heap, r: Ref) returns (h2: Heap, copies: map<string, MountPoint>)
    requires Fresh(h) && MountsSound(h, Some(r))
    ensures Grows(h, h2) && copies.Keys == h.mounts[r].Keys
    ensures MountsCopied(h, h.mounts[r], h2, copies) && DistinctShares(copies)
  {
    hide Grows, TreeOfMount, MountCopy;
    NothingGrows(h);
    h2, copies := h, map[];
    var m := h.mounts[r];
    var todo := m.Keys;
    while todo != {}
      invariant todo <= m.Keys && copies.Keys == m.Keys - todo
      invariant Fresh(h2) && Grows(h, h2)
      invariant MountsCopied(h, m, h2, copies) && DistinctShares(copies)
      decreases |todo|
    {
      hide Grows, TreeOfMount, Fresh, MountsCopied, MountCopy, DistinctShares;
      var k :| k in todo;
      MountStays(h, h2, m[k]);
      var before, copy := h2, m[k];
      h2, copy := SnapshotMount(h2, m[k], true);
      OneMoreMount(h, m, before, h2, copies, k, copy);
      NewShareDistinct(h, m, before, h2, copies, k, copy);
      GrowsFresh(before, h2);
      copies := copies[k := copy];
      todo := todo - {k};
    }
  }

  lemma NothingGrows(h: Heap)
    requires Fresh(h)
    ensures Grows(h, h)
  {}

  /** Storing a map at a new reference. */
  lemma StoreGrows(h: Heap, mounts: map<string, MountPoint>, table: map<string, Partition>)
    requires Fresh(h)
    ensures Grows(h, h.(mounts := h.mounts[h.next := mounts], next := h.next + 1))
    ensures Grows(h, h.(tables := h.tables[h.next := table], next := h.next + 1))
  {}

  lemma GrowsFresh(h: Heap, h2: Heap)
    requires Grows(h, h2)
    ensures Fresh(h2) && h.next <= h2.next
  {}

  lemma MountStays(h: Heap, h2: Heap, m: MountPoint)
    requires Grows(h, h2) && MountSound(h, m)
    ensures MountSound(h2, m) && TreeOfMount(h2, m, true) == TreeOfMount(h, m, true)
  {}

  lemma MountCopyStays(h: Heap, h2: Heap, m: MountPoint, lo: Ref)
    requires Grows(h, h2) && MountCopy(h, m, lo)
    ensures MountCopy(h2, m, lo) && TreeOfMount(h2, m, true) == TreeOfMount(h, m, true)
  {}

  lemma MountsStored(h: Heap, h1: Heap, copies: map<string, MountPoint>, src: Ref)
    requires Fresh(h) && Grows(h, h1) && src in h.mounts && copies.Keys == h.mounts[src].Keys
    requires MountsCopied(h, h.mounts[src], h1, copies)
    ensures var h2 := h1.(mounts := h1.mounts[h1.next := copies], next := h1.next + 1);
      Grows(h, h2) && MountsCopy(h2, Some(h1.next), h.next) &&
          TreesOfMounts(h2, Some(h1.next)) == TreesOfMounts(h, Some(src))
  {
    hide Grows, Fresh, TreeOfMount, MountCopy;
    var h2 := h1.(mounts := h1.mounts[h1.next := copies], next := h1.next + 1);
    GrowsFresh(h, h1);
    StoreGrows(h1, copies, map[]);
    GrowsTransitive(h, h1, h2);
    forall k | k in copies
      ensures MountCopy(h2, copies[k], h.next) &&
          TreeOfMount(h2, copies[k], true) == TreeOfMount(h, h.mounts[src][k], true)
    {
      MountCopyStays(h1, h2, copies[k], h.next);
    }
    assert TreesOfMounts(h2, Some(h1.next)).value == TreesOfMounts(h, Some(src)).value;
  }

  lemma MountsStoredUnshared(h: Heap, h1: Heap, copies: map<string, MountPoint>, src: Ref)
    requires src in h.mounts && MountsCopied(h, h.mounts[src], h1, copies) && DistinctShares(copies)
    ensures MountsUnshared(h1.(mounts := h1.mounts[h1.next := copies], next := h1.next + 1), Some(h1.next))
  {
    hide TreeOfMount, DistinctShares;
    forall k | k in copies && copies[k].share.Some?
      ensures copies[k].share.value < h1.next
    {
      assert MountCopy(h1, copies[k], h.next);
    }
  }

  method SnapshotPartition(h: Heap, src: Partition) returns (h2: Heap, cloned: Partition)
    requires Fresh(h) && PartitionSound(h, src)
    ensures Grows(h, h2) && PartitionCopy(h2, cloned, h.next)
    ensures TreeOfPartition(h2, cloned) == TreeOfPartition(h, src)
    ensures PartitionUnshared(h2, cloned)
  {
    hide Grows, MountsUnshared, MountsRefs;
    var mounts, hostMounts;
    var h1;
    h1, mounts := SnapshotMounts(h, src.mounts);
    MountsStay(h, h1, src.hostMounts);
    h2, hostMounts := SnapshotMounts(h1, src.hostMounts);
    MountsCopyStays(h1, h2, mounts, h.next);
    MountsStay(h1, h2, mounts);
    MountsRefsStay(h1, h2, mounts, h.next);
    MountsWithin(h1, mounts, h.next);
    MountsWithin(h2, hostMounts, h1.next);
    GrowsTransitive(h, h1, h2);
    GrowsFresh(h, h1);
    cloned := src.(mounts := mounts, hostMounts := hostMounts);
  }

  method SnapshotDisk(h: Heap, src: Option<Ref>) returns (h2: Heap, cloned: Option<Ref>)
    requires Fresh(h) && (src.Some? ==> src.value in h.disks && DiskSound(h, h.disks[src.value]))
    ensures Grows(h, h2)
    ensures src.None? <==> cloned.None?
    ensures cloned.Some? ==>
      && h.next <= cloned.value < h2.next && cloned.value in h2.disks
      && DiskCopy(h2, h2.disks[cloned.value], h.next)
      && DiskUnshared(h2, h2.disks[cloned.value]) && cloned.value !in DiskRefs(h2, h2.disks[cloned.value])
      && TreeOfDisk(h2, h2.disks[cloned.value]) == TreeOfDisk(h, h.disks[src.value])
  {
    hide Grows, TreeOfPartition, PartitionCopy, TableCopied;
    NothingGrows(h);
    h2, cloned := h, None;
    if src.None? {
      return;
    }
    var d := h.disks[src.value];
    if d.partitions.Some? {
      var copies;
      h2, copies := CopyTable(h, d.partitions.value);
      TableStored(h, h2, copies, d);
      TableStoredUnshared(h, h2, copies, d);
      h2 := h2.(tables := h2.tables[h2.next := copies], next := h2.next + 1);
      d := d.(partitions := Some(h2.next - 1));
    }
    DiskStored(h, h2, d);
    h2 := h2.(disks := h2.disks[h2.next := d], next := h2.next + 1);
    cloned := Some(h2.next - 1);
  }

  ghost predicate TableCopied(h: Heap, t: map<string, Partition>, h2: Heap, copies: map<string, Partition>) {
    forall k :: k in copies ==>
      k in t && PartitionCopy(h2, copies[k], h.next) && TreeOfPartition(h2, copies[k]) == TreeOfPartition(h, t[k])
  }

  lemma OneMorePartition(h: Heap, t: map<string, Partition>, h1: Heap, h2: Heap, copies: map<string, Partition>,
      k: string, copy: Partition)
    requires Grows(h, h1) && Grows(h1, h2) && TableCopied(h, t, h1, copies) && k in t
    requires PartitionCopy(h2, copy, h1.next) &&
        TreeOfPartition(h2, copy) == TreeOfPartition(h1, t[k]) == TreeOfPartition(h, t[k])
    ensures Grows(h, h2) && TableCopied(h, t, h2, copies[k := copy])
  {
    hide Grows, TreeOfPartition, PartitionCopy;
    GrowsTransitive(h, h1, h2);
    GrowsFresh(h, h1);
    PartitionLower(h2, copy, h1.next, h.next);
    forall j | j in copies
      ensures PartitionCopy(h2, copies[j], h.next) && TreeOfPartition(h2, copies[j]) == TreeOfPartition(h, t[j])
    {
      PartitionStays(h1, h2, copies[j], h.next);
    }
  }

  lemma NewPartitionUnshared(h: Heap, t: map<string, Partition>, h1: Heap, h2: Heap, copies: map<string, Partition>,
      k: string, copy: Partition)
    requires Grows(h1, h2) && TableCopied(h, t, h1, copies) && PartitionCopy(h2, copy, h1.next)
    ensures TableUnshared(h1, copies) && PartitionUnshared(h2, copy) ==> TableUnshared(h2, copies[k := copy])
  {
    hide Grows, TreeOfPartition, PartitionCopy, PartitionRefs, PartitionUnshared;
    TableRefsStay(h1, h2, copies, h.next);
    PartitionWithin(h2, copy, h1.next);
    forall j | j in copies
      ensures Within(PartitionRefs(h2, copies[j]), h.next, h1.next)
    {
      PartitionWithin(h1, copies[j], h.next);
      PartitionRefsStay(h1, h2, copies[j], h.next);
    }
  }

  /** The loop over the partitions of a disk, in any order. */
  method CopyTable(h: Heap, table: Ref) returns (h2: Heap, copies: map<string, Partition>)
    requires Fresh(h) && table in h.tables && forall k :: k in h.tables[table] ==> PartitionSound(h, h.tables[table][k])
    ensures Grows(h, h2) && copies.Keys == h.tables[table].Keys
    ensures TableCopied(h, h.tables[table], h2, copies) && TableUnshared(h2, copies)
  {
    hide Grows, TreeOfPartition, PartitionCopy, PartitionSound;
    NothingGrows(h);
    h2, copies := h, map[];
    var t := h.tables[table];
    var todo := t.Keys;
    while todo != {}
      invariant todo <= t.Keys && copies.Keys == t.Keys - todo
      invariant Fresh(h2) && Grows(h, h2)
      invariant TableCopied(h, t, h2, copies) && TableUnshared(h2, copies)
      decreases |todo|
    {
      hide Grows, TreeOfPartition, Fresh, TableCopied, PartitionCopy, PartitionSound, TableUnshared, PartitionUnshared;
      var k :| k in todo;
      PartitionSoundStays(h, h2, t[k]);
      var before, copy := h2, t[k];
      h2, copy := SnapshotPartition(h2, t[k]);
      OneMorePartition(h, t, before, h2, copies, k, copy);
      NewPartitionUnshared(h, t, before, h2, copies, k, copy);
      GrowsFresh(before, h2);
      copies := copies[k := copy];
      todo := todo - {k};
    }
  }

  lemma PartitionLower(h: Heap, p: Partition, lo: Ref, lo2: Ref)
    requires PartitionCopy(h, p, lo) && lo2 <= lo
    ensures PartitionCopy(h, p, lo2)
  {}

  lemma PartitionSoundStays(h: Heap, h2: Heap, p: Partition)
    requires Grows(h, h2) && PartitionSound(h, p)
    ensures PartitionSound(h2, p) && TreeOfPartition(h2, p) == TreeOfPartition(h, p)
  {
    MountsStay(h, h2, p.mounts);
    MountsStay(h, h2, p.hostMounts);
  }

  lemma TableGrows(h: Heap, h1: Heap, copies: map<string, Partition>)
    requires Fresh(h) && Grows(h, h1)
    ensures var h2 := h1.(tables := h1.tables[h1.next := copies], next := h1.next + 1);
      Grows(h, h2) && Grows(h1, h2) && h.next <= h1.next
  {
    GrowsFresh(h, h1);
    StoreGrows(h1, map[], copies);
    GrowsTransitive(h, h1, h1.(tables := h1.tables[h1.next := copies], next := h1.next + 1));
  }

  lemma TableStored(h: Heap, h1: Heap, copies: map<string, Partition>, d: Disk)
    requires Fresh(h) && Grows(h, h1) && d.partitions.Some? && d.partitions.value in h.tables
    requires copies.Keys == h.tables[d.partitions.value].Keys
    requires TableCopied(h, h.tables[d.partitions.value], h1, copies)
    ensures var h2 := h1.(tables := h1.tables[h1.next := copies], next := h1.next + 1);
      && Grows(h, h2) && DiskCopy(h2, d.(partitions := Some(h1.next)), h.next)
      && TreeOfDisk(h2, d.(partitions := Some(h1.next))) == TreeOfDisk(h, d)
  {
    hide Grows, Fresh, TreeOfPartition, PartitionCopy;
    var h2 := h1.(tables := h1.tables[h1.next := copies], next := h1.next + 1);
    TableGrows(h, h1, copies);
    forall k | k in copies
      ensures PartitionCopy(h2, copies[k], h.next) &&
          TreeOfPartition(h2, copies[k]) == TreeOfPartition(h, h.tables[d.partitions.value][k])
    {
      PartitionStays(h1, h2, copies[k], h.next);
    }
    assert TreeOfDisk(h2, d.(partitions := Some(h1.next))).partitions.value == TreeOfDisk(h, d).partitions.value;
  }

  lemma TableStoredUnshared(h: Heap, h1: Heap, copies: map<string, Partition>, d: Disk)
    requires Fresh(h) && Grows(h, h1) && d.partitions.Some? && d.partitions.value in h.tables
    requires TableCopied(h, h.tables[d.partitions.value], h1, copies) && TableUnshared(h1, copies)
    ensures var h2 := h1.(tables := h1.tables[h1.next := copies], next := h1.next + 1);
      DiskUnshared(h2, d.(partitions := Some(h1.next)))
  {
    hide Grows, Fresh, TreeOfPartition, PartitionCopy, TableUnshared, TableRefs;
    var h2 := h1.(tables := h1.tables[h1.next := copies], next := h1.next + 1);
    TableGrows(h, h1, copies);
    TableRefsStay(h1, h2, copies, h.next);
    TableWithin(h1, copies, h.next);
  }

  lemma DiskStored(h: Heap, h1: Heap, d: Disk)
    requires Fresh(h) && Grows(h, h1) && DiskCopy(h1, d, h.next)
    ensures var h2 := h1.(disks := h1.disks[h1.next := d], next := h1.next + 1);
      && Grows(h, h2) && DiskCopy(h2, d, h.next) && TreeOfDisk(h2, d) == TreeOfDisk(h1, d)
      && (DiskUnshared(h1, d) ==> DiskUnshared(h2, d)) && h1.next !in DiskRefs(h2, d)
  {
    var h2 := h1.(disks := h1.disks[h1.next := d], next := h1.next + 1);
    assert Grows(h1, h2);
    GrowsTransitive(h, h1, h2);
    DiskCopyStays(h1, h2, d, h.next);
    DiskRefsStay(h1, h2, d, h.next);
    DiskWithin(h1, d, h.next);
  }

  lemma DiskCopyStays(h: Heap, h2: Heap, d: Disk, lo: Ref)
    requires Grows(h, h2) && DiskCopy(h, d, lo)
    ensures DiskCopy(h2, d, lo) && TreeOfDisk(h2, d) == TreeOfDisk(h, d)
  {
    if d.partitions.Some? {
      forall k | k in h.tables[d.partitions.value]
        ensures PartitionCopy(h2, h2.tables[d.partitions.value][k], lo)
        ensures TreeOfPartition(h2, h2.tables[d.partitions.value][k]) ==
            TreeOfPartition(h, h.tables[d.partitions.value][k])
      {
        hide TreeOfPartition;
        PartitionStays(h, h2, h.tables[d.partitions.value][k], lo);
      }
      assert TreeOfDisk(h2, d).partitions.value == TreeOfDisk(h, d).partitions.value;
    }
  }
}
