/**
 The FAT16 volume as the loader reads it (Microsoft FAT specification 1.03, section
 "FAT Data Structure"): layout, directory entries, cluster chains and file contents.
 */
module Fat16 {
  import opened Words
  import opened Arithmetic

  /** The fields of the BIOS parameter block that determine the layout. */
  datatype Bpb = Bpb(bytesPerSector: nat, sectorsPerCluster: nat, reservedSectors: nat, fatCount: nat,
    rootEntries: nat, sectorsPerFat: nat)
  {
    function FatSectors(): nat { fatCount * sectorsPerFat }

    function RootBytes(): nat { 32 * rootEntries }
  }

  /** Sector numbers on the disk, and the two size units. */
  datatype Layout = Layout(fat1: nat, root: nat, rootSectors: nat, data: nat,
    sectorsPerCluster: nat, bytesPerSector: nat)
  {
    function BytesPerCluster(): nat { sectorsPerCluster * bytesPerSector }
  }

  /** The specification's layout of a volume that starts at sector `partition`: the reserved
      sectors, the FATs, the root directory, the data. */
  function SpecLayout(b: Bpb, partition: nat): Layout
    requires b.bytesPerSector > 0
  {
    var fat1 := partition + b.reservedSectors;
    var root := fat1 + b.FatSectors();
    var rootSectors := (b.RootBytes() + (b.bytesPerSector - 1)) / b.bytesPerSector;
    Layout(fat1, root, rootSectors, root + rootSectors, b.sectorsPerCluster, b.bytesPerSector)
  }

  /** Sizes the specification allows: powers of two, clusters of at most 32 KiB. */
  predicate ValidSizes(bytesPerSector: nat, sectorsPerCluster: nat) {
    && bytesPerSector in {512, 1024, 2048, 4096}
    && sectorsPerCluster in {1, 2, 4, 8, 16, 32, 64, 128}
    && sectorsPerCluster * bytesPerSector <= 0x8000
  }

  lemma SizeFacts(bytesPerSector: nat, sectorsPerCluster: nat)
    requires ValidSizes(bytesPerSector, sectorsPerCluster)
    ensures 0 < bytesPerSector <= 0x1000 && bytesPerSector % 32 == 0 && bytesPerSector % 2 == 0
    ensures 0 < sectorsPerCluster < 0x100
  {
  }

  /** A 64 KiB segment holds a whole number of clusters. */
  lemma ClustersFillSegment(bytesPerSector: nat, sectorsPerCluster: nat) returns (perSegment: nat)
    requires ValidSizes(bytesPerSector, sectorsPerCluster)
    ensures perSegment > 0 && perSegment * (sectorsPerCluster * bytesPerSector) == 0x1_0000
  {
    perSegment := 0x1_0000 / (sectorsPerCluster * bytesPerSector);
  }

  /** Where cluster i of a file goes. */
  function ClusterAddress(start: nat, i: nat, size: nat): nat {
    if i == 0 then start else ClusterAddress(start, i - 1, size) + size
  }

  lemma {:induction false} ClusterAddressIs(start: nat, i: nat, size: nat)
    ensures ClusterAddress(start, i, size) == start + i * size
  {
    if i > 0 { ClusterAddressIs(start, i - 1, size); }
  }

  /** So cluster transfers, one after the other from a segment start, never cross a segment. */
  lemma NoSegmentCrossed(start: nat, i: nat, size: nat, perSegment: nat)
    requires start % 0x1_0000 == 0 && perSegment > 0 && perSegment * size == 0x1_0000
    ensures ClusterAddress(start, i, size) % 0x1_0000 + size <= 0x1_0000
  {
    ClusterAddressIs(start, i, size);
    var a, b := i / perSegment, i % perSegment;
    SplitProduct(i, size, perSegment);
    assert b * size + size == (b + 1) * size;
    LessEq(b + 1, perSegment, size);
    SegmentOffset(start / 0x1_0000 + a, b * size);
  }

  lemma SplitProduct(i: nat, size: nat, n: nat)
    requires n > 0
    ensures i * size == i / n * (n * size) + i % n * size
  {
    var a, b := i / n, i % n;
    assert i == a * n + b;
    assert (a * n + b) * size == a * n * size + b * size;
    assert a * n * size == a * (n * size);
  }

  lemma SegmentOffset(a: nat, offset: nat)
    requires offset < 0x1_0000
    ensures (0x1_0000 * a + offset) % 0x1_0000 == offset
  {
  }

  // ---------------------------------------------------------------- directory

  /** The name bytes at byte `at` of the disk. */
  predicate NameAt(disk: seq<Byte>, name: seq<Byte>, at: nat) {
    at + |name| <= |disk| && disk[at..at + |name|] == name
  }

  /** Entry j of sector s of the root directory. */
  predicate InDirectory(v: Layout, s: nat, j: nat) {
    s < v.rootSectors && 32 * j < v.bytesPerSector
  }

  /** The disk byte at which sector s of the root directory starts. */
  function RootSectorByte(v: Layout, s: nat): nat {
    (v.root + s) * v.bytesPerSector
  }

  lemma RootSectorOnDisk(v: Layout, s: nat, diskSize: nat)
    requires s < v.rootSectors && RootSectorByte(v, v.rootSectors) <= diskSize
    ensures RootSectorByte(v, s) + v.bytesPerSector <= diskSize
  {
    assert (v.root + s) * v.bytesPerSector + v.bytesPerSector == (v.root + s + 1) * v.bytesPerSector;
    LessEq(v.root + s + 1, v.root + v.rootSectors, v.bytesPerSector);
  }

  predicate EntryMatches(disk: seq<Byte>, v: Layout, name: seq<Byte>, s: nat, j: nat) {
    NameAt(disk, name, RootSectorByte(v, s) + 32 * j)
  }

  /** Entry (s, j) matches and no entry before it does, over all root sectors. */
  ghost predicate IsFirstMatch(disk: seq<Byte>, v: Layout, name: seq<Byte>, s: nat, j: nat) {
    && InDirectory(v, s, j) && EntryMatches(disk, v, name, s, j)
    && NoMatchBefore(disk, v, name, s, j)
  }

  ghost predicate NoMatch(disk: seq<Byte>, v: Layout, name: seq<Byte>) {
    forall t: nat, i: nat :: InDirectory(v, t, i) ==> !EntryMatches(disk, v, name, t, i)
  }

  /** No entry before (s, j) matches. */
  ghost predicate NoMatchBefore(disk: seq<Byte>, v: Layout, name: seq<Byte>, s: nat, j: nat) {
    forall t: nat, i: nat :: InDirectory(v, t, i) && (t < s || (t == s && i < j)) ==> !EntryMatches(disk, v, name, t, i)
  }

  lemma MatchFound(disk: seq<Byte>, v: Layout, name: seq<Byte>, s: nat, j: nat)
    requires InDirectory(v, s, j) && EntryMatches(disk, v, name, s, j) && NoMatchBefore(disk, v, name, s, j)
    ensures IsFirstMatch(disk, v, name, s, j) && !NoMatch(disk, v, name)
  {
  }

  lemma SectorDone(disk: seq<Byte>, v: Layout, name: seq<Byte>, s: nat, j: nat)
    requires NoMatchBefore(disk, v, name, s, j) && 32 * j == v.bytesPerSector
    ensures NoMatchBefore(disk, v, name, s + 1, 0)
  {
  }

  lemma AllScanned(disk: seq<Byte>, v: Layout, name: seq<Byte>, s: nat, j: nat)
    requires NoMatchBefore(disk, v, name, s, j) && 32 * j == v.bytesPerSector && v.rootSectors == s + 1
    ensures NoMatch(disk, v, name)
  {
  }

  // In disk bytes, without the notions above

  /** The entry j of root directory sector s has the given name. */
  predicate EntryNamed(disk: seq<Byte>, root: nat, bytesPerSector: nat, name: seq<Byte>, s: nat, j: nat) {
    var at := (root + s) * bytesPerSector + 32 * j;
    at + |name| <= |disk| && forall n :: 0 <= n < |name| ==> disk[at + n] == name[n]
  }

  /** It is the first one. */
  ghost predicate FirstNamed(disk: seq<Byte>, root: nat, sectors: nat, bytesPerSector: nat, name: seq<Byte>,
      s: nat, j: nat)
  {
    && s < sectors && 32 * j < bytesPerSector && EntryNamed(disk, root, bytesPerSector, name, s, j)
    && forall t: nat, i: nat :: (t < s && 32 * i < bytesPerSector) || (t == s && i < j) ==>
         !EntryNamed(disk, root, bytesPerSector, name, t, i)
  }

  ghost predicate NoneNamed(disk: seq<Byte>, root: nat, sectors: nat, bytesPerSector: nat, name: seq<Byte>) {
    forall t: nat, i: nat :: t < sectors && 32 * i < bytesPerSector ==>
      !EntryNamed(disk, root, bytesPerSector, name, t, i)
  }

  lemma NameInBytes(disk: seq<Byte>, v: Layout, name: seq<Byte>, s: nat, j: nat)
    ensures EntryMatches(disk, v, name, s, j) <==> EntryNamed(disk, v.root, v.bytesPerSector, name, s, j)
  {
    var at := (v.root + s) * v.bytesPerSector + 32 * j;
    if at + |name| <= |disk| {
      var entry := disk[at..at + |name|];
      assert forall n :: 0 <= n < |name| ==> entry[n] == disk[at + n];
      if EntryNamed(disk, v.root, v.bytesPerSector, name, s, j) {
        assert forall n :: 0 <= n < |name| ==> entry[n] == name[n];
      }
    }
  }

  /** The search and its first hit, in these terms. */
  lemma SearchInBytes(disk: seq<Byte>, v: Layout, name: seq<Byte>, s: nat, j: nat)
    ensures NoMatch(disk, v, name) <==> NoneNamed(disk, v.root, v.rootSectors, v.bytesPerSector, name)
    ensures IsFirstMatch(disk, v, name, s, j) ==>
      FirstNamed(disk, v.root, v.rootSectors, v.bytesPerSector, name, s, j)
  {
    forall t: nat, i: nat
      ensures EntryMatches(disk, v, name, t, i) <==> EntryNamed(disk, v.root, v.bytesPerSector, name, t, i)
    {
      NameInBytes(disk, v, name, t, i);
    }
  }

  /** The start cluster in a directory entry. */
  function StartCluster(disk: seq<Byte>, v: Layout, s: nat, j: nat): nat
    requires RootSectorByte(v, s) + 32 * j + 0x1c <= |disk|
  {
    var at := RootSectorByte(v, s) + 32 * j;
    LittleEndian(disk[at + 0x1a], disk[at + 0x1b])
  }

  // ---------------------------------------------------------------- clusters

  /** FirstSectorofCluster of the specification. */
  function ClusterSector(v: Layout, c: nat): nat
    requires c >= 2
  {
    v.data + (c - 2) * v.sectorsPerCluster
  }

  function LittleEndian(low: nat, high: nat): nat {
    low + 0x100 * high
  }

  /** The disk byte of the FAT entry of cluster c, in the first FAT. */
  function FatByte(v: Layout, c: nat): nat {
    v.fat1 * v.bytesPerSector + 2 * c
  }

  /** The FAT entry of cluster c: two bytes, little-endian. */
  function FatEntry(disk: seq<Byte>, v: Layout, c: nat): nat
    requires FatByte(v, c) + 2 <= |disk|
  {
    LittleEndian(disk[FatByte(v, c)], disk[FatByte(v, c) + 1])
  }

  /** A cluster number the loader can follow: data and FAT sectors lie on the disk, and the
      FAT sector number fits the 16-bit register it is computed in. */
  predicate ValidCluster(disk: seq<Byte>, v: Layout, c: nat)
    requires v.bytesPerSector > 0
  {
    && 2 <= c < 0xfff8
    && (ClusterSector(v, c) + v.sectorsPerCluster) * v.bytesPerSector <= |disk|
    && v.fat1 + 2 * c / v.bytesPerSector < 0x1_0000
    && (v.fat1 + 2 * c / v.bytesPerSector + 1) * v.bytesPerSector <= |disk|
    && FatByte(v, c) + 2 <= |disk|
  }

  /** The cluster chain from `first`: valid numbers linked by the FAT, then an end mark. */
  ghost predicate IsChain(disk: seq<Byte>, v: Layout, first: nat, chain: seq<nat>)
    requires v.bytesPerSector > 0
    decreases |chain|
  {
    && |chain| > 0 && chain[0] == first && ValidCluster(disk, v, first)
    && var next := FatEntry(disk, v, first);
       if |chain| == 1 then next >= 0xfff8 else next < 0xfff8 && IsChain(disk, v, next, chain[1..])
  }

  function Cluster(disk: seq<Byte>, v: Layout, c: nat): seq<Byte>
    requires v.bytesPerSector > 0 && ValidCluster(disk, v, c)
  {
    disk[ClusterSector(v, c) * v.bytesPerSector..(ClusterSector(v, c) + v.sectorsPerCluster) * v.bytesPerSector]
  }

  /** The contents of a file: its clusters one after the other. */
  ghost function Contents(disk: seq<Byte>, v: Layout, first: nat, chain: seq<nat>): seq<Byte>
    requires v.bytesPerSector > 0 && IsChain(disk, v, first, chain)
    decreases |chain|
  {
    Cluster(disk, v, first) +
    if |chain| == 1 then [] else Contents(disk, v, FatEntry(disk, v, first), chain[1..])
  }

  /** What follows a cluster, given the next FAT entry. */
  ghost function Tail(disk: seq<Byte>, v: Layout, next: nat, rest: seq<nat>): seq<Byte>
    requires v.bytesPerSector > 0 && (next < 0xfff8 ==> IsChain(disk, v, next, rest))
  {
    if next < 0xfff8 then Contents(disk, v, next, rest) else []
  }

  lemma UnfoldContents(disk: seq<Byte>, v: Layout, first: nat, chain: seq<nat>)
    requires v.bytesPerSector > 0 && IsChain(disk, v, first, chain)
    ensures |chain| > 0 && ValidCluster(disk, v, first)
    ensures FatEntry(disk, v, first) < 0xfff8 ==> IsChain(disk, v, FatEntry(disk, v, first), chain[1..])
    ensures Contents(disk, v, first, chain) ==
      Cluster(disk, v, first) + Tail(disk, v, FatEntry(disk, v, first), chain[1..])
  {
  }

  lemma ClusterLength(disk: seq<Byte>, v: Layout, c: nat)
    requires v.bytesPerSector > 0 && ValidCluster(disk, v, c)
    ensures |Cluster(disk, v, c)| == v.BytesPerCluster()
  {
  }

  /** Where it lies on the disk. */
  lemma ClusterSlice(disk: seq<Byte>, v: Layout, c: nat) returns (from: nat)
    requires v.bytesPerSector > 0 && ValidCluster(disk, v, c)
    ensures from == ClusterSector(v, c) * v.bytesPerSector && from + v.BytesPerCluster() <= |disk|
    ensures Cluster(disk, v, c) == disk[from..from + v.BytesPerCluster()]
  {
    from := ClusterSector(v, c) * v.bytesPerSector;
    assert (ClusterSector(v, c) + v.sectorsPerCluster) * v.bytesPerSector == from + v.BytesPerCluster();
  }

  lemma Distribute(n: nat, b: nat)
    requires n > 0
    ensures (n - 1) * b + b == n * b
  {
  }

  lemma {:induction false} ContentsLength(disk: seq<Byte>, v: Layout, first: nat, chain: seq<nat>)
    requires v.bytesPerSector > 0 && IsChain(disk, v, first, chain)
    ensures |Contents(disk, v, first, chain)| == |chain| * v.BytesPerCluster()
    decreases |chain|
  {
    var n, b := |chain|, v.BytesPerCluster();
    ClusterLength(disk, v, first);
    if n > 1 {
      ContentsLength(disk, v, FatEntry(disk, v, first), chain[1..]);
      Distribute(n, b);
    }
  }

  /** The FAT determines the chain. */
  lemma {:induction false} ChainUnique(disk: seq<Byte>, v: Layout, first: nat, a: seq<nat>, b: seq<nat>)
    requires v.bytesPerSector > 0
    requires IsChain(disk, v, first, a) && IsChain(disk, v, first, b)
    ensures a == b
    decreases |a|
  {
    if |a| > 1 {
      ChainUnique(disk, v, a[1], a[1..], b[1..]);
      assert a == [first] + a[1..] && b == [first] + b[1..];
    }
  }

  lemma {:induction false} SuffixIsChain(disk: seq<Byte>, v: Layout, a: seq<nat>, i: nat)
    requires v.bytesPerSector > 0 && i < |a| && IsChain(disk, v, a[0], a)
    ensures IsChain(disk, v, a[i], a[i..])
    decreases i
  {
    if i == 0 {
      assert a[0..] == a;
    } else {
      SuffixIsChain(disk, v, a[1..], i - 1);
      assert a[1..][i - 1..] == a[i..];
    }
  }

  /** A chain that ends visits no cluster twice. */
  lemma ChainIsAcyclic(disk: seq<Byte>, v: Layout, a: seq<nat>, i: nat, j: nat)
    requires v.bytesPerSector > 0 && i < j < |a| && IsChain(disk, v, a[0], a)
    ensures a[i] != a[j]
  {
    assert |a[i..]| != |a[j..]|;
    if a[i] == a[j] {
      SuffixIsChain(disk, v, a, i);
      SuffixIsChain(disk, v, a, j);
      ChainUnique(disk, v, a[i], a[i..], a[j..]);
    }
  }

  // ---------------------------------------------------------------- in disk bytes

  /** The chain: consecutive numbers are the little-endian words of the first FAT, and the word
      of the last one is an end mark. */
  ghost predicate ChainOnDisk(disk: seq<Byte>, fat1: nat, bytesPerSector: nat, first: nat, chain: seq<nat>) {
    && |chain| > 0 && chain[0] == first
    && forall i :: 0 <= i < |chain| ==> LinkOnDisk(disk, fat1, bytesPerSector, chain, i)
  }

  predicate LinkOnDisk(disk: seq<Byte>, fat1: nat, bytesPerSector: nat, chain: seq<nat>, i: nat)
    requires i < |chain|
  {
    var at := fat1 * bytesPerSector + 2 * chain[i];
    && 2 <= chain[i] < 0xfff8 && at + 2 <= |disk|
    && if i + 1 < |chain| then WordIn(disk, at) == chain[i + 1] else WordIn(disk, at) >= 0xfff8
  }

  /** A little-endian word. */
  function WordIn(bytes: seq<Byte>, at: nat): nat
    requires at + 2 <= |bytes|
  {
    (bytes[at] as int) + 0x100 * (bytes[at + 1] as int)
  }

  lemma ChainLink(disk: seq<Byte>, v: Layout, first: nat, chain: seq<nat>, i: nat)
    requires v.bytesPerSector > 0 && IsChain(disk, v, first, chain) && i < |chain|
    ensures ValidCluster(disk, v, chain[i])
    ensures if i + 1 < |chain| then FatEntry(disk, v, chain[i]) == chain[i + 1] < 0xfff8
      else FatEntry(disk, v, chain[i]) >= 0xfff8
  {
    SuffixIsChain(disk, v, chain, i);
    if i + 1 < |chain| { assert chain[i..][1..][0] == chain[i + 1]; }
  }

  lemma ChainInBytes(disk: seq<Byte>, v: Layout, first: nat, chain: seq<nat>)
    requires v.bytesPerSector > 0 && IsChain(disk, v, first, chain)
    ensures ChainOnDisk(disk, v.fat1, v.bytesPerSector, first, chain)
  {
    forall i | 0 <= i < |chain| ensures LinkOnDisk(disk, v.fat1, v.bytesPerSector, chain, i) {
      ChainLink(disk, v, first, chain, i);
      EntryInBytes(disk, v, chain[i]);
    }
  }

  lemma EntryInBytes(disk: seq<Byte>, v: Layout, c: nat)
    requires FatByte(v, c) + 2 <= |disk|
    ensures FatByte(v, c) == v.fat1 * v.bytesPerSector + 2 * c
    ensures FatEntry(disk, v, c) == WordIn(disk, FatByte(v, c))
  {
  }

  /** Byte k of the i-th cluster of a file, in memory from `start` on, is the one on the disk:
      cluster 2 is the first of the data area. */
  predicate ByteLoaded(m: seq<Byte>, start: nat, disk: seq<Byte>, data: nat, sectorsPerCluster: nat,
      bytesPerSector: nat, chain: seq<nat>, i: nat, k: nat)
    requires i < |chain| && chain[i] >= 2
  {
    var from := (data + (chain[i] - 2) * sectorsPerCluster) * bytesPerSector + k;
    var to := start + i * (sectorsPerCluster * bytesPerSector) + k;
    to < |m| && from < |disk| && m[to] == disk[from]
  }

  /** A whole file, cluster by cluster and byte by byte. */
  ghost predicate FileLoaded(m: seq<Byte>, start: nat, disk: seq<Byte>, data: nat, sectorsPerCluster: nat,
      bytesPerSector: nat, chain: seq<nat>)
  {
    forall i: nat, k: nat :: i < |chain| && k < sectorsPerCluster * bytesPerSector ==>
      chain[i] >= 2 && ByteLoaded(m, start, disk, data, sectorsPerCluster, bytesPerSector, chain, i, k)
  }

  lemma ClusterByte(disk: seq<Byte>, v: Layout, c: nat, k: nat)
    requires v.bytesPerSector > 0 && ValidCluster(disk, v, c) && k < v.BytesPerCluster()
    ensures |Cluster(disk, v, c)| == v.BytesPerCluster()
    ensures var from := (v.data + (c - 2) * v.sectorsPerCluster) * v.bytesPerSector + k;
      from < |disk| && Cluster(disk, v, c)[k] == disk[from]
  {
    ClusterLength(disk, v, c);
  }

  lemma ClusterInBytes(m: seq<Byte>, start: nat, disk: seq<Byte>, v: Layout, c: nat)
    requires v.bytesPerSector > 0 && ValidCluster(disk, v, c) && start + v.BytesPerCluster() <= |m|
    requires m[start..start + v.BytesPerCluster()] == Cluster(disk, v, c)
    ensures FileLoaded(m, start, disk, v.data, v.sectorsPerCluster, v.bytesPerSector, [c])
    ensures FatEntry(disk, v, c) == WordIn(disk, v.fat1 * v.bytesPerSector + 2 * c)
  {
    forall i: nat, k: nat | i < 1 && k < v.sectorsPerCluster * v.bytesPerSector
      ensures ByteLoaded(m, start, disk, v.data, v.sectorsPerCluster, v.bytesPerSector, [c], i, k)
    {
      ClusterByte(disk, v, c, k);
      SliceByte(m, start, Cluster(disk, v, c), k);
    }
  }

  /** Sequences one after the other. */
  function Joined(parts: seq<seq<Byte>>): seq<Byte> {
    if parts == [] then [] else parts[0] + Joined(parts[1..])
  }

  /** Byte k of part i, when all parts have the same size. */
  lemma {:induction false} JoinedByte(parts: seq<seq<Byte>>, size: nat, i: nat, k: nat)
    requires forall p :: 0 <= p < |parts| ==> |parts[p]| == size
    requires i < |parts| && k < size
    ensures ClusterAddress(0, i, size) + k < |Joined(parts)|
    ensures Joined(parts)[ClusterAddress(0, i, size) + k] == parts[i][k]
    decreases i
  {
    if i > 0 { JoinedByte(parts[1..], size, i - 1, k); }
  }

  /** The contents of a file are the clusters of its chain. */
  lemma {:induction false} ContentsJoined(disk: seq<Byte>, v: Layout, first: nat, chain: seq<nat>)
    returns (parts: seq<seq<Byte>>)
    requires v.bytesPerSector > 0 && IsChain(disk, v, first, chain)
    ensures |parts| == |chain| && Joined(parts) == Contents(disk, v, first, chain)
    ensures forall i :: 0 <= i < |chain| ==> ValidCluster(disk, v, chain[i]) && parts[i] == Cluster(disk, v, chain[i])
    decreases |chain|
  {
    var head := Cluster(disk, v, first);
    if |chain| == 1 {
      parts := [head];
      assert Joined(parts[1..]) == [];
    } else {
      var rest := ContentsJoined(disk, v, chain[1], chain[1..]);
      parts := [head] + rest;
      assert parts[1..] == rest;
      forall i | 0 <= i < |chain|
        ensures ValidCluster(disk, v, chain[i]) && parts[i] == Cluster(disk, v, chain[i])
      {
        if i > 0 { assert chain[i] == chain[1..][i - 1] && parts[i] == rest[i - 1]; }
      }
    }
  }

  lemma LoadedInBytes(m: seq<Byte>, start: nat, disk: seq<Byte>, v: Layout, first: nat, chain: seq<nat>)
    requires v.bytesPerSector > 0 && IsChain(disk, v, first, chain)
    requires var file := Contents(disk, v, first, chain);
      start + |file| <= |m| && m[start..start + |file|] == file
    ensures FileLoaded(m, start, disk, v.data, v.sectorsPerCluster, v.bytesPerSector, chain)
  {
    var parts := ContentsJoined(disk, v, first, chain);
    var size := v.BytesPerCluster();
    forall i | 0 <= i < |parts| ensures |parts[i]| == size {
      ClusterLength(disk, v, chain[i]);
    }
    forall i: nat, k: nat | i < |chain| && k < v.sectorsPerCluster * v.bytesPerSector
      ensures chain[i] >= 2
      ensures ByteLoaded(m, start, disk, v.data, v.sectorsPerCluster, v.bytesPerSector, chain, i, k)
    {
      LoadedByte(m, start, parts, size, i, k);
      ClusterByte(disk, v, chain[i], k);
    }
  }

  lemma LoadedByte(m: seq<Byte>, start: nat, parts: seq<seq<Byte>>, size: nat, i: nat, k: nat)
    requires forall p :: 0 <= p < |parts| ==> |parts[p]| == size
    requires start + |Joined(parts)| <= |m| && m[start..start + |Joined(parts)|] == Joined(parts)
    requires i < |parts| && k < size
    ensures 0 <= start + i * size + k < |m| && m[start + i * size + k] == parts[i][k]
  {
    JoinedByte(parts, size, i, k);
    ClusterAddressIs(0, i, size);
    SliceByte(m, start, Joined(parts), ClusterAddress(0, i, size) + k);
  }

  lemma SliceByte(m: seq<Byte>, start: nat, part: seq<Byte>, n: nat)
    requires start + |part| <= |m| && m[start..start + |part|] == part && n < |part|
    ensures m[start + n] == part[n]
  {
  }

  // ---------------------------------------------------------------- acyclic means ending

  /** The number after c, as far as the FAT lies on the disk. */
  function Next(disk: seq<Byte>, v: Layout, c: nat): nat {
    if FatByte(v, c) + 2 <= |disk| then FatEntry(disk, v, c) else 0xffff
  }

  /** Numbers reached from `first` before any end mark. */
  ghost predicate IsPath(disk: seq<Byte>, v: Layout, first: nat, path: seq<nat>) {
    && |path| > 0 && path[0] == first
    && (forall i :: 0 <= i < |path| ==> path[i] < 0xfff8)
    && (forall i :: 0 < i < |path| ==> path[i] == Next(disk, v, path[i - 1]))
  }

  ghost predicate Distinct(path: seq<nat>) {
    forall i, j :: 0 <= i < j < |path| ==> path[i] != path[j]
  }

  /** Distinct numbers below a bound are at most that many. */
  lemma {:induction false} DistinctCount(path: seq<nat>, bound: nat)
    requires Distinct(path) && forall i :: 0 <= i < |path| ==> path[i] < bound
    ensures |path| <= bound
    decreases bound
  {
    if |path| > 0 { assert path[0] < bound; }
    if i :| 0 <= i < |path| && path[i] == bound - 1 {
      DistinctCount(path[..i] + path[i + 1..], bound - 1);
    } else if bound > 0 {
      DistinctCount(path, bound - 1);
    }
  }

  /** Following the FAT from `first` only ever reaches valid numbers, and none twice. */
  ghost predicate AcyclicFrom(disk: seq<Byte>, v: Layout, first: nat)
    requires v.bytesPerSector > 0
  {
    forall path :: IsPath(disk, v, first, path) ==> Distinct(path) && ValidCluster(disk, v, path[|path| - 1])
  }

  /** Then an end mark is reached: the chain load_file needs exists. */
  lemma AcyclicChainEnds(disk: seq<Byte>, v: Layout, first: nat) returns (chain: seq<nat>)
    requires v.bytesPerSector > 0 && first < 0xfff8 && AcyclicFrom(disk, v, first)
    ensures IsChain(disk, v, first, chain)
  {
    chain := ExtendPath(disk, v, first, [first]);
  }

  lemma {:induction false} ExtendPath(disk: seq<Byte>, v: Layout, first: nat, path: seq<nat>) returns (chain: seq<nat>)
    requires v.bytesPerSector > 0 && AcyclicFrom(disk, v, first) && IsPath(disk, v, first, path)
    ensures IsChain(disk, v, first, chain)
    decreases 0xfff9 - |path|
  {
    DistinctCount(path, 0xfff8);
    var next := Next(disk, v, path[|path| - 1]);
    if next >= 0xfff8 {
      chain := path;
      PathIsChain(disk, v, first, path, 0);
      assert path[0..] == path;
    } else {
      chain := ExtendPath(disk, v, first, path + [next]);
    }
  }

  lemma {:induction false} PathIsChain(disk: seq<Byte>, v: Layout, first: nat, path: seq<nat>, i: nat)
    requires v.bytesPerSector > 0 && AcyclicFrom(disk, v, first) && IsPath(disk, v, first, path) && i < |path|
    requires Next(disk, v, path[|path| - 1]) >= 0xfff8
    ensures IsChain(disk, v, path[i], path[i..])
    decreases |path| - i
  {
    var init := path[..i + 1];
    assert IsPath(disk, v, first, init) && init[|init| - 1] == path[i];
    if i + 1 < |path| {
      PathIsChain(disk, v, first, path, i + 1);
      assert path[i..][1..] == path[i + 1..];
    }
  }
}
