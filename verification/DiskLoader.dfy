/**
 The loader's FAT16 routines: volume geometry, root directory search and file loading, with
 the 16-bit registers, the shared sector buffer at 0x9000 and the disk packet they use.
 */
module DiskLoader {
  import opened Words
  import opened Arithmetic
  import opened Fat16

  const REAL_MODE_BYTES: nat := 0x10_0000
  const BUFFER: nat := 0x9000
  const BOOT_SECTOR: nat := 0x8000
  /** "KERNEL  SYS" */
  const KERNEL_FILE_NAME: seq<Byte> := [0x4b, 0x45, 0x52, 0x4e, 0x45, 0x4c, 0x20, 0x20, 0x53, 0x59, 0x53]

  // ---------------------------------------------------------------- arithmetic

  /** Two bytes at an even offset stay within one sector. */
  lemma EvenOffsetFits(c: nat, half: nat)
    requires half > 0
    ensures 2 * c % (2 * half) + 2 <= 2 * half
  {
    var a, b := c / half, c % half;
    assert 2 * c == (2 * half) * a + 2 * b;
    DivModUnique(2 * c, 2 * half, a, 2 * b);
  }

  /** The 16-bit mask 0xfff0 drops an offset below 16. */
  lemma MaskRoundsDown(q: nat, k: nat)
    requires q < 0x1000 && k < 16
    ensures And(16 * q + k, 0xfff0) == 16 * q
  {
    AndEven(16 * q + k, 0x7ff8);
    assert (16 * q + k) / 2 == 8 * q + k / 2;
    AndEven(8 * q + k / 2, 0x3ffc);
    assert (8 * q + k / 2) / 2 == 4 * q + k / 4;
    AndEven(4 * q + k / 4, 0x1ffe);
    assert (4 * q + k / 4) / 2 == 2 * q + k / 8;
    AndEven(2 * q + k / 8, 0xfff);
    assert (2 * q + k / 8) / 2 == q;
    Pow2Values();
    AndOnes(12, q);
  }

  lemma AndEven(a: nat, b: nat)
    ensures And(a, 2 * b) == 2 * And(a / 2, b)
  {
  }

  lemma {:induction false} AndOnes(n: nat, a: nat)
    requires a < Pow2(n)
    ensures And(a, Pow2(n) - 1) == a
  {
    if n > 0 && a > 0 {
      AndOnes(n - 1, a / 2);
      assert (Pow2(n) - 1) / 2 == Pow2(n - 1) - 1;
    }
  }

  // ---------------------------------------------------------------- memory

  /** Memory with `data` copied to address `at`. */
  function Overwrite(m: seq<Byte>, at: nat, data: seq<Byte>): seq<Byte>
    requires at + |data| <= |m|
  {
    m[..at] + data + m[at + |data|..]
  }

  /** Nothing but the sector buffer of `size` bytes differs. */
  ghost predicate OnlyBuffer(m: seq<Byte>, m': seq<Byte>, size: nat) {
    |m| == |m'| && forall a :: 0 <= a < |m| && !(BUFFER <= a < BUFFER + size) ==> m'[a] == m[a]
  }

  /** Nothing but the sector buffer and the bytes from `lo` to `hi` differs. */
  ghost predicate OnlyBufferAnd(m: seq<Byte>, m': seq<Byte>, size: nat, lo: nat, hi: nat) {
    |m| == |m'| && forall a :: 0 <= a < |m| && !(BUFFER <= a < BUFFER + size) && !(lo <= a < hi) ==> m'[a] == m[a]
  }

  /** A sector read to the buffer, then a cluster written past it: the cluster is in place and
      the buffer still shows the sector. */
  lemma ClusterAfterSector(m0: seq<Byte>, m1: seq<Byte>, size: nat, address: nat, data: seq<Byte>)
    requires OnlyBuffer(m0, m1, size) && BUFFER + size <= address && address + |data| <= |m1|
    ensures var m2 := Overwrite(m1, address, data);
      && m2[address..address + |data|] == data
      && m2[BUFFER..BUFFER + size] == m1[BUFFER..BUFFER + size]
      && OnlyBufferAnd(m0, m2, size, address, address + |data|)
  {
  }

  /** Equal slices have equal parts. */
  lemma SameSlice(m: seq<Byte>, a: nat, d: seq<Byte>, b: nat, n: nat, offset: nat, k: nat)
    requires a + n <= |m| && b + n <= |d| && m[a..a + n] == d[b..b + n] && offset + k <= n
    ensures m[a + offset..a + offset + k] == d[b + offset..b + offset + k]
  {
    forall i | a + offset <= i < a + offset + k ensures m[i] == d[b + (i - a)] {
      assert m[a..a + n][i - a] == d[b..b + n][i - a];
    }
  }

  /** Where load_file starts to write: `dx << 4`, then a 16-bit addition to the low word. */
  function LoadAddress(ax: nat, dx: nat): nat {
    var shifted := dx * 0x10;
    shifted / 0x1_0000 * 0x1_0000 + (shifted + ax) % 0x1_0000
  }

  /** `divw`, rounded up when there is a remainder. */
  method RootSectors(rootBytes: nat, bytesPerSector: nat) returns (quotient: nat)
    requires bytesPerSector > 0
    ensures quotient == (rootBytes + (bytesPerSector - 1)) / bytesPerSector
  {
    quotient := rootBytes / bytesPerSector;
    if rootBytes % bytesPerSector != 0 {
      quotient := quotient + 1;
    }
    CeilingDivision(rootBytes, bytesPerSector);
  }

  /** A layout as the loader's 16-bit variables hold it. */
  function Registers(v: Layout): Layout {
    Layout(v.fat1 % 0x1_0000, v.root % 0x1_0000, v.rootSectors, v.data % 0x1_0000,
      v.sectorsPerCluster, v.bytesPerSector)
  }

  /** The loader never reads the number of reserved sectors: it takes four. */
  function LoaderLayout(b: Bpb, partition: nat): Layout
    requires b.bytesPerSector > 0
  {
    Registers(SpecLayout(b.(reservedSectors := 4), partition))
  }

  /** The loader's layout is the specification's exactly when the volume does have four
      reserved sectors and its data area starts low enough for 16 bits. */
  lemma GeometryExact(b: Bpb, partition: nat)
    requires b.bytesPerSector > 0
    ensures LoaderLayout(b, partition) == SpecLayout(b, partition) <==>
      b.reservedSectors == 4 && SpecLayout(b, partition).data < 0x1_0000
  {
    if b.reservedSectors == 4 {
      assert b.(reservedSectors := 4) == b;
    } else if partition + 4 >= 0x1_0000 {
      WordBelow(partition + 4);
    }
  }

  lemma WordBelow(x: nat)
    requires x >= 0x1_0000
    ensures x % 0x1_0000 + 0x1_0000 <= x
  {
  }

  /** With another number every sector number is off by the difference. */
  lemma OtherReservedCountMisses(b: Bpb, partition: nat)
    requires b.bytesPerSector > 0
    requires SpecLayout(b, partition).data < 0x1_0000
    requires SpecLayout(b.(reservedSectors := 4), partition).data < 0x1_0000
    ensures var v, w := SpecLayout(b, partition), LoaderLayout(b, partition);
      w.fat1 - v.fat1 == w.root - v.root == w.data - v.data == 4 - b.reservedSectors
  {
  }

  /** One reserved sector, the number the specification names for FAT16: the root directory of
      a volume at sector 2048 starts at 2177, and the loader looks for it at 2180. */
  lemma OneReservedSectorMisread()
    ensures var b := Bpb(512, 4, 1, 2, 512, 64);
      && SpecLayout(b, 2048) == Layout(2049, 2177, 32, 2209, 4, 512)
      && LoaderLayout(b, 2048) == Layout(2052, 2180, 32, 2212, 4, 512)
  {
  }

  /** The sector arithmetic of _start: every sum is 16-bit. */
  method Geometry(b: Bpb, bx: nat) returns (v: Layout)
    requires b.bytesPerSector > 0
    ensures v == LoaderLayout(b, bx)
  {
    var fat1 := (bx + 0x4) % 0x1_0000;
    var product := b.FatSectors();
    var root := (product % 0x1_0000 + fat1) % 0x1_0000;
    AddWords(product, bx + 4);
    var rootSectors := RootSectors(b.RootBytes(), b.bytesPerSector);
    var data := (rootSectors + root) % 0x1_0000;
    AddWords(rootSectors, bx + 4 + product);
    v := Layout(fat1, root, rootSectors, data, b.sectorsPerCluster, b.bytesPerSector);
  }

  /** The FAT sector of a cluster: `2c / bytesPerSector`, added to the FAT's start in 16 bits. */
  method FatSector(fat1: nat, cluster: nat, bytesPerSector: nat, ghost diskSize: nat)
    returns (sector: nat, ghost at: nat)
    requires bytesPerSector > 0 && bytesPerSector % 2 == 0
    requires fat1 + 2 * cluster / bytesPerSector < 0x1_0000
    requires (fat1 + 2 * cluster / bytesPerSector + 1) * bytesPerSector <= diskSize
    ensures sector == fat1 + 2 * cluster / bytesPerSector
    ensures at == sector * bytesPerSector && at + bytesPerSector <= diskSize
    ensures at + 2 * cluster % bytesPerSector == fat1 * bytesPerSector + 2 * cluster
    ensures 2 * cluster % bytesPerSector + 2 <= bytesPerSector
  {
    FatPosition(fat1, cluster, bytesPerSector);
    sector := (2 * cluster / bytesPerSector + fat1) % 0x1_0000;
    at := sector * bytesPerSector;
    NextSector(sector, bytesPerSector);
  }

  /** The first data sector of a cluster: 8-bit by 16-bit product, then a 32-bit sum. */
  method DataSector(dataStart: nat, sectorsPerCluster: nat, cluster: nat) returns (ebx: nat)
    requires dataStart < 0x1_0000 && sectorsPerCluster < 0x100 && 2 <= cluster < 0x1_0000
    ensures ebx == dataStart + (cluster - 2) * sectorsPerCluster
  {
    var bx := (cluster - 2) % 0x1_0000;
    ProductFits(sectorsPerCluster, bx);
    ebx := (sectorsPerCluster * bx + dataStart) % 0x1_0000_0000;
  }

  /** The BIOS parameter block of the boot sector at 0x8000. */
  function BpbIn(m: seq<Byte>): Bpb
    requires |m| == REAL_MODE_BYTES
  {
    Bpb(LittleEndian(m[0x800b], m[0x800c]), m[0x800d], LittleEndian(m[0x800e], m[0x800f]), m[0x8010],
      LittleEndian(m[0x8011], m[0x8012]), LittleEndian(m[0x8016], m[0x8017]))
  }

  class Loader {
    const mem: array<Byte>
    const disk: seq<Byte>

    var fat1StartSector: nat
    var rootEntrySectorCount: nat
    var rootDirStartSector: nat
    var dataStartSector: nat
    var sectorsPerCluster: nat
    var bytesPerSector: nat
    var bytesPerCluster: nat

    // the packet of the extended disk read
    var sectorCount: nat
    var off: nat
    var seg: nat
    var startSector: nat

    constructor (mem: array<Byte>, disk: seq<Byte>)
      requires mem.Length == REAL_MODE_BYTES
      ensures this.mem == mem && this.disk == disk
    {
      this.mem := mem;
      this.disk := disk;
    }

    ghost predicate Valid()
      reads this, mem
    {
      && mem.Length == REAL_MODE_BYTES
      && 0 < bytesPerSector <= 0x1000 && bytesPerSector % 32 == 0 && bytesPerSector % 2 == 0
      && 0 < sectorsPerCluster < 0x100
      && bytesPerCluster == sectorsPerCluster * bytesPerSector
      && fat1StartSector < 0x1_0000 && rootDirStartSector < 0x1_0000 && dataStartSector < 0x1_0000
    }

    function Volume(): Layout
      reads this
    {
      Layout(fat1StartSector, rootDirStartSector, rootEntrySectorCount, dataStartSector,
        sectorsPerCluster, bytesPerSector)
    }

    // -------------------------------------------------------------- geometry

    /** The first part of _start. */
    method ReadGeometry(bx: nat)
      requires mem.Length == REAL_MODE_BYTES && bx < 0x1_0000
      requires ValidSizes(BpbIn(mem[..]).bytesPerSector, BpbIn(mem[..]).sectorsPerCluster)
      modifies this
      ensures Valid()
      ensures Volume() == LoaderLayout(BpbIn(mem[..]), bx)
    {
      var b := ReadBpb();
      assert LoaderLayout(b, bx) == LoaderLayout(BpbIn(mem[..]), bx);
      var v := Geometry(b, bx);
      SizeFacts(v.bytesPerSector, v.sectorsPerCluster);
      fat1StartSector := v.fat1;
      sectorsPerCluster := v.sectorsPerCluster;
      rootDirStartSector := v.root;
      bytesPerSector := v.bytesPerSector;
      rootEntrySectorCount := v.rootSectors;
      dataStartSector := v.data;
      bytesPerCluster := v.BytesPerCluster();
    }

    /** The fields that _start reads; the reserved sector count is not one of them. */
    method ReadBpb() returns (b: Bpb)
      requires mem.Length == REAL_MODE_BYTES
      ensures b == BpbIn(mem[..]).(reservedSectors := 4)
    {
      b := Bpb(
        LittleEndian(mem[BOOT_SECTOR + 0xb], mem[BOOT_SECTOR + 0xc]),
        mem[BOOT_SECTOR + 0xd],
        4,
        mem[BOOT_SECTOR + 0x10],
        LittleEndian(mem[BOOT_SECTOR + 0x11], mem[BOOT_SECTOR + 0x12]),
        LittleEndian(mem[BOOT_SECTOR + 0x16], mem[BOOT_SECTOR + 0x17]));
    }

    // -------------------------------------------------------------- disk

    /** read_sector, when the BIOS call succeeds: `size` bytes are copied from byte `source` of
        the disk, and the transfer stays in one segment. */
    method ReadSector(ghost source: nat, ghost size: nat)
      requires mem.Length == REAL_MODE_BYTES
      requires source == startSector * bytesPerSector && size == sectorCount * bytesPerSector
      requires source + size <= |disk| && off + size <= 0x1_0000 && seg * 0x10 + off + size <= REAL_MODE_BYTES
      modifies mem
      ensures mem[..] == Overwrite(old(mem[..]), seg * 0x10 + off, disk[source..source + size])
    {
      var from := startSector * bytesPerSector;
      var base := seg * 0x10 + off;
      forall i | 0 <= i < sectorCount * bytesPerSector {
        mem[base + i] := disk[from + i];
      }
    }

    // -------------------------------------------------------------- root directory

    /** The sector that starts at byte `at` of the disk is in the buffer. */
    ghost predicate Buffered(at: nat)
      reads this, mem
    {
      && mem.Length == REAL_MODE_BYTES && bytesPerSector <= 0x1000
      && at + bytesPerSector <= |disk|
      && mem[BUFFER..BUFFER + bytesPerSector] == disk[at..at + bytesPerSector]
    }

    /** Reads one sector, which starts at byte `at`, to the buffer at 0:0x9000. */
    method ReadToBuffer(sector: nat, ghost at: nat)
      requires Valid() && at == sector * bytesPerSector && at + bytesPerSector <= |disk|
      modifies mem, this`off, this`seg, this`startSector, this`sectorCount
      ensures Valid() && Buffered(at) && OnlyBuffer(old(mem[..]), mem[..], bytesPerSector)
    {
      off := BUFFER;
      seg := 0;
      startSector := sector;
      sectorCount := 1;
      ReadSector(at, bytesPerSector);
    }

    /** `repe cmpsb` over the 11 name bytes. */
    method CompareName(name: seq<Byte>, entry: nat) returns (equal: bool, di: nat)
      requires mem.Length == REAL_MODE_BYTES && |name| == 11 && entry + 11 <= mem.Length
      ensures equal <==> mem[entry..entry + 11] == name
      ensures entry < di <= entry + 11
    {
      di := entry;
      equal := true;
      var cx := 11;
      while cx != 0 && equal
        invariant 0 <= cx <= 11 && di == entry + (11 - cx)
        invariant equal ==> mem[entry..di] == name[..11 - cx]
        invariant !equal ==> cx < 11 && mem[entry..entry + 11] != name
        invariant cx == 11 ==> equal
      {
        equal := mem[di] == name[11 - cx];
        if !equal { assert mem[entry..entry + 11][11 - cx] != name[11 - cx]; }
        di := di + 1;
        cx := cx - 1;
      }
    }

    /** Compares entry j of the buffered sector and repairs %di afterwards. */
    method CheckEntry(name: seq<Byte>, ghost at: nat, ghost j: nat, di: nat) returns (equal: bool, repaired: nat)
      requires |name| == 11 && Buffered(at) && di == BUFFER + 32 * j && 32 * j + 32 <= bytesPerSector
      ensures equal <==> NameAt(disk, name, at + 32 * j)
      ensures repaired == di
    {
      BufferedEntry(name, at, 32 * j);
      var stop;
      equal, stop := CompareName(name, di);
      MaskRoundsDown(0x900 + 2 * j, stop - di);
      repaired := And(stop, 0xfff0);
    }

    /** The inner loop of find_file: the entries of the buffered sector. */
    method ScanSector(name: seq<Byte>, ghost at: nat) returns (ax: nat)
      requires bytesPerSector % 32 == 0 && |name| == 11 && Buffered(at)
      ensures forall i: nat :: 32 * i < (if ax == 0 then bytesPerSector else ax - BUFFER) ==>
        !NameAt(disk, name, at + 32 * i)
      ensures ax != 0 ==> BUFFER <= ax < BUFFER + bytesPerSector && (ax - BUFFER) % 32 == 0
      ensures ax != 0 ==> NameAt(disk, name, at + (ax - BUFFER))
    {
      var di := BUFFER;
      var dx := bytesPerSector;
      ghost var j := 0;
      while dx != 0
        invariant 0 <= dx && dx % 32 == 0 && di == BUFFER + 32 * j && dx == bytesPerSector - 32 * j
        invariant forall i: nat :: i < j ==> !NameAt(disk, name, at + 32 * i)
        decreases dx
      {
        var equal;
        equal, di := CheckEntry(name, at, j, di);
        if equal {
          ax := di;
          return;
        }
        di := di + 0x0020;
        dx := dx - 0x0020;
        j := j + 1;
      }
      ax := 0;
    }

    /** What the buffer shows at an offset is what the disk holds. */
    lemma BufferedEntry(name: seq<Byte>, at: nat, offset: nat)
      requires |name| == 11 && Buffered(at) && offset + 11 <= bytesPerSector
      ensures mem[BUFFER + offset..BUFFER + offset + 11] == name <==> NameAt(disk, name, at + offset)
    {
      SameSlice(mem[..], BUFFER, disk, at, bytesPerSector, offset, 11);
    }

    /** The entries before j of sector s, added to the sectors before s. */
    lemma ScannedSector(v: Layout, name: seq<Byte>, s: nat, j: nat)
      requires NoMatchBefore(disk, v, name, s, 0)
      requires forall i: nat :: i < j ==> !NameAt(disk, name, RootSectorByte(v, s) + 32 * i)
      ensures NoMatchBefore(disk, v, name, s, j)
    {
    }

    /** find_file: 0 exactly when no entry matches, else the first one's address in the
        buffer, which still holds its sector. */
    method FindFile(name: seq<Byte>) returns (ax: nat, ghost s: nat, ghost j: nat)
      requires Valid() && |name| == 11
      requires 0 < rootEntrySectorCount && rootDirStartSector + rootEntrySectorCount <= 0x1_0000
      requires RootSectorByte(Volume(), rootEntrySectorCount) <= |disk|
      modifies mem, this`off, this`seg, this`startSector, this`sectorCount
      ensures Valid() && OnlyBuffer(old(mem[..]), mem[..], bytesPerSector)
      ensures ax == 0 <==> NoMatch(disk, Volume(), name)
      ensures ax != 0 ==> IsFirstMatch(disk, Volume(), name, s, j)
      ensures ax != 0 ==> ax == BUFFER + 32 * j && Buffered(RootSectorByte(Volume(), s))
      ensures ax == 0 <==> NoneNamed(disk, rootDirStartSector, rootEntrySectorCount, bytesPerSector, name)
      ensures ax != 0 ==> FirstNamed(disk, rootDirStartSector, rootEntrySectorCount, bytesPerSector, name, s, j)
    {
      ax, s, j := SearchRoot(name);
      SearchInBytes(disk, Volume(), name, s, j);
    }

    /** The loops of find_file. */
    method SearchRoot(name: seq<Byte>) returns (ax: nat, ghost s: nat, ghost j: nat)
      requires Valid() && |name| == 11
      requires 0 < rootEntrySectorCount && rootDirStartSector + rootEntrySectorCount <= 0x1_0000
      requires RootSectorByte(Volume(), rootEntrySectorCount) <= |disk|
      modifies mem, this`off, this`seg, this`startSector, this`sectorCount
      ensures Valid() && OnlyBuffer(old(mem[..]), mem[..], bytesPerSector)
      ensures ax == 0 <==> NoMatch(disk, Volume(), name)
      ensures ax != 0 ==> IsFirstMatch(disk, Volume(), name, s, j)
      ensures ax != 0 ==> ax == BUFFER + 32 * j && Buffered(RootSectorByte(Volume(), s))
    {
      ghost var v := Volume();
      var remaining := rootEntrySectorCount;
      var sector := rootDirStartSector;
      s, j := 0, 0;
      while true
        invariant s < rootEntrySectorCount && remaining == rootEntrySectorCount - s && sector == rootDirStartSector + s
        invariant Valid() && OnlyBuffer(old(mem[..]), mem[..], bytesPerSector) && Volume() == v
        invariant NoMatchBefore(disk, v, name, s, 0)
        decreases remaining
      {
        RootSectorOnDisk(v, s, |disk|);
        ReadToBuffer(sector, RootSectorByte(v, s));
        ax := ScanSector(name, RootSectorByte(v, s));
        j := (if ax == 0 then bytesPerSector else ax - BUFFER) / 32;
        ScannedSector(v, name, s, j);
        if ax != 0 {
          MatchFound(disk, v, name, s, j);
          return;
        }
        remaining := remaining - 1;
        if remaining == 0 {
          AllScanned(disk, v, name, s, j);
          return;
        }
        SectorDone(disk, v, name, s, j);
        sector := (sector + 0x0001) % 0x1_0000;
        s := s + 1;
      }
    }

    // -------------------------------------------------------------- file loading

    /** init.s:214-225: the FAT sector of a cluster goes to the buffer. */
    method ReadFatSector(cluster: nat) returns (offset: nat, ghost at: nat)
      requires Valid() && ValidCluster(disk, Volume(), cluster)
      modifies mem, this`off, this`seg, this`startSector, this`sectorCount
      ensures Valid() && Buffered(at) && OnlyBuffer(old(mem[..]), mem[..], bytesPerSector)
      ensures at + offset == FatByte(Volume(), cluster) && offset + 2 <= bytesPerSector
    {
      var fatSector;
      fatSector, at := FatSector(fat1StartSector, cluster, bytesPerSector, |disk|);
      offset := 2 * cluster % bytesPerSector;
      ReadToBuffer(fatSector, at);
    }

    /** init.s:204-213, 227-236: the data sectors of a cluster go to `address`. */
    method ReadCluster(cluster: nat, address: nat)
      requires Valid() && ValidCluster(disk, Volume(), cluster)
      requires address + bytesPerCluster <= REAL_MODE_BYTES && address % 0x1_0000 + bytesPerCluster <= 0x1_0000
      requires |Cluster(disk, Volume(), cluster)| == bytesPerCluster
      modifies mem, this`off, this`seg, this`startSector, this`sectorCount
      ensures mem[..] == Overwrite(old(mem[..]), address, Cluster(disk, Volume(), cluster))
    {
      var ebx := DataSector(dataStartSector, sectorsPerCluster, cluster);
      sectorCount := sectorsPerCluster;
      startSector := ebx;
      off := address % 0x1_0000;
      seg := address / 0x1_0000 * 0x1_0000 / 0x10 % 0x1_0000;
      SegmentedAddress(address);
      ghost var source := ClusterSlice(disk, Volume(), cluster);
      ReadSector(source, bytesPerCluster);
    }

    /** One turn of load_file. The next cluster number is read from the buffer after the
        cluster itself has been loaded. */
    method LoadCluster(cluster: nat, address: nat) returns (next: nat)
      requires Valid() && ValidCluster(disk, Volume(), cluster)
      requires BUFFER + 0x1000 <= address && address + bytesPerCluster <= REAL_MODE_BYTES
      requires address % 0x1_0000 + bytesPerCluster <= 0x1_0000
      modifies mem, this`off, this`seg, this`startSector, this`sectorCount
      ensures Valid()
      ensures next == FatEntry(disk, Volume(), cluster)
      ensures mem[address..address + bytesPerCluster] == Cluster(disk, Volume(), cluster)
      ensures OnlyBufferAnd(old(mem[..]), mem[..], bytesPerSector, address, address + bytesPerCluster)
      ensures next == WordIn(disk, fat1StartSector * bytesPerSector + 2 * cluster)
      ensures FileLoaded(mem[..], address, disk, dataStartSector, sectorsPerCluster, bytesPerSector, [cluster])
    {
      ghost var m0 := mem[..];
      ClusterLength(disk, Volume(), cluster);
      ghost var at;
      var offset;
      offset, at := ReadFatSector(cluster);
      ghost var m1 := mem[..];
      ReadCluster(cluster, address);
      ClusterAfterSector(m0, m1, bytesPerSector, address, Cluster(disk, Volume(), cluster));
      next := NextCluster(offset, at, FatByte(Volume(), cluster));
      ClusterInBytes(mem[..], address, disk, Volume(), cluster);
    }

    /** init.s:239-244: the FAT entry at an offset of the buffer. */
    method NextCluster(offset: nat, ghost at: nat, ghost entry: nat) returns (next: nat)
      requires Buffered(at) && offset + 2 <= bytesPerSector && entry == at + offset
      ensures next == LittleEndian(disk[entry], disk[entry + 1])
    {
      SameSlice(mem[..], BUFFER, disk, at, bytesPerSector, offset, 2);
      FatWord(mem[..], BUFFER + offset, disk, at + offset);
      next := LittleEndian(mem[BUFFER + offset], mem[BUFFER + offset + 1]);
    }

    /** The start cluster in the directory entry at bx. */
    function FirstCluster(bx: nat): nat
      requires bx + 0x1c <= mem.Length
      reads mem
    {
      LittleEndian(mem[bx + 0x1a], mem[bx + 0x1b])
    }

    /** LoadCluster, seen as one step of loading `file`. */
    method LoadNext(cluster: nat, address: nat, ghost file: seq<Byte>, ghost m0: seq<Byte>, ghost start: nat,
        ghost rest: seq<nat>)
      returns (next: nat)
      requires Valid() && cluster < 0xfff8 && Loading(disk, Volume(), file, m0, mem[..], start, address, cluster, rest)
      requires BUFFER + 0x1000 <= start && start + |file| <= REAL_MODE_BYTES
      requires address % 0x1_0000 + bytesPerCluster <= 0x1_0000
      modifies mem, this`off, this`seg, this`startSector, this`sectorCount
      ensures Valid() && address + bytesPerCluster <= start + |file| && |rest| > 0
      ensures Loading(disk, Volume(), file, m0, mem[..], start, address + bytesPerCluster, next, rest[1..])
    {
      ghost var v, m1 := Volume(), mem[..];
      ClusterWithinFile(disk, v, file, m0, m1, start, address, cluster, rest);
      ClusterLength(disk, v, cluster);
      next := LoadCluster(cluster, address);
      ClusterLoaded(disk, v, file, m0, m1, mem[..], start, address, address + bytesPerCluster, cluster, rest,
        Cluster(disk, v, cluster));
    }

    /** The loop of load_file. */
    method FollowChain(start: nat, first: nat, ghost chain: seq<nat>, ghost file: seq<Byte>)
      requires Valid()
      requires forall i: nat :: ClusterAddress(start, i, bytesPerCluster) % 0x1_0000 + bytesPerCluster <= 0x1_0000
      requires BUFFER + 0x1000 <= start && start + |file| <= REAL_MODE_BYTES
      requires first < 0xfff8 && Loading(disk, Volume(), file, mem[..], mem[..], start, start, first, chain)
      modifies mem, this`off, this`seg, this`startSector, this`sectorCount
      ensures Valid()
      ensures mem[start..start + |file|] == file
      ensures OnlyBufferAnd(old(mem[..]), mem[..], bytesPerSector, start, start + |file|)
    {
      var address := start;
      var cluster := first;
      ghost var m0 := mem[..];
      ghost var i: nat, rest := 0, chain;
      var more := true;
      while more
        invariant Valid()
        invariant address == ClusterAddress(start, i, bytesPerCluster)
        invariant Loading(disk, Volume(), file, m0, mem[..], start, address, cluster, rest)
        invariant more == (cluster < 0xfff8)
        decreases more, |rest|
      {
        cluster := LoadNext(cluster, address, file, m0, start, rest);
        address := address + bytesPerCluster;
        rest, i := rest[1..], i + 1;
        more := cluster < 0xfff8;
      }
    }

    /** load_file: the clusters of the chain, in order, from the load address on. */
    method LoadFile(ax: nat, dx: nat, bx: nat, ghost chain: seq<nat>, ghost file: seq<Byte>)
      requires Valid() && ValidSizes(bytesPerSector, sectorsPerCluster)
      requires bx + 0x1c <= REAL_MODE_BYTES && IsChain(disk, Volume(), FirstCluster(bx), chain)
      requires file == Contents(disk, Volume(), FirstCluster(bx), chain)
      requires LoadAddress(ax, dx) % 0x1_0000 == 0 && BUFFER + 0x1000 <= LoadAddress(ax, dx)
      requires LoadAddress(ax, dx) + |file| <= REAL_MODE_BYTES
      modifies mem, this`off, this`seg, this`startSector, this`sectorCount
      ensures Valid()
      ensures mem[LoadAddress(ax, dx)..LoadAddress(ax, dx) + |file|] == file
      ensures OnlyBufferAnd(old(mem[..]), mem[..], bytesPerSector, LoadAddress(ax, dx), LoadAddress(ax, dx) + |file|)
      ensures ChainOnDisk(disk, fat1StartSector, bytesPerSector,
        WordIn(old(mem[..]), bx + 0x1a), chain)
      ensures FileLoaded(mem[..], LoadAddress(ax, dx), disk, dataStartSector, sectorsPerCluster, bytesPerSector, chain)
    {
      var start := LoadAddress(ax, dx);
      ghost var perSegment := ClustersFillSegment(bytesPerSector, sectorsPerCluster);
      assert mem[start..start] == [];
      var first := FirstCluster(bx);
      forall i: nat ensures ClusterAddress(start, i, bytesPerCluster) % 0x1_0000 + bytesPerCluster <= 0x1_0000 {
        NoSegmentCrossed(start, i, bytesPerCluster, perSegment);
      }
      FollowChain(start, first, chain, file);
      ChainInBytes(disk, Volume(), first, chain);
      LoadedInBytes(mem[..], start, disk, Volume(), first, chain);
    }

    /** The start cluster seen through the buffer is the one on the disk. */
    lemma BufferedStartCluster(at: nat, j: nat)
      requires Buffered(at) && bytesPerSector % 32 == 0 && 32 * j < bytesPerSector
      ensures at + 32 * j + 0x1c <= |disk|
      ensures FirstCluster(BUFFER + 32 * j) == LittleEndian(disk[at + 32 * j + 0x1a], disk[at + 32 * j + 0x1b])
    {
    }

    /** From the directory to the kernel in memory: KERNEL.SYS is loaded at 0x20000 when the
        root directory has it. */
    method LoadKernel(ghost chain: seq<nat>) returns (found: bool, ghost s: nat, ghost j: nat)
      requires Valid() && ValidSizes(bytesPerSector, sectorsPerCluster)
      requires 0 < rootEntrySectorCount && rootDirStartSector + rootEntrySectorCount <= 0x1_0000
      requires RootSectorByte(Volume(), rootEntrySectorCount) <= |disk|
      requires forall s: nat, j: nat :: IsFirstMatch(disk, Volume(), KERNEL_FILE_NAME, s, j) ==>
        Loadable(disk, Volume(), s, j, chain)
      modifies mem, this`off, this`seg, this`startSector, this`sectorCount
      ensures Valid() && Volume() == old(Volume())
      ensures found <==> !NoMatch(disk, Volume(), KERNEL_FILE_NAME)
      ensures !found ==> OnlyBuffer(old(mem[..]), mem[..], bytesPerSector)
      ensures found ==> IsFirstMatch(disk, Volume(), KERNEL_FILE_NAME, s, j)
      ensures found ==> KernelLoaded(mem[..], disk, Volume(), s, j, chain)
    {
      var ax;
      ax, s, j := FindFile(KERNEL_FILE_NAME);
      found := ax != 0;
      if found {
        LoadEntry(ax, s, j, chain);
      }
    }

    /** _start, up to the loaded kernel: on a volume whose geometry the loader gets right, the
        file of the specification's layout is found and loaded. */
    method Start(bx: nat, ghost chain: seq<nat>) returns (found: bool, ghost s: nat, ghost j: nat)
      requires mem.Length == REAL_MODE_BYTES && bx < 0x1_0000
      requires ValidSizes(BpbIn(mem[..]).bytesPerSector, BpbIn(mem[..]).sectorsPerCluster)
      requires BpbIn(mem[..]).reservedSectors == 4 && BpbIn(mem[..]).rootEntries > 0
      requires var v := SpecLayout(BpbIn(mem[..]), bx);
        && v.data < 0x1_0000 && RootSectorByte(v, v.rootSectors) <= |disk|
        && forall s: nat, j: nat :: IsFirstMatch(disk, v, KERNEL_FILE_NAME, s, j) ==> Loadable(disk, v, s, j, chain)
      modifies this, mem
      ensures var v := SpecLayout(old(BpbIn(mem[..])), bx);
        && (found <==> !NoMatch(disk, v, KERNEL_FILE_NAME))
        && (found ==> IsFirstMatch(disk, v, KERNEL_FILE_NAME, s, j) && KernelLoaded(mem[..], disk, v, s, j, chain))
      ensures VolumeLoaded(old(mem[..]), mem[..], disk, bx, found, s, j, chain)
    {
      ghost var b := BpbIn(mem[..]);
      GeometryExact(b, bx);
      SomeRootSector(b);
      ReadGeometry(bx);
      found, s, j := LoadKernel(chain);
      SearchInBytes(disk, SpecLayout(b, bx), KERNEL_FILE_NAME, s, j);
      VolumeInBytes(old(mem[..]), mem[..], disk, bx, found, s, j, chain);
    }

    /** The call of load_file in _start: segment 0x2000, offset 0. */
    method LoadEntry(ax: nat, ghost s: nat, ghost j: nat, ghost chain: seq<nat>)
      requires Valid() && ValidSizes(bytesPerSector, sectorsPerCluster)
      requires ax == BUFFER + 32 * j && 32 * j < bytesPerSector && Buffered(RootSectorByte(Volume(), s))
      requires Loadable(disk, Volume(), s, j, chain)
      modifies mem, this`off, this`seg, this`startSector, this`sectorCount
      ensures Valid() && KernelLoaded(mem[..], disk, Volume(), s, j, chain)
    {
      ghost var v := Volume();
      BufferedStartCluster(RootSectorByte(v, s), j);
      LoadFile(0x0000, 0x2000, ax, chain, Contents(disk, v, StartCluster(disk, v, s, j), chain));
      KernelInBytes(mem[..], disk, v, s, j, chain);
    }
  }

  lemma KernelInBytes(m: seq<Byte>, disk: seq<Byte>, v: Layout, s: nat, j: nat, chain: seq<nat>)
    requires Loadable(disk, v, s, j, chain) && |m| == REAL_MODE_BYTES
    requires var file := Contents(disk, v, StartCluster(disk, v, s, j), chain);
      m[0x2_0000..0x2_0000 + |file|] == file
    ensures KernelLoaded(m, disk, v, s, j, chain)
  {
    ChainInBytes(disk, v, StartCluster(disk, v, s, j), chain);
    LoadedInBytes(m, 0x2_0000, disk, v, StartCluster(disk, v, s, j), chain);
  }

  lemma VolumeInBytes(m0: seq<Byte>, m: seq<Byte>, disk: seq<Byte>, partition: nat, found: bool,
      s: nat, j: nat, chain: seq<nat>)
    requires |m0| == REAL_MODE_BYTES && BpbIn(m0).bytesPerSector > 0
    requires var v := SpecLayout(BpbIn(m0), partition);
      && (!found <==> NoneNamed(disk, v.root, v.rootSectors, v.bytesPerSector, KERNEL_FILE_NAME))
      && (found ==>
            FirstNamed(disk, v.root, v.rootSectors, v.bytesPerSector, KERNEL_FILE_NAME, s, j) &&
            KernelBytesLoaded(m, disk, v.fat1, v.root, v.data, v.sectorsPerCluster, v.bytesPerSector, s, j, chain))
    ensures VolumeLoaded(m0, m, disk, partition, found, s, j, chain)
  {
  }

  /** KERNEL.SYS of the volume at sector `partition`, whose parameter block lies in memory m0 at
      0x8000, as the FAT specification's fields and formulas give it. */
  ghost predicate VolumeLoaded(m0: seq<Byte>, m: seq<Byte>, disk: seq<Byte>, partition: nat, found: bool,
      s: nat, j: nat, chain: seq<nat>)
    requires |m0| == REAL_MODE_BYTES
  {
    var bytesPerSector := WordIn(m0, 0x800b);
    var fat1 := partition + WordIn(m0, 0x800e);
    var root := fat1 + (m0[0x8010] as int) * WordIn(m0, 0x8016);
    var rootBytes := 32 * WordIn(m0, 0x8011);
    bytesPerSector > 0 &&
    var rootSectors := (rootBytes + (bytesPerSector - 1)) / bytesPerSector;
    var name: seq<Byte> := [0x4b, 0x45, 0x52, 0x4e, 0x45, 0x4c, 0x20, 0x20, 0x53, 0x59, 0x53];
    && (!found <==> NoneNamed(disk, root, rootSectors, bytesPerSector, name))
    && (found ==>
          FirstNamed(disk, root, rootSectors, bytesPerSector, name, s, j) &&
          KernelBytesLoaded(m, disk, fat1, root, root + rootSectors, m0[0x800d], bytesPerSector, s, j, chain))
  }

  lemma SomeRootSector(b: Bpb)
    requires b.bytesPerSector > 0 && b.rootEntries > 0
    ensures (b.RootBytes() + (b.bytesPerSector - 1)) / b.bytesPerSector > 0
  {
    CeilingDivision(b.RootBytes(), b.bytesPerSector);
  }

  /** The file of directory entry (s, j) has the given chain and fits below 1 MiB. */
  ghost predicate Loadable(disk: seq<Byte>, v: Layout, s: nat, j: nat, chain: seq<nat>) {
    && v.bytesPerSector > 0 && RootSectorByte(v, s) + 32 * j + 0x1c <= |disk|
    && IsChain(disk, v, StartCluster(disk, v, s, j), chain)
    && 0x2_0000 + |Contents(disk, v, StartCluster(disk, v, s, j), chain)| <= REAL_MODE_BYTES
  }

  ghost predicate KernelLoaded(m: seq<Byte>, disk: seq<Byte>, v: Layout, s: nat, j: nat, chain: seq<nat>) {
    && Loadable(disk, v, s, j, chain) && |m| == REAL_MODE_BYTES
    && (var file := Contents(disk, v, StartCluster(disk, v, s, j), chain);
        m[0x2_0000..0x2_0000 + |file|] == file)
    && KernelBytesLoaded(m, disk, v.fat1, v.root, v.data, v.sectorsPerCluster, v.bytesPerSector, s, j, chain)
  }

  /** The same in bytes: the chain of the start cluster in directory entry (s, j) is at 0x20000. */
  ghost predicate KernelBytesLoaded(m: seq<Byte>, disk: seq<Byte>, fat1: nat, root: nat, data: nat,
      sectorsPerCluster: nat, bytesPerSector: nat, s: nat, j: nat, chain: seq<nat>)
  {
    && (var at := (root + s) * bytesPerSector + 32 * j + 0x1a;
        at + 2 <= |disk| && ChainOnDisk(disk, fat1, bytesPerSector, WordIn(disk, at), chain))
    && FileLoaded(m, 0x2_0000, disk, data, sectorsPerCluster, bytesPerSector, chain)
  }

  /** Between two turns of load_file: what is loaded and what is still to come make up the file. */
  ghost predicate Loading(disk: seq<Byte>, v: Layout, file: seq<Byte>, m0: seq<Byte>, m: seq<Byte>,
      start: nat, address: nat, next: nat, rest: seq<nat>)
  {
    && v.bytesPerSector > 0 && start <= address <= |m|
    && OnlyBufferAnd(m0, m, v.bytesPerSector, start, address)
    && (next < 0xfff8 ==> IsChain(disk, v, next, rest))
    && file == m[start..address] + Tail(disk, v, next, rest)
  }

  /** One more cluster of the file is in place. */
  lemma ClusterLoaded(disk: seq<Byte>, v: Layout, file: seq<Byte>, m0: seq<Byte>, m1: seq<Byte>, m2: seq<Byte>,
      start: nat, address: nat, end: nat, cluster: nat, rest: seq<nat>, data: seq<Byte>)
    requires Loading(disk, v, file, m0, m1, start, address, cluster, rest) && cluster < 0xfff8
    requires ValidCluster(disk, v, cluster) && data == Cluster(disk, v, cluster) && end == address + |data|
    requires BUFFER + v.bytesPerSector <= start && end <= |m1|
    requires OnlyBufferAnd(m1, m2, v.bytesPerSector, address, end) && m2[address..end] == data
    ensures |rest| > 0 && Loading(disk, v, file, m0, m2, start, end, FatEntry(disk, v, cluster), rest[1..])
  {
    UnfoldContents(disk, v, cluster, rest);
    LoadedSoFar(m0, m1, m2, v.bytesPerSector, start, address, end);
    Regroup(m1[start..address], data, Tail(disk, v, FatEntry(disk, v, cluster), rest[1..]));
  }

  /** The next cluster lies within the file. */
  lemma ClusterWithinFile(disk: seq<Byte>, v: Layout, file: seq<Byte>, m0: seq<Byte>, m: seq<Byte>,
      start: nat, address: nat, cluster: nat, rest: seq<nat>)
    requires Loading(disk, v, file, m0, m, start, address, cluster, rest) && cluster < 0xfff8
    ensures ValidCluster(disk, v, cluster) && address + |Cluster(disk, v, cluster)| <= start + |file|
  {
  }

  /** What was loaded before a cluster stays, and the cluster extends it. */
  lemma LoadedSoFar(m0: seq<Byte>, m1: seq<Byte>, m2: seq<Byte>, size: nat, start: nat, mid: nat, end: nat)
    requires BUFFER + size <= start <= mid <= end <= |m0|
    requires OnlyBufferAnd(m0, m1, size, start, mid) && OnlyBufferAnd(m1, m2, size, mid, end)
    ensures OnlyBufferAnd(m0, m2, size, start, end)
    ensures m2[start..end] == m1[start..mid] + m2[mid..end]
  {
  }

  /** The packet's segment and offset stand for the address. */
  lemma SegmentedAddress(address: nat)
    requires address < REAL_MODE_BYTES
    ensures address / 0x1_0000 * 0x1_0000 / 0x10 % 0x1_0000 * 0x10 + address % 0x1_0000 == address
  {
    assert address / 0x1_0000 * 0x1_0000 / 0x10 == address / 0x1_0000 * 0x1000;
  }

  lemma ProductFits(sectorsPerCluster: nat, bx: nat)
    requires sectorsPerCluster < 0x100 && bx < 0x1_0000
    ensures sectorsPerCluster * bx < 0x100_0000
  {
  }

  /** The FAT sector and the offset in it lead to byte 2c of the FAT. */
  lemma FatPosition(fat1: nat, c: nat, bytesPerSector: nat)
    requires bytesPerSector > 0 && bytesPerSector % 2 == 0
    ensures (2 * c / bytesPerSector + fat1) * bytesPerSector + 2 * c % bytesPerSector == fat1 * bytesPerSector + 2 * c
    ensures 2 * c % bytesPerSector + 2 <= bytesPerSector
  {
    var q, r := 2 * c / bytesPerSector, 2 * c % bytesPerSector;
    assert 2 * c == q * bytesPerSector + r;
    assert (q + fat1) * bytesPerSector == q * bytesPerSector + fat1 * bytesPerSector;
    EvenOffsetFits(c, bytesPerSector / 2);
  }

  lemma FatWord(m: seq<Byte>, a: nat, d: seq<Byte>, b: nat)
    requires a + 2 <= |m| && b + 2 <= |d| && m[a..a + 2] == d[b..b + 2]
    ensures m[a] == d[b] && m[a + 1] == d[b + 1]
  {
  }

  lemma NextSector(sector: nat, size: nat)
    ensures (sector + 1) * size == sector * size + size
  {
  }

  lemma AddWords(a: nat, b: nat)
    ensures (a % 0x1_0000 + b % 0x1_0000) % 0x1_0000 == (a + b) % 0x1_0000
    ensures (a + b % 0x1_0000) % 0x1_0000 == (a + b) % 0x1_0000
  {
  }

  lemma CeilingDivision(x: nat, n: nat)
    requires n > 0
    ensures (x + (n - 1)) / n == x / n + if x % n == 0 then 0 else 1
  {
    var q, r := x / n, x % n;
    assert x == n * q + r;
    if r == 0 {
      DivModUnique(x + (n - 1), n, q, n - 1);
    } else {
      DivModUnique(x + (n - 1), n, q + 1, r - 1);
    }
  }
}
