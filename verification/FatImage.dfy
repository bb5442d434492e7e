/** The volume as a value: sectors, geometry, and the File Allocation Table read out of them. */
module FatImage {
  import Arith
  import opened Bytes

  type Sector = seq<byte>
  type Image = seq<Sector>

  predicate IsSectorSize(ss: nat) {
    ss == 512 || ss == 1024 || ss == 2048 || ss == 4096
  }

  predicate IsClusterSize(n: nat) {
    n == 1 || n == 2 || n == 4 || n == 8 || n == 16 || n == 32 || n == 64 || n == 128
  }

  /** i / ss and i % ss, one sector size at a time: the solver then only meets constant divisors. */
  function SectorNo(ss: nat, i: nat): nat
    requires IsSectorSize(ss)
  {
    if ss == 512 then i / 512 else if ss == 1024 then i / 1024 else if ss == 2048 then i / 2048 else i / 4096
  }

  function SectorOff(ss: nat, i: nat): (r: nat)
    requires IsSectorSize(ss)
    ensures r < ss
  {
    if ss == 512 then i % 512 else if ss == 1024 then i % 1024 else if ss == 2048 then i % 2048 else i % 4096
  }

  /** n * ss. */
  function SectorBytes(ss: nat, n: nat): nat
    requires IsSectorSize(ss)
  {
    if ss == 512 then 512 * n else if ss == 1024 then 1024 * n else if ss == 2048 then 2048 * n else 4096 * n
  }

  lemma SplitIndex(ss: nat, i: nat)
    requires IsSectorSize(ss)
    ensures i == SectorBytes(ss, SectorNo(ss, i)) + SectorOff(ss, i)
  {}

  lemma JoinIndex(ss: nat, n: nat, r: nat)
    requires IsSectorSize(ss) && r < ss
    ensures SectorNo(ss, SectorBytes(ss, n) + r) == n && SectorOff(ss, SectorBytes(ss, n) + r) == r
  {}

  /** k / n and k % n for a cluster of n sectors. */
  function ClusterNo(n: nat, k: nat): nat
    requires IsClusterSize(n)
  {
    if n == 1 then k else if n == 2 then k / 2 else if n == 4 then k / 4 else if n == 8 then k / 8
    else if n == 16 then k / 16 else if n == 32 then k / 32 else if n == 64 then k / 64 else k / 128
  }

  function ClusterOff(n: nat, k: nat): (r: nat)
    requires IsClusterSize(n)
    ensures r < n
  {
    if n == 1 then 0 else if n == 2 then k % 2 else if n == 4 then k % 4 else if n == 8 then k % 8
    else if n == 16 then k % 16 else if n == 32 then k % 32 else if n == 64 then k % 64 else k % 128
  }

  /** n clusters in sectors. */
  function ClusterSectors(size: nat, n: nat): nat
    requires IsClusterSize(size)
  {
    if size == 1 then n else if size == 2 then 2 * n else if size == 4 then 4 * n else if size == 8 then 8 * n
    else if size == 16 then 16 * n else if size == 32 then 32 * n else if size == 64 then 64 * n else 128 * n
  }

  lemma ClusterJoin(size: nat, n: nat, c: nat)
    requires IsClusterSize(size) && c < size
    ensures ClusterNo(size, ClusterSectors(size, n) + c) == n && ClusterOff(size, ClusterSectors(size, n) + c) == c
  {}

  lemma ClusterSplit(size: nat, k: nat)
    requires IsClusterSize(size)
    ensures k == ClusterSectors(size, ClusterNo(size, k)) + ClusterOff(size, k)
  {}

  lemma ClusterSectorsNext(size: nat, n: nat)
    requires IsClusterSize(size)
    ensures ClusterSectors(size, n + 1) == ClusterSectors(size, n) + size && ClusterSectors(size, 0) == 0
  {}

  lemma ClusterSplitUnique(n: nat, j: nat, k: nat)
    requires IsClusterSize(n) && ClusterNo(n, j) == ClusterNo(n, k) && ClusterOff(n, j) == ClusterOff(n, k)
    ensures j == k
  {}

  lemma SameCluster(n: nat, k: nat, j: nat)
    requires IsClusterSize(n) && ClusterOff(n, k) + j < n
    ensures ClusterNo(n, k + j) == ClusterNo(n, k) && ClusterOff(n, k + j) == ClusterOff(n, k) + j
  {}

  /** clst / (ss / 2) and clst / (ss / 4). */
  function WordSectorNo(ss: nat, c: nat): nat
    requires IsSectorSize(ss)
  {
    if ss == 512 then c / 256 else if ss == 1024 then c / 512 else if ss == 2048 then c / 1024 else c / 2048
  }

  function DwordSectorNo(ss: nat, c: nat): nat
    requires IsSectorSize(ss)
  {
    if ss == 512 then c / 128 else if ss == 1024 then c / 256 else if ss == 2048 then c / 512 else c / 1024
  }

  datatype FatType = Fat12 | Fat16 | Fat32

  /** The mount-time constants of a FATFS object. */
  datatype Geometry = Geometry(
    ss: nat,          // bytes per sector
    fatType: FatType,
    fatBase: nat,     // first sector of the first FAT
    fatSize: nat,     // sectors per FAT
    nFats: nat,
    nEntries: nat,    // number of clusters + 2
    clusterSize: nat, // sectors per cluster
    dataBase: nat,    // first sector of cluster 2
    total: nat)       // sectors on the drive
  {
    /** What mounting establishes. The two size conditions are stated cluster by cluster, which keeps products out of
        the proofs that do not need them; MountedIsValid derives them from the boot sector. */
    ghost predicate Valid() {
      && IsSectorSize(ss) && IsClusterSize(clusterSize)
      && 1 <= fatBase && 1 <= nFats <= 2 && 3 <= nEntries <= Mask()
      && fatBase + FatSectors() <= dataBase <= total < 0x1_0000_0000
      && (forall c: nat {:trigger EntryInFat(c)} :: c < nEntries ==> EntryInFat(c))
      && (forall c: nat {:trigger ClusterInVolume(c)} :: 2 <= c < nEntries ==> ClusterInVolume(c))
    }

    /** Sectors taken by all copies of the FAT. */
    function FatSectors(): nat {
      if nFats == 2 then 2 * fatSize else fatSize
    }

    predicate EntryInFat(c: nat)
      requires IsSectorSize(ss)
    {
      SectorNo(ss, EntryOffset(fatType, c) + EntryWidth(fatType) - 1) < fatSize
    }

    /** The first sector of a cluster. */
    function ClusterBase(c: nat): nat
      requires 2 <= c
    {
      dataBase + (c - 2) * clusterSize
    }

    predicate ClusterInVolume(c: nat) {
      2 <= c && ClusterBase(c) + clusterSize <= total
    }

    /** Every bit an entry of this FAT type can hold. */
    function Mask(): nat {
      match fatType
      case Fat12 => 0xFFF
      case Fat16 => 0xFFFF
      case Fat32 => 0x0FFF_FFFF
    }

    /** A value as an entry of this FAT type stores it. */
    function Trunc(v: nat): nat {
      v % (Mask() + 1)
    }

    predicate InFat(s: int) {
      fatBase <= s < fatBase + fatSize
    }

    /** The sectors of the second copy of the FAT. */
    predicate InMirror(s: int) {
      fatBase + fatSize <= s < fatBase + FatSectors()
    }
  }

  /** Sector x belongs to cluster c. */
  ghost predicate InCluster(g: Geometry, c: nat, x: nat)
    requires 2 <= c
  {
    g.ClusterBase(c) <= x < g.ClusterBase(c) + g.clusterSize
  }

  /** The first byte of entry c, in the FAT seen as one byte array. */
  function EntryOffset(t: FatType, c: nat): nat {
    match t
    case Fat12 => c + c / 2
    case Fat16 => 2 * c
    case Fat32 => 4 * c
  }

  function EntryWidth(t: FatType): (w: nat)
    ensures 2 <= w
  {
    if t == Fat32 then 4 else 2
  }

  lemma TruncValues(g: Geometry, v: nat)
    ensures v <= g.Mask() ==> g.Trunc(v) == v
    ensures g.Trunc(0x0FFF_FFFF) == g.Mask()
  {}

  /** The FAT size in bytes that the mount code asks for. */
  function FatBytesNeeded(t: FatType, nEntries: nat): nat {
    match t
    case Fat12 => nEntries * 3 / 2 + nEntries % 2
    case Fat16 => nEntries * 2
    case Fat32 => nEntries * 4
  }

  function U32(x: int): nat {
    x % 0x1_0000_0000
  }

  /** What the mount code checks; sizes are computed in 32 bits. */
  predicate Mounted(g: Geometry, clusters: nat) {
    && IsSectorSize(g.ss) && IsClusterSize(g.clusterSize) && 1 <= g.fatBase && 1 <= g.nFats <= 2
    && 1 <= clusters && g.nEntries == clusters + 2
    && g.fatType == (if clusters >= 65526 then Fat32 else if clusters >= 4086 then Fat16 else Fat12)
    && g.dataBase + clusters * g.clusterSize <= g.total < 0x1_0000_0000
    && g.fatBase + g.FatSectors() <= g.dataBase
    && SectorNo(g.ss, U32(U32(FatBytesNeeded(g.fatType, g.nEntries)) + (g.ss - 1))) <= g.fatSize
  }

  lemma NoWrap(g: Geometry, clusters: nat)
    requires Mounted(g, clusters) && g.nEntries <= 0x0FFF_FFFF
    ensures U32(U32(FatBytesNeeded(g.fatType, g.nEntries)) + (g.ss - 1))
         == FatBytesNeeded(g.fatType, g.nEntries) + (g.ss - 1)
  {
    hide SectorNo;
  }

  /** The conditions the mount code checks are enough exactly if the cluster numbers have no more than 28 bits: that it
      does not check. */
  lemma MountedIsValid(g: Geometry, clusters: nat)
    requires Mounted(g, clusters)
    ensures g.Valid() <==> g.nEntries <= 0x0FFF_FFFF
  {
    if g.nEntries <= 0x0FFF_FFFF {
      EnoughEntries(g, clusters);
    }
  }

  lemma EnoughEntries(g: Geometry, clusters: nat)
    requires Mounted(g, clusters) && g.nEntries <= 0x0FFF_FFFF
    ensures g.Valid()
  {
    NoWrap(g, clusters);
    forall c: nat | c < g.nEntries ensures g.EntryInFat(c) {
      EnoughFat(g, c);
    }
    forall c: nat | 2 <= c < g.nEntries ensures g.ClusterInVolume(c) {
      Arith.MulMono(c - 1, clusters, g.clusterSize);
    }
    Arith.MulMono(0, clusters, g.clusterSize);
  }

  /** A drive of 512-byte clusters that is mounted though it has too many. */
  lemma TooManyClusters()
    ensures var g := Geometry(512, Fat32, 32, 0x20_0000, 1, 0x1000_0000, 1, 0x20_0020, 0x1020_001E);
            Mounted(g, 0x0FFF_FFFE) && !g.Valid()
  {}

  lemma EnoughFat(g: Geometry, c: nat)
    requires IsSectorSize(g.ss) && c < g.nEntries
    requires SectorNo(g.ss, FatBytesNeeded(g.fatType, g.nEntries) + (g.ss - 1)) <= g.fatSize
    ensures g.EntryInFat(c)
  {
    EntryWithinNeeded(g.fatType, g.nEntries, c);
    RoundUp(g.ss, EntryOffset(g.fatType, c) + EntryWidth(g.fatType) - 1, FatBytesNeeded(g.fatType, g.nEntries));
  }

  lemma EntryWithinNeeded(t: FatType, n: nat, c: nat)
    requires c < n
    ensures EntryOffset(t, c) + EntryWidth(t) <= FatBytesNeeded(t, n)
  {}

  lemma RoundUp(ss: nat, last: nat, needed: nat)
    requires IsSectorSize(ss) && last < needed
    ensures SectorNo(ss, last) < SectorNo(ss, needed + (ss - 1))
  {}

  ghost predicate WellSized(g: Geometry, img: Image) {
    && |img| == g.total
    && forall s :: 0 <= s < |img| ==> |img[s]| == g.ss
  }

  ghost predicate ByteInFat(g: Geometry, i: nat)
    requires g.Valid()
  {
    SectorNo(g.ss, i) < g.fatSize
  }

  /** Byte i of the first FAT. */
  ghost function FatByte(g: Geometry, img: Image, i: nat): byte
    requires g.Valid() && WellSized(g, img) && ByteInFat(g, i)
  {
    img[g.fatBase + SectorNo(g.ss, i)][SectorOff(g.ss, i)]
  }

  lemma EntryFits(g: Geometry, c: nat)
    requires g.Valid() && c < g.nEntries
    ensures forall i: nat :: i < EntryOffset(g.fatType, c) + EntryWidth(g.fatType) ==> ByteInFat(g, i)
  {
    assert g.EntryInFat(c);
    forall i: nat | i < EntryOffset(g.fatType, c) + EntryWidth(g.fatType) ensures ByteInFat(g, i) {
    }
  }

  /** A 12-bit entry from the two bytes it is spread over. */
  function Decode12(odd: bool, b0: byte, b1: byte): nat {
    if odd then b0 / 16 + 16 * b1 else b0 + 256 * (b1 % 16)
  }

  lemma Decoded12(odd: bool, b0: byte, b1: byte)
    ensures Decode12(odd, b0, b1) == if odd then (b0 + 256 * b1) / 16 else (b0 + 256 * b1) % 4096
    ensures Decode12(odd, b0, b1) <= 0xFFF
  {}

  /** The two bytes that hold a 12-bit value, given what was in them. */
  function Low12(odd: bool, old0: byte, val: nat): byte {
    if odd then old0 % 16 + val % 16 * 16 else val % 256
  }

  function High12(odd: bool, old1: byte, val: nat): byte {
    if odd then val / 16 % 256 else old1 / 16 * 16 + val / 256 % 16
  }

  lemma Encoded12(odd: bool, old0: byte, old1: byte, val: nat)
    ensures Decode12(odd, Low12(odd, old0, val), High12(odd, old1, val)) == val % 4096
    ensures odd ==> Low12(odd, old0, val) % 16 == old0 % 16
    ensures !odd ==> High12(odd, old1, val) / 16 == old1 / 16
  {
    if odd {
      SplitMod(val, 16, 256);
    } else {
      SplitMod(val, 256, 16);
    }
  }

  lemma SplitMod(val: nat, a: nat, b: nat)
    requires (a == 16 && b == 256) || (a == 256 && b == 16)
    ensures val % 4096 == val % a + a * (val / a % b)
  {}

  /** Entry c with every bit that is stored for it. */
  ghost function RawEntry(g: Geometry, img: Image, c: nat): nat
    requires g.Valid() && WellSized(g, img) && c < g.nEntries
  {
    EntryFits(g, c);
    var o := EntryOffset(g.fatType, c);
    match g.fatType
    case Fat12 => Decode12(c % 2 == 1, FatByte(g, img, o), FatByte(g, img, o + 1))
    case Fat16 => FatByte(g, img, o) + 256 * FatByte(g, img, o + 1)
    case Fat32 => FatByte(g, img, o) + 0x100 * FatByte(g, img, o + 1)
                  + 0x1_0000 * FatByte(g, img, o + 2) + 0x100_0000 * FatByte(g, img, o + 3)
  }

  /** Entry c as the file system reads it: FAT32 ignores the top four bits. */
  ghost function Entry(g: Geometry, img: Image, c: nat): (v: nat)
    requires g.Valid() && WellSized(g, img) && c < g.nEntries
    ensures v <= g.Mask()
  {
    g.Trunc(RawEntry(g, img, c))
  }

  /** The whole allocation table. */
  ghost function Table(g: Geometry, img: Image): (t: seq<nat>)
    requires g.Valid() && WellSized(g, img)
    ensures |t| == g.nEntries
    ensures forall c :: 0 <= c < g.nEntries ==> t[c] == Entry(g, img, c)
  {
    seq(g.nEntries, c requires 0 <= c < g.nEntries => Entry(g, img, c))
  }

  lemma Entry12(g: Geometry, img: Image, c: nat)
    requires g.Valid() && WellSized(g, img) && c < g.nEntries && g.fatType == Fat12
    ensures ByteInFat(g, c + c / 2) && ByteInFat(g, c + c / 2 + 1)
    ensures var wc := FatByte(g, img, c + c / 2) as nat + 256 * FatByte(g, img, c + c / 2 + 1) as nat;
            Entry(g, img, c) == if c % 2 == 1 then wc / 16 else wc % 4096
    ensures Entry(g, img, c) == RawEntry(g, img, c)
            == Decode12(c % 2 == 1, FatByte(g, img, c + c / 2), FatByte(g, img, c + c / 2 + 1))
  {
    EntryFits(g, c);
    Decoded12(c % 2 == 1, FatByte(g, img, c + c / 2), FatByte(g, img, c + c / 2 + 1));
  }

  /** Storing a 12-bit value, or only its first byte, changes no other entry. */
  lemma Put12(g: Geometry, a: Image, b: Image, c: nat, val: nat)
    requires g.Valid() && WellSized(g, a) && WellSized(g, b) && c < g.nEntries && g.fatType == Fat12
    requires SameFatBytesBut(g, a, b, c + c / 2, c + c / 2 + 2)
    requires ByteInFat(g, c + c / 2) && ByteInFat(g, c + c / 2 + 1)
    requires FatByte(g, b, c + c / 2) == Low12(c % 2 == 1, FatByte(g, a, c + c / 2), val)
    requires FatByte(g, b, c + c / 2 + 1) == FatByte(g, a, c + c / 2 + 1)
             || FatByte(g, b, c + c / 2 + 1) == High12(c % 2 == 1, FatByte(g, a, c + c / 2 + 1), val)
    ensures forall d :: 0 <= d < g.nEntries && d != c ==> RawEntry(g, a, d) == RawEntry(g, b, d)
    ensures FatByte(g, b, c + c / 2 + 1) == High12(c % 2 == 1, FatByte(g, a, c + c / 2 + 1), val)
            ==> Entry(g, b, c) == val % 4096
  {
    Encoded12(c % 2 == 1, FatByte(g, a, c + c / 2), FatByte(g, a, c + c / 2 + 1), val);
    Entry12(g, b, c);
    forall d: nat | d < g.nEntries && d != c ensures RawEntry(g, a, d) == RawEntry(g, b, d) {
      OtherEntriesKept12(g, a, b, c, d);
    }
  }

  lemma Entry16(g: Geometry, img: Image, c: nat)
    requires g.Valid() && WellSized(g, img) && c < g.nEntries && g.fatType == Fat16
    ensures ByteInFat(g, 2 * c) && ByteInFat(g, 2 * c + 1)
    ensures Entry(g, img, c) == RawEntry(g, img, c) == FatByte(g, img, 2 * c) + 256 * FatByte(g, img, 2 * c + 1)
  {
    EntryFits(g, c);
  }

  lemma Entry32(g: Geometry, img: Image, c: nat)
    requires g.Valid() && WellSized(g, img) && c < g.nEntries && g.fatType == Fat32
    ensures forall i: nat :: 4 * c <= i < 4 * c + 4 ==> ByteInFat(g, i)
    ensures Entry(g, img, c) == RawEntry(g, img, c) % 0x1000_0000
    ensures RawEntry(g, img, c) == FatByte(g, img, 4 * c) + 0x100 * FatByte(g, img, 4 * c + 1)
                  + 0x1_0000 * FatByte(g, img, 4 * c + 2) + 0x100_0000 * FatByte(g, img, 4 * c + 3)
  {
    EntryFits(g, c);
  }

  /** The images agree on every FAT byte outside lo..hi. */
  ghost predicate SameFatBytesBut(g: Geometry, a: Image, b: Image, lo: nat, hi: nat)
    requires g.Valid() && WellSized(g, a) && WellSized(g, b)
  {
    forall i: nat {:trigger FatByte(g, a, i)} {:trigger FatByte(g, b, i)} ::
      ByteInFat(g, i) && !(lo <= i < hi) ==> FatByte(g, a, i) == FatByte(g, b, i)
  }

  /** Two bytes next to each other, changed one after the other. */
  lemma TwoBytes(g: Geometry, a: Image, m: Image, b: Image, i: nat)
    requires g.Valid() && WellSized(g, a) && WellSized(g, m) && WellSized(g, b)
    requires ByteInFat(g, i) && ByteInFat(g, i + 1)
    requires SameFatBytesBut(g, a, m, i, i + 1) && SameFatBytesBut(g, m, b, i + 1, i + 2)
    ensures SameFatBytesBut(g, a, b, i, i + 2)
    ensures FatByte(g, m, i + 1) == FatByte(g, a, i + 1) && FatByte(g, b, i) == FatByte(g, m, i)
  {
    hide FatByte, ByteInFat;
    forall j: nat | ByteInFat(g, j) && !(i <= j < i + 2) ensures FatByte(g, a, j) == FatByte(g, b, j) {
      assert FatByte(g, a, j) == FatByte(g, m, j);
    }
  }

  /** No byte changed where one might have. */
  lemma NoByte(g: Geometry, a: Image, b: Image, i: nat)
    requires g.Valid() && WellSized(g, a) && WellSized(g, b) && ByteInFat(g, i)
    requires SameFatBytesBut(g, a, b, i, i + 1) && FatByte(g, a, i) == FatByte(g, b, i)
    ensures SameFatBytesBut(g, a, b, 0, 0)
  {
    hide FatByte, ByteInFat;
  }

  /** A 12-bit entry shares one byte with a neighbour: the neighbour's half of it is kept. */
  ghost predicate KeepsNibble(g: Geometry, a: Image, b: Image, c: nat)
    requires g.Valid() && WellSized(g, a) && WellSized(g, b) && c < g.nEntries
    requires g.fatType == Fat12
  {
    Entry12(g, a, c);
    var o := EntryOffset(Fat12, c);
    if c % 2 == 1 then FatByte(g, a, o) % 16 == FatByte(g, b, o) % 16
    else FatByte(g, a, o + 1) / 16 == FatByte(g, b, o + 1) / 16
  }

  /** Rewriting the bytes of entry c leaves every other entry alone. */
  lemma OtherEntriesKept(g: Geometry, a: Image, b: Image, c: nat, d: nat)
    requires g.Valid() && WellSized(g, a) && WellSized(g, b) && c < g.nEntries && d < g.nEntries && c != d
    requires SameFatBytesBut(g, a, b, EntryOffset(g.fatType, c), EntryOffset(g.fatType, c) + EntryWidth(g.fatType))
    requires g.fatType == Fat12 ==> KeepsNibble(g, a, b, c)
    ensures RawEntry(g, a, d) == RawEntry(g, b, d)
  {
    match g.fatType {
      case Fat12 => OtherEntriesKept12(g, a, b, c, d);
      case Fat16 =>
        Entry16(g, a, d);
        Entry16(g, b, d);
      case Fat32 =>
        Entry32(g, a, d);
        Entry32(g, b, d);
    }
  }

  lemma OtherEntriesKept12(g: Geometry, a: Image, b: Image, c: nat, d: nat)
    requires g.Valid() && WellSized(g, a) && WellSized(g, b) && c < g.nEntries && d < g.nEntries && c != d
    requires g.fatType == Fat12 && SameFatBytesBut(g, a, b, c + c / 2, c + c / 2 + 2) && KeepsNibble(g, a, b, c)
    ensures RawEntry(g, a, d) == RawEntry(g, b, d)
  {
    hide FatByte, ByteInFat, RawEntry, Geometry.Valid, WellSized;
    Entry12(g, a, c);
    Entry12(g, a, d);
    Entry12(g, b, d);
    Neighbours12(c, d);
  }

  /** Where two different 12-bit entries may share a byte. */
  lemma Neighbours12(c: nat, d: nat)
    requires c != d
    ensures var o, p := c + c / 2, d + d / 2;
            || p + 1 < o || p >= o + 2
            || (p + 1 == o && c % 2 == 1 && d % 2 == 0)
            || (p == o + 1 && c % 2 == 0 && d % 2 == 1)
  {}

  /** Storing a 16-bit entry. */
  lemma Put16(g: Geometry, a: Image, b: Image, c: nat, val: nat)
    requires g.Valid() && WellSized(g, a) && WellSized(g, b) && c < g.nEntries && g.fatType == Fat16
    requires SameFatBytesBut(g, a, b, 2 * c, 2 * c + 2)
    requires forall j :: 2 * c <= j < 2 * c + 2 ==> ByteInFat(g, j) && FatByte(g, b, j) == Word(val)[j - 2 * c]
    ensures forall d :: 0 <= d < g.nEntries && d != c ==> RawEntry(g, a, d) == RawEntry(g, b, d)
    ensures Entry(g, b, c) == val % 0x1_0000
  {
    hide Entry, RawEntry;
    Entry16(g, b, c);
    forall d: nat | d < g.nEntries && d != c ensures RawEntry(g, a, d) == RawEntry(g, b, d) {
      OtherEntriesKept(g, a, b, c, d);
    }
  }

  /** Storing a 32-bit entry. */
  lemma Put32(g: Geometry, a: Image, b: Image, c: nat, v: nat)
    requires g.Valid() && WellSized(g, a) && WellSized(g, b) && c < g.nEntries && g.fatType == Fat32
    requires SameFatBytesBut(g, a, b, 4 * c, 4 * c + 4) && v < 0x1_0000_0000
    requires forall j :: 4 * c <= j < 4 * c + 4 ==> ByteInFat(g, j) && FatByte(g, b, j) == Dword(v)[j - 4 * c]
    ensures forall d :: 0 <= d < g.nEntries && d != c ==> RawEntry(g, a, d) == RawEntry(g, b, d)
    ensures RawEntry(g, b, c) == v && Entry(g, b, c) == v % 0x1000_0000
  {
    hide Entry, RawEntry;
    Entry32(g, b, c);
    DwordValue(v);
    forall d: nat | d < g.nEntries && d != c ensures RawEntry(g, a, d) == RawEntry(g, b, d) {
      OtherEntriesKept(g, a, b, c, d);
    }
  }

  /** Changing sectors outside the first FAT changes no byte of it. */
  lemma BytesFrame(g: Geometry, a: Image, b: Image)
    requires g.Valid() && WellSized(g, a) && WellSized(g, b)
    requires forall s :: 0 <= s < g.total && g.InFat(s) ==> a[s] == b[s]
    ensures SameFatBytesBut(g, a, b, 0, 0)
  {
    forall i: nat | ByteInFat(g, i) ensures FatByte(g, a, i) == FatByte(g, b, i) {
      assert g.InFat(g.fatBase + SectorNo(g.ss, i));
    }
  }

  lemma Unchanged(g: Geometry, a: Image, b: Image)
    requires g.Valid() && WellSized(g, a) && WellSized(g, b) && SameFatBytesBut(g, a, b, 0, 0)
    ensures forall c :: 0 <= c < g.nEntries ==> RawEntry(g, a, c) == RawEntry(g, b, c)
    ensures Table(g, a) == Table(g, b)
  {
    forall c: nat | c < g.nEntries ensures RawEntry(g, a, c) == RawEntry(g, b, c) {
      EntryFits(g, c);
    }
  }

  /** Changing sectors outside the first FAT changes no entry. */
  lemma TableFrame(g: Geometry, a: Image, b: Image)
    requires g.Valid() && WellSized(g, a) && WellSized(g, b)
    requires forall s :: 0 <= s < g.total && g.InFat(s) ==> a[s] == b[s]
    ensures Table(g, a) == Table(g, b)
    ensures forall c :: 0 <= c < g.nEntries ==> RawEntry(g, a, c) == RawEntry(g, b, c)
  {
    BytesFrame(g, a, b);
    Unchanged(g, a, b);
  }

  function Store(row: Sector, off: nat, bytes: seq<byte>): (r: Sector)
    requires off + |bytes| <= |row|
    ensures |r| == |row|
    ensures forall k :: 0 <= k < |row| ==> r[k] == if off <= k < off + |bytes| then bytes[k - off] else row[k]
  {
    row[..off] + bytes + row[off + |bytes|..]
  }

  /** Storing bytes in a FAT sector changes those bytes of the FAT and no other. */
  lemma BytesStored(g: Geometry, img: Image, i: nat, bytes: seq<byte>)
    requires g.Valid() && WellSized(g, img) && ByteInFat(g, i)
    requires SectorOff(g.ss, i) + |bytes| <= g.ss
    ensures var s := g.fatBase + SectorNo(g.ss, i);
            var img' := img[s := Store(img[s], SectorOff(g.ss, i), bytes)];
            && WellSized(g, img')
            && (forall j :: i <= j < i + |bytes| ==> ByteInFat(g, j) && FatByte(g, img', j) == bytes[j - i])
            && SameFatBytesBut(g, img, img', i, i + |bytes|)
  {
    hide SectorNo, SectorOff;
    var s := g.fatBase + SectorNo(g.ss, i);
    var img' := img[s := Store(img[s], SectorOff(g.ss, i), bytes)];
    forall j | i <= j < i + |bytes| ensures ByteInFat(g, j) && FatByte(g, img', j) == bytes[j - i] {
      SameSector(g.ss, i, j - i);
    }
    forall j: nat | ByteInFat(g, j) && !(i <= j < i + |bytes|) ensures FatByte(g, img, j) == FatByte(g, img', j) {
      OtherByte(g.ss, i, |bytes|, j);
    }
  }

  lemma SameSector(ss: nat, i: nat, k: nat)
    requires IsSectorSize(ss) && SectorOff(ss, i) + k < ss
    ensures SectorNo(ss, i + k) == SectorNo(ss, i) && SectorOff(ss, i + k) == SectorOff(ss, i) + k
  {}

  lemma NextSector(ss: nat, i: nat, k: nat)
    requires IsSectorSize(ss) && SectorOff(ss, i) + k == ss
    ensures SectorNo(ss, i + k) == SectorNo(ss, i) + 1 && SectorOff(ss, i + k) == 0
  {}

  lemma OtherByte(ss: nat, i: nat, n: nat, j: nat)
    requires IsSectorSize(ss) && SectorOff(ss, i) + n <= ss && !(i <= j < i + n)
    ensures SectorNo(ss, j) != SectorNo(ss, i) || !(SectorOff(ss, i) <= SectorOff(ss, j) < SectorOff(ss, i) + n)
  {}

  /** The bit-wise or of two four-bit numbers. */
  function OrNibble(a: nat, b: nat): nat
    requires a < 16 && b < 16
  {
    ((a as bv4) | (b as bv4)) as nat
  }

  /** A 32-bit value or-ed with the top four bits already stored. */
  function WithTop(val: nat, top: nat): nat
    requires val < 0x1_0000_0000 && top < 16
  {
    val % 0x1000_0000 + 0x1000_0000 * OrNibble(val / 0x1000_0000, top)
  }

  lemma TopKept(val: nat, top: nat)
    requires val < 0x1_0000_0000 && top < 16
    ensures WithTop(val, top) < 0x1_0000_0000 && WithTop(val, top) % 0x1000_0000 == val % 0x1000_0000
    ensures val < 0x1000_0000 ==> WithTop(val, top) / 0x1000_0000 == top
  {
    assert OrNibble(0, top) == top;
  }

  function Word(v: nat): (bytes: seq<byte>)
    ensures |bytes| == 2
  {
    [v % 256, v / 0x100 % 256]
  }

  function Dword(v: nat): (bytes: seq<byte>)
    ensures |bytes| == 4
  {
    [v % 256, v / 0x100 % 256, v / 0x1_0000 % 256, v / 0x100_0000 % 256]
  }

  lemma DwordValue(v: nat)
    requires v < 0x1_0000_0000
    ensures var b := Dword(v);
            b[0] as nat + 0x100 * b[1] as nat + 0x1_0000 * b[2] as nat + 0x100_0000 * b[3] as nat == v
  {
    var v1 := v / 0x100;
    var v2 := v1 / 0x100;
    assert v2 == v / 0x1_0000 && v2 / 0x100 == v / 0x100_0000;
  }

  /** 16- and 32-bit entries never straddle a sector. */
  lemma Aligned16(ss: nat, c: nat)
    requires IsSectorSize(ss)
    ensures WordSectorNo(ss, c) == SectorNo(ss, 2 * c) == SectorNo(ss, 2 * c + 1)
    ensures SectorOff(ss, 2 * c + 1) == SectorOff(ss, 2 * c) + 1
  {}

  lemma Aligned32(ss: nat, c: nat)
    requires IsSectorSize(ss)
    ensures DwordSectorNo(ss, c) == SectorNo(ss, 4 * c)
    ensures forall i: nat :: 4 * c <= i < 4 * c + 4 ==>
      SectorNo(ss, i) == SectorNo(ss, 4 * c) && SectorOff(ss, i) == SectorOff(ss, 4 * c) + (i - 4 * c)
  {}

  /** Sector number s of a block of whole sectors. */
  function Part(ss: nat, data: seq<byte>, n: nat): (r: Sector)
    requires IsSectorSize(ss) && SectorBytes(ss, n + 1) <= |data|
    ensures |r| == ss
  {
    data[SectorBytes(ss, n)..SectorBytes(ss, n + 1)]
  }

  /** The disk after cc whole sectors have been written from sect on. */
  function Written(ss: nat, disk: Image, sect: nat, cc: nat, data: seq<byte>): (d: Image)
    requires IsSectorSize(ss) && sect + cc <= |disk| && |data| == SectorBytes(ss, cc)
    ensures |d| == |disk|
    ensures forall s :: 0 <= s < |disk| ==> d[s] == if sect <= s < sect + cc then Part(ss, data, s - sect) else disk[s]
  {
    seq(|disk|, s requires 0 <= s < |disk| => if sect <= s < sect + cc then Part(ss, data, s - sect) else disk[s])
  }

  /** The bytes of cc sectors from sect on. */
  function ReadRun(ss: nat, disk: Image, sect: nat, cc: nat): (data: seq<byte>)
    requires IsSectorSize(ss) && sect + cc <= |disk| && forall s :: 0 <= s < |disk| ==> |disk[s]| == ss
    ensures |data| == SectorBytes(ss, cc)
    ensures forall j ::
      0 <= j < |data| ==> SectorNo(ss, j) < cc && data[j] == disk[sect + SectorNo(ss, j)][SectorOff(ss, j)]
  {
    seq(SectorBytes(ss, cc), j requires 0 <= j < SectorBytes(ss, cc) =>
      InSectors(ss, cc, j); disk[sect + SectorNo(ss, j)][SectorOff(ss, j)])
  }

  lemma InSectors(ss: nat, cc: nat, j: nat)
    requires IsSectorSize(ss) && j < SectorBytes(ss, cc)
    ensures SectorNo(ss, j) < cc
  {}

  lemma PartFits(ss: nat, cc: nat, n: nat)
    requires IsSectorSize(ss) && n < cc
    ensures SectorBytes(ss, n) + ss == SectorBytes(ss, n + 1) <= SectorBytes(ss, cc)
  {}

  lemma WrittenOne(ss: nat, disk: Image, s: nat, row: Sector)
    requires IsSectorSize(ss) && s < |disk| && |row| == ss
    ensures SectorBytes(ss, 1) == ss && Written(ss, disk, s, 1, row) == disk[s := row]
  {
    assert Part(ss, row, 0) == row;
  }

  /** Clusters do not overlap. */
  lemma ClustersApart(g: Geometry, c: nat, d: nat, i: nat, j: nat)
    requires 2 <= c && 2 <= d && i < g.clusterSize && j < g.clusterSize
    requires g.ClusterBase(c) + i == g.ClusterBase(d) + j
    ensures c == d && i == j
  {
    if c < d {
      Arith.MulMono(c - 1, d - 2, g.clusterSize);
    } else if d < c {
      Arith.MulMono(d - 1, c - 2, g.clusterSize);
    }
  }
}
