/** The bytes of an open file as a value: its chain, the disk, and the private sector buffer. */
module FatFileView {
  import Arith
  import opened Bytes
  import opened FatImage

  /** Where the sectors of a file are. */
  datatype Layout = Layout(g: Geometry, chain: seq<nat>) {
    ghost predicate Shape() {
      && g.Valid()
      && (forall i :: 0 <= i < |chain| ==> 2 <= chain[i] < g.nEntries)
      && (forall i, j :: 0 <= i < j < |chain| ==> chain[i] != chain[j])
    }

    /** Sector k of the file lies in an allocated cluster. */
    predicate Has(k: nat)
      requires IsClusterSize(g.clusterSize)
    {
      ClusterNo(g.clusterSize, k) < |chain|
    }

    /** Where sector k of the file is on the drive. */
    ghost function SectorAt(k: nat): (s: nat)
      requires Shape() && Has(k)
    {
      g.ClusterBase(chain[ClusterNo(g.clusterSize, k)]) + ClusterOff(g.clusterSize, k)
    }

    predicate HasByte(i: nat)
      requires IsSectorSize(g.ss) && IsClusterSize(g.clusterSize)
    {
      Has(SectorNo(g.ss, i))
    }

    /** A sector of the drive that belongs to the file. */
    ghost predicate Mine(s: nat)
      requires Shape()
    {
      exists k: nat :: Has(k) && SectorAt(k) == s
    }

    lemma SectorInRange(k: nat)
      requires Shape() && Has(k)
      ensures g.dataBase <= SectorAt(k) < g.total
    {
      var c := chain[ClusterNo(g.clusterSize, k)];
      assert g.ClusterInVolume(c);
      Arith.MulMono(0, c - 2, g.clusterSize);
    }

    /** Different sectors of the file are different sectors of the drive. */
    lemma SectorInjective(j: nat, k: nat)
      requires Shape() && Has(j) && Has(k) && SectorAt(j) == SectorAt(k)
      ensures j == k
    {
      var c, d := chain[ClusterNo(g.clusterSize, j)], chain[ClusterNo(g.clusterSize, k)];
      ClustersApart(g, c, d, ClusterOff(g.clusterSize, j), ClusterOff(g.clusterSize, k));
      ClusterSplitUnique(g.clusterSize, j, k);
    }

    lemma Contiguous(k: nat, j: nat)
      requires Shape() && Has(k) && ClusterOff(g.clusterSize, k) + j < g.clusterSize
      ensures Has(k + j) && SectorAt(k + j) == SectorAt(k) + j
    {
      SameCluster(g.clusterSize, k, j);
    }
  }

  datatype View = View(l: Layout, disk: Image, dirty: bool, dsect: nat, buf: Sector) {
    ghost predicate Sized() {
      IsSectorSize(l.g.ss) && WellSized(l.g, disk) && |buf| == l.g.ss
    }

    ghost predicate Shape() {
      l.Shape() && Sized()
    }

    /** A dirty buffer belongs to the file. */
    ghost predicate Ok() {
      Shape() && (dirty ==> l.Mine(dsect))
    }

    ghost function ByteAt(i: nat): byte
      requires Shape() && l.HasByte(i)
    {
      l.SectorInRange(SectorNo(l.g.ss, i));
      var s := l.SectorAt(SectorNo(l.g.ss, i));
      if dirty && s == dsect then buf[SectorOff(l.g.ss, i)] else disk[s][SectorOff(l.g.ss, i)]
    }
  }

  /** Within the first `size` bytes, a clean buffer says the same as the sector it was read from. */
  ghost predicate BufferOk(v: View, size: nat)
    requires v.Shape()
  {
    !v.dirty ==>
      (forall i: nat {:trigger v.l.HasByte(i)} ::
        i < size && v.l.HasByte(i) && v.l.SectorAt(SectorNo(v.l.g.ss, i)) == v.dsect ==>
          v.buf[SectorOff(v.l.g.ss, i)] == v.ByteAt(i))
  }

  /** A clean buffer is empty or a copy of a sector of the file. */
  ghost predicate Exact(v: View)
    requires v.Shape()
  {
    !v.dirty ==> v.dsect == 0 || (v.dsect < |v.disk| && v.l.Mine(v.dsect) && v.buf == v.disk[v.dsect])
  }

  lemma ExactIsOk(v: View, size: nat)
    requires v.Ok() && Exact(v)
    ensures BufferOk(v, size)
  {
    forall i: nat | v.l.HasByte(i) ensures v.l.SectorAt(SectorNo(v.l.g.ss, i)) != 0 {
      v.l.SectorInRange(SectorNo(v.l.g.ss, i));
    }
  }

  /** The same bytes up to `size`. */
  ghost predicate SameBytes(v: View, w: View, size: nat)
    requires v.Shape() && w.Shape()
  {
    forall i: nat {:trigger v.l.HasByte(i)} {:trigger w.l.HasByte(i)} ::
      i < size && v.l.HasByte(i) ==> w.l.HasByte(i) && v.ByteAt(i) == w.ByteAt(i)
  }

  /** Writing a dirty buffer back changes no byte of the file. */
  lemma Flushed(v: View, size: nat)
    requires v.Ok() && v.dirty
    ensures v.dsect < |v.disk|
    ensures var w := v.(disk := v.disk[v.dsect := v.buf], dirty := false);
            w.Ok() && SameBytes(v, w, size) && Exact(w)
  {
    var k: nat :| v.l.Has(k) && v.dsect == v.l.SectorAt(k);
    v.l.SectorInRange(k);
    var w := v.(disk := v.disk[v.dsect := v.buf], dirty := false);
    forall i: nat | v.l.HasByte(i) ensures w.l.HasByte(i) && v.ByteAt(i) == w.ByteAt(i) {
      v.l.SectorInRange(SectorNo(v.l.g.ss, i));
    }
  }

  /** Filling a clean buffer changes no byte of the file. */
  lemma Loaded(v: View, k: nat, size: nat)
    requires v.Ok() && !v.dirty && v.l.Has(k)
    ensures v.l.SectorAt(k) < |v.disk|
    ensures var w := v.(dsect := v.l.SectorAt(k), buf := v.disk[v.l.SectorAt(k)]);
            w.Ok() && SameBytes(v, w, size) && Exact(w)
  {
    v.l.SectorInRange(k);
  }

  /** w holds `bytes` from p on and is like v elsewhere, below `size`. */
  ghost predicate Wrote(v: View, w: View, size: nat, p: nat, bytes: seq<byte>)
    requires v.Shape() && w.Shape()
  {
    && (forall i: nat {:trigger v.l.HasByte(i)} {:trigger w.l.HasByte(i)} ::
         i < size && v.l.HasByte(i) && !(p <= i < p + |bytes|) ==> w.l.HasByte(i) && v.ByteAt(i) == w.ByteAt(i))
    && (forall i: nat {:trigger w.l.HasByte(i)} ::
         p <= i < p + |bytes| ==> w.l.HasByte(i) && w.ByteAt(i) == bytes[i - p])
  }

  /** Changing part of the buffered sector. */
  lemma Patched(v: View, k: nat, off: nat, bytes: seq<byte>, size: nat)
    requires v.Ok() && BufferOk(v, size) && v.l.Has(k) && v.dsect == v.l.SectorAt(k) && off + |bytes| <= v.l.g.ss
    ensures var w := v.(buf := Store(v.buf, off, bytes), dirty := true);
            w.Ok() && Exact(w) && Wrote(v, w, size, SectorBytes(v.l.g.ss, k) + off, bytes)
  {
    hide SectorNo, SectorOff, SectorBytes, ClusterNo, ClusterOff, v.ByteAt, Store;
    var w := v.(buf := Store(v.buf, off, bytes), dirty := true);
    var p := SectorBytes(v.l.g.ss, k) + off;
    assert w.l.Mine(w.dsect);
    forall i: nat | i < size && v.l.HasByte(i) && !(p <= i < p + |bytes|) ensures v.ByteAt(i) == w.ByteAt(i) {
      PatchedOutside(v, k, off, bytes, size, i);
    }
    forall i: nat | p <= i < p + |bytes| ensures w.l.HasByte(i) && w.ByteAt(i) == bytes[i - p] {
      PatchedInside(v, k, off, bytes, i - p);
    }
  }

  lemma PatchedOutside(v: View, k: nat, off: nat, bytes: seq<byte>, size: nat, i: nat)
    requires v.Ok() && BufferOk(v, size) && v.l.Has(k) && v.dsect == v.l.SectorAt(k) && off + |bytes| <= v.l.g.ss
    requires i < size && v.l.HasByte(i)
    requires !(SectorBytes(v.l.g.ss, k) + off <= i < SectorBytes(v.l.g.ss, k) + off + |bytes|)
    ensures v.ByteAt(i) == v.(buf := Store(v.buf, off, bytes), dirty := true).ByteAt(i)
  {
    hide SectorNo, SectorBytes, ClusterNo, ClusterOff, SectorOff;
    SplitIndex(v.l.g.ss, i);
    if v.l.SectorAt(SectorNo(v.l.g.ss, i)) == v.dsect {
      v.l.SectorInjective(SectorNo(v.l.g.ss, i), k);
    }
  }

  lemma PatchedInside(v: View, k: nat, off: nat, bytes: seq<byte>, j: nat)
    requires v.Ok() && v.l.Has(k) && v.dsect == v.l.SectorAt(k) && off + |bytes| <= v.l.g.ss && j < |bytes|
    ensures var i := SectorBytes(v.l.g.ss, k) + off + j;
            v.l.HasByte(i) && v.(buf := Store(v.buf, off, bytes), dirty := true).ByteAt(i) == bytes[j]
  {
    hide SectorNo, SectorBytes, ClusterNo, ClusterOff, SectorOff;
    JoinIndex(v.l.g.ss, k, off + j);
  }

  /** Sectors k..k + cc - 1 of the file, which are consecutive on the drive. */
  ghost predicate Run(v: View, k: nat, cc: nat)
    requires v.Shape()
  {
    v.l.Has(k) && ClusterOff(v.l.g.clusterSize, k) + cc <= v.l.g.clusterSize
  }

  lemma InRun(v: View, k: nat, cc: nat, i: nat)
    requires v.Shape() && Run(v, k, cc)
    requires SectorBytes(v.l.g.ss, k) <= i < SectorBytes(v.l.g.ss, k) + SectorBytes(v.l.g.ss, cc)
    ensures var j := SectorNo(v.l.g.ss, i) - k;
            && 0 <= j < cc && v.l.HasByte(i) && v.l.SectorAt(SectorNo(v.l.g.ss, i)) == v.l.SectorAt(k) + j
            && SectorNo(v.l.g.ss, i - SectorBytes(v.l.g.ss, k)) == j
            && SectorOff(v.l.g.ss, i - SectorBytes(v.l.g.ss, k)) == SectorOff(v.l.g.ss, i)
  {
    RunIndex(v.l.g.ss, k, cc, i);
    v.l.Contiguous(k, SectorNo(v.l.g.ss, i) - k);
  }

  lemma RunIndex(ss: nat, k: nat, cc: nat, i: nat)
    requires IsSectorSize(ss) && SectorBytes(ss, k) <= i < SectorBytes(ss, k) + SectorBytes(ss, cc)
    ensures 0 <= SectorNo(ss, i) - k < cc
    ensures SectorNo(ss, i - SectorBytes(ss, k)) == SectorNo(ss, i) - k
    ensures SectorOff(ss, i - SectorBytes(ss, k)) == SectorOff(ss, i)
  {}

  /** Whole sectors read past the buffer: the disk's, with the dirty buffer laid over them. */
  ghost function Overlaid(v: View, sect: nat, cc: nat, j: nat): byte
    requires v.Sized() && sect + cc <= v.l.g.total && SectorNo(v.l.g.ss, j) < cc
  {
    var s := sect + SectorNo(v.l.g.ss, j);
    if v.dirty && s == v.dsect then v.buf[SectorOff(v.l.g.ss, j)] else v.disk[s][SectorOff(v.l.g.ss, j)]
  }

  /** The bytes of cc sectors, the n-th replaced. */
  function LayOver(ss: nat, data: seq<byte>, n: nat, row: Sector): (r: seq<byte>)
    requires IsSectorSize(ss) && |row| == ss && SectorBytes(ss, n + 1) <= |data|
      && SectorBytes(ss, n) + ss == SectorBytes(ss, n + 1)
    ensures |r| == |data|
  {
    data[..SectorBytes(ss, n)] + row + data[SectorBytes(ss, n + 1)..]
  }

  lemma LaidOver(ss: nat, data: seq<byte>, n: nat, row: Sector, j: nat)
    requires IsSectorSize(ss) && |row| == ss && SectorBytes(ss, n + 1) <= |data|
      && SectorBytes(ss, n) + ss == SectorBytes(ss, n + 1)
    requires j < |data|
    ensures LayOver(ss, data, n, row)[j] == if SectorNo(ss, j) == n then row[SectorOff(ss, j)] else data[j]
  {}

  /** What f_read hands out for a run of whole sectors. */
  function RunData(v: View, sect: nat, cc: nat): (data: seq<byte>)
    requires v.Sized() && sect + cc <= v.l.g.total
    ensures |data| == SectorBytes(v.l.g.ss, cc)
  {
    var data := ReadRun(v.l.g.ss, v.disk, sect, cc);
    if v.dirty && sect <= v.dsect < sect + cc then
      PartFits(v.l.g.ss, cc, v.dsect - sect);
      LayOver(v.l.g.ss, data, v.dsect - sect, v.buf)
    else data
  }

  lemma RunDataIs(v: View, k: nat, cc: nat, j: nat)
    requires v.Ok() && Run(v, k, cc) && j < SectorBytes(v.l.g.ss, cc)
    ensures v.l.SectorAt(k) + cc <= v.l.g.total && v.l.HasByte(SectorBytes(v.l.g.ss, k) + j)
    ensures RunData(v, v.l.SectorAt(k), cc)[j] == v.ByteAt(SectorBytes(v.l.g.ss, k) + j)
  {
    hide SectorNo, SectorOff, SectorBytes, ClusterNo, ClusterOff, RunData;
    DirectRead(v, k, cc, j);
    RunByte(v, v.l.SectorAt(k), cc, j);
  }

  lemma RunByte(v: View, sect: nat, cc: nat, j: nat)
    requires v.Sized() && sect + cc <= v.l.g.total && j < SectorBytes(v.l.g.ss, cc)
    ensures SectorNo(v.l.g.ss, j) < cc && RunData(v, sect, cc)[j] == Overlaid(v, sect, cc, j)
  {
    hide SectorNo, SectorOff, SectorBytes, LayOver, ReadRun;
    InSectors(v.l.g.ss, cc, j);
    if v.dirty && sect <= v.dsect < sect + cc {
      PartFits(v.l.g.ss, cc, v.dsect - sect);
      LaidOver(v.l.g.ss, ReadRun(v.l.g.ss, v.disk, sect, cc), v.dsect - sect, v.buf, j);
    }
  }

  lemma DirectRead(v: View, k: nat, cc: nat, j: nat)
    requires v.Ok() && Run(v, k, cc) && j < SectorBytes(v.l.g.ss, cc)
    ensures v.l.SectorAt(k) + cc <= v.l.g.total && SectorNo(v.l.g.ss, j) < cc
    ensures v.l.HasByte(SectorBytes(v.l.g.ss, k) + j)
    ensures Overlaid(v, v.l.SectorAt(k), cc, j) == v.ByteAt(SectorBytes(v.l.g.ss, k) + j)
  {
    hide SectorNo, SectorOff, SectorBytes, ClusterNo, ClusterOff, View.Ok, View.Shape, Run, Layout.HasByte,
      Layout.SectorAt;
    OkFacts(v);
    RunInRange(v, k, cc);
    InRun(v, k, cc, SectorBytes(v.l.g.ss, k) + j);
  }

  lemma OkFacts(v: View)
    requires v.Ok()
    ensures v.Shape() && v.Sized() && v.l.Shape() && IsSectorSize(v.l.g.ss) && IsClusterSize(v.l.g.clusterSize)
  {}

  lemma RunInRange(v: View, k: nat, cc: nat)
    requires v.Shape() && Run(v, k, cc)
    ensures v.l.SectorAt(k) + cc <= v.l.g.total && v.l.g.dataBase <= v.l.SectorAt(k)
  {
    v.l.SectorInRange(k);
    if cc > 0 {
      v.l.Contiguous(k, cc - 1);
      v.l.SectorInRange(k + (cc - 1));
    }
  }

  /** Writing whole sectors past the buffer, which is refilled if it held one of them. */
  ghost function AfterWrite(v: View, k: nat, cc: nat, data: seq<byte>): (w: View)
    requires v.Shape() && Run(v, k, cc) && |data| == SectorBytes(v.l.g.ss, cc)
    ensures w.Shape() && w.l.g == v.l.g && w.l.chain == v.l.chain && w.dsect == v.dsect && w.dirty == v.dirty
  {
    RunInRange(v, k, cc);
    var sect := v.l.SectorAt(k);
    if sect <= v.dsect < sect + cc then
      PartFits(v.l.g.ss, cc, v.dsect - sect);
      v.(disk := Written(v.l.g.ss, v.disk, sect, cc, data), buf := Part(v.l.g.ss, data, v.dsect - sect))
    else v.(disk := Written(v.l.g.ss, v.disk, sect, cc, data))
  }

  lemma OutsideWrite(v: View, k: nat, cc: nat, data: seq<byte>, i: nat)
    requires v.Ok() && !v.dirty && Run(v, k, cc) && |data| == SectorBytes(v.l.g.ss, cc) && v.l.HasByte(i)
    requires !(SectorBytes(v.l.g.ss, k) <= i < SectorBytes(v.l.g.ss, k) + |data|)
    ensures var w := AfterWrite(v, k, cc, data);
            w.l.HasByte(i) && w.ByteAt(i) == v.ByteAt(i)
  {
    RunInRange(v, k, cc);
    OutsideRun(v, k, cc, i);
  }

  lemma InsideWrite(v: View, k: nat, cc: nat, data: seq<byte>, i: nat)
    requires v.Ok() && !v.dirty && Run(v, k, cc) && |data| == SectorBytes(v.l.g.ss, cc)
    requires SectorBytes(v.l.g.ss, k) <= i < SectorBytes(v.l.g.ss, k) + |data|
    ensures var w := AfterWrite(v, k, cc, data);
            w.l.HasByte(i) && w.ByteAt(i) == data[i - SectorBytes(v.l.g.ss, k)]
  {
    hide SectorNo, SectorOff, SectorBytes, ClusterNo, ClusterOff, AfterWrite, Part, Written;
    InsideSector(v, k, cc, data, i);
    InRun(v, k, cc, i);
    var w := AfterWrite(v, k, cc, data);
    assert w.l.SectorAt(SectorNo(v.l.g.ss, i)) == v.l.SectorAt(SectorNo(v.l.g.ss, i));
  }

  /** The sector that byte i of a direct write lands in. */
  lemma InsideSector(v: View, k: nat, cc: nat, data: seq<byte>, i: nat)
    requires v.Shape() && Run(v, k, cc) && |data| == SectorBytes(v.l.g.ss, cc)
    requires SectorBytes(v.l.g.ss, k) <= i < SectorBytes(v.l.g.ss, k) + |data|
    ensures var w, off := AfterWrite(v, k, cc, data), SectorOff(v.l.g.ss, i);
            var s := v.l.SectorAt(k) + SectorNo(v.l.g.ss, i) - k;
            0 <= s < |w.disk| && w.disk[s][off] == data[i - SectorBytes(v.l.g.ss, k)]
  {
    hide SectorNo, SectorOff, SectorBytes, ClusterNo, ClusterOff;
    RunInRange(v, k, cc);
    PartByte(v.l.g.ss, cc, data, k, i);
  }

  lemma PartByte(ss: nat, cc: nat, data: seq<byte>, k: nat, i: nat)
    requires IsSectorSize(ss) && |data| == SectorBytes(ss, cc)
    requires SectorBytes(ss, k) <= i < SectorBytes(ss, k) + |data|
    ensures 0 <= SectorNo(ss, i) - k < cc && SectorBytes(ss, SectorNo(ss, i) - k + 1) <= |data|
    ensures Part(ss, data, SectorNo(ss, i) - k)[SectorOff(ss, i)] == data[i - SectorBytes(ss, k)]
  {
    RunIndex(ss, k, cc, i);
    PartFits(ss, cc, SectorNo(ss, i) - k);
    SplitIndex(ss, i - SectorBytes(ss, k));
  }

  lemma DirectWrite(v: View, k: nat, cc: nat, data: seq<byte>, size: nat)
    requires v.Ok() && !v.dirty && Exact(v) && Run(v, k, cc) && |data| == SectorBytes(v.l.g.ss, cc)
    ensures var w := AfterWrite(v, k, cc, data);
            w.Ok() && Exact(w) && Wrote(v, w, size, SectorBytes(v.l.g.ss, k), data)
  {
    hide *;
    RefilledExactly(v, k, cc, data);
    DirectWritten(v, k, cc, data, size);
  }

  lemma DirectWritten(v: View, k: nat, cc: nat, data: seq<byte>, size: nat)
    requires v.Ok() && !v.dirty && Run(v, k, cc) && |data| == SectorBytes(v.l.g.ss, cc)
    ensures Wrote(v, AfterWrite(v, k, cc, data), size, SectorBytes(v.l.g.ss, k), data)
  {
    hide SectorNo, SectorOff, SectorBytes, ClusterNo, ClusterOff, View.ByteAt, AfterWrite, Run;
    var p := SectorBytes(v.l.g.ss, k);
    var w := AfterWrite(v, k, cc, data);
    forall i: nat | v.l.HasByte(i) && !(p <= i < p + |data|) ensures w.l.HasByte(i) && v.ByteAt(i) == w.ByteAt(i) {
      OutsideWrite(v, k, cc, data, i);
    }
    forall i: nat | p <= i < p + |data| ensures w.l.HasByte(i) && w.ByteAt(i) == data[i - p] {
      InsideWrite(v, k, cc, data, i);
    }
  }

  lemma RefilledExactly(v: View, k: nat, cc: nat, data: seq<byte>)
    requires v.Ok() && !v.dirty && Exact(v) && Run(v, k, cc) && |data| == SectorBytes(v.l.g.ss, cc)
    ensures AfterWrite(v, k, cc, data).Ok() && Exact(AfterWrite(v, k, cc, data))
  {
    hide SectorNo, SectorOff, SectorBytes, ClusterNo, ClusterOff;
    RunInRange(v, k, cc);
  }

  lemma OutsideRun(v: View, k: nat, cc: nat, i: nat)
    requires v.Shape() && Run(v, k, cc) && v.l.HasByte(i)
    requires !(SectorBytes(v.l.g.ss, k) <= i < SectorBytes(v.l.g.ss, k) + SectorBytes(v.l.g.ss, cc))
    ensures !(v.l.SectorAt(k) <= v.l.SectorAt(SectorNo(v.l.g.ss, i)) < v.l.SectorAt(k) + cc)
    ensures v.l.SectorAt(SectorNo(v.l.g.ss, i)) < v.l.g.total
  {
    var n := SectorNo(v.l.g.ss, i);
    v.l.SectorInRange(n);
    if v.l.SectorAt(k) <= v.l.SectorAt(n) < v.l.SectorAt(k) + cc {
      var j := v.l.SectorAt(n) - v.l.SectorAt(k);
      v.l.Contiguous(k, j);
      v.l.SectorInjective(n, k + j);
      NotBetween(v.l.g.ss, k, cc, j, i);
    }
  }

  lemma NotBetween(ss: nat, k: nat, cc: nat, j: nat, i: nat)
    requires IsSectorSize(ss) && j < cc && SectorNo(ss, i) == k + j
    ensures SectorBytes(ss, k) <= i < SectorBytes(ss, k) + SectorBytes(ss, cc)
  {}

  /** Changes elsewhere on the drive do not show in the file. */
  lemma Elsewhere(v: View, disk: Image, size: nat)
    requires v.Ok() && Exact(v) && WellSized(v.l.g, disk)
    requires forall k: nat {:trigger v.l.Has(k)} ::
      v.l.Has(k) ==> v.l.SectorAt(k) < |disk| && disk[v.l.SectorAt(k)] == v.disk[v.l.SectorAt(k)]
    ensures var w := v.(disk := disk); w.Ok() && Exact(w) && SameBytes(v, w, size)
  {
    var w := v.(disk := disk);
    SameSectors(v, w, size);
  }

  /** Two views that place and read the file's sectors alike. */
  lemma SameSectors(v: View, w: View, size: nat)
    requires v.Ok() && Exact(v) && w.Shape()
    requires v.l.g == w.l.g && v.dirty == w.dirty && v.dsect == w.dsect && v.buf == w.buf
    requires forall k: nat {:trigger v.l.Has(k)} {:trigger w.l.Has(k)} :: v.l.Has(k) ==>
      (w.l.Has(k) && v.l.SectorAt(k) == w.l.SectorAt(k) < |v.disk| == |w.disk|
          && v.disk[v.l.SectorAt(k)] == w.disk[v.l.SectorAt(k)])
    requires forall i: nat {:trigger v.l.HasByte(i)} {:trigger w.l.HasByte(i)} ::
      i < size && w.l.HasByte(i) ==> v.l.HasByte(i)
    ensures w.Ok() && Exact(w) && SameBytes(v, w, size)
  {
    if v.l.Mine(v.dsect) {
      var k: nat :| v.l.Has(k) && v.dsect == v.l.SectorAt(k);
      assert w.l.Has(k);
    }
    forall i: nat | v.l.HasByte(i)
      ensures w.l.HasByte(i) && v.ByteAt(i) == w.ByteAt(i)
      ensures v.l.SectorAt(SectorNo(v.l.g.ss, i)) == w.l.SectorAt(SectorNo(v.l.g.ss, i))
    {
      assert v.l.Has(SectorNo(v.l.g.ss, i));
    }
  }

  /** A longer chain holds the old bytes where they were. */
  lemma Longer(v: View, c: nat, size: nat)
    requires v.Ok() && Exact(v) && 2 <= c < v.l.g.nEntries && c !in v.l.chain
    requires forall i: nat {:trigger v.l.HasByte(i)} :: i < size ==> v.l.HasByte(i)
    ensures var w := v.(l := v.l.(chain := v.l.chain + [c])); w.Ok() && Exact(w) && SameBytes(v, w, size)
  {
    var w := v.(l := v.l.(chain := v.l.chain + [c]));
    forall k: nat | v.l.Has(k) ensures w.l.Has(k) && w.l.SectorAt(k) == v.l.SectorAt(k) < v.l.g.total {
      v.l.SectorInRange(k);
    }
    SameSectors(v, w, size);
  }

  /** The first `size` bytes of the file. */
  ghost function Content(v: View, size: nat): (s: seq<byte>)
    requires v.Shape() && forall i: nat {:trigger v.l.HasByte(i)} :: i < size ==> v.l.HasByte(i)
    ensures |s| == size
    ensures forall i :: 0 <= i < size ==> v.l.HasByte(i) && s[i] == v.ByteAt(i)
  {
    seq(size, i requires 0 <= i < size => assert v.l.HasByte(i); v.ByteAt(i))
  }

  lemma SameContent(v: View, w: View, size: nat)
    requires v.Shape() && w.Shape() && SameBytes(v, w, size)
    requires forall i: nat {:trigger v.l.HasByte(i)} :: i < size ==> v.l.HasByte(i)
    ensures forall i: nat {:trigger w.l.HasByte(i)} :: i < size ==> w.l.HasByte(i)
    ensures Content(v, size) == Content(w, size)
  {
    forall i: nat | i < size ensures v.l.HasByte(i) && w.l.HasByte(i) && v.ByteAt(i) == w.ByteAt(i) {
      assert v.l.HasByte(i);
    }
  }

  /** A byte string overwritten, and perhaps lengthened, from p on. */
  function Overwrite(s: seq<byte>, p: nat, bytes: seq<byte>): (r: seq<byte>)
    requires p <= |s|
  {
    s[..p] + bytes + (if p + |bytes| < |s| then s[p + |bytes|..] else [])
  }

  /** Just after the last byte of a cluster comes the first byte of the next one. */
  lemma NextCluster(g: Geometry, p: nat)
    requires IsSectorSize(g.ss) && IsClusterSize(g.clusterSize) && 0 < p
    requires SectorOff(g.ss, p) == 0 && ClusterOff(g.clusterSize, SectorNo(g.ss, p)) == 0
    ensures ClusterNo(g.clusterSize, SectorNo(g.ss, p)) == ClusterNo(g.clusterSize, SectorNo(g.ss, p - 1)) + 1
  {
    PreviousSector(g.ss, p);
  }

  lemma FirstCluster(g: Geometry)
    requires IsSectorSize(g.ss) && IsClusterSize(g.clusterSize)
    ensures SectorNo(g.ss, 0) == 0 && SectorOff(g.ss, 0) == 0
    ensures ClusterNo(g.clusterSize, 0) == 0 && ClusterOff(g.clusterSize, 0) == 0
  {}

  lemma PreviousSector(ss: nat, p: nat)
    requires IsSectorSize(ss) && 0 < p && SectorOff(ss, p) == 0
    ensures SectorNo(ss, p) == SectorNo(ss, p - 1) + 1
  {}

  /** Inside a cluster, a sector boundary does not change the cluster. */
  lemma SameClusterBefore(g: Geometry, p: nat)
    requires IsSectorSize(g.ss) && IsClusterSize(g.clusterSize) && SectorOff(g.ss, p) == 0
    requires ClusterOff(g.clusterSize, SectorNo(g.ss, p)) != 0
    ensures 0 < p && ClusterNo(g.clusterSize, SectorNo(g.ss, p)) == ClusterNo(g.clusterSize, SectorNo(g.ss, p - 1))
  {
    hide SectorNo, SectorOff, ClusterNo, ClusterOff;
    FirstCluster(g);
    if p > 0 {
      PreviousSector(g.ss, p);
      PreviousInCluster(g.clusterSize, SectorNo(g.ss, p));
    }
  }

  lemma PreviousInCluster(n: nat, k: nat)
    requires IsClusterSize(n) && ClusterOff(n, k) != 0
    ensures 0 < k && ClusterNo(n, k - 1) == ClusterNo(n, k)
  {}

  lemma AdvanceIndex(ss: nat, p: nat, n: nat, cc: nat)
    requires IsSectorSize(ss) && 0 < n && SectorOff(ss, p) + n <= SectorBytes(ss, cc)
    ensures SectorNo(ss, p) <= SectorNo(ss, p + n - 1) < SectorNo(ss, p) + cc
    ensures cc == 1 && SectorOff(ss, p + n) != 0 ==> SectorNo(ss, p + n) == SectorNo(ss, p)
  {}

  /** How far one round of a transfer of n bytes goes. */
  lemma StepSize(g: Geometry, k: nat, n: nat)
    requires IsSectorSize(g.ss) && IsClusterSize(g.clusterSize)
    ensures ClusterOff(g.clusterSize, k) < g.clusterSize && SectorBytes(g.ss, 1) == g.ss
    ensures SectorNo(g.ss, n) == 0 ==> n < g.ss
    ensures forall cc: nat {:trigger SectorBytes(g.ss, cc)} :: cc <= SectorNo(g.ss, n) ==> SectorBytes(g.ss, cc) <= n
    ensures forall cc: nat {:trigger SectorBytes(g.ss, cc)} :: 0 < cc ==> 0 < SectorBytes(g.ss, cc)
    ensures forall cc: nat {:trigger SectorBytes(g.ss, cc)} ::
      SectorOff(g.ss, SectorBytes(g.ss, k) + SectorBytes(g.ss, cc)) == 0
  {
    forall cc: nat ensures SectorOff(g.ss, SectorBytes(g.ss, k) + SectorBytes(g.ss, cc)) == 0 {
      SectorsAdd(g.ss, k, cc);
    }
  }

  lemma SectorsAdd(ss: nat, k: nat, cc: nat)
    requires IsSectorSize(ss)
    ensures SectorBytes(ss, k) + SectorBytes(ss, cc) == SectorBytes(ss, k + cc)
    ensures SectorOff(ss, SectorBytes(ss, k + cc)) == 0
  {
    JoinIndex(ss, k + cc, 0);
  }

  /** Inside a sector, the byte before is in the same sector. */
  lemma SectorBefore(ss: nat, p: nat)
    requires IsSectorSize(ss) && SectorOff(ss, p) != 0
    ensures 0 < p && SectorNo(ss, p - 1) == SectorNo(ss, p)
  {}

  /** A buffer holding the sector of byte p holds the byte k further on, if that is in the sector too. */
  lemma BufferByte(v: View, size: nat, p: nat, j: nat)
    requires v.Ok() && BufferOk(v, size) && v.l.HasByte(p) && v.dsect == v.l.SectorAt(SectorNo(v.l.g.ss, p))
    requires SectorOff(v.l.g.ss, p) + j < v.l.g.ss && p + j < size
    ensures v.l.HasByte(p + j) && v.buf[SectorOff(v.l.g.ss, p) + j] == v.ByteAt(p + j)
  {
    SameSector(v.l.g.ss, p, j);
    hide SectorNo, SectorOff, ClusterNo, ClusterOff;
    assert v.l.HasByte(p + j);
  }

  function Min(a: nat, b: nat): nat {
    if a < b then a else b
  }

  function Max(a: nat, b: nat): nat {
    if a < b then b else a
  }

  /** After a write the content is the old one overwritten. */
  lemma WroteContent(v: View, w: View, size: nat, p: nat, bytes: seq<byte>)
    requires v.Shape() && w.Shape() && v.l == w.l && p <= size && Wrote(v, w, size, p, bytes)
    requires forall i: nat {:trigger v.l.HasByte(i)} :: i < size ==> v.l.HasByte(i)
    ensures forall i: nat {:trigger w.l.HasByte(i)} :: i < Max(size, p + |bytes|) ==> w.l.HasByte(i)
    ensures Content(w, Max(size, p + |bytes|)) == Overwrite(Content(v, size), p, bytes)
  {
    hide SectorNo, SectorOff, ClusterNo, ClusterOff;
    var n := Max(size, p + |bytes|);
    forall i: nat | i < n ensures w.l.HasByte(i) {}
    var a, b := Content(w, n), Overwrite(Content(v, size), p, bytes);
    forall i | 0 <= i < n ensures a[i] == b[i] {
      assert w.l.HasByte(i);
    }
  }

  /** At the growing edge the buffer need not be filled: no byte of the file is in that sector yet. */
  lemma Unfilled(v: View, k: nat, size: nat)
    requires v.Ok() && !v.dirty && v.l.Has(k) && size == SectorBytes(v.l.g.ss, k)
    ensures var w := v.(dsect := v.l.SectorAt(k)); w.Ok() && BufferOk(w, size) && SameBytes(v, w, size)
  {
    var w := v.(dsect := v.l.SectorAt(k));
    forall i: nat | i < size && w.l.HasByte(i) ensures w.l.SectorAt(SectorNo(v.l.g.ss, i)) != w.dsect {
      SplitIndex(v.l.g.ss, i);
      if w.l.SectorAt(SectorNo(v.l.g.ss, i)) == w.dsect {
        v.l.SectorInjective(SectorNo(v.l.g.ss, i), k);
      }
    }
  }

  lemma OverwriteNothing(s: seq<byte>, p: nat)
    requires p <= |s|
    ensures Overwrite(s, p, []) == s
  {}

  /** Writing on from where the last write ended. */
  lemma OverwriteTwice(s: seq<byte>, p: nat, data: seq<byte>, n: nat, rest: nat, m: nat)
    requires p <= |s| && n + rest <= |data| && m <= rest
    ensures p + n <= |Overwrite(s, p, data[..n])|
    ensures Overwrite(Overwrite(s, p, data[..n]), p + n, data[n..n + rest][..m]) == Overwrite(s, p, data[..n + m])
  {
    assert data[n..n + rest][..m] == data[n..n + m];
    var a := Overwrite(s, p, data[..n]);
    var b, c := Overwrite(a, p + n, data[n..n + m]), Overwrite(s, p, data[..n + m]);
    assert |b| == |c|;
    forall i | 0 <= i < |b| ensures b[i] == c[i] {
      if i < p {
      } else if i < p + n {
        assert a[i] == data[i - p];
      }
    }
  }

  // ---- whole clusters ----

  /** i / (bytes per cluster). */
  function ClusterIndex(g: Geometry, i: nat): nat
    requires IsSectorSize(g.ss) && IsClusterSize(g.clusterSize)
  {
    ClusterNo(g.clusterSize, SectorNo(g.ss, i))
  }

  /** n * (bytes per cluster). */
  function ClusterStart(g: Geometry, n: nat): nat
    requires IsSectorSize(g.ss) && IsClusterSize(g.clusterSize)
  {
    SectorBytes(g.ss, ClusterSectors(g.clusterSize, n))
  }

  function BytesPerCluster(g: Geometry): nat
    requires IsSectorSize(g.ss)
  {
    SectorBytes(g.ss, g.clusterSize)
  }

  /** Byte o of cluster n. */
  lemma ByteOfCluster(g: Geometry, n: nat, o: nat)
    requires IsSectorSize(g.ss) && IsClusterSize(g.clusterSize) && o < BytesPerCluster(g)
    ensures ClusterIndex(g, ClusterStart(g, n) + o) == n
    ensures SectorOff(g.ss, ClusterStart(g, n) + o) == SectorOff(g.ss, o)
    ensures ClusterOff(g.clusterSize, SectorNo(g.ss, ClusterStart(g, n) + o)) == SectorNo(g.ss, o)
  {
    var k, c := ClusterSectors(g.clusterSize, n), SectorNo(g.ss, o);
    SplitIndex(g.ss, o);
    InSectors(g.ss, g.clusterSize, o);
    SectorsAdd(g.ss, k, c);
    JoinIndex(g.ss, k + c, SectorOff(g.ss, o));
    ClusterJoin(g.clusterSize, n, c);
  }

  lemma StartOfCluster(g: Geometry, i: nat)
    requires IsSectorSize(g.ss) && IsClusterSize(g.clusterSize)
    ensures ClusterStart(g, ClusterIndex(g, i)) <= i < ClusterStart(g, ClusterIndex(g, i)) + BytesPerCluster(g)
  {
    var k := SectorNo(g.ss, i);
    var n := ClusterNo(g.clusterSize, k);
    SplitIndex(g.ss, i);
    ClusterSplit(g.clusterSize, k);
    SectorsAdd(g.ss, ClusterSectors(g.clusterSize, n), ClusterOff(g.clusterSize, k));
    PartFits(g.ss, g.clusterSize, ClusterOff(g.clusterSize, k));
  }

  /** A position at the start of a cluster. */
  lemma BoundaryStart(g: Geometry, i: nat)
    requires IsSectorSize(g.ss) && IsClusterSize(g.clusterSize)
    requires SectorOff(g.ss, i) == 0 && ClusterOff(g.clusterSize, SectorNo(g.ss, i)) == 0
    ensures i == ClusterStart(g, ClusterIndex(g, i))
  {
    SplitIndex(g.ss, i);
    ClusterSplit(g.clusterSize, SectorNo(g.ss, i));
  }

  lemma NextStart(g: Geometry, n: nat)
    requires IsSectorSize(g.ss) && IsClusterSize(g.clusterSize)
    ensures ClusterStart(g, n + 1) == ClusterStart(g, n) + BytesPerCluster(g)
    ensures ClusterStart(g, 0) == 0 && 0 < BytesPerCluster(g) && SectorOff(g.ss, BytesPerCluster(g)) == 0
    ensures SectorOff(g.ss, ClusterStart(g, n)) == 0
  {
    ClusterSectorsNext(g.clusterSize, n);
    SectorsAdd(g.ss, ClusterSectors(g.clusterSize, n), g.clusterSize);
    SectorsAdd(g.ss, 0, g.clusterSize);
    SectorsAdd(g.ss, 0, ClusterSectors(g.clusterSize, n));
  }

  lemma StartMono(g: Geometry, m: nat, n: nat)
    requires IsSectorSize(g.ss) && IsClusterSize(g.clusterSize) && m <= n
    ensures ClusterStart(g, m) <= ClusterStart(g, n)
  {
    hide ClusterStart, BytesPerCluster;
    if m < n {
      StartMono(g, m, n - 1);
      NextStart(g, n - 1);
    }
  }

  /** Allocation reaches every byte before an allocated one. */
  lemma CoveredBelow(l: Layout, p: nat)
    requires IsSectorSize(l.g.ss) && IsClusterSize(l.g.clusterSize) && (p == 0 || l.HasByte(p - 1))
    ensures forall i: nat {:trigger l.HasByte(i)} :: i < p ==> l.HasByte(i)
  {
    hide SectorNo, ClusterNo;
    forall i: nat | i < p ensures l.HasByte(i) {
      IndexMono(l.g, i, p - 1);
    }
  }

  lemma IndexMono(g: Geometry, i: nat, j: nat)
    requires IsSectorSize(g.ss) && IsClusterSize(g.clusterSize) && i <= j
    ensures ClusterIndex(g, i) <= ClusterIndex(g, j)
  {
    SectorNoMono(g.ss, i, j);
    ClusterNoMono(g.clusterSize, SectorNo(g.ss, i), SectorNo(g.ss, j));
  }

  lemma SectorNoMono(ss: nat, i: nat, j: nat)
    requires IsSectorSize(ss) && i <= j
    ensures SectorNo(ss, i) <= SectorNo(ss, j)
  {}

  lemma ClusterNoMono(n: nat, i: nat, j: nat)
    requires IsClusterSize(n) && i <= j
    ensures ClusterNo(n, i) <= ClusterNo(n, j)
  {}

  /** A longer view of the same file starts with the same bytes. */
  lemma ContentPrefix(v: View, a: nat, b: nat)
    requires v.Shape() && a <= b && forall i: nat {:trigger v.l.HasByte(i)} :: i < b ==> v.l.HasByte(i)
    ensures Content(v, a) == Content(v, b)[..a]
  {}

  lemma SliceJoin(s: seq<byte>, a: nat, b: nat, c: nat)
    requires a <= b <= c <= |s|
    ensures s[a..c] == s[a..b] + s[b..c]
  {}
}
