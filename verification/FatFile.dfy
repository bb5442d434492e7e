/** An open file: f_read, f_write and f_lseek against a byte string. */
module FatFile {
  import opened Bytes
  import opened FatImage
  import opened FatVolume
  import opened FatChain
  import opened FatAlloc
  import opened FatFileView

  /** The file has changed nothing that is not its own: it has only appended free clusters to its chain. */
  ghost predicate Framed(l: Layout, img: Image, fat: FatTable, m: Layout, img': Image, fat': FatTable)
    requires l.Shape() && m.Shape()
  {
    && l.g == m.g && |fat| == |fat'| == l.g.nEntries && |img| == |img'| == l.g.total
    && l.chain <= m.chain
    && (forall i :: |l.chain| <= i < |m.chain| ==> fat[m.chain[i]] == 0)
    && (forall c :: 0 <= c < |fat| && c !in m.chain ==> fat'[c] == fat[c])
    && (forall s: nat {:trigger m.Mine(s)} :: l.g.dataBase <= s < l.g.total && !m.Mine(s) ==> img'[s] == img[s])
  }

  lemma FramedTrans(l: Layout, img: Image, fat: FatTable, m: Layout, img': Image, fat': FatTable,
                    n: Layout, img'': Image, fat'': FatTable)
    requires l.Shape() && m.Shape() && n.Shape() && Framed(l, img, fat, m, img', fat')
      && Framed(m, img', fat', n, img'', fat'')
    ensures Framed(l, img, fat, n, img'', fat'')
  {
    forall s: nat | m.Mine(s) ensures n.Mine(s) {
      var k: nat :| m.Has(k) && m.SectorAt(k) == s;
      assert n.Has(k) && n.SectorAt(k) == s;
    }
    forall c | 0 <= c < |fat| && c !in n.chain ensures fat''[c] == fat[c] {
      assert c !in m.chain;
    }
    forall i | |l.chain| <= i < |n.chain| ensures fat[n.chain[i]] == 0 {
      if i >= |m.chain| {
        assert n.chain[i] !in m.chain;
      }
    }
  }

  ghost predicate Sound(fat: FatTable, chain: seq<nat>) {
    chain == [] || IsChain(fat, chain)
  }

  ghost function LimitOf(l: Layout, fat: FatTable): nat
    requires IsSectorSize(l.g.ss) && IsClusterSize(l.g.clusterSize)
  {
    ClusterStart(l.g, |l.chain| + |Free(fat)|)
  }

  lemma LimitKept(l: Layout, img: Image, fat: FatTable, m: Layout, img': Image, fat': FatTable)
    requires l.Shape() && m.Shape() && Framed(l, img, fat, m, img', fat')
    requires Sound(fat, l.chain) && Sound(fat', m.chain)
    ensures LimitOf(l, fat) == LimitOf(m, fat')
  {
    hide ClusterStart, Free, IsChain;
    RoomKept(fat, l.chain, fat', m.chain);
  }

  class Fil {
    const fs: FatFs
    const canRead: bool
    const canWrite: bool
    var err: FResult       // FrOk until an operation is aborted
    var fptr: nat
    var fsize: nat
    var sclust: nat        // first cluster, 0 if there is none
    var clust: nat         // cluster of the byte before fptr
    var dsect: nat         // sector in buf, 0 if there is none
    var dirty: bool
    var written: bool
    var buf: Sector
    ghost var chain: seq<nat>
    ghost const counted: bool  // was the cached count of free clusters right when the file was opened?

    /** The end of f_open: the directory entry gives the first cluster and the size. */
    constructor (fs: FatFs, read: bool, write: bool, sclust: nat, fsize: nat, ghost chain: seq<nat>)
      requires fs.Valid() && NoOnes(fs.Fat()) && fsize < 0x1_0000_0000
      requires sclust == 0 <==> chain == []
      requires chain != [] ==> IsChain(fs.Fat(), chain) && chain[0] == sclust
      requires forall i: nat :: i < fsize ==> ClusterNo(fs.g.clusterSize, SectorNo(fs.g.ss, i)) < |chain|
      requires forall c :: c in chain ==> 2 <= c && !InCluster(fs.g, c, fs.winSect)
      ensures Valid() && this.fs == fs && this.chain == chain && this.fsize == fsize && this.sclust == sclust
      ensures fptr == 0 && err == FrOk && canRead == read && canWrite == write && counted == CountOk(fs)
    {
      hide *;
      this.fs, this.canRead, this.canWrite := fs, read, write;
      this.err, this.fptr, this.fsize, this.sclust, this.clust := FrOk, 0, fsize, sclust, 0;
      this.dsect, this.dirty, this.written := 0, false, false;
      this.buf := seq(fs.g.ss, _ => 0);
      this.chain, this.counted := chain, CountOk(fs);
      new;
      Opened();
    }

    lemma Opened()
      requires fs.Valid() && NoOnes(fs.Fat()) && (counted ==> CountOk(fs)) && fsize < 0x1_0000_0000
      requires fptr == dsect == 0 && !dirty && buf == seq(fs.g.ss, _ => 0)
      requires sclust == 0 <==> chain == []
      requires chain != [] ==> IsChain(fs.Fat(), chain) && chain[0] == sclust
      requires forall i: nat :: i < fsize ==> ClusterNo(fs.g.clusterSize, SectorNo(fs.g.ss, i)) < |chain|
      requires forall c :: c in chain ==> 2 <= c && !InCluster(fs.g, c, fs.winSect)
      ensures Valid()
    {
      hide SectorNo, SectorOff, ClusterNo, ClusterOff, Table, Overlay, Free;
      FirstCluster(fs.g);
      if chain != [] {
        ChainInjective(fs.Fat(), chain);
      }
      forall k: nat | L().Has(k) ensures L().SectorAt(k) != fs.winSect && L().SectorAt(k) != 0 {
        L().SectorInRange(k);
        assert chain[ClusterNo(fs.g.clusterSize, k)] in chain;
      }
    }

    ghost function L(): Layout
      reads this`chain
    {
      Layout(fs.g, chain)
    }

    ghost function V(): View
      reads this`chain, this`dirty, this`dsect, this`buf, fs`disk
    {
      View(L(), fs.disk, dirty, dsect, buf)
    }

    ghost predicate ChainOk()
      requires fs.Valid()
      reads this`sclust, this`chain, fs
    {
      && (sclust == 0 <==> chain == [])
      && (chain != [] ==> IsChain(fs.Fat(), chain) && chain[0] == sclust)
    }

    /** Clusters are allocated for the first `size` bytes. */
    ghost predicate Covers(size: nat)
      requires IsSectorSize(fs.g.ss) && IsClusterSize(fs.g.clusterSize)
      reads this`chain
    {
      forall i: nat {:trigger L().HasByte(i)} :: i < size ==> L().HasByte(i)
    }

    /** The FAT window does not hold a sector of the file. */
    ghost predicate Apart()
      requires L().Shape()
      reads this`chain, fs`winSect
    {
      forall k: nat {:trigger L().Has(k)} :: L().Has(k) ==> L().SectorAt(k) != fs.winSect
    }

    /** Everything but the position and the buffer, for a file whose first `size` bytes are in place. */
    ghost predicate Base(size: nat)
      reads this`sclust, this`chain, this`dirty, this`dsect, this`buf, fs
    {
      && fs.Valid() && (counted ==> CountOk(fs)) && NoOnes(fs.Fat()) && ChainOk()
      && V().Ok() && Covers(size) && Apart()
    }

    ghost predicate Core(size: nat)
      reads this`sclust, this`chain, this`dirty, this`dsect, this`buf, fs
    {
      Base(size) && Exact(V())
    }

    /** The buffer may be a sector that has no byte of the file yet. */
    ghost predicate Ready(size: nat)
      reads this`sclust, this`chain, this`dirty, this`dsect, this`buf, fs
    {
      Base(size) && BufferOk(V(), size)
    }

    /** clust and dsect belong to position p. */
    ghost predicate At(p: nat)
      requires L().Shape()
      reads this`chain, this`clust, this`dsect
    {
      && (p > 0 ==> L().HasByte(p - 1) && clust == chain[ClusterNo(fs.g.clusterSize, SectorNo(fs.g.ss, p - 1))])
      && (SectorOff(fs.g.ss, p) != 0 ==> L().HasByte(p) && dsect == L().SectorAt(SectorNo(fs.g.ss, p)))
    }

    ghost predicate Valid()
      reads this, fs
    {
      err == FrOk ==> Core(fsize) && At(fptr) && fptr <= fsize < 0x1_0000_0000
    }

    ghost function Bytes(size: nat): (s: seq<byte>)
      requires Base(size)
      reads this`sclust, this`chain, this`dirty, this`dsect, this`buf, fs
      ensures |s| == size
    {
      Content(V(), size)
    }

    /** Write the private buffer back if it is dirty. */
    method FlushBuffer(ghost size: nat) returns (ok: bool)
      requires Core(size)
      modifies this`dirty, this`err, fs`disk
      ensures !ok ==> err == FrDiskErr && fs.faulty
      ensures ok ==>
        err == old(err) && !dirty && Core(size) && Bytes(size) == old(Bytes(size)) && fs.Fat() == old(fs.Fat())
      ensures ok ==> Framed(old(L()), old(fs.Img()), old(fs.Fat()), L(), fs.Img(), fs.Fat())
    {
      hide Table, Entry, RawEntry, FatByte, SectorNo, SectorOff, SectorBytes, Free, Written, ClusterNo, ClusterOff,
        IsChain, NoOnes, Overlay, Content;
      ok := true;
      if dirty {
        ghost var k: nat :| L().Has(k) && L().SectorAt(k) == dsect;
        L().SectorInRange(k);
        WrittenOne(fs.g.ss, fs.disk, dsect, buf);
        Flushed(V(), size);
        ok := fs.DiskWriteRun(dsect, 1, buf);
        if !ok {
          err := FrDiskErr;
          return;
        }
        dirty := false;
        SameContent(old(V()), V(), size);
        assert L().Mine(dsect);
      }
    }

    /** Read sector k of the file into the private buffer. */
    method FillBuffer(sect: nat, ghost k: nat, ghost size: nat) returns (ok: bool)
      requires Core(size) && !dirty && L().Has(k) && sect == L().SectorAt(k)
      modifies this`buf, this`dsect, this`err
      ensures !ok ==> err == FrDiskErr && fs.faulty
      ensures ok ==> err == old(err) && dsect == sect && Core(size) && Bytes(size) == old(Bytes(size))
    {
      hide Table, Entry, RawEntry, FatByte, SectorNo, SectorOff, ClusterNo, ClusterOff;
      L().SectorInRange(k);
      ghost var v := V();
      Loaded(v, k, size);
      ok, buf := fs.DiskRead(sect);
      if !ok {
        err := FrDiskErr;
        return;
      }
      dsect := sect;
      SameContent(v, V(), size);
    }

    /** The FAT was read or extended: the file is as before. */
    lemma AfterFat(v: View, winSect: nat, win: Sector, size: nat)
      requires fs.Valid() && (counted ==> CountOk(fs)) && NoOnes(fs.Fat()) && ChainOk()
      requires v.Ok() && Exact(v) && V() == v.(disk := fs.disk) && Covers(size)
      requires SameButFats(fs.g, Overlay(v.disk, winSect, win), fs.Img())
      requires forall k: nat {:trigger L().Has(k)} :: L().Has(k) ==> L().SectorAt(k) != winSect
      requires fs.winSect == winSect || fs.g.InFat(fs.winSect) || fs.winSect == NO_SECTOR
      ensures Core(size) && Bytes(size) == Content(v, size)
    {
      hide SectorNo, SectorOff, ClusterNo, ClusterOff, Table, Free, Overlay;
      DataKept(fs.g, v.disk, winSect, win, fs.disk, fs.winSect, fs.win);
      forall k: nat | L().Has(k)
        ensures L().SectorAt(k) < fs.g.total && L().SectorAt(k) != fs.winSect
          && fs.disk[L().SectorAt(k)] == v.disk[L().SectorAt(k)]
      {
        L().SectorInRange(k);
      }
      Elsewhere(v, fs.disk, size);
      SameContent(v, V(), size);
    }

    /** The cluster of position p. */
    ghost predicate InPlace(p: nat)
      requires L().Shape()
      reads this`chain, this`clust
    {
      L().HasByte(p) && clust == chain[ClusterNo(fs.g.clusterSize, SectorNo(fs.g.ss, p))]
    }

    /** On a cluster boundary, follow the chain to the cluster of the next byte. */
    method ClusterForRead(ghost size: nat) returns (ok: bool)
      requires Core(size) && At(fptr) && fptr < size
      requires SectorOff(fs.g.ss, fptr) == 0 && ClusterOff(fs.g.clusterSize, SectorNo(fs.g.ss, fptr)) == 0
      modifies this`clust, this`err, fs
      ensures !ok ==> err == FrDiskErr && fs.faulty
      ensures ok ==>
        err == old(err) && Core(size) && Bytes(size) == old(Bytes(size)) && InPlace(fptr) && fs.Fat() == old(fs.Fat())
      ensures ok ==> Framed(old(L()), old(fs.Img()), old(fs.Fat()), L(), fs.Img(), fs.Fat())
    {
      hide SectorNo, SectorOff, ClusterNo, ClusterOff, Base, Exact, BufferOk, Bytes, Framed, V, FatFs.Valid,
        Geometry.Valid;
      ok := true;
      CoreFacts(size);
      ChainFacts(size);
      FramedRefl(size);
      CoveredByte(fptr, size);
      FirstCluster(fs.g);
      var clst;
      if fptr == 0 {
        clst := sclust;
      } else {
        NextCluster(fs.g, fptr);
        clst := Follow(clust, ClusterNo(fs.g.clusterSize, SectorNo(fs.g.ss, fptr)), size);
        if clst == DISK_ERROR {
          ok, err := false, FrDiskErr;
          return;
        }
      }
      clust := clst;
    }

    lemma CoveredByte(i: nat, size: nat)
      requires Core(size) && i < size
      ensures L().HasByte(i)
    {}

    /** Find the sector of the next byte to read, which is at the start of a sector. */
    method LocateForRead(ghost size: nat) returns (ok: bool, sect: nat)
      requires Core(size) && At(fptr) && fptr < size && SectorOff(fs.g.ss, fptr) == 0
      modifies this`clust, this`err, fs
      ensures !ok ==> err == FrDiskErr && fs.faulty
      ensures ok ==>
        err == old(err) && Core(size) && Bytes(size) == old(Bytes(size)) && InPlace(fptr) && fs.Fat() == old(fs.Fat())
      ensures ok ==> Framed(old(L()), old(fs.Img()), old(fs.Fat()), L(), fs.Img(), fs.Fat())
      ensures ok ==> sect == L().SectorAt(SectorNo(fs.g.ss, fptr))
    {
      hide SectorNo, SectorOff, ClusterNo, ClusterOff, Base, Exact, BufferOk, Bytes, Framed, V, FatFs.Valid,
        Geometry.Valid;
      ok, sect := true, 0;
      CoreFacts(size);
      FramedRefl(size);
      var csect := ClusterOff(fs.g.clusterSize, SectorNo(fs.g.ss, fptr));
      if csect == 0 {
        ok := ClusterForRead(size);
        if !ok {
          return;
        }
        CoreFacts(size);
      } else {
        SameClusterBefore(fs.g, fptr);
      }
      sect := Clust2Sect(fs.g, clust);
      L().SectorInRange(SectorNo(fs.g.ss, fptr));
      sect := sect + csect; // clust2sect fails only for a cluster number out of range
    }

    /** Step over the bytes of one sector or run of sectors. */
    lemma Advanced(p: nat, n: nat, k: nat, cc: nat, size: nat)
      requires Base(size) && InPlace(p) && 0 < n && k == SectorNo(fs.g.ss, p) && 0 < cc
      requires SectorOff(fs.g.ss, p) + n <= SectorBytes(fs.g.ss, cc)
      requires ClusterOff(fs.g.clusterSize, k) + cc <= fs.g.clusterSize
      requires SectorOff(fs.g.ss, p + n) != 0 ==> cc == 1 && dsect == L().SectorAt(k)
      ensures At(p + n)
    {
      AdvanceIndex(fs.g.ss, p, n, cc);
      SameCluster(fs.g.clusterSize, k, SectorNo(fs.g.ss, p + n - 1) - k);
    }

    /** Have sector k of the file in the private buffer. */
    method BufferForRead(sect: nat, ghost k: nat, ghost size: nat) returns (ok: bool)
      requires Core(size) && L().Has(k) && sect == L().SectorAt(k)
      modifies this`err, this`dirty, this`buf, this`dsect, fs`disk
      ensures !ok ==> err == FrDiskErr && fs.faulty
      ensures ok ==>
        err == old(err) && dsect == sect && Core(size) && Bytes(size) == old(Bytes(size)) && fs.Fat() == old(fs.Fat())
      ensures ok ==> Framed(old(L()), old(fs.Img()), old(fs.Fat()), L(), fs.Img(), fs.Fat())
    {
      hide Core, Base, Exact, Bytes, Framed, V, Table, Overlay, Free, fs.Valid, Geometry.Valid, Layout.Shape, BufferOk;
      CoreRefl(size);
      CoreValid(size);
      ok := true;
      if dsect != sect {
        ok := FlushBuffer(size);
        if !ok {
          return;
        }
        ok := FillBuffer(sect, k, size);
        if !ok {
          return;
        }
      }
      dsect := sect;
    }

    /** The private buffer holds the file's bytes of its sector. */
    lemma BufferBytes(p: nat, n: nat, size: nat)
      requires Core(size) && L().HasByte(p) && dsect == L().SectorAt(SectorNo(fs.g.ss, p))
      requires SectorOff(fs.g.ss, p) + n <= fs.g.ss && p + n <= size
      ensures buf[SectorOff(fs.g.ss, p)..SectorOff(fs.g.ss, p) + n] == Bytes(size)[p..p + n]
    {
      hide SectorNo, SectorOff, ClusterNo, ClusterOff, Table, Free, IsChain;
      ExactIsOk(V(), size);
      var o := SectorOff(fs.g.ss, p);
      var a, b := buf[o..o + n], Bytes(size)[p..p + n];
      forall j | 0 <= j < n ensures a[j] == b[j] {
        BufferByte(V(), size, p, j);
      }
    }

    /** At the start of a sector: read whole sectors directly if that many are wanted, else go through the buffer. */
    method ReadAligned(sect: nat, btr: nat) returns (ok: bool, part: seq<byte>)
      requires Core(fsize) && InPlace(fptr) && SectorOff(fs.g.ss, fptr) == 0 && 0 < btr <= fsize - fptr
      requires sect == L().SectorAt(SectorNo(fs.g.ss, fptr))
      modifies this`err, this`dirty, this`buf, this`dsect, this`fptr, fs`disk
      ensures !ok ==> err == FrDiskErr && fs.faulty
      ensures ok ==>
        err == old(err) && Core(fsize) && fs.Valid() && Bytes(fsize) == old(Bytes(fsize)) && fs.Fat() == old(fs.Fat())
      ensures ok ==> Framed(old(L()), old(fs.Img()), old(fs.Fat()), L(), fs.Img(), fs.Fat())
      ensures ok ==> 0 < |part| <= btr && fptr == old(fptr) + |part| && At(fptr)
      ensures ok ==> part == Bytes(fsize)[old(fptr)..fptr]
    {
      hide SectorNo, SectorOff, SectorBytes, ClusterNo, ClusterOff, Base, Exact, BufferOk, Framed, Bytes, V, Table,
        Overlay, At;
      CoreFacts(fsize);
      FramedRefl(fsize);
      part := [];
      var k := SectorNo(fs.g.ss, fptr);
      SplitIndex(fs.g.ss, fptr);
      StepSize(fs.g, k, btr);
      var csect := ClusterOff(fs.g.clusterSize, k);
      var cc := SectorNo(fs.g.ss, btr);
      if cc > 0 {
        if csect + cc > fs.g.clusterSize {
          cc := fs.g.clusterSize - csect;
        }
        ok, part := DirectIn(sect, cc, k, fsize);
        if ok {
          Advanced(fptr, |part|, k, cc, fsize);
          fptr := fptr + SectorBytes(fs.g.ss, cc);
        }
        return;
      }
      ok := BufferForRead(sect, k, fsize);
      if ok {
        CoreFacts(fsize);
        part := ReadBuffered(btr);
      }
    }

    /** One round of the read loop. */
    method ReadStep(btr: nat) returns (ok: bool, part: seq<byte>)
      requires Core(fsize) && At(fptr) && 0 < btr <= fsize - fptr
      modifies this`clust, this`err, this`dirty, this`buf, this`dsect, this`fptr, fs
      ensures !ok ==> err == FrDiskErr && fs.faulty
      ensures ok ==> err == old(err) && Core(fsize) && Bytes(fsize) == old(Bytes(fsize)) && fs.Fat() == old(fs.Fat())
      ensures ok ==> Framed(old(L()), old(fs.Img()), old(fs.Fat()), L(), fs.Img(), fs.Fat())
      ensures ok ==> 0 < |part| <= btr && fptr == old(fptr) + |part| && At(fptr)
      ensures ok ==> part == Bytes(fsize)[old(fptr)..fptr]
    {
      hide SectorNo, SectorOff, SectorBytes, ClusterNo, ClusterOff, Base, Exact, BufferOk, Framed, Bytes, V, Table,
        Overlay;
      CoreFacts(fsize);
      FramedRefl(fsize);
      ok, part := true, [];
      if SectorOff(fs.g.ss, fptr) == 0 {
        var sect;
        ok, sect := LocateForRead(fsize);
        if !ok {
          return;
        }
        CoreFacts(fsize);
        ghost var l, img, fat := L(), fs.Img(), fs.Fat();
        ok, part := ReadAligned(sect, btr);
        if ok {
          FramedTrans(old(L()), old(fs.Img()), old(fs.Fat()), l, img, fat, L(), fs.Img(), fs.Fat());
        }
      } else {
        SectorBefore(fs.g.ss, fptr);
        part := ReadBuffered(btr);
      }
    }

    /** Take the wanted bytes of the buffered sector. */
    method ReadBuffered(btr: nat) returns (part: seq<byte>)
      requires Core(fsize) && InPlace(fptr) && 0 < btr <= fsize - fptr && dsect == L().SectorAt(SectorNo(fs.g.ss, fptr))
      modifies this`fptr
      ensures 0 < |part| <= btr && fptr == old(fptr) + |part| && At(fptr)
      ensures part == Bytes(fsize)[old(fptr)..fptr]
    {
      hide SectorNo, SectorOff, SectorBytes, ClusterNo, ClusterOff, Base, Exact, BufferOk, Bytes, V;
      CoreFacts(fsize);
      var off := SectorOff(fs.g.ss, fptr);
      StepSize(fs.g, SectorNo(fs.g.ss, fptr), btr);
      var rcnt := fs.g.ss - off;
      if rcnt > btr {
        rcnt := btr;
      }
      BufferBytes(fptr, rcnt, fsize);
      Advanced(fptr, rcnt, SectorNo(fs.g.ss, fptr), 1, fsize);
      part := buf[off..off + rcnt];
      fptr := fptr + rcnt;
    }

    lemma FramedRefl(size: nat)
      requires Base(size)
      ensures Framed(L(), fs.Img(), fs.Fat(), L(), fs.Img(), fs.Fat())
    {}

    lemma CoreIsReady(size: nat)
      requires Core(size)
      ensures Ready(size)
    {
      ExactIsOk(V(), size);
    }

    /** The end of the file if it took every free cluster of the volume. */
    ghost function Limit(): nat
      requires fs.Valid()
      reads this`chain, fs
    {
      LimitOf(L(), fs.Fat())
    }

    lemma AtWithin(p: nat)
      requires fs.Valid() && L().Shape() && At(p)
      ensures p <= ClusterStart(fs.g, |chain|) <= Limit()
      ensures Free(fs.Fat()) == {} ==> ClusterStart(fs.g, |chain|) == Limit()
    {
      hide SectorNo, SectorOff, ClusterNo, ClusterOff, ClusterStart, ClusterIndex, BytesPerCluster, Free, FatFs.Fat;
      NextStart(fs.g, 0);
      if p > 0 {
        HasIndex(p - 1);
        var n := ClusterIndex(fs.g, p - 1);
        StartOfCluster(fs.g, p - 1);
        NextStart(fs.g, n);
        StartMono(fs.g, n + 1, |chain|);
      }
      StartMono(fs.g, |chain|, |chain| + |Free(fs.Fat())|);
    }

    lemma HasIndex(i: nat)
      requires L().Shape() && L().HasByte(i)
      ensures ClusterIndex(fs.g, i) < |chain|
    {}

    lemma ChainIsSound(size: nat)
      requires Core(size)
      ensures fs.Valid() && L().Shape() && Sound(fs.Fat(), chain)
    {}

    lemma CoreFacts(size: nat)
      requires Base(size)
      ensures fs.Valid()
      ensures fs.g.Valid() && IsSectorSize(fs.g.ss) && IsClusterSize(fs.g.clusterSize) && L().Shape() && 0 < fs.g.ss
      ensures |buf| == fs.g.ss
    {}

    lemma CoreValid(size: nat)
      requires Core(size)
      ensures fs.Valid() && Base(size)
      ensures fs.g.Valid() && IsSectorSize(fs.g.ss) && IsClusterSize(fs.g.clusterSize) && L().Shape()
    {}

    lemma OpenFacts()
      requires Valid() && err == FrOk
      ensures Core(fsize) && Base(fsize) && fs.Valid() && L().Shape() && fs.g.Valid() && fptr <= fsize
    {}

    lemma CoreRefl(size: nat)
      requires Core(size)
      ensures fs.Valid() && L().Shape() && Framed(L(), fs.Img(), fs.Fat(), L(), fs.Img(), fs.Fat())
    {}

    lemma RunBytes(sect: nat, cc: nat, k: nat, size: nat)
      requires Core(size) && L().Has(k) && sect == L().SectorAt(k)
        && ClusterOff(fs.g.clusterSize, k) + cc <= fs.g.clusterSize
      requires SectorBytes(fs.g.ss, k) + SectorBytes(fs.g.ss, cc) <= size
      ensures sect + cc <= fs.g.total
      ensures RunData(V(), sect, cc)
           == Bytes(size)[SectorBytes(fs.g.ss, k)..SectorBytes(fs.g.ss, k) + SectorBytes(fs.g.ss, cc)]
    {
      hide SectorNo, SectorOff, SectorBytes, ClusterNo, ClusterOff, RunData, Table, Free, IsChain;
      var p, n := SectorBytes(fs.g.ss, k), SectorBytes(fs.g.ss, cc);
      RunInRange(V(), k, cc);
      forall j: nat | j < n ensures RunData(V(), sect, cc)[j] == Bytes(size)[p..p + n][j] {
        RunDataIs(V(), k, cc, j);
      }
    }

    /** Read whole sectors straight from the drive, the private buffer laid over them if it is newer. */
    method DirectIn(sect: nat, cc: nat, ghost k: nat, ghost size: nat) returns (ok: bool, part: seq<byte>)
      requires Core(size) && L().Has(k) && sect == L().SectorAt(k)
        && ClusterOff(fs.g.clusterSize, k) + cc <= fs.g.clusterSize
      requires SectorBytes(fs.g.ss, k) + SectorBytes(fs.g.ss, cc) <= size
      modifies this`err
      ensures !ok ==> err == FrDiskErr && fs.faulty
      ensures ok ==> err == old(err)
      ensures ok ==> part == Bytes(size)[SectorBytes(fs.g.ss, k)..SectorBytes(fs.g.ss, k) + SectorBytes(fs.g.ss, cc)]
    {
      hide Table, Entry, RawEntry, FatByte, SectorNo, SectorOff, SectorBytes, ClusterNo, ClusterOff, Free, Overlay,
        ReadRun, LayOver, Bytes, Content;
      RunBytes(sect, cc, k, size);
      ok, part := fs.DiskReadRun(sect, cc);
      if !ok {
        err := FrDiskErr;
        return;
      }
      if dirty && sect <= dsect < sect + cc {
        PartFits(fs.g.ss, cc, dsect - sect);
        part := LayOver(fs.g.ss, part, dsect - sect, buf);
      }
    }

    /** Read up to btr bytes: what is handed out is the file's content at the position, and nothing else changes. */
    method FRead(btr: nat) returns (res: FResult, br: nat, rbuff: seq<byte>)
      requires Valid()
      modifies this`clust, this`err, this`dirty, this`buf, this`dsect, this`fptr, fs
      ensures Valid() && br == |rbuff|
      ensures old(err) != FrOk ==> res == old(err) && br == 0
      ensures old(err) == FrOk && !canRead ==> res == FrDenied && br == 0
      ensures old(err) != FrOk || !canRead ==> unchanged(this) && unchanged(fs)
      ensures old(err) == FrOk && canRead ==> (res == FrOk || (res == FrDiskErr == err && fs.faulty))
      ensures old(err) == FrOk && canRead && res == FrOk ==>
        && err == FrOk && fptr == old(fptr) + br && br == Min(btr, fsize - old(fptr))
        && Bytes(fsize) == old(Bytes(fsize)) && rbuff == old(Bytes(fsize))[old(fptr)..fptr]
        && fs.Fat() == old(fs.Fat())
        && Framed(old(L()), old(fs.Img()), old(fs.Fat()), L(), fs.Img(), fs.Fat())
    {
      hide SectorNo, SectorOff, SectorBytes, ClusterNo, ClusterOff, Base, Exact, BufferOk, Framed, Bytes, V, Table,
        Overlay, At, Free, FatFs.Valid, Geometry.Valid;
      br, rbuff := 0, [];
      if err != FrOk {
        return err, br, rbuff;
      }
      if !canRead {
        return FrDenied, br, rbuff;
      }
      CoreFacts(fsize);
      FramedRefl(fsize);
      var btr := Min(btr, fsize - fptr);
      ghost var last := fptr + btr;
      while btr > 0
        invariant err == FrOk && Core(fsize) && fs.Valid() && L().Shape() && At(fptr)
        invariant 0 <= btr && fptr == old(fptr) + br && br == |rbuff| && fptr + btr == last <= fsize
        invariant Bytes(fsize) == old(Bytes(fsize)) && rbuff == old(Bytes(fsize))[old(fptr)..fptr]
        invariant fs.Fat() == old(fs.Fat())
        invariant Framed(old(L()), old(fs.Img()), old(fs.Fat()), L(), fs.Img(), fs.Fat())
      {
        CoreFacts(fsize);
        ghost var l, img, fat := L(), fs.Img(), fs.Fat();
        var ok, part := ReadStep(btr);
        if !ok {
          return err, br, rbuff;
        }
        CoreFacts(fsize);
        FramedTrans(old(L()), old(fs.Img()), old(fs.Fat()), l, img, fat, L(), fs.Img(), fs.Fat());
        SliceJoin(old(Bytes(fsize)), old(fptr), fptr - |part|, fptr);
        rbuff, br, btr := rbuff + part, br + |part|, btr - |part|;
      }
      res := FrOk;
    }

    /** The chain was lengthened by cluster c: the file is as before. */
    lemma AfterExtend(v: View, winSect: nat, win: Sector, c: nat, size: nat)
      requires fs.Valid() && (counted ==> CountOk(fs)) && NoOnes(fs.Fat()) && ChainOk() && fs.g.InFat(fs.winSect)
      requires v.Ok() && Exact(v) && 2 <= c < fs.g.nEntries && c !in v.l.chain
      requires V() == v.(disk := fs.disk, l := v.l.(chain := v.l.chain + [c]))
      requires forall i: nat {:trigger v.l.HasByte(i)} :: i < size ==> v.l.HasByte(i)
      requires SameButFats(fs.g, Overlay(v.disk, winSect, win), fs.Img())
      requires forall k: nat {:trigger v.l.Has(k)} :: v.l.Has(k) ==> v.l.SectorAt(k) != winSect
      ensures Core(size) && Bytes(size) == Content(v, size)
    {
      hide SectorNo, SectorOff, ClusterNo, ClusterOff, Table, Free, Overlay, IsChain, NoOnes, SameButFats;
      DataKept(fs.g, v.disk, winSect, win, fs.disk, fs.winSect, fs.win);
      forall k: nat | v.l.Has(k)
        ensures v.l.SectorAt(k) < fs.g.total && fs.disk[v.l.SectorAt(k)] == v.disk[v.l.SectorAt(k)]
      {
        v.l.SectorInRange(k);
      }
      Elsewhere(v, fs.disk, size);
      Longer(v.(disk := fs.disk), c, size);
      SameContent(v, v.(disk := fs.disk), size);
      SameContent(v.(disk := fs.disk), V(), size);
      forall k: nat | L().Has(k) ensures L().SectorAt(k) != fs.winSect {
        L().SectorInRange(k);
      }
    }

    /** create_chain behind the cluster number j of the file, or from nothing: the next cluster, 0 when the disk is
        full. A file without a chain gets its first cluster. */
    method Stretch(from: nat, ghost j: nat, ghost size: nat) returns (clst: nat)
      requires Core(size) && j <= |chain| && (if j == 0 then from == 0 && chain == [] else from == chain[j - 1])
      modifies this`sclust, this`chain, fs
      ensures clst == DISK_ERROR ==> fs.faulty
      ensures clst != DISK_ERROR ==> Core(size) && Bytes(size) == old(Bytes(size))
      ensures clst != DISK_ERROR ==> Framed(old(L()), old(fs.Img()), old(fs.Fat()), L(), fs.Img(), fs.Fat())
      ensures clst == 0 ==> chain == old(chain) && j == |chain| && Free(fs.Fat()) == {}
      ensures clst != DISK_ERROR && clst != 0 ==> 2 <= clst && j < |chain| && chain[j] == clst
      ensures old(chain) <= chain
    {
      hide Table, Entry, RawEntry, FatByte, SectorNo, SectorOff, ClusterNo, ClusterOff, Free, Overlay;
      ghost var v, s, w, fat, img := V(), fs.winSect, fs.win, fs.Fat(), fs.Img();
      if j > 0 {
        LastLink(fat, chain, j - 1);
      }
      clst := CreateChain(fs, from);
      if clst == DISK_ERROR {
        return;
      }
      assert clst != INTERNAL_ERROR; // the chain is sound
      if clst != 0 && j == |chain| {
        NewLink(fat, chain, clst, fs.g.Mask());
        chain := chain + [clst];
      }
      if sclust == 0 {
        sclust := clst;
      }
      if chain == v.l.chain {
        AfterFat(v, s, w, size);
        KeptFrame(L(), img, fat, fs.Img());
      } else {
        AfterExtend(v, s, w, clst, size);
        StretchedFrame(v.l, img, fat, clst, fs.g.Mask(), fs.Img());
      }
    }

    /** On a cluster boundary, follow the chain to the cluster of the next byte, or make the chain longer. */
    method ClusterForWrite(ghost size: nat) returns (st: Outcome)
      requires Core(size) && At(fptr) && fptr <= size
      requires SectorOff(fs.g.ss, fptr) == 0 && ClusterOff(fs.g.clusterSize, SectorNo(fs.g.ss, fptr)) == 0
      modifies this`clust, this`sclust, this`chain, this`err, fs
      ensures st == Failed ==> err == FrDiskErr && fs.faulty
      ensures st != Failed ==> err == old(err) && Core(size) && Bytes(size) == old(Bytes(size))
      ensures st != Failed ==> Framed(old(L()), old(fs.Img()), old(fs.Fat()), L(), fs.Img(), fs.Fat())
      ensures st == Located ==> InPlace(fptr)
      ensures st == Full ==>
        At(fptr) && chain == old(chain) && Free(fs.Fat()) == {} && fptr == ClusterStart(fs.g, |chain|)
    {
      hide SectorNo, SectorOff, ClusterNo, ClusterOff, Base, Exact, BufferOk, Bytes, Framed, V, ClusterStart, Free,
        FatFs.Valid, Geometry.Valid;
      CoreFacts(size);
      ChainFacts(size);
      FramedRefl(size);
      FirstCluster(fs.g);
      BoundaryStart(fs.g, fptr);
      ghost var j := ClusterNo(fs.g.clusterSize, SectorNo(fs.g.ss, fptr));
      var clst;
      if fptr == 0 {
        clst := sclust;
        if clst == 0 {
          clst := Stretch(0, j, size);
        }
      } else {
        NextCluster(fs.g, fptr);
        clst := Stretch(clust, j, size);
      }
      if clst == 0 {
        return Full;
      }
      if clst == DISK_ERROR {
        err := FrDiskErr;
        return Failed;
      }
      clust := clst;
      st := Located;
    }

    /** With the cluster of the next byte in place, write the buffer back and find the sector. */
    method SectorHere(ghost size: nat) returns (ok: bool, sect: nat)
      requires Core(size) && InPlace(fptr)
      modifies this`err, this`dirty, fs`disk
      ensures !ok ==> err == FrDiskErr && fs.faulty
      ensures ok ==> err == old(err) && Core(size) && Bytes(size) == old(Bytes(size)) && !dirty && InPlace(fptr)
      ensures ok ==> Framed(old(L()), old(fs.Img()), old(fs.Fat()), L(), fs.Img(), fs.Fat())
      ensures ok ==> sect == L().SectorAt(SectorNo(fs.g.ss, fptr))
    {
      hide SectorNo, SectorOff, ClusterNo, ClusterOff, Base, Exact, BufferOk, Bytes, Framed, V, FatFs.Valid,
        Geometry.Valid;
      sect := 0;
      CoreFacts(size);
      ok := FlushBuffer(size);
      if ok {
        CoreFacts(size);
        sect := Clust2Sect(fs.g, clust);
        L().SectorInRange(SectorNo(fs.g.ss, fptr));
        // clust2sect fails only for a cluster number out of range
        sect := sect + ClusterOff(fs.g.clusterSize, SectorNo(fs.g.ss, fptr));
      }
    }

    /** Find the sector of the next byte to write, which is at the start of a sector; the private buffer is clean
        afterwards. */
    method LocateForWrite(ghost size: nat) returns (st: Outcome, sect: nat)
      requires Core(size) && At(fptr) && fptr <= size && SectorOff(fs.g.ss, fptr) == 0
      modifies this`clust, this`sclust, this`chain, this`err, this`dirty, fs
      ensures st == Failed ==> err == FrDiskErr && fs.faulty
      ensures st != Failed ==> err == old(err) && Core(size) && Bytes(size) == old(Bytes(size))
      ensures st != Failed ==> Framed(old(L()), old(fs.Img()), old(fs.Fat()), L(), fs.Img(), fs.Fat())
      ensures st == Located ==> !dirty && InPlace(fptr) && sect == L().SectorAt(SectorNo(fs.g.ss, fptr))
      ensures st == Full ==>
        At(fptr) && chain == old(chain) && Free(fs.Fat()) == {} && fptr == ClusterStart(fs.g, |chain|)
    {
      hide SectorNo, SectorOff, ClusterNo, ClusterOff, Base, Exact, BufferOk, Bytes, Framed, V, Table, Overlay, Free,
        IsChain, FatFs.Valid, Geometry.Valid, ClusterStart;
      CoreFacts(size);
      FramedRefl(size);
      st, sect := Located, 0;
      if ClusterOff(fs.g.clusterSize, SectorNo(fs.g.ss, fptr)) == 0 {
        st := ClusterForWrite(size);
        if st != Located {
          return;
        }
        CoreFacts(size);
      } else {
        SameClusterBefore(fs.g, fptr);
      }
      ghost var l, img, fat := L(), fs.Img(), fs.Fat();
      var ok;
      ok, sect := SectorHere(size);
      if !ok {
        return Failed, 0;
      }
      CoreFacts(size);
      FramedTrans(old(L()), old(fs.Img()), old(fs.Fat()), l, img, fat, L(), fs.Img(), fs.Fat());
    }

    /** Write whole sectors straight to the drive; the clean private buffer is refilled if it holds one of them. */
    method DirectOut(sect: nat, cc: nat, data: seq<byte>, ghost k: nat, ghost size: nat) returns (ok: bool)
      requires Core(size) && !dirty && L().Has(k) && sect == L().SectorAt(k) && 0 < cc
      requires ClusterOff(fs.g.clusterSize, k) + cc <= fs.g.clusterSize && |data| == SectorBytes(fs.g.ss, cc)
      requires SectorBytes(fs.g.ss, k) <= size
      modifies this`err, this`buf, fs`disk
      ensures !ok ==> err == FrDiskErr && fs.faulty
      ensures ok ==> err == old(err) && Core(Max(size, SectorBytes(fs.g.ss, k) + |data|)) && fs.Fat() == old(fs.Fat())
      ensures ok ==>
        Bytes(Max(size, SectorBytes(fs.g.ss, k) + |data|)) == Overwrite(old(Bytes(size)), SectorBytes(fs.g.ss, k), data)
      ensures ok ==> Framed(old(L()), old(fs.Img()), old(fs.Fat()), L(), fs.Img(), fs.Fat())
    {
      hide SectorNo, SectorOff, SectorBytes, ClusterNo, ClusterOff, Table, Free, IsChain, Overlay, Part, Written;
      ghost var v, img := V(), fs.Img();
      RunInRange(v, k, cc);
      RunIsMine(L(), k, cc);
      assert !L().Mine(fs.winSect);
      DirectWrite(v, k, cc, data, size);
      ok := fs.DiskWriteRun(sect, cc, data);
      if !ok {
        err := FrDiskErr;
        return;
      }
      if sect <= dsect < sect + cc {
        PartFits(fs.g.ss, cc, dsect - sect);
        buf := Part(fs.g.ss, data, dsect - sect);
      }
      assert V() == AfterWrite(v, k, cc, data);
      WroteContent(v, V(), size, SectorBytes(fs.g.ss, k), data);
    }

    /** Have sector k of the file in the private buffer; beyond the end of the file there is nothing to read. */
    method BufferForWrite(sect: nat, ghost k: nat, ghost size: nat) returns (ok: bool)
      requires Core(size) && !dirty && L().Has(k) && sect == L().SectorAt(k) && size == Max(fsize, fptr)
      requires fptr == SectorBytes(fs.g.ss, k)
      modifies this`err, this`buf, this`dsect
      ensures !ok ==> err == FrDiskErr && fs.faulty
      ensures ok ==> err == old(err) && dsect == sect && Ready(size) && Bytes(size) == old(Bytes(size))
    {
      hide SectorNo, SectorOff, SectorBytes, ClusterNo, ClusterOff, Table, Free, IsChain, Overlay;
      ExactIsOk(V(), size);
      ok := true;
      if dsect != sect {
        if fptr < fsize {
          ok := FillBuffer(sect, k, size);
          if !ok {
            return;
          }
          ExactIsOk(V(), size);
        } else {
          ghost var v := V();
          Unfilled(v, k, size);
          SameContent(v, v.(dsect := sect), size);
        }
      }
      dsect := sect;
    }

    /** Put bytes into the buffered sector, which is number k of the file. */
    method StoreBuffered(off: nat, bytes: seq<byte>, ghost p: nat, ghost k: nat, ghost size: nat)
      requires Ready(size) && L().Has(k) && dsect == L().SectorAt(k) && off + |bytes| <= fs.g.ss
      requires p == SectorBytes(fs.g.ss, k) + off <= size
      modifies this`buf, this`dirty
      ensures Core(Max(size, p + |bytes|))
      ensures Bytes(Max(size, p + |bytes|)) == Overwrite(old(Bytes(size)), p, bytes)
    {
      hide SectorNo, SectorOff, SectorBytes, ClusterNo, ClusterOff, Table, Free, IsChain, Overlay, Store, NoOnes,
        Content, Overwrite;
      hide fs.Valid;
      ghost var v := V();
      Patched(v, k, off, bytes, size);
      buf := Store(buf, off, bytes);
      dirty := true;
      WroteContent(v, V(), size, p, bytes);
    }

    /** Put bytes at the position into the buffered sector and step over them. */
    method WriteBuffered(wbuff: seq<byte>, ghost size: nat) returns (wcnt: nat)
      requires Ready(size) && InPlace(fptr) && 0 < |wbuff| && fptr <= size
        && dsect == L().SectorAt(SectorNo(fs.g.ss, fptr))
      modifies this`fptr, this`buf, this`dirty
      ensures 0 < wcnt <= |wbuff| && fptr == old(fptr) + wcnt && At(fptr)
      ensures Core(Max(size, fptr)) && Bytes(Max(size, fptr)) == Overwrite(old(Bytes(size)), old(fptr), wbuff[..wcnt])
    {
      hide SectorNo, SectorOff, SectorBytes, ClusterNo, ClusterOff, Base, Exact, BufferOk, Bytes, Overwrite, At,
        Geometry.Valid, FatFs.Valid, V;
      CoreFacts(size);
      var k, off := SectorNo(fs.g.ss, fptr), SectorOff(fs.g.ss, fptr);
      SplitIndex(fs.g.ss, fptr);
      StepSize(fs.g, k, |wbuff|);
      wcnt := fs.g.ss - off;
      if wcnt > |wbuff| {
        wcnt := |wbuff|;
      }
      Advanced(fptr, wcnt, k, 1, size);
      StoreBuffered(off, wbuff[..wcnt], fptr, k, size);
      fptr := fptr + wcnt;
    }

    /** Write a run of whole sectors at the position and step over it. */
    method WriteDirect(sect: nat, cc: nat, data: seq<byte>, ghost size: nat) returns (ok: bool)
      requires Core(size) && InPlace(fptr) && !dirty && SectorOff(fs.g.ss, fptr) == 0 && fptr <= size && 0 < cc
      requires sect == L().SectorAt(SectorNo(fs.g.ss, fptr)) && |data| == SectorBytes(fs.g.ss, cc)
      requires ClusterOff(fs.g.clusterSize, SectorNo(fs.g.ss, fptr)) + cc <= fs.g.clusterSize
      modifies this`err, this`buf, this`fptr, fs`disk
      ensures !ok ==> err == FrDiskErr && fs.faulty
      ensures ok ==> err == old(err) && fptr == old(fptr) + |data| && Core(Max(size, fptr)) && fs.Valid() && At(fptr)
      ensures ok ==> Bytes(Max(size, fptr)) == Overwrite(old(Bytes(size)), old(fptr), data)
      ensures ok ==> Framed(old(L()), old(fs.Img()), old(fs.Fat()), L(), fs.Img(), fs.Fat())
    {
      hide SectorNo, SectorOff, SectorBytes, ClusterNo, ClusterOff, Base, Exact, BufferOk, Framed, Bytes, V, Table,
        Overlay;
      CoreFacts(size);
      var k := SectorNo(fs.g.ss, fptr);
      SplitIndex(fs.g.ss, fptr);
      StepSize(fs.g, k, |data|);
      ok := DirectOut(sect, cc, data, k, size);
      if !ok {
        return;
      }
      CoreFacts(Max(size, fptr + |data|));
      Advanced(fptr, |data|, k, cc, Max(size, fptr + |data|));
      fptr := fptr + |data|;
    }

    /** At the start of a sector: write whole sectors directly if there are any, else go through the buffer. */
    method WriteAligned(sect: nat, wbuff: seq<byte>, ghost size: nat) returns (ok: bool, wcnt: nat)
      requires Core(size) && InPlace(fptr) && !dirty && SectorOff(fs.g.ss, fptr) == 0 && 0 < |wbuff|
        && size == Max(fsize, fptr)
      requires sect == L().SectorAt(SectorNo(fs.g.ss, fptr))
      modifies this`err, this`dirty, this`buf, this`dsect, this`fptr, fs`disk
      ensures !ok ==> err == FrDiskErr && fs.faulty
      ensures ok ==> err == old(err) && 0 < wcnt <= |wbuff| && fptr == old(fptr) + wcnt
      ensures ok ==> Core(Max(size, fptr)) && fs.Valid() && At(fptr)
      ensures ok ==> Bytes(Max(size, fptr)) == Overwrite(old(Bytes(size)), old(fptr), wbuff[..wcnt])
      ensures ok ==> Framed(old(L()), old(fs.Img()), old(fs.Fat()), L(), fs.Img(), fs.Fat())
    {
      hide SectorNo, SectorOff, SectorBytes, ClusterNo, ClusterOff, Base, Exact, BufferOk, Framed, Bytes, V, Table,
        Overlay, At, Overwrite;
      CoreFacts(size);
      FramedRefl(size);
      var k := SectorNo(fs.g.ss, fptr);
      SplitIndex(fs.g.ss, fptr);
      StepSize(fs.g, k, |wbuff|);
      var csect := ClusterOff(fs.g.clusterSize, k);
      var cc := SectorNo(fs.g.ss, |wbuff|);
      if cc > 0 {
        if csect + cc > fs.g.clusterSize {
          cc := fs.g.clusterSize - csect;
        }
        wcnt := SectorBytes(fs.g.ss, cc);
        ok := WriteDirect(sect, cc, wbuff[..wcnt], size);
        return;
      }
      wcnt := 0;
      ok := BufferForWrite(sect, k, size);
      if ok {
        CoreFacts(size);
        wcnt := WriteBuffered(wbuff, size);
        CoreFacts(Max(size, fptr));
      }
    }

    /** A round of the write loop that starts at a sector boundary. */
    method WriteAtBoundary(wbuff: seq<byte>, ghost size: nat) returns (st: Outcome, wcnt: nat)
      requires Core(size) && At(fptr) && 0 < |wbuff| && size == Max(fsize, fptr) && SectorOff(fs.g.ss, fptr) == 0
      modifies this`clust, this`sclust, this`chain, this`err, this`dirty, this`buf, this`dsect, this`fptr, fs
      ensures st == Failed ==> err == FrDiskErr && fs.faulty
      ensures st != Failed ==>
        err == old(err) && wcnt <= |wbuff| && fptr == old(fptr) + wcnt && Core(Max(size, fptr)) && At(fptr)
      ensures st != Failed ==> Bytes(Max(size, fptr)) == Overwrite(old(Bytes(size)), old(fptr), wbuff[..wcnt])
      ensures st != Failed ==> Framed(old(L()), old(fs.Img()), old(fs.Fat()), L(), fs.Img(), fs.Fat())
      ensures st == Located ==> 0 < wcnt
      ensures st == Full ==> wcnt == 0 && Free(fs.Fat()) == {} && fptr == ClusterStart(fs.g, |chain|)
    {
      hide SectorNo, SectorOff, SectorBytes, ClusterNo, ClusterOff, Base, Exact, BufferOk, Framed, Bytes, V, Table,
        Overlay, Free, Overwrite, Geometry.Valid, FatFs.Valid, ClusterStart;
      CoreFacts(size);
      var sect;
      wcnt := 0;
      st, sect := LocateForWrite(size);
      if st != Located {
        OverwriteNothing(old(Bytes(size)), fptr);
        assert wbuff[..0] == [];
        return;
      }
      CoreFacts(size);
      ghost var l, img, fat := L(), fs.Img(), fs.Fat();
      var ok;
      ok, wcnt := WriteAligned(sect, wbuff, size);
      if !ok {
        return Failed, 0;
      }
      FramedTrans(old(L()), old(fs.Img()), old(fs.Fat()), l, img, fat, L(), fs.Img(), fs.Fat());
    }

    /** One round of the write loop. */
    method WriteStep(wbuff: seq<byte>, ghost size: nat) returns (st: Outcome, wcnt: nat)
      requires Core(size) && At(fptr) && 0 < |wbuff| && size == Max(fsize, fptr)
      modifies this`clust, this`sclust, this`chain, this`err, this`dirty, this`buf, this`dsect, this`fptr, fs
      ensures st == Failed ==> err == FrDiskErr && fs.faulty
      ensures st != Failed ==>
        err == old(err) && wcnt <= |wbuff| && fptr == old(fptr) + wcnt && Core(Max(size, fptr)) && At(fptr)
      ensures st != Failed ==> Bytes(Max(size, fptr)) == Overwrite(old(Bytes(size)), old(fptr), wbuff[..wcnt])
      ensures st != Failed ==> Framed(old(L()), old(fs.Img()), old(fs.Fat()), L(), fs.Img(), fs.Fat())
      ensures st == Located ==> 0 < wcnt
      ensures st == Full ==> wcnt == 0 && Free(fs.Fat()) == {} && fptr == ClusterStart(fs.g, |chain|)
    {
      hide SectorNo, SectorOff, SectorBytes, ClusterNo, ClusterOff, Base, Exact, BufferOk, Framed, Bytes, V, Table,
        Overlay, Free, Overwrite, Geometry.Valid, FatFs.Valid, ClusterStart;
      CoreFacts(size);
      st, wcnt := Located, 0;
      if SectorOff(fs.g.ss, fptr) == 0 {
        st, wcnt := WriteAtBoundary(wbuff, size);
      } else {
        SectorBefore(fs.g.ss, fptr);
        CoreIsReady(size);
        FramedRefl(size);
        wcnt := WriteBuffered(wbuff, size);
      }
    }

    /** The write loop. */
    method WriteLoop(wbuff: seq<byte>) returns (ok: bool, bw: nat)
      requires Core(fsize) && At(fptr) && fptr <= fsize
      modifies this`clust, this`sclust, this`chain, this`err, this`dirty, this`buf, this`dsect, this`fptr, fs
      ensures bw <= |wbuff| && (!ok ==> err == FrDiskErr && fs.faulty)
      ensures ok ==> err == old(err) && fptr == old(fptr) + bw && Core(Max(fsize, fptr)) && At(fptr)
      ensures ok ==> Bytes(Max(fsize, fptr)) == Overwrite(old(Bytes(fsize)), old(fptr), wbuff[..bw])
      ensures ok ==> Framed(old(L()), old(fs.Img()), old(fs.Fat()), L(), fs.Img(), fs.Fat())
      ensures ok ==> bw == |wbuff| || (Free(fs.Fat()) == {} && fptr == ClusterStart(fs.g, |chain|))
    {
      hide SectorNo, SectorOff, SectorBytes, ClusterNo, ClusterOff, Base, Exact, BufferOk, Framed, Bytes, V, Table,
        Overlay, Overwrite, At, Free, ClusterStart, Geometry.Valid, FatFs.Valid;
      CoreFacts(fsize);
      FramedRefl(fsize);
      var btw := |wbuff|;
      ok, bw := true, 0;
      OverwriteNothing(Bytes(fsize), fptr);
      assert wbuff[..0] == [];
      while btw > 0
        invariant ok && err == old(err) && Core(Max(fsize, fptr)) && fs.Valid() && L().Shape() && At(fptr)
        invariant 0 <= btw && fptr == old(fptr) + bw && bw + btw == |wbuff|
        invariant Bytes(Max(fsize, fptr)) == Overwrite(old(Bytes(fsize)), old(fptr), wbuff[..bw])
        invariant Framed(old(L()), old(fs.Img()), old(fs.Fat()), L(), fs.Img(), fs.Fat())
      {
        CoreFacts(Max(fsize, fptr));
        ghost var l, img, fat := L(), fs.Img(), fs.Fat();
        var st, wcnt := WriteStep(wbuff[bw..bw + btw], Max(fsize, fptr));
        if st == Failed {
          ok := false;
          return;
        }
        CoreFacts(Max(fsize, fptr));
        FramedTrans(old(L()), old(fs.Img()), old(fs.Fat()), l, img, fat, L(), fs.Img(), fs.Fat());
        OverwriteTwice(old(Bytes(fsize)), old(fptr), wbuff, bw, btw, wcnt);
        bw, btw := bw + wcnt, btw - wcnt;
        if st == Full {
          return;
        }
      }
    }

    /** Write wbuff at the position. Unless a transfer fails, a prefix of it overwrites the content there: all of it, or
        as much as fits when the volume is full afterwards; a request that would pass 4 GB writes nothing. */
    method FWrite(wbuff: seq<byte>) returns (res: FResult, bw: nat)
      requires Valid() && |wbuff| < 0x1_0000_0000
      modifies this, fs
      ensures Valid() && bw <= |wbuff|
      ensures old(err) != FrOk ==> res == old(err) && bw == 0
      ensures old(err) == FrOk && !canWrite ==> res == FrDenied && bw == 0
      ensures old(err) != FrOk || !canWrite ==> unchanged(this) && unchanged(fs)
      ensures old(err) == FrOk && canWrite ==> (res == FrOk || (res == FrDiskErr == err && fs.faulty))
      ensures old(err) == FrOk && canWrite && res == FrOk ==>
        && err == FrOk && fptr == old(fptr) + bw && fsize == Max(old(fsize), fptr) && written
        && Bytes(fsize) == Overwrite(old(Bytes(fsize)), old(fptr), wbuff[..bw])
        && Framed(old(L()), old(fs.Img()), old(fs.Fat()), L(), fs.Img(), fs.Fat())
        && old(fptr) <= Limit() == old(Limit())
        && bw == (if old(fptr) + |wbuff| >= 0x1_0000_0000 then 0 else Min(|wbuff|, Limit() - old(fptr)))
        && (bw == |wbuff| || old(fptr) + |wbuff| >= 0x1_0000_0000 || Free(fs.Fat()) == {})
    {
      hide SectorNo, SectorOff, SectorBytes, ClusterNo, ClusterOff, Base, Exact, BufferOk, Framed, Bytes, V, Table,
        Overlay, Overwrite, At, Free, LimitOf, Sound, IsChain, ClusterStart, Geometry.Valid, FatFs.Valid;
      bw := 0;
      if err != FrOk {
        return err, bw;
      }
      if !canWrite {
        return FrDenied, bw;
      }
      CoreFacts(fsize);
      ChainIsSound(fsize);
      ghost var l, img, fat := L(), fs.Img(), fs.Fat();
      var btw := |wbuff|;
      if fptr + btw >= 0x1_0000_0000 {
        btw := 0;
      }
      var ok;
      ok, bw := WriteLoop(wbuff[..btw]);
      if !ok {
        return err, bw;
      }
      assert wbuff[..btw][..bw] == wbuff[..bw];
      CoreFacts(Max(fsize, fptr));
      AtWithin(fptr);
      ChainIsSound(Max(fsize, fptr));
      LimitKept(l, img, fat, L(), fs.Img(), fs.Fat());
      if fptr > fsize {
        fsize := fptr;
      }
      written := true;
      res := FrOk;
    }

    /** The cluster after number j - 1 of the chain. */
    method Follow(from: nat, ghost j: nat, ghost size: nat) returns (clst: nat)
      requires Core(size) && 0 < j < |chain| && from == chain[j - 1]
      modifies fs
      ensures clst == DISK_ERROR ==> fs.faulty
      ensures clst != DISK_ERROR ==> 2 <= clst == chain[j] && Core(size) && Bytes(size) == old(Bytes(size))
      ensures clst != DISK_ERROR ==> fs.Fat() == old(fs.Fat())
      ensures clst != DISK_ERROR ==> Framed(old(L()), old(fs.Img()), old(fs.Fat()), L(), fs.Img(), fs.Fat())
    {
      hide Table, Entry, RawEntry, FatByte, SectorNo, SectorOff, ClusterNo, ClusterOff, Free, Overlay;
      ghost var v, s, w, fat, img := V(), fs.winSect, fs.win, fs.Fat(), fs.Img();
      LastLink(fat, chain, j - 1);
      clst := fs.GetFat(from);
      if clst != DISK_ERROR {
        AfterFat(v, s, w, size);
        KeptFrame(L(), img, fat, fs.Img());
      }
    }

    /** One round of the cluster-following loop of a seek: stretch the chain in write mode, else follow it. */
    method SeekNext(from: nat, ghost j: nat, ghost size: nat) returns (clst: nat)
      requires Core(size) && 0 < j <= |chain| && from == chain[j - 1] && (canWrite || j < |chain|)
      modifies this`sclust, this`chain, fs
      ensures clst == DISK_ERROR ==> fs.faulty
      ensures clst != DISK_ERROR ==> Core(size) && Bytes(size) == old(Bytes(size))
      ensures clst != DISK_ERROR ==> Framed(old(L()), old(fs.Img()), old(fs.Fat()), L(), fs.Img(), fs.Fat())
      ensures clst == 0 ==> canWrite && chain == old(chain) && j == |chain| && Free(fs.Fat()) == {}
      ensures clst != DISK_ERROR && clst != 0 ==> 2 <= clst && j < |chain| && chain[j] == clst
      ensures old(chain) <= chain
    {
      hide Base, Exact, Bytes, Framed, V, Free;
      if canWrite {
        clst := Stretch(from, j, size);
      } else {
        clst := Follow(from, j, size);
      }
    }

    /** Where a seek to byte ofs starts following clusters: at the current cluster if that is not too far, else at the
        first. */
    method SeekStart(ofs: nat, ifptr: nat, ghost size: nat) returns (st: Outcome, start: nat, ghost n: nat)
      requires Core(size) && At(ifptr) && 0 < ofs && (canWrite || ofs <= size)
      modifies this`sclust, this`chain, this`clust, this`err, fs
      ensures st == Failed ==> err == FrDiskErr && fs.faulty
      ensures st != Failed ==> err == old(err) && Core(size) && Bytes(size) == old(Bytes(size))
      ensures st != Failed ==> Framed(old(L()), old(fs.Img()), old(fs.Fat()), L(), fs.Img(), fs.Fat())
      ensures st == Located ==> n < |chain| && 2 <= clust == chain[n] && start == ClusterStart(fs.g, n) < ofs
      ensures st == Full ==> canWrite && chain == [] && Free(fs.Fat()) == {}
    {
      hide SectorNo, SectorOff, SectorBytes, ClusterNo, ClusterOff, ClusterSectors, Base, Exact, BufferOk, Bytes,
        Framed, V, Free;
      CoreFacts(size);
      ChainFacts(size);
      FramedRefl(size);
      NextStart(fs.g, 0);
      st, start, n := Located, 0, 0;
      if ifptr > 0 && ClusterIndex(fs.g, ofs - 1) >= ClusterIndex(fs.g, ifptr - 1) {
        n := ClusterIndex(fs.g, ifptr - 1);
        StartOfCluster(fs.g, ofs - 1);
        StartMono(fs.g, n, ClusterIndex(fs.g, ofs - 1));
        start := ClusterStart(fs.g, ClusterIndex(fs.g, ifptr - 1));
      } else {
        var clst := sclust;
        if clst == 0 {
          NoChain(size);
          clst := Stretch(0, 0, size);
          if clst == DISK_ERROR {
            err := FrDiskErr;
            st := Failed;
            return;
          }
        }
        clust := clst;
        if clst == 0 {
          st := Full;
        }
      }
    }

    lemma NoChain(size: nat)
      requires Core(size) && chain == []
      ensures size == 0
    {
      hide SectorNo, ClusterNo;
      assert size > 0 ==> L().HasByte(0);
    }

    /** The cluster after number n, when the target is behind it. */
    method SeekOne(ghost n: nat, ghost target: nat, ghost size: nat) returns (clst: nat)
      requires Core(size) && n < |chain| && clust == chain[n] && (canWrite || target <= size)
      requires ClusterStart(fs.g, n) + BytesPerCluster(fs.g) < target
      modifies this`sclust, this`chain, fs
      ensures clst == DISK_ERROR ==> fs.faulty
      ensures clst != DISK_ERROR ==> Core(size) && Bytes(size) == old(Bytes(size))
      ensures clst != DISK_ERROR ==> Framed(old(L()), old(fs.Img()), old(fs.Fat()), L(), fs.Img(), fs.Fat())
      ensures clst == 0 ==> canWrite && chain == old(chain) && n + 1 == |chain| && Free(fs.Fat()) == {}
      ensures clst != DISK_ERROR && clst != 0 ==> 2 <= clst && n + 1 < |chain| && chain[n + 1] == clst
    {
      hide ClusterStart, BytesPerCluster, Core, Base, Exact, FatFs.Valid, Geometry.Valid, Layout.Shape, Bytes, Framed,
        V, Free;
      if !canWrite {
        SeekCovered(n, target, size);
      }
      clst := SeekNext(clust, n + 1, size);
    }

    /** The cluster-following loop: stop in the cluster of the target, or in the last one when the volume is full. */
    method SeekClusters(target: nat, start: nat, ghost from: nat, ghost size: nat)
      returns (st: Outcome, o: nat, ghost n: nat)
      requires Core(size) && from < |chain| && 2 <= clust == chain[from] && start == ClusterStart(fs.g, from) < target
      requires canWrite || target <= size
      modifies this`sclust, this`chain, this`clust, this`fptr, fs
      ensures st == Failed ==> fs.faulty
      ensures st != Failed ==> Core(size) && Bytes(size) == old(Bytes(size))
      ensures st != Failed ==> Framed(old(L()), old(fs.Img()), old(fs.Fat()), L(), fs.Img(), fs.Fat())
      ensures st != Failed ==>
        n < |chain| && clust == chain[n] && fptr == ClusterStart(fs.g, n) && 0 < o <= BytesPerCluster(fs.g)
      ensures st == Located ==> fptr + o == target
      ensures st == Full ==>
        canWrite && n + 1 == |chain| && o == BytesPerCluster(fs.g) && fptr + o < target && Free(fs.Fat()) == {}
    {
      hide SectorNo, SectorOff, SectorBytes, ClusterNo, ClusterOff, ClusterSectors, ClusterStart, BytesPerCluster;
      hide Core, Base, Exact, fs.Valid, Geometry.Valid, Layout.Shape, IsSectorSize, IsClusterSize, BufferOk, Bytes,
        Framed, V, Free;
      hide Table, Overlay, Geometry.ClusterBase, Layout.SectorAt, Layout.Has, Layout.HasByte;
      CoreValid(size);
      CoreRefl(size);
      st, o, fptr, n := Located, target - start, start, from;
      var bcs := BytesPerCluster(fs.g);
      NextStart(fs.g, from);
      while o > bcs
        invariant Core(size) && Base(size) && fs.Valid() && L().Shape() && Bytes(size) == old(Bytes(size))
        invariant Framed(old(L()), old(fs.Img()), old(fs.Fat()), L(), fs.Img(), fs.Fat())
        invariant n < |chain| && 2 <= clust == chain[n] && fptr == ClusterStart(fs.g, n) && 0 < o && fptr + o == target
      {
        CoreValid(size);
        ghost var l, img, fat := L(), fs.Img(), fs.Fat();
        NextStart(fs.g, n);
        var clst := SeekOne(n, target, size);
        if clst == DISK_ERROR {
          st := Failed;
          return;
        }
        CoreValid(size);
        FramedTrans(old(L()), old(fs.Img()), old(fs.Fat()), l, img, fat, L(), fs.Img(), fs.Fat());
        if clst == 0 {
          o, st := bcs, Full;
          return;
        }
        clust, n := clst, n + 1;
        fptr, o := fptr + bcs, o - bcs;
      }
    }

    /** Follow the chain to the cluster of byte target - 1 and step to the target; on a full volume stop at the end of
        the last cluster. */
    method SeekFollow(target: nat, start: nat, ghost from: nat, ghost size: nat) returns (st: Outcome, o: nat)
      requires Core(size) && from < |chain| && 2 <= clust == chain[from] && start == ClusterStart(fs.g, from) < target
      requires canWrite || target <= size
      modifies this`sclust, this`chain, this`clust, this`fptr, fs
      ensures st == Failed ==> fs.faulty
      ensures st != Failed ==> Core(size) && Bytes(size) == old(Bytes(size))
      ensures st != Failed ==> Framed(old(L()), old(fs.Img()), old(fs.Fat()), L(), fs.Img(), fs.Fat())
      ensures st != Failed ==> SeekDone(o)
      ensures st == Located ==> fptr == target
      ensures st == Full ==> canWrite && fptr == ClusterStart(fs.g, |chain|) < target && Free(fs.Fat()) == {}
    {
      hide SectorNo, SectorOff, SectorBytes, ClusterNo, ClusterOff, ClusterSectors, ClusterStart, ClusterIndex,
        BytesPerCluster, Base, Exact, BufferOk, Bytes, Framed, V, Free;
      ghost var n;
      st, o, n := SeekClusters(target, start, from, size);
      if st != Failed {
        CoreFacts(size);
        NextStart(fs.g, n);
        SeekLands(n, o);
        fptr := fptr + o;
      }
    }

    /** The position o bytes into the cluster clust, which it may not have left. */
    ghost predicate SeekDone(o: nat)
      requires L().Shape()
      reads this`chain, this`clust, this`fptr
    {
      && 0 < fptr && L().HasByte(fptr - 1) && clust == chain[ClusterIndex(fs.g, fptr - 1)]
      && SectorOff(fs.g.ss, o) == SectorOff(fs.g.ss, fptr)
      && (SectorOff(fs.g.ss, fptr) != 0 ==>
           (L().HasByte(fptr) && L().SectorAt(SectorNo(fs.g.ss, fptr)) == fs.g.ClusterBase(clust) + SectorNo(fs.g.ss,
               o)))
    }

    lemma SeekLands(n: nat, o: nat)
      requires fs.g.Valid() && L().Shape() && n < |chain| && 0 < o <= BytesPerCluster(fs.g)
      ensures var p := ClusterStart(fs.g, n) + o;
              && L().HasByte(p - 1) && chain[ClusterIndex(fs.g, p - 1)] == chain[n]
              && SectorOff(fs.g.ss, o) == SectorOff(fs.g.ss, p)
              && (SectorOff(fs.g.ss, p) != 0 ==>
                   (L().HasByte(p) && L().SectorAt(SectorNo(fs.g.ss,
                       p)) == fs.g.ClusterBase(chain[n]) + SectorNo(fs.g.ss, o)))
    {
      hide SectorNo, SectorOff, SectorBytes, ClusterNo, ClusterOff, ClusterSectors, BytesPerCluster, ClusterStart;
      NextStart(fs.g, n);
      NextStart(fs.g, n + 1);
      ByteOfCluster(fs.g, n, o - 1);
      if o < BytesPerCluster(fs.g) {
        ByteOfCluster(fs.g, n, o);
      }
    }

    lemma SeekCovered(n: nat, target: nat, size: nat)
      requires Core(size) && n < |chain| && target <= size && ClusterStart(fs.g, n) + BytesPerCluster(fs.g) < target
      ensures n + 1 < |chain|
    {
      hide SectorNo, SectorOff, SectorBytes, ClusterNo, ClusterOff, ClusterSectors, BytesPerCluster, ClusterStart;
      NextStart(fs.g, n);
      var i := ClusterStart(fs.g, n + 1);
      NextStart(fs.g, n + 1);
      ByteOfCluster(fs.g, n + 1, 0);
      assert L().HasByte(i);
    }

    /** The sector under the position, unless it is at a sector's start, is brought into the private buffer. */
    method SeekLoad(nsect: nat, ghost size: nat) returns (ok: bool)
      requires Core(size)
      requires SectorOff(fs.g.ss, fptr) != 0 ==> L().HasByte(fptr) && nsect == L().SectorAt(SectorNo(fs.g.ss, fptr))
      modifies this`err, this`dirty, this`buf, this`dsect, fs`disk
      ensures !ok ==> err == FrDiskErr && fs.faulty
      ensures ok ==> err == old(err) && Core(size) && Bytes(size) == old(Bytes(size)) && fs.Fat() == old(fs.Fat())
      ensures ok ==> SectorOff(fs.g.ss, fptr) != 0 ==> dsect == nsect
      ensures ok ==> Framed(old(L()), old(fs.Img()), old(fs.Fat()), L(), fs.Img(), fs.Fat())
    {
      hide Base, Exact, Bytes, Framed, V, SectorNo, SectorOff, ClusterNo, ClusterOff;
      CoreFacts(size);
      FramedRefl(size);
      ok := true;
      if SectorOff(fs.g.ss, fptr) != 0 && nsect != dsect {
        HasItsSector(fptr);
        ok := BufferForRead(nsect, SectorNo(fs.g.ss, fptr), size);
      }
    }

    lemma HasItsSector(p: nat)
      requires IsSectorSize(fs.g.ss) && IsClusterSize(fs.g.clusterSize) && L().HasByte(p)
      ensures L().Has(SectorNo(fs.g.ss, p))
    {}

    /** Reaching past the end of the file makes it longer; the new bytes are whatever was on the drive. */
    lemma Regrown(size: nat, p: nat)
      requires Core(size) && (p == 0 || L().HasByte(p - 1))
      ensures Core(Max(size, p)) && Bytes(Max(size, p))[..size] == Bytes(size)
    {
      hide SectorNo, SectorOff, ClusterNo, ClusterOff, Table, Free, IsChain, Overlay;
      CoveredBelow(L(), p);
      ContentPrefix(V(), size, Max(size, p));
    }

    /** Follow the chain to a position, and find the sector there if it is inside one. */
    method SeekSector(target: nat, start: nat, ghost from: nat, ghost size: nat) returns (st: Outcome, nsect: nat)
      requires Core(size) && from < |chain| && 2 <= clust == chain[from] && start == ClusterStart(fs.g, from) < target
      requires canWrite || target <= size
      modifies this`sclust, this`chain, this`clust, this`fptr, this`err, fs
      ensures st == Failed ==> err == FrDiskErr && fs.faulty
      ensures st != Failed ==> err == old(err) && Core(size) && Bytes(size) == old(Bytes(size))
      ensures st != Failed ==> Framed(old(L()), old(fs.Img()), old(fs.Fat()), L(), fs.Img(), fs.Fat())
      ensures st != Failed ==> L().Shape() && Landed(nsect)
      ensures st == Located ==> fptr == target
      ensures st == Full ==> canWrite && fptr == ClusterStart(fs.g, |chain|) < target && Free(fs.Fat()) == {}
    {
      hide SectorNo, SectorOff, SectorBytes, ClusterNo, ClusterOff, Base, Exact, BufferOk, Framed, Bytes, V, Table,
        Overlay, Free, ClusterStart, Geometry.Valid, FatFs.Valid, SeekDone, Landed;
      var o;
      st, o := SeekFollow(target, start, from, size);
      if st == Failed {
        err, nsect := FrDiskErr, 0;
        return;
      }
      CoreFacts(size);
      nsect := 0;
      if SectorOff(fs.g.ss, o) != 0 {
        nsect := Clust2Sect(fs.g, clust);
        nsect := nsect + SectorNo(fs.g.ss, o);
      }
      LandedThere(o, nsect);
    }

    /** The cluster is that of the byte before the position, and nsect the sector if the position is inside one. */
    ghost predicate Landed(nsect: nat)
      requires L().Shape()
      reads this`chain, this`clust, this`fptr
    {
      && (fptr > 0 ==> L().HasByte(fptr - 1) && clust == chain[ClusterIndex(fs.g, fptr - 1)])
      && (SectorOff(fs.g.ss, fptr) != 0 ==> L().HasByte(fptr) && nsect == L().SectorAt(SectorNo(fs.g.ss, fptr)))
    }

    lemma LandedThere(o: nat, nsect: nat)
      requires L().Shape() && SeekDone(o)
      requires nsect == if SectorOff(fs.g.ss, o) != 0 then Clust2Sect(fs.g, clust) + SectorNo(fs.g.ss, o) else 0
      ensures Landed(nsect)
    {
      hide SectorNo, SectorOff, ClusterNo, ClusterOff;
    }

    /** Find the cluster and the sector for a position, starting from where the file is. */
    method SeekTo(target: nat, ifptr: nat, ghost size: nat) returns (st: Outcome, nsect: nat)
      requires Core(size) && At(ifptr) && fptr == 0 && (canWrite || target <= size)
      modifies this`sclust, this`chain, this`clust, this`fptr, this`err, fs
      ensures st == Failed ==> err == FrDiskErr && fs.faulty
      ensures st != Failed ==> err == old(err) && Core(size) && Bytes(size) == old(Bytes(size))
      ensures st != Failed ==> Framed(old(L()), old(fs.Img()), old(fs.Fat()), L(), fs.Img(), fs.Fat())
      ensures st != Failed ==> L().Shape() && Landed(nsect)
      ensures st == Located ==> fptr == target
      ensures st == Full ==> canWrite && fptr == ClusterStart(fs.g, |chain|) < target && Free(fs.Fat()) == {}
    {
      hide SectorNo, SectorOff, SectorBytes, ClusterNo, ClusterOff, Base, Exact, BufferOk, Framed, Bytes, V, Table,
        Overlay, Free, ClusterStart, Geometry.Valid, FatFs.Valid, At;
      CoreFacts(size);
      FramedRefl(size);
      FirstCluster(fs.g);
      NextStart(fs.g, 0);
      st, nsect := Located, 0;
      if target > 0 {
        var start;
        ghost var n;
        st, start, n := SeekStart(target, ifptr, size);
        if st != Located {
          return;
        }
        CoreFacts(size);
        ghost var l, img, fat := L(), fs.Img(), fs.Fat();
        st, nsect := SeekSector(target, start, n, size);
        if st != Failed {
          CoreFacts(size);
          FramedTrans(old(L()), old(fs.Img()), old(fs.Fat()), l, img, fat, L(), fs.Img(), fs.Fat());
        }
      }
    }

    /** Bring the file to a position: its cluster and, inside a sector, its sector. */
    method SeekPlace(target: nat, ghost size: nat) returns (st: Outcome)
      requires Core(size) && At(fptr) && (canWrite || target <= size)
      modifies this`sclust, this`chain, this`clust, this`fptr, this`err, this`dirty, this`buf, this`dsect, fs
      ensures st == Failed ==> err == FrDiskErr && fs.faulty
      ensures st != Failed ==>
        err == old(err) && Core(size) && Bytes(size) == old(Bytes(size)) && fs.Valid() && L().Shape()
      ensures st != Failed ==> Framed(old(L()), old(fs.Img()), old(fs.Fat()), L(), fs.Img(), fs.Fat())
      ensures st != Failed ==> At(fptr)
      ensures st == Located ==> fptr == target
      ensures st == Full ==> canWrite && fptr == ClusterStart(fs.g, |chain|) < target && Free(fs.Fat()) == {}
    {
      hide SectorNo, SectorOff, SectorBytes, ClusterNo, ClusterOff, Core, fs.Valid, Geometry.Valid, Layout.Shape,
        IsSectorSize, IsClusterSize, Base, Exact, BufferOk, Framed, Bytes, V, Table, Overlay, Free, ClusterStart,
        Layout.HasByte, Layout.SectorAt;
      CoreValid(size);
      var ifptr := fptr;
      fptr := 0;
      var nsect;
      st, nsect := SeekTo(target, ifptr, size);
      if st == Failed {
        return;
      }
      CoreValid(size);
      ghost var l, img, fat := L(), fs.Img(), fs.Fat();
      var ok := SeekLoad(nsect, size);
      if !ok {
        st := Failed;
        return;
      }
      CoreValid(size);
      FramedTrans(old(L()), old(fs.Img()), old(fs.Fat()), l, img, fat, L(), fs.Img(), fs.Fat());
    }

    /** Move the position. In read mode it stops at the end of the file; in write mode the file grows to reach it, and
        when the volume fills up on the way the position is the end of the last whole cluster. */
    method FLseek(ofs: nat) returns (res: FResult)
      requires Valid() && ofs < 0x1_0000_0000
      modifies this, fs
      ensures Valid()
      ensures old(err) != FrOk ==> res == old(err) && unchanged(this) && unchanged(fs)
      ensures old(err) == FrOk ==> res == err && (res == FrOk || (res == FrDiskErr && fs.faulty))
      ensures old(err) == FrOk && res == FrOk ==>
        && (fptr == (if canWrite then ofs else Min(ofs, old(fsize)))
            || (canWrite && Free(fs.Fat()) == {} && fptr == ClusterStart(fs.g, |chain|) < ofs))
        && old(fptr) <= Limit() == old(Limit())
          && fptr == (if canWrite then Min(ofs, Limit()) else Min(ofs, old(fsize)))
        && fsize == Max(old(fsize), fptr) && (written <==> old(written) || fptr > old(fsize))
        && Bytes(fsize)[..old(fsize)] == old(Bytes(fsize))
        && Framed(old(L()), old(fs.Img()), old(fs.Fat()), L(), fs.Img(), fs.Fat())
    {
      hide SectorNo, SectorOff, SectorBytes, ClusterNo, ClusterOff, Core, fs.Valid, Geometry.Valid, Layout.Shape,
        IsSectorSize, IsClusterSize, Base, Exact, BufferOk, Framed, Bytes, V, Table, Overlay, Free, ClusterStart,
        IsChain, LimitOf, Sound;
      if err != FrOk {
        return err;
      }
      CoreValid(fsize);
      AtWithin(fptr);
      ChainIsSound(fsize);
      ghost var l, img, fat := L(), fs.Img(), fs.Fat();
      var target := if ofs > fsize && !canWrite then fsize else ofs;
      var st := SeekPlace(target, fsize);
      if st == Failed {
        return err;
      }
      AtWithin(fptr);
      ChainIsSound(fsize);
      LimitKept(l, img, fat, L(), fs.Img(), fs.Fat());
      Regrown(fsize, fptr);
      if fptr > fsize {
        fsize := fptr;
        written := true;
      }
      res := FrOk;
    }

    lemma ChainFacts(size: nat)
      requires Core(size)
      ensures sclust == 0 <==> chain == []
      ensures chain != [] ==> chain[0] == sclust && 2 <= sclust < fs.g.nEntries < DISK_ERROR
    {}
  }

  lemma KeptFrame(l: Layout, img: Image, fat: FatTable, img': Image)
    requires l.Shape() && |fat| == l.g.nEntries && |img| == l.g.total && SameButFats(l.g, img, img')
    ensures Framed(l, img, fat, l, img', fat)
  {}

  lemma StretchedFrame(l: Layout, img: Image, fat: FatTable, c: nat, mark: nat, img': Image)
    requires l.Shape() && |fat| == l.g.nEntries && |img| == l.g.total && SameButFats(l.g, img, img')
    requires l.chain == [] || IsChain(fat, l.chain)
    requires 2 <= c < |fat| && fat[c] == 0 && c !in l.chain
    ensures var m := l.(chain := l.chain + [c]);
            && m.Shape()
            && Framed(l, img, fat, m, img', Linked(fat, if l.chain == [] then 0 else Last(l.chain), c, mark))
  {}

  lemma RunIsMine(l: Layout, k: nat, cc: nat)
    requires l.Shape() && l.Has(k) && ClusterOff(l.g.clusterSize, k) + cc <= l.g.clusterSize
    ensures forall s :: l.SectorAt(k) <= s < l.SectorAt(k) + cc ==> l.Mine(s)
  {
    forall s | l.SectorAt(k) <= s < l.SectorAt(k) + cc ensures l.Mine(s) {
      l.Contiguous(k, s - l.SectorAt(k));
    }
  }

  /** How looking for room to write ended: a sector, a full disk, or a transfer error. */
  datatype Outcome = Located | Full | Failed

  /** A link of a chain is its next cluster, or its end mark. */
  lemma LastLink(fat: FatTable, s: seq<nat>, i: nat)
    requires IsChain(fat, s) && i < |s|
    ensures if i + 1 < |s| then fat[s[i]] == s[i + 1] && 2 <= s[i + 1] < |fat|
      else s[i] == Last(s) && fat[s[i]] >= |fat|
  {}

  lemma NewLink(fat: FatTable, s: seq<nat>, c: nat, mark: nat)
    requires s == [] || IsChain(fat, s)
    requires 2 <= c < |fat| && fat[c] == 0 && mark >= |fat|
    ensures IsChain(Linked(fat, if s == [] then 0 else Last(s), c, mark), s + [c]) && c !in s
    ensures NoOnes(fat) && 3 <= |fat| ==> NoOnes(Linked(fat, if s == [] then 0 else Last(s), c, mark))
    ensures s != [] ==> 2 <= Last(s) < |fat|
  {
    if s == [] {
      Started(fat, c, mark);
    } else {
      Extended(fat, s, c, mark);
    }
  }
}
