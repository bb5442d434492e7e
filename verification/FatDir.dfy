/** Walking a directory table: by index, and from one entry to the next. */
module FatDir {
  import opened Bytes
  import opened FatImage
  import opened FatVolume
  import opened FatChain
  import opened FatAlloc
  import opened FatFile
  import Arith

  const ENTRY_SIZE: nat := 32

  /** Entries in a sector. */
  function PerSector(ss: nat): (n: nat)
    requires IsSectorSize(ss)
    ensures IsClusterSize(n)
  {
    if ss == 512 then 16 else if ss == 1024 then 32 else if ss == 2048 then 64 else 128
  }

  /** Where entry k of a table is: its cluster in the chain, its sector in the cluster, its slot in the sector. */
  function ClusterOf(ss: nat, cs: nat, k: nat): nat
    requires IsSectorSize(ss) && IsClusterSize(cs)
  {
    ClusterNo(cs, ClusterNo(PerSector(ss), k))
  }

  function SectorOf(ss: nat, cs: nat, k: nat): nat
    requires IsSectorSize(ss) && IsClusterSize(cs)
  {
    ClusterOff(cs, ClusterNo(PerSector(ss), k))
  }

  function SlotOf(ss: nat, k: nat): nat
    requires IsSectorSize(ss)
  {
    ClusterOff(PerSector(ss), k)
  }

  function PerCluster(ss: nat, cs: nat): nat
    requires IsSectorSize(ss) && IsClusterSize(cs)
  {
    if ss == 512 then 16 * cs else if ss == 1024 then 32 * cs else if ss == 2048 then 64 * cs else 128 * cs
  }

  lemma DivStep(n: nat, i: nat)
    requires IsClusterSize(n)
    ensures ClusterNo(n, 0) == 0 && ClusterOff(n, 0) == 0
    ensures if ClusterOff(n, i + 1) == 0 then ClusterNo(n, i + 1) == ClusterNo(n, i) + 1
            else ClusterNo(n, i + 1) == ClusterNo(n, i) && ClusterOff(n, i + 1) == ClusterOff(n, i) + 1
  {}

  /** The next entry is in the next slot, sector or cluster. */
  lemma NextEntry(ss: nat, cs: nat, k: nat)
    requires IsSectorSize(ss) && IsClusterSize(cs)
    ensures SlotOf(ss, k + 1) != 0 ==>
      SlotOf(ss, k + 1) == SlotOf(ss, k) + 1 && SectorOf(ss, cs, k + 1) == SectorOf(ss, cs, k)
        && ClusterOf(ss, cs, k + 1) == ClusterOf(ss, cs, k)
      && ClusterNo(PerSector(ss), k + 1) == ClusterNo(PerSector(ss), k)
    ensures SlotOf(ss, k + 1) == 0 ==> ClusterNo(PerSector(ss), k + 1) == ClusterNo(PerSector(ss), k) + 1
    ensures SlotOf(ss, k + 1) == 0 ==>
      if SectorOf(ss, cs, k + 1) != 0 then SectorOf(ss, cs, k + 1) == SectorOf(ss, cs, k) + 1 && ClusterOf(ss, cs,
          k + 1) == ClusterOf(ss, cs, k)
      else ClusterOf(ss, cs, k + 1) == ClusterOf(ss, cs, k) + 1
  {
    hide ClusterNo, ClusterOff;
    DivStep(PerSector(ss), k);
    DivStep(cs, ClusterNo(PerSector(ss), k));
  }

  lemma DivLess(n: nat, i: nat, m: nat)
    requires IsClusterSize(n) && i >= n * m && n * m >= 0
    ensures ClusterNo(n, i - n * m) == ClusterNo(n, i) - m && ClusterOff(n, i - n * m) == ClusterOff(n, i)
  {}

  lemma DivSmall(n: nat, i: nat, m: nat)
    requires IsClusterSize(n)
    ensures i < n * m <==> ClusterNo(n, i) < m
  {}

  /** A cluster less to go: the entry is in the same place of the cluster. */
  lemma OneClusterLess(ss: nat, cs: nat, k: nat)
    requires IsSectorSize(ss) && IsClusterSize(cs)
    ensures k < PerCluster(ss, cs) <==> ClusterOf(ss, cs, k) == 0
    ensures k >= PerCluster(ss, cs) ==>
      var j := k - PerCluster(ss, cs);
      ClusterOf(ss, cs, j) == ClusterOf(ss, cs, k) - 1 && SectorOf(ss, cs, j) == SectorOf(ss, cs, k)
        && SlotOf(ss, j) == SlotOf(ss, k)
  {
    hide ClusterNo, ClusterOff;
    var eps := PerSector(ss);
    Scaled(ss, cs);
    DivSmall(eps, k, cs);
    DivSmall(cs, ClusterNo(eps, k), 1);
    if k >= PerCluster(ss, cs) {
      DivLess(eps, k, cs);
      DivLess(cs, ClusterNo(eps, k), 1);
    }
  }

  /** In the first cluster the sector is the quotient itself. */
  lemma FirstCluster(ss: nat, cs: nat, k: nat)
    requires IsSectorSize(ss) && IsClusterSize(cs)
    ensures ClusterOf(ss, cs, k) == 0 ==> SectorOf(ss, cs, k) == ClusterNo(PerSector(ss), k)
  {
    hide PerSector;
    Quotient0(cs, ClusterNo(PerSector(ss), k));
  }

  lemma Quotient0(n: nat, i: nat)
    requires IsClusterSize(n)
    ensures ClusterNo(n, i) == 0 ==> ClusterOff(n, i) == i
  {}

  lemma Scaled(ss: nat, cs: nat)
    requires IsSectorSize(ss) && IsClusterSize(cs)
    ensures PerCluster(ss, cs) == PerSector(ss) * cs
  {}

  /** A directory object. */
  class Dir {
    const fs: FatFs
    const dirBase: nat      // first sector of the static root directory, or the root cluster of FAT32
    const nRootDir: nat     // entries of the static root directory
    var sClust: nat         // 0 for the root directory
    var index: nat
    var clust: nat
    var sect: nat
    var slot: nat           // offset of the entry in the window
    ghost var chain: seq<nat>   // the clusters of the table, none for the static one

    ghost predicate Valid()
      reads this, fs
    {
      && fs.Valid() && dirBase > 0 && nRootDir < 0x1_0000
      && ClusterOff(PerSector(fs.g.ss), nRootDir) == 0
      && (if IsStatic() then chain == [] else IsChain(fs.Fat(), chain) && chain[0] == StartCluster())
    }

    predicate IsStatic()
      reads this`sClust
    {
      sClust == 0 && fs.g.fatType != Fat32
    }

    function StartCluster(): nat
      reads this, fs
    {
      if sClust == 0 then dirBase else sClust
    }

    /** Does the table have an entry k? */
    ghost predicate Has(k: nat)
      requires IsSectorSize(fs.g.ss) && IsClusterSize(fs.g.clusterSize)
      reads this, fs
    {
      if IsStatic() then k < nRootDir else ClusterOf(fs.g.ss, fs.g.clusterSize, k) < |chain|
    }

    /** The object points to entry k. */
    ghost predicate At(k: nat)
      reads this, fs
    {
      && Valid() && k < 0x1_0000 && Has(k) && index == k && sect > 0
      && slot == SlotOf(fs.g.ss, k) * ENTRY_SIZE
      && if IsStatic() then clust == 0 && sect == dirBase + ClusterNo(PerSector(fs.g.ss), k)
         else var c := ClusterOf(fs.g.ss, fs.g.clusterSize, k);
              && clust == chain[c] && 2 <= clust < fs.g.nEntries
              && sect == fs.g.ClusterBase(clust) + SectorOf(fs.g.ss, fs.g.clusterSize, k)
    }

    constructor (fs: FatFs, dirBase: nat, nRootDir: nat, sClust: nat, ghost chain: seq<nat>)
      requires fs.Valid() && dirBase > 0 && nRootDir < 0x1_0000 && ClusterOff(PerSector(fs.g.ss), nRootDir) == 0
      requires if sClust == 0 && fs.g.fatType != Fat32 then chain == []
               else IsChain(fs.Fat(), chain) && chain[0] == if sClust == 0 then dirBase else sClust
      ensures Valid() && this.fs == fs && this.sClust == sClust && this.chain == chain && this.nRootDir == nRootDir
    {
      this.fs, this.dirBase, this.nRootDir, this.sClust, this.chain := fs, dirBase, nRootDir, sClust, chain;
      index, clust, sect, slot := 0, 0, 0, 0;
    }

    /** dir_sdi: to entry idx, following the chain from its start. */
    method Sdi(idx: nat) returns (res: FResult)
      requires Valid() && idx < 0x1_0000
      modifies this`index, this`clust, this`sect, this`slot, fs
      ensures Valid() && fs.Fat() == old(fs.Fat())
      ensures res == FrOk ==> At(idx)
      ensures res != FrOk ==> (res == FrIntErr && !Has(idx)) || (res == FrDiskErr && fs.faulty)
    {
      hide ClusterNo, ClusterOff, PerCluster, SlotOf, FatFs.Valid, IsChain;
      StartInTable();
      index := idx % 0x1_0000;
      var clst := sClust;
      if clst == 1 || clst >= fs.g.nEntries {
        return FrIntErr;
      }
      if clst == 0 && fs.g.fatType == Fat32 {
        clst := dirBase;
      }
      var at, eps := 0, PerSector(fs.g.ss);
      if clst == 0 {
        if idx >= nRootDir {
          return FrIntErr;
        }
        at := dirBase + ClusterNo(eps, idx);
        clust := clst;
        sect := at;
        slot := ClusterOff(eps, idx) * ENTRY_SIZE;
        SlotIs(fs.g.ss, idx);
        return FrOk;
      }
      var rest;
      res, clst, rest := FollowTo(clst, idx);
      if res != FrOk {
        return;
      }
      at := Clust2Sect(fs.g, clst);
      clust := clst;
      if at == 0 {
        return FrIntErr;
      }
      sect := at + ClusterNo(eps, rest);
      slot := ClusterOff(eps, rest) * ENTRY_SIZE;
    }

    lemma StartInTable()
      requires Valid()
      ensures sClust != 1 && sClust < fs.g.nEntries && IsSectorSize(fs.g.ss) && IsClusterSize(fs.g.clusterSize)
      ensures forall c: nat :: 2 <= c < fs.g.nEntries ==> 0 < Clust2Sect(fs.g, c) == fs.g.ClusterBase(c)
    {
      hide ClusterNo, ClusterOff, PerCluster, SlotOf;
      assert !IsStatic() ==> 2 <= chain[0] < fs.g.nEntries;
      forall c: nat | 2 <= c < fs.g.nEntries ensures 0 < Clust2Sect(fs.g, c) == fs.g.ClusterBase(c) {
        Arith.MulMono(0, c - 2, fs.g.clusterSize);
      }
    }

    /** The cluster behind number n of the chain. */
    method FollowOne(from: nat, ghost n: nat) returns (res: FResult, clst: nat)
      requires Valid() && !IsStatic() && n < |chain| && from == chain[n]
      modifies fs
      ensures Valid() && fs.Fat() == old(fs.Fat())
      ensures res == FrOk ==> n + 1 < |chain| && clst == chain[n + 1]
      ensures res != FrOk ==> (res == FrIntErr && n + 1 == |chain|) || (res == FrDiskErr && fs.faulty)
    {
      hide FatFs.Valid, IsChain, Table, Overlay, Geometry.Valid, ClusterOff, PerSector;
      LastLink(fs.Fat(), chain, n);
      ClusterInFat(fs.Fat(), n);
      clst := fs.GetFat(from);
      if clst == DISK_ERROR {
        return FrDiskErr, clst;
      }
      if clst < 2 || clst >= fs.g.nEntries {
        return FrIntErr, clst;
      }
      res := FrOk;
    }

    /** Follow the chain as long as the entry is not in the cluster at hand. */
    method FollowTo(start: nat, idx: nat) returns (res: FResult, clst: nat, rest: nat)
      requires Valid() && !IsStatic() && start == chain[0]
      modifies fs
      ensures Valid() && fs.Fat() == old(fs.Fat())
      ensures res == FrOk ==>
        && Has(idx) && clst == chain[ClusterOf(fs.g.ss, fs.g.clusterSize, idx)] && 2 <= clst < fs.g.nEntries
        && ClusterNo(PerSector(fs.g.ss), rest) == SectorOf(fs.g.ss, fs.g.clusterSize, idx)
        && ClusterOff(PerSector(fs.g.ss), rest) == SlotOf(fs.g.ss, idx)
      ensures res != FrOk ==> (res == FrIntErr && !Has(idx)) || (res == FrDiskErr && fs.faulty)
    {
      hide ClusterNo, ClusterOff, PerCluster, SlotOf, ClusterOf, SectorOf, FatFs.Valid, IsChain, PerSector,
        Geometry.ClusterBase, Geometry.Valid, Table, Overlay;
      StartInTable();
      ghost var ss, cs, fat, n: nat := fs.g.ss, fs.g.clusterSize, fs.Fat(), 0;
      clst, rest := start, idx;
      var ic := PerCluster(fs.g.ss, fs.g.clusterSize);
      ChainNotEmpty(fat);
      while rest >= ic
        invariant Valid() && fs.Fat() == fat && n < |chain| && clst == chain[n] && rest >= 0 && n >= 0
        invariant ClusterOf(ss, cs, rest) == ClusterOf(ss, cs, idx) - n
        invariant SectorOf(ss, cs, rest) == SectorOf(ss, cs, idx) && SlotOf(ss, rest) == SlotOf(ss, idx)
        decreases rest, ic
      {
        OneClusterLess(ss, cs, rest);
        res, clst := FollowOne(clst, n);
        if res != FrOk {
          return;
        }
        n := n + 1;
        rest := rest - ic;
      }
      OneClusterLess(ss, cs, rest);
      FirstCluster(ss, cs, rest);
      ClusterInFat(fat, n);
      SlotIs(ss, rest);
      res := FrOk;
    }

    lemma ChainNotEmpty(fat: seq<nat>)
      requires IsChain(fat, chain)
      ensures |chain| > 0
    {}

    lemma ClusterInFat(fat: seq<nat>, n: nat)
      requires IsChain(fat, chain) && n < |chain|
      ensures 2 <= chain[n] < |fat|
    {}

    /** dir_next: to the next entry, or to the end of the table, which is stretched by a cluster of zeros if that is
        asked for. */
    method Next(stretch: bool) returns (res: FResult)
      requires At(index)
      modifies this`index, this`clust, this`sect, this`slot, this`chain, fs
      ensures fs.Valid() && index == if res == FrOk then old(index) + 1 else old(index)
      ensures res == FrOk ==> At(index)
      ensures Stretches(stretch, old(index), old(chain)) ==>
        StretchedBy(res, old(chain), old(fs.Img()), old(fs.Fat()))
      ensures !Stretches(stretch, old(index), old(chain)) ==>
        && chain == old(chain) && fs.Fat() == old(fs.Fat()) && Valid()
        && (res == FrOk || res == FrNoFile || (res == FrDiskErr && fs.faulty))
        && (res == FrNoFile ==> index == 0xFFFF || !Has(index + 1))
    {
      hide ClusterNo, ClusterOff, PerCluster, SlotOf, ClusterOf, SectorOf, FatFs.Valid, IsChain, PerSector, StretchedBy;
      StartInTable();
      var i := index + 1;
      if i % 0x1_0000 == 0 || sect == 0 {
        return FrNoFile;
      }
      var eps := PerSector(fs.g.ss);
      NextEntry(fs.g.ss, fs.g.clusterSize, index);
      SlotIs(fs.g.ss, i);
      StaticEnd(i);
      if ClusterOff(eps, i) == 0 {
        sect := sect + 1;
        if clust == 0 {
          if i >= nRootDir {
            return FrNoFile;
          }
        } else if ClusterOff(fs.g.clusterSize, ClusterNo(eps, i)) == 0 {
          res := NextCluster(i, stretch);
          if res != FrOk {
            return;
          }
        }
      }
      index := i % 0x1_0000;
      slot := ClusterOff(eps, i) * ENTRY_SIZE;
      res := FrOk;
    }

    lemma SlotIs(ss: nat, k: nat)
      requires IsSectorSize(ss)
      ensures SlotOf(ss, k) == ClusterOff(PerSector(ss), k)
      ensures forall cs :: IsClusterSize(cs) ==> SectorOf(ss, cs, k) == ClusterOff(cs, ClusterNo(PerSector(ss), k))
    {}

    /** The static table ends with a sector, so that looking at every sixteenth entry is enough. */
    lemma StaticEnd(i: nat)
      requires Valid() && 0 < i && IsSectorSize(fs.g.ss)
      ensures IsStatic() && i - 1 < nRootDir && ClusterOff(PerSector(fs.g.ss), i) != 0 ==> i < nRootDir
    {}

    /** Is entry k the last of a table in clusters that may be stretched? */
    ghost predicate Stretches(stretch: bool, k: nat, chain: seq<nat>)
      requires IsSectorSize(fs.g.ss) && IsClusterSize(fs.g.clusterSize)
      reads this`sClust
    {
      stretch && !IsStatic() && k < 0xFFFF && ClusterOf(fs.g.ss, fs.g.clusterSize, k + 1) >= |chain|
    }

    /** What stretching the table does: a free cluster is hooked behind the others and filled with zeros, and nothing
        else behind the FATs changes; or no cluster is free. */
    ghost predicate StretchedBy(res: FResult, was: seq<nat>, img: Image, fat: FatTable)
      requires fs.Valid() && was != []
      reads this`chain, fs
    {
      match res
      case FrOk =>
        && |chain| == |was| + 1 && was < chain && |img| == fs.g.total
        && var c := Last(chain);
        && 2 <= c < |fat| == fs.g.nEntries && Last(was) < |fat| && fat[c] == 0
        && fs.Fat() == Linked(fat, Last(was), c, fs.g.Mask())
        && forall s :: fs.g.dataBase <= s < fs.g.total ==>
             fs.Img()[s] == if InCluster(fs.g, c, s) then Zeros(fs.g.ss) else img[s]
      case FrDenied => chain == was && fs.Fat() == fat && Free(fat) == {}
      case FrIntErr => !NoOnes(fat)
      case FrDiskErr => fs.faulty
      case FrNoFile => false
    }

    /** The extra copies of the FAT do not matter. */
    lemma StretchedFrom(res: FResult, was: seq<nat>, img: Image, img': Image, fat: FatTable)
      requires fs.Valid() && was != [] && SameButMirrors(fs.g, img, img') && StretchedBy(res, was, img', fat)
      ensures StretchedBy(res, was, img, fat)
    {
      hide Table, Overlay, Free;
    }

    lemma StretchFailed(was: seq<nat>, img: Image, fat: FatTable)
      requires fs.Valid() && was != [] && fs.faulty
      ensures StretchedBy(FrDiskErr, was, img, fat)
    {}

    /** Hook a cluster behind the table and clear it. */
    method Stretch() returns (res: FResult, clst: nat)
      requires Valid() && !IsStatic() && clust == Last(chain)
      modifies this`chain, fs
      ensures fs.Valid() && StretchedBy(res, old(chain), old(fs.Img()), old(fs.Fat()))
      ensures res == FrOk ==>
        Valid() && 2 <= clst < fs.g.nEntries && |chain| == |old(chain)| + 1 && clst == chain[|chain| - 1]
    {
      hide FatFs.Valid, Geometry.Valid, Table, Free, NoOnes, Overlay, Geometry.ClusterBase, ClusterOff, IsChain,
        InCluster, SameButFats, Linked;
      fs.VolumeFacts();
      ghost var img, fat := fs.Img(), fs.Fat();
      ChainNotEmpty(fat);
      LastLink(fat, chain, |chain| - 1);
      ClusterInFat(fat, |chain| - 1);
      clst := CreateChain(fs, clust);
      if clst == 0 {
        return FrDenied, clst;
      }
      if clst == INTERNAL_ERROR {
        return FrIntErr, clst;
      }
      if clst == DISK_ERROR {
        return FrDiskErr, clst;
      }
      fs.VolumeFacts();
      ghost var mid := fs.Img();
      Hooked(fat, chain, clst, fs.g.Mask());
      res := fs.ClearCluster(clst);
      if res != FrOk {
        return;
      }
      fs.VolumeFacts();
      fs.ClusterBehindFats(clst);
      TableSpared(mid, fs.Img(), clst);
      DataFrame(img, mid, fs.Img(), clst);
      chain := chain + [clst];
    }

    lemma Hooked(fat: FatTable, was: seq<nat>, c: nat, mark: nat)
      requires IsChain(fat, was) && 2 <= c < |fat| && fat[c] == 0 && mark >= |fat|
      ensures Last(was) < |fat| && IsChain(Linked(fat, Last(was), c, mark), was + [c])
      ensures (was + [c])[0] == was[0]
    {
      Extended(fat, was, c, mark);
    }

    /** A cluster is behind the FATs. */
    lemma TableSpared(mid: Image, now: Image, c: nat)
      requires fs.g.Valid() && WellSized(fs.g, mid) && WellSized(fs.g, now)
      requires 2 <= c && fs.g.fatBase + fs.g.fatSize <= fs.g.dataBase <= fs.g.ClusterBase(c)
      requires forall s :: 0 <= s < fs.g.total && !fs.g.InMirror(s) && !InCluster(fs.g, c, s) ==> now[s] == mid[s]
      ensures Table(fs.g, now) == Table(fs.g, mid)
    {
      hide Table, Geometry.Valid, WellSized, Geometry.ClusterBase;
      TableFrame(fs.g, mid, now);
    }

    lemma DataFrame(img: Image, mid: Image, now: Image, c: nat)
      requires SameButFats(fs.g, img, mid) && |img| == |now| == fs.g.total && 2 <= c
      requires fs.g.fatBase + fs.g.fatSize <= fs.g.fatBase + fs.g.FatSectors() <= fs.g.dataBase
      requires forall s :: 0 <= s < fs.g.total && !fs.g.InMirror(s) && !InCluster(fs.g, c, s) ==> now[s] == mid[s]
      ensures forall s :: fs.g.dataBase <= s < fs.g.total && !InCluster(fs.g, c, s) ==> now[s] == img[s]
    {
      hide InCluster;
    }

    /** The cluster behind the current one. */
    method NextCluster(i: nat, stretch: bool) returns (res: FResult)
      requires Valid() && !IsStatic() && IsSectorSize(fs.g.ss) && IsClusterSize(fs.g.clusterSize)
      requires 0 < i && Has(i - 1) && clust == chain[ClusterOf(fs.g.ss, fs.g.clusterSize, i - 1)]
      requires ClusterOf(fs.g.ss, fs.g.clusterSize, i) == ClusterOf(fs.g.ss, fs.g.clusterSize, i - 1) + 1
      requires i < 0x1_0000
      modifies this`clust, this`sect, this`chain, fs
      ensures fs.Valid()
      ensures Stretches(stretch, i - 1, old(chain)) ==> StretchedBy(res, old(chain), old(fs.Img()), old(fs.Fat()))
      ensures !Stretches(stretch, i - 1, old(chain)) ==>
        && chain == old(chain) && fs.Fat() == old(fs.Fat()) && Valid()
        && (res == FrOk || (res == FrNoFile && !Has(i)) || (res == FrDiskErr && fs.faulty))
      ensures res == FrOk ==>
        Valid() && Has(i) && clust == chain[ClusterOf(fs.g.ss, fs.g.clusterSize, i)] && 2 <= clust < fs.g.nEntries
                              && sect == fs.g.ClusterBase(clust) > 0
    {
      hide ClusterNo, ClusterOff, PerCluster, SlotOf, ClusterOf, SectorOf, FatFs.Valid, IsChain, PerSector, StretchedBy,
        Table, Overlay, Free, Geometry.Valid, Geometry.ClusterBase;
      StartInTable();
      ghost var n := ClusterOf(fs.g.ss, fs.g.clusterSize, i - 1);
      LastLink(fs.Fat(), chain, n);
      ClusterInFat(fs.Fat(), n);
      var clst := fs.GetFat(clust);
      if clst <= 1 {
        return FrIntErr;
      }
      if clst == DISK_ERROR {
        StretchFailed(chain, old(fs.Img()), old(fs.Fat()));
        return FrDiskErr;
      }
      if clst >= fs.g.nEntries {
        if !stretch {
          return FrNoFile;
        }
        ghost var was, img := chain, fs.Img();
        res, clst := Stretch();
        fs.VolumeFacts();
        StretchedFrom(res, was, old(fs.Img()), img, old(fs.Fat()));
        if res != FrOk {
          return;
        }
      }
      clust := clst;
      sect := Clust2Sect(fs.g, clst);
      res := FrOk;
    }

    lemma {:induction false} HasBefore(i: nat, k: nat)
      requires Valid() && i <= k && IsSectorSize(fs.g.ss) && IsClusterSize(fs.g.clusterSize) && Has(k)
      ensures Has(i)
      decreases k
    {
      hide FatFs.Valid, IsChain, ClusterOf, SectorOf, SlotOf, ClusterNo, ClusterOff, PerSector;
      if i < k {
        NextEntry(fs.g.ss, fs.g.clusterSize, k - 1);
        HasBefore(i, k - 1);
      }
    }

    /** Going to an entry step by step: it ends where dir_sdi goes at once, and if the table has the entry only a disk
        error stops it. */
    method Walk(k: nat) returns (res: FResult)
      requires Valid() && k < 0x1_0000
      modifies this`index, this`clust, this`sect, this`slot, this`chain, fs
      ensures Valid() && fs.Fat() == old(fs.Fat()) && chain == old(chain)
      ensures res == FrOk ==> At(k)
      ensures res != FrOk && !fs.faulty ==> !Has(k)
    {
      hide FatFs.Valid, IsChain, ClusterOf, SectorOf, SlotOf, ClusterNo, ClusterOff, PerSector;
      StartInTable();
      ghost var has := Has(k);
      if has {
        HasBefore(0, k);
      }
      res := Sdi(0);
      while res == FrOk && index < k
        invariant Valid() && fs.Fat() == old(fs.Fat()) && chain == old(chain) && (has <==> Has(k))
        invariant res == FrOk ==> At(index) && index <= k
        invariant res != FrOk && !fs.faulty ==> !has
        decreases res == FrOk, k - index
      {
        if has {
          HasBefore(index + 1, k);
        }
        res := Next(false);
      }
    }
  }

  /** The place of an entry does not depend on how it was reached. */
  lemma SamePlace(d: Dir, e: Dir)
    requires d.fs == e.fs && d.sClust == e.sClust && d.dirBase == e.dirBase && d.At(d.index) && e.At(e.index)
      && d.index == e.index
    ensures d.clust == e.clust && d.sect == e.sect && d.slot == e.slot
  {
    if !d.IsStatic() {
      ChainUnique(d.fs.Fat(), d.chain, e.chain);
    }
  }

  /** Different entries are in different places: no two indices of a table share a sector and slot. */
  lemma PlacesApart(d: Dir, e: Dir)
    requires d.fs == e.fs && d.sClust == e.sClust && d.dirBase == e.dirBase && d.At(d.index) && e.At(e.index)
      && d.index != e.index
    ensures d.sect != e.sect || d.slot != e.slot
  {
    hide FatFs.Valid, ClusterOf, SectorOf, SlotOf, ClusterNo, ClusterOff, PerSector, IsChain;
    var ss, cs, j, k := d.fs.g.ss, d.fs.g.clusterSize, d.index, e.index;
    d.StartInTable();
    Rebuilt(ss, cs, j, k);
    if !d.IsStatic() {
      ChainUnique(d.fs.Fat(), d.chain, e.chain);
      ChainInjective(d.fs.Fat(), d.chain);
      var a, b := ClusterOf(ss, cs, j), ClusterOf(ss, cs, k);
      assert d.clust == e.clust ==> a == b;
      if d.sect == e.sect {
        ClustersApart(d.fs.g, d.clust, e.clust, SectorOf(ss, cs, j), SectorOf(ss, cs, k));
      }
    }
  }

  /** An index is made up of its cluster, sector and slot. */
  lemma Rebuilt(ss: nat, cs: nat, j: nat, k: nat)
    requires IsSectorSize(ss) && IsClusterSize(cs)
    ensures SlotOf(ss, j) == SlotOf(ss, k) && ClusterNo(PerSector(ss), j) == ClusterNo(PerSector(ss), k) ==> j == k
    ensures (SlotOf(ss, j) == SlotOf(ss, k) && SectorOf(ss, cs, j) == SectorOf(ss, cs, k)
             && ClusterOf(ss, cs, j) == ClusterOf(ss, cs, k)) ==> j == k
    ensures SectorOf(ss, cs, j) < cs && SectorOf(ss, cs, k) < cs
  {
    hide ClusterNo, ClusterOff, PerSector;
    Determined(PerSector(ss), j, k);
    Determined(cs, ClusterNo(PerSector(ss), j), ClusterNo(PerSector(ss), k));
  }

  lemma Determined(n: nat, i: nat, j: nat)
    requires IsClusterSize(n)
    ensures ClusterNo(n, i) == ClusterNo(n, j) && ClusterOff(n, i) == ClusterOff(n, j) ==> i == j
    ensures ClusterOff(n, i) < n && ClusterOff(n, j) < n
  {}
}
