/** The one-sector write-back window of a FATFS object, and the FAT entries read and written through it. */
module FatVolume {
  import Arith
  import opened Bytes
  import opened FatImage

  datatype FResult = FrOk | FrDiskErr | FrIntErr | FrNoFile | FrDenied

  const NO_SECTOR: nat := 0xFFFF_FFFF
  const DISK_ERROR: nat := 0xFFFF_FFFF
  const INTERNAL_ERROR: nat := 1
  const UNKNOWN_COUNT: nat := 0xFFFF_FFFF

  /** Equal, the extra copies of the FAT aside. */
  ghost predicate SameButMirrors(g: Geometry, a: Image, b: Image) {
    |a| == |b| && forall s :: 0 <= s < |a| && !g.InMirror(s) ==> a[s] == b[s]
  }

  /** Equal outside the FAT and its copies. */
  ghost predicate SameButFats(g: Geometry, a: Image, b: Image) {
    |a| == |b| && forall s :: 0 <= s < |a| && !g.InMirror(s) && !g.InFat(s) ==> a[s] == b[s]
  }

  lemma SameButFatsRefl(g: Geometry, a: Image)
    ensures SameButFats(g, a, a)
  {}

  lemma SameButFatsTrans(g: Geometry, a: Image, b: Image, c: Image)
    requires SameButFats(g, a, b) && SameButFats(g, b, c)
    ensures SameButFats(g, a, c)
  {}

  /** The second FAT equals the first, save perhaps for one sector. */
  ghost predicate Copied(g: Geometry, disk: Image, pending: int)
    requires g.Valid() && WellSized(g, disk)
  {
    g.nFats == 2 ==> forall s {:trigger g.InFat(s)} :: g.InFat(s) && s != pending ==> disk[s + g.fatSize] == disk[s]
  }

  lemma WriteCopy(g: Geometry, disk: Image, s: int, data: Sector)
    requires g.Valid() && WellSized(g, disk) && g.InFat(s) && g.nFats == 2 && |data| == g.ss
    requires Copied(g, disk, s) && disk[s] == data
    ensures var d := disk[s + g.fatSize := data]; WellSized(g, d) && Copied(g, d, -1)
    ensures WellSized(g, disk[s + g.fatSize := data]) && Copied(g, disk[s + g.fatSize := data], s)
  {}

  ghost function Overlay(disk: Image, winSect: nat, win: Sector): (img: Image)
    ensures |img| == |disk|
  {
    if winSect < |disk| then disk[winSect := win] else disk
  }

  /** Behind the FATs, the disk itself has only changed where the window was or is. */
  lemma DataKept(g: Geometry, disk: Image, winSect: nat, win: Sector, disk': Image, winSect': nat, win': Sector)
    requires g.Valid() && |disk| == g.total
    requires SameButFats(g, Overlay(disk, winSect, win), Overlay(disk', winSect', win'))
    ensures |disk'| == g.total
    ensures forall s :: g.dataBase <= s < g.total && s != winSect && s != winSect' ==> disk'[s] == disk[s]
  {
    forall s | g.dataBase <= s < g.total && s != winSect && s != winSect' ensures disk'[s] == disk[s] {
      assert Overlay(disk', winSect', win')[s] == Overlay(disk, winSect, win)[s];
    }
  }

  /** Writing behind the FATs, but not where the window is. */
  lemma DataWritten(g: Geometry, disk: Image, winSect: nat, win: Sector, sector: nat, cc: nat, data: seq<byte>, c: int)
    requires g.Valid() && WellSized(g, disk) && |win| == g.ss && !(sector <= winSect < sector + cc)
    requires g.dataBase <= sector && sector + cc <= g.total && |data| == SectorBytes(g.ss, cc)
    ensures var now := Written(g.ss, disk, sector, cc, data);
            && WellSized(g, now) && (Copied(g, disk, c) ==> Copied(g, now, c))
            && (winSect < g.total ==> now[winSect] == disk[winSect])
            && WellSized(g, Overlay(now, winSect, win))
            && forall s :: 0 <= s < g.total && !(sector <= s < sector + cc) ==>
                 Overlay(now, winSect, win)[s] == Overlay(disk, winSect, win)[s]
    ensures g.fatBase + g.fatSize <= g.dataBase
  {
    hide SectorBytes, Part;
    forall s | 0 <= s < cc ensures SectorBytes(g.ss, s + 1) <= |data| && |Part(g.ss, data, s)| == g.ss {
      PartFits(g.ss, cc, s);
    }
  }

  /** The first sector of a cluster, 0 for an invalid cluster number. */
  function Clust2Sect(g: Geometry, clst: nat): nat {
    if 2 <= clst < g.nEntries then g.ClusterBase(clst) else 0
  }

  class FatFs {
    const g: Geometry
    const faulty: bool       // may disk transfers fail?
    var disk: Image
    var win: Sector
    var winSect: nat
    var wFlag: bool          // win holds changes that are not on the disk
    var lastClust: nat
    var freeClust: nat
    var fsiFlag: bool
    ghost var mirrored: bool // every write to a copy of the FAT has succeeded so far

    ghost predicate Valid()
      reads this
    {
      && g.Valid() && WellSized(g, disk) && |win| == g.ss
      && (wFlag ==> winSect < g.total)
      && !g.InMirror(winSect)
      && (!wFlag && winSect < g.total ==> win == disk[winSect])
      && (mirrored ==> Copied(g, disk, if wFlag then winSect else -1))
      && (!faulty ==> mirrored)
    }

    /** What the volume holds: the disk, overlaid by the window. */
    ghost function Img(): Image
      reads this
    {
      Overlay(disk, winSect, win)
    }

    ghost function Fat(): (t: seq<nat>)
      requires Valid()
      reads this
      ensures |t| == g.nEntries
    {
      Table(g, Img())
    }

    method DiskWrite(sector: nat, data: Sector) returns (ok: bool)
      requires sector < |disk|
      modifies `disk
      ensures !faulty ==> ok
      ensures disk == if ok then old(disk)[sector := data] else old(disk)
    {
      ok := true;
      if faulty {
        ok := *;
      }
      if ok {
        disk := disk[sector := data];
      }
    }

    /** A failed transfer may leave anything in the buffer. */
    method DiskRead(sector: nat) returns (ok: bool, data: Sector)
      requires g.Valid() && WellSized(g, disk) && sector < g.total
      ensures !faulty ==> ok
      ensures |data| == g.ss
      ensures ok ==> data == disk[sector]
    {
      ok, data := true, disk[sector];
      if faulty {
        ok := *;
        if !ok {
          data :| |data| == g.ss;
        }
      }
    }

    /** Transfer whole sectors between the drive and memory, past the window. */
    method DiskReadRun(sector: nat, cc: nat) returns (ok: bool, data: seq<byte>)
      requires g.Valid() && WellSized(g, disk) && sector + cc <= g.total
      ensures !faulty ==> ok
      ensures |data| == SectorBytes(g.ss, cc)
      ensures ok ==> data == ReadRun(g.ss, disk, sector, cc)
    {
      ok, data := true, ReadRun(g.ss, disk, sector, cc);
      if faulty {
        ok := *;
        if !ok {
          data :| |data| == SectorBytes(g.ss, cc);
        }
      }
    }

    /** File data goes to sectors behind the FATs that are not in the window. */
    method DiskWriteRun(sector: nat, cc: nat, data: seq<byte>) returns (ok: bool)
      requires Valid() && g.dataBase <= sector && sector + cc <= g.total && |data| == SectorBytes(g.ss, cc)
      requires !(sector <= winSect < sector + cc)
      modifies this`disk
      ensures !faulty ==> ok
      ensures Valid() && Fat() == old(Fat())
      ensures disk == if ok then Written(g.ss, old(disk), sector, cc, data) else old(disk)
      ensures forall s :: 0 <= s < g.total && !(sector <= s < sector + cc) ==> Img()[s] == old(Img())[s]
    {
      hide Table, SectorBytes, Written, Copied, WellSized, Geometry.Valid, Overlay;
      VolumeFacts();
      ok := true;
      if faulty {
        ok := *;
      }
      if ok {
        ghost var img := Img();
        DataWritten(g, disk, winSect, win, sector, cc, data, if wFlag then winSect else -1);
        disk := Written(g.ss, disk, sector, cc, data);
        TableFrame(g, img, Img());
      }
    }

    /** Reflect the FAT sector in the window, just written, in the other copies. Failures go unreported. */
    method ReflectWindow()
      requires g.Valid() && WellSized(g, disk) && g.InFat(winSect) && |win| == g.ss
      requires disk[winSect] == win && (!faulty ==> mirrored) && (mirrored ==> Copied(g, disk, winSect))
      modifies this`disk, this`mirrored
      ensures WellSized(g, disk) && SameButMirrors(g, old(disk), disk)
      ensures (mirrored ==> Copied(g, disk, -1)) && (!faulty ==> mirrored) && (!old(mirrored) ==> !mirrored)
    {
      var wSect := winSect;
      var nf := g.nFats;
      while nf >= 2
        invariant nf <= g.nFats && (nf == g.nFats || nf < 2)
          && wSect == winSect + (if nf == g.nFats then 0 else g.fatSize)
        invariant WellSized(g, disk) && disk[winSect] == win && SameButMirrors(g, old(disk), disk)
        invariant mirrored ==> Copied(g, disk, if nf == 2 then winSect else -1)
        invariant (!faulty ==> mirrored) && (!old(mirrored) ==> !mirrored)
      {
        wSect := wSect + g.fatSize;
        if mirrored {
          WriteCopy(g, disk, winSect, win);
        }
        var copied := DiskWrite(wSect, win);
        if !copied {
          mirrored := false;
        }
        nf := nf - 1;
      }
    }

    /** Write back the window if it is dirty, and reflect a FAT sector in the other copies. */
    method SyncWindow() returns (res: FResult)
      requires Valid()
      modifies this`disk, this`wFlag, this`mirrored
      ensures Valid() && (res == FrOk || res == FrDiskErr) && (!faulty ==> res == FrOk)
      ensures SameButMirrors(g, old(Img()), Img())
      ensures res == FrOk ==> !wFlag
      ensures forall s :: 0 <= s < g.total && !g.InMirror(s) && s != winSect ==> disk[s] == old(disk[s])
      ensures !old(mirrored) ==> !mirrored
    {
      res := FrOk;
      if wFlag {
        var ok := DiskWrite(winSect, win);
        if !ok {
          res := FrDiskErr;
        } else {
          wFlag := false;
          if g.InFat(winSect) {
            ReflectWindow();
          }
        }
      }
    }

    /** Make a sector appear in the window. What the volume holds does not change, even when a transfer fails. */
    method MoveWindow(sector: nat) returns (res: FResult)
      requires Valid() && sector < g.total && !g.InMirror(sector)
      modifies this`disk, this`wFlag, this`winSect, this`mirrored, this`win
      ensures Valid() && (res == FrOk || res == FrDiskErr) && (!faulty ==> res == FrOk)
      ensures SameButMirrors(g, old(Img()), Img())
      ensures res == FrOk ==> winSect == sector
      ensures winSect == old(winSect) || winSect == sector || winSect == NO_SECTOR
      ensures !old(mirrored) ==> !mirrored
    {
      res := FrOk;
      if sector != winSect {
        res := SyncWindow();
        if res == FrOk {
          var ok, data := DiskRead(sector);
          win := data;
          if ok {
            winSect := sector;
          } else {
            winSect := NO_SECTOR;
            res := FrDiskErr;
          }
        }
      }
    }

    /** With no changes in the window, the first c sectors of a cluster are zeros and all else is as in img. */
    ghost predicate Swept(img: Image, clst: nat, c: nat)
      requires 2 <= clst
      reads this`disk, this`mirrored
    {
      && g.Valid() && WellSized(g, disk) && |img| == g.total
      && (mirrored ==> Copied(g, disk, -1)) && (!faulty ==> mirrored)
      && SweptTo(img, disk, clst, c)
    }

    ghost predicate SweptTo(img: Image, img': Image, clst: nat, c: nat)
      requires 2 <= clst && |img| == |img'| == g.total
    {
      forall s :: 0 <= s < g.total && !g.InMirror(s) ==>
        img'[s] == if g.ClusterBase(clst) <= s < g.ClusterBase(clst) + c then Zeros(g.ss) else img[s]
    }

    lemma ClusterBehindFats(clst: nat)
      requires Valid() && 2 <= clst < g.nEntries
      ensures Clust2Sect(g, clst) == g.ClusterBase(clst) && g.dataBase <= g.ClusterBase(clst)
        && g.ClusterBase(clst) + g.clusterSize <= g.total
      ensures g.fatBase + g.fatSize <= g.fatBase + g.FatSectors() <= g.dataBase && 0 < g.clusterSize
    {
      assert g.ClusterInVolume(clst);
      Arith.MulMono(0, clst - 2, g.clusterSize);
    }

    /** The zeros in the window are to go to the next sector. */
    lemma ToSweep(img: Image, clst: nat, c: nat)
      requires 2 <= clst < g.nEntries && Swept(img, clst, c) && c < g.clusterSize
      requires wFlag && win == Zeros(g.ss) && winSect == g.ClusterBase(clst) + c
      requires g.dataBase <= g.ClusterBase(clst) && g.ClusterBase(clst) + g.clusterSize <= g.total
        && g.fatBase + g.FatSectors() <= g.dataBase
      ensures Valid() && SweptTo(img, Img(), clst, c + 1)
    {
      hide Geometry.Valid;
    }

    lemma HasSwept(img: Image, clst: nat, c: nat)
      requires 2 <= clst && Valid() && !wFlag && |img| == g.total && SweptTo(img, Img(), clst, c)
      ensures Swept(img, clst, c)
    {
      hide Geometry.Valid;
    }

    /** The whole cluster has been swept. */
    lemma AllSwept(img: Image, clst: nat)
      requires 2 <= clst && Swept(img, clst, g.clusterSize) && 0 < g.clusterSize
      requires !wFlag && win == Zeros(g.ss) && winSect == g.ClusterBase(clst)
      requires g.dataBase <= g.ClusterBase(clst) && g.ClusterBase(clst) + g.clusterSize <= g.total
        && g.fatBase + g.FatSectors() <= g.dataBase
      ensures Valid() && SweptTo(img, Img(), clst, g.clusterSize)
    {
      hide Geometry.Valid;
    }

    lemma OnlyCluster(before: Image, img: Image, mid: Image, after: Image, clst: nat, c: nat)
      requires 2 <= clst && c <= g.clusterSize && |before| == |img| == |mid| == |after| == g.total
      requires SameButMirrors(g, before, img) && SweptTo(img, mid, clst, c) && SameButMirrors(g, mid, after)
      ensures SweptTo(img, after, clst, c)
      ensures forall s :: 0 <= s < g.total && !g.InMirror(s) && !InCluster(g, clst, s) ==> after[s] == before[s]
    {}

    lemma ClusterCleared(img: Image, after: Image, clst: nat)
      requires 2 <= clst && |img| == |after| == g.total && SweptTo(img, after, clst, g.clusterSize)
      requires g.fatBase + g.FatSectors() <= g.dataBase <= g.ClusterBase(clst)
      ensures forall s :: 0 <= s < g.total && InCluster(g, clst, s) ==> after[s] == Zeros(g.ss)
    {}

    /** Fill a cluster with zeros, sector by sector through the window. */
    method ClearCluster(clst: nat) returns (res: FResult)
      requires Valid() && 2 <= clst < g.nEntries
      modifies this`disk, this`wFlag, this`winSect, this`mirrored, this`win
      ensures Valid() && (res == FrOk || (res == FrDiskErr && faulty)) && |Img()| == |old(Img())| == g.total
      ensures forall s :: 0 <= s < g.total && !g.InMirror(s) && !InCluster(g, clst, s) ==> Img()[s] == old(Img())[s]
      ensures res == FrOk ==>
        winSect == g.ClusterBase(clst)
          && forall s :: 0 <= s < g.total && InCluster(g, clst, s) ==> Img()[s] == Zeros(g.ss)
    {
      hide Valid, Overlay, Swept, SweptTo, SameButMirrors, Geometry.Valid, Geometry.ClusterBase, InCluster;
      VolumeFacts();
      ClusterBehindFats(clst);
      ghost var img0 := Img();
      res := SyncWindow();
      VolumeFacts();
      ghost var img := Img();
      SweptNone(img, clst);
      SameAgain(img);
      OnlyCluster(img0, img, img, img, clst, 0);
      if res != FrOk {
        return;
      }
      HasSwept(img, clst, 0);
      win := Zeros(g.ss);
      winSect := Clust2Sect(g, clst);
      var c := 0;
      while c < g.clusterSize
        invariant c <= g.clusterSize && !wFlag && win == Zeros(g.ss) && winSect == g.ClusterBase(clst) + c
        invariant Swept(img, clst, c) && res == FrOk
      {
        wFlag := true;
        ToSweep(img, clst, c);
        ghost var mid := Img();
        res := SyncWindow();
        VolumeFacts();
        OnlyCluster(img0, img, mid, Img(), clst, c + 1);
        if res != FrOk {
          return;
        }
        HasSwept(img, clst, c + 1);
        c := c + 1;
        winSect := winSect + 1;
      }
      winSect := winSect - c;
      AllSwept(img, clst);
      VolumeFacts();
      SameAgain(Img());
      OnlyCluster(img0, img, Img(), Img(), clst, c);
      ClusterCleared(img, Img(), clst);
    }

    lemma SweptNone(img: Image, clst: nat)
      requires 2 <= clst && |img| == g.total
      ensures SweptTo(img, img, clst, 0)
    {}

    lemma SameAgain(img: Image)
      ensures SameButMirrors(g, img, img)
    {}

    /** Bring byte i of the FAT into the window and read it. */
    method ReadFatByte(i: nat) returns (res: FResult, b: byte)
      requires Valid() && ByteInFat(g, i)
      modifies this`disk, this`wFlag, this`winSect, this`mirrored, this`win
      ensures Valid() && SameButMirrors(g, old(Img()), Img())
      ensures (res == FrOk || res == FrDiskErr) && (!faulty ==> res == FrOk)
      ensures res == FrOk ==> b == FatByte(g, Img(), i) && winSect == g.fatBase + SectorNo(g.ss, i)
      ensures winSect == old(winSect) || winSect == g.fatBase + SectorNo(g.ss, i) || winSect == NO_SECTOR
      ensures !old(mirrored) ==> !mirrored
    {
      res := MoveWindow(g.fatBase + SectorNo(g.ss, i));
      b := if res == FrOk then win[SectorOff(g.ss, i)] else 0;
    }

    lemma VolumeFacts()
      requires Valid()
      ensures g.Valid() && WellSized(g, Img()) && |win| == g.ss && |Img()| == g.total
      ensures 1 <= g.fatBase && g.fatBase + g.FatSectors() <= g.dataBase <= g.total && g.fatSize <= g.FatSectors()
    {}

    /** Read a FAT entry: 1 for a cluster number out of range, DISK_ERROR when a transfer fails. */
    method GetFat(clst: nat) returns (val: nat)
      requires Valid()
      modifies this`disk, this`wFlag, this`winSect, this`mirrored, this`win
      ensures Valid() && SameButMirrors(g, old(Img()), Img())
      ensures clst < 2 || clst >= g.nEntries ==> val == INTERNAL_ERROR && Img() == old(Img())
      ensures Fat() == old(Fat())
      ensures 2 <= clst < g.nEntries ==> val == Fat()[clst] || (faulty && val == DISK_ERROR)
      ensures 2 <= clst < g.nEntries && val != DISK_ERROR ==> g.InFat(winSect)
      ensures winSect == old(winSect) || g.InFat(winSect) || winSect == NO_SECTOR
      ensures !old(mirrored) ==> !mirrored
    {
      if clst < 2 || clst >= g.nEntries {
        return INTERNAL_ERROR;
      }
      hide Entry, RawEntry;
      var res;
      ghost var img := Img();
      match g.fatType {
        case Fat12 => res, val := GetFat12(clst);
        case Fat16 => res, val := GetFat16(clst);
        case Fat32 => res, val := GetFat32(clst);
      }
      TableFrame(g, img, Img());
      if res != FrOk {
        val := DISK_ERROR;
      }
    }

    method GetFat12(clst: nat) returns (res: FResult, val: nat)
      requires Valid() && clst < g.nEntries && g.fatType == Fat12
      modifies this`disk, this`wFlag, this`winSect, this`mirrored, this`win
      ensures EntryRead(clst, res, val) && SameButMirrors(g, old(Img()), Img())
      ensures winSect == old(winSect) || g.InFat(winSect) || winSect == NO_SECTOR
      ensures !old(mirrored) ==> !mirrored
    {
      hide Entry, RawEntry, FatByte, ByteInFat, SectorNo, SectorOff, Overlay, Valid, Geometry.Valid, WellSized;
      VolumeFacts();
      Entry12(g, Img(), clst);
      var bc := clst + clst / 2;
      InFirstFat(bc);
      InFirstFat(bc + 1);
      var b0, b1;
      val := 0;
      res, b0 := ReadFatByte(bc);
      VolumeFacts();
      if res == FrOk {
        ghost var mid := Img();
        res, b1 := ReadFatByte(bc + 1);
        VolumeFacts();
        if res == FrOk {
          BytesFrame(g, mid, Img());
          assert b0 == FatByte(g, Img(), bc);
          Entry12(g, Img(), clst);
          var wc := b0 as nat + 256 * b1 as nat;
          val := if clst % 2 == 1 then wc / 16 else wc % 4096;
        }
      }
    }

    method GetFat16(clst: nat) returns (res: FResult, val: nat)
      requires Valid() && clst < g.nEntries && g.fatType == Fat16
      modifies this`disk, this`wFlag, this`winSect, this`mirrored, this`win
      ensures EntryRead(clst, res, val) && SameButMirrors(g, old(Img()), Img())
      ensures winSect == old(winSect) || g.InFat(winSect) || winSect == NO_SECTOR
      ensures !old(mirrored) ==> !mirrored
    {
      hide Entry, RawEntry;
      Aligned16(g.ss, clst);
      EntryFits(g, clst);
      assert ByteInFat(g, 2 * clst);
      val := 0;
      res := MoveWindow(g.fatBase + WordSectorNo(g.ss, clst));
      if res == FrOk {
        Entry16(g, Img(), clst);
        val := LoadWord(SectorOff(g.ss, 2 * clst));
      }
    }

    method GetFat32(clst: nat) returns (res: FResult, val: nat)
      requires Valid() && clst < g.nEntries && g.fatType == Fat32
      modifies this`disk, this`wFlag, this`winSect, this`mirrored, this`win
      ensures EntryRead(clst, res, val) && SameButMirrors(g, old(Img()), Img())
      ensures winSect == old(winSect) || g.InFat(winSect) || winSect == NO_SECTOR
      ensures !old(mirrored) ==> !mirrored
    {
      hide Entry, RawEntry;
      Aligned32(g.ss, clst);
      EntryFits(g, clst);
      assert ByteInFat(g, 4 * clst);
      val := 0;
      res := MoveWindow(g.fatBase + DwordSectorNo(g.ss, clst));
      if res == FrOk {
        Entry32(g, Img(), clst);
        val := (LoadWord(SectorOff(g.ss, 4 * clst)) + 0x1_0000 * LoadWord(SectorOff(g.ss, 4 * clst) + 2)) % 0x1000_0000;
      }
    }

    /** A successful read gives the entry and leaves the window on the FAT. */
    ghost predicate EntryRead(clst: nat, res: FResult, val: nat)
      requires clst < g.nEntries
      reads this
    {
      && Valid() && (res == FrOk || res == FrDiskErr) && (!faulty ==> res == FrOk)
      && (res == FrOk ==> val == Entry(g, Img(), clst) && g.InFat(winSect))
    }

    function LoadWord(p: nat): nat
      requires p + 1 < |win|
      reads this
    {
      win[p] as nat + 256 * win[p + 1] as nat
    }

    /** Change bytes of the FAT sector in the window. */
    method StoreFatBytes(i: nat, bytes: seq<byte>)
      requires Valid() && ByteInFat(g, i) && winSect == g.fatBase + SectorNo(g.ss, i)
      requires SectorOff(g.ss, i) + |bytes| <= g.ss
      modifies this`win, this`wFlag
      ensures Valid() && wFlag && SameButFats(g, old(Img()), Img())
      ensures forall j :: i <= j < i + |bytes| ==> ByteInFat(g, j) && FatByte(g, Img(), j) == bytes[j - i]
      ensures SameFatBytesBut(g, old(Img()), Img(), i, i + |bytes|)
    {
      hide FatByte, SameFatBytesBut, SectorNo, SectorOff, Geometry.Valid;
      VolumeFacts();
      ghost var img := Img();
      BytesStored(g, img, i, bytes);
      InFirstFat(i);
      win := Store(win, SectorOff(g.ss, i), bytes);
      wFlag := true;
      assert Img() == img[winSect := win];
    }

    /** Bring byte i of the FAT into the window and change it there. */
    method ModifyFatByte(i: nat, f: byte -> byte) returns (res: FResult)
      requires Valid() && ByteInFat(g, i)
      modifies this`disk, this`wFlag, this`winSect, this`mirrored, this`win
      ensures Valid() && (res == FrOk || (res == FrDiskErr && faulty))
      ensures SameButFats(g, old(Img()), Img())
      ensures SameFatBytesBut(g, old(Img()), Img(), i, i + 1)
      ensures FatByte(g, Img(), i) == if res == FrOk then f(FatByte(g, old(Img()), i)) else FatByte(g, old(Img()), i)
      ensures res == FrOk ==> wFlag && winSect == g.fatBase + SectorNo(g.ss, i)
      ensures winSect == old(winSect) || g.InFat(winSect) || winSect == NO_SECTOR
      ensures !old(mirrored) ==> !mirrored
    {
      ghost var img := Img();
      var b;
      res, b := ReadFatByte(i);
      BytesFrame(g, img, Img());
      if res == FrOk {
        StoreFatBytes(i, [f(b)]);
      }
    }

    /** What a write of an entry keeps, whether it succeeds or not. */
    ghost predicate OthersKept(before: Image, c: nat)
      requires Valid() && WellSized(g, before) && c < g.nEntries
      reads this
    {
      && SameButFats(g, before, Img())
      && forall d :: 0 <= d < g.nEntries && d != c ==> RawEntry(g, Img(), d) == RawEntry(g, before, d)
    }

    /** Set a FAT entry. Every other entry and every sector outside the FATs is kept, even if a transfer fails
        half-way. */
    method PutFat(clst: nat, val: nat) returns (res: FResult)
      requires Valid() && val < 0x1_0000_0000
      modifies this`disk, this`wFlag, this`winSect, this`mirrored, this`win
      ensures Valid() && (res == FrIntErr <==> clst < 2 || clst >= g.nEntries)
        && (res == FrOk || res == FrIntErr || res == FrDiskErr)
      ensures res == FrIntErr ==> Img() == old(Img())
      ensures res == FrDiskErr ==> faulty
      ensures SameButFats(g, old(Img()), Img())
      ensures 2 <= clst < g.nEntries ==> OthersKept(old(Img()), clst)
      ensures 2 <= clst < g.nEntries ==> Fat() == old(Fat())[clst := Fat()[clst]]
      ensures res == FrOk ==> Fat() == old(Fat())[clst := g.Trunc(val)]
      ensures res == FrOk && g.fatType == Fat32 && val < 0x1000_0000 ==>
        RawEntry(g, Img(), clst) / 0x1000_0000 == RawEntry(g, old(Img()), clst) / 0x1000_0000
      ensures res == FrOk ==> g.InFat(winSect) && wFlag
      ensures winSect == old(winSect) || g.InFat(winSect) || winSect == NO_SECTOR
      ensures !old(mirrored) ==> !mirrored
    {
      if clst < 2 || clst >= g.nEntries {
        return FrIntErr;
      }
      hide Entry, RawEntry;
      match g.fatType {
        case Fat16 => res := PutFat16(clst, val);
        case Fat32 => res := PutFat32(clst, val);
        case Fat12 => res := PutFat12(clst, val);
      }
    }

    lemma InFirstFat(i: nat)
      requires g.Valid() && ByteInFat(g, i)
      ensures g.InFat(g.fatBase + SectorNo(g.ss, i))
    {}

    method PutFat12(clst: nat, val: nat) returns (res: FResult)
      requires Valid() && 2 <= clst < g.nEntries && g.fatType == Fat12
      modifies this`disk, this`wFlag, this`winSect, this`mirrored, this`win
      ensures Valid() && (res == FrOk || (res == FrDiskErr && faulty))
      ensures OthersKept(old(Img()), clst)
      ensures res == FrOk ==> Entry(g, Img(), clst) == g.Trunc(val) && g.InFat(winSect) && wFlag
      ensures winSect == old(winSect) || g.InFat(winSect) || winSect == NO_SECTOR
      ensures !old(mirrored) ==> !mirrored
    {
      hide Entry, RawEntry, FatByte, ByteInFat, SameFatBytesBut, Low12, High12, SectorNo, SectorOff, Overlay, Valid,
        Geometry.Valid, WellSized;
      VolumeFacts();
      var bc, odd := clst + clst / 2, clst % 2 == 1;
      Entry12(g, Img(), clst);
      ghost var img := Img();
      res := ModifyFatByte(bc, p => Low12(odd, p, val));
      VolumeFacts();
      if res == FrOk {
        ghost var mid := Img();
        res := ModifyFatByte(bc + 1, p => High12(odd, p, val));
        VolumeFacts();
        TwoBytes(g, img, mid, Img(), bc);
        Put12(g, img, Img(), clst, val);
        InFirstFat(bc + 1);
      } else {
        NoByte(g, img, Img(), bc);
        Unchanged(g, img, Img());
      }
    }

    method PutFat16(clst: nat, val: nat) returns (res: FResult)
      requires Valid() && 2 <= clst < g.nEntries && g.fatType == Fat16
      modifies this`disk, this`wFlag, this`winSect, this`mirrored, this`win
      ensures Valid() && (res == FrOk || (res == FrDiskErr && faulty))
      ensures OthersKept(old(Img()), clst)
      ensures res == FrOk ==> Entry(g, Img(), clst) == g.Trunc(val) && g.InFat(winSect) && wFlag
      ensures winSect == old(winSect) || g.InFat(winSect) || winSect == NO_SECTOR
      ensures !old(mirrored) ==> !mirrored
    {
      hide Entry, RawEntry, FatByte, Overlay, Valid, Geometry.Valid, WellSized;
      VolumeFacts();
      Aligned16(g.ss, clst);
      Entry16(g, Img(), clst);
      ghost var img := Img();
      res := MoveWindow(g.fatBase + WordSectorNo(g.ss, clst));
      VolumeFacts();
      TableFrame(g, img, Img());
      if res == FrOk {
        ghost var img' := Img();
        StoreFatBytes(2 * clst, Word(val));
        VolumeFacts();
        Put16(g, img', Img(), clst, val);
      }
    }

    method PutFat32(clst: nat, val: nat) returns (res: FResult)
      requires Valid() && 2 <= clst < g.nEntries && g.fatType == Fat32 && val < 0x1_0000_0000
      modifies this`disk, this`wFlag, this`winSect, this`mirrored, this`win
      ensures Valid() && (res == FrOk || (res == FrDiskErr && faulty))
      ensures OthersKept(old(Img()), clst)
      ensures res == FrOk ==> Entry(g, Img(), clst) == g.Trunc(val) && g.InFat(winSect) && wFlag
      ensures res == FrOk && val < 0x1000_0000 ==>
        RawEntry(g, Img(), clst) / 0x1000_0000 == RawEntry(g, old(Img()), clst) / 0x1000_0000
      ensures winSect == old(winSect) || g.InFat(winSect) || winSect == NO_SECTOR
      ensures !old(mirrored) ==> !mirrored
    {
      hide Entry, RawEntry, FatByte, WithTop, Dword, Overlay, Valid, Geometry.Valid, WellSized;
      VolumeFacts();
      Aligned32(g.ss, clst);
      Entry32(g, Img(), clst);
      assert ByteInFat(g, 4 * clst);
      ghost var img := Img();
      res := MoveWindow(g.fatBase + DwordSectorNo(g.ss, clst));
      VolumeFacts();
      TableFrame(g, img, Img());
      if res == FrOk {
        ghost var img' := Img();
        TopNibble(img', clst);
        var top := LoadWord(SectorOff(g.ss, 4 * clst) + 2) / 0x1000;
        TopKept(val, top);
        var v := WithTop(val, top);
        StoreFatBytes(4 * clst, Dword(v));
        VolumeFacts();
        Put32(g, img', Img(), clst, v);
      }
    }

    /** The window's view of the four bits FAT32 keeps out of an entry. */
    lemma TopNibble(img: Image, clst: nat)
      requires Valid() && img == Img() && 2 <= clst < g.nEntries && g.fatType == Fat32
      requires winSect == g.fatBase + DwordSectorNo(g.ss, clst)
      ensures SectorOff(g.ss, 4 * clst) + 3 < g.ss
      ensures LoadWord(SectorOff(g.ss, 4 * clst) + 2) / 0x1000 == RawEntry(g, img, clst) / 0x1000_0000
    {
      hide Entry, RawEntry;
      Aligned32(g.ss, clst);
      Entry32(g, img, clst);
      assert ByteInFat(g, 4 * clst);
      assert img[winSect] == win;
      assert FatByte(g, img, 4 * clst + 2) == win[SectorOff(g.ss, 4 * clst) + 2];
      assert FatByte(g, img, 4 * clst + 3) == win[SectorOff(g.ss, 4 * clst) + 3];
    }
  }
}
