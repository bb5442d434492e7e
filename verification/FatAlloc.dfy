/** Allocating, freeing and counting clusters through the FAT window. */
module FatAlloc {
  import Arith
  import opened Bytes
  import opened FatImage
  import opened FatVolume
  import opened FatChain

  const LAST_LINK: nat := 0x0FFF_FFFF

  /** The cached free-cluster count, when it is known, is the number of zero entries. */
  ghost predicate CountOk(fs: FatFs)
    requires fs.Valid()
    reads fs
  {
    fs.freeClust != UNKNOWN_COUNT ==> fs.freeClust == |Free(fs.Fat())|
  }

  /** get_fat reports entries holding 1 as an internal error. */
  ghost predicate NoOnes(fat: FatTable) {
    forall c :: 2 <= c < |fat| ==> fat[c] != 1
  }

  /** What linking a new cluster does to the table: clst == 0 starts a chain. */
  ghost function Linked(fat: FatTable, clst: nat, ncl: nat, mark: nat): FatTable
    requires clst < |fat| && ncl < |fat|
  {
    if clst == 0 then fat[ncl := mark] else fat[ncl := mark][clst := ncl]
  }

  /** Clusters the circular search has passed when it stands on ncl, having started from scl. */
  ghost predicate Passed(scl: nat, ncl: nat, c: nat) {
    if scl <= ncl then scl < c <= ncl else scl < c || 2 <= c <= ncl
  }

  /** Find a free cluster after scl, going round: 0 when there is none. */
  method FindFree(fs: FatFs, scl: nat) returns (ncl: nat)
    requires fs.Valid() && 1 <= scl < fs.g.nEntries
    modifies fs`disk, fs`wFlag, fs`winSect, fs`mirrored, fs`win
    ensures fs.Valid() && fs.Fat() == old(fs.Fat()) && SameButMirrors(fs.g, old(fs.Img()), fs.Img())
    ensures ncl == 0 ==> Free(fs.Fat()) == {}
    ensures 2 <= ncl < DISK_ERROR ==> ncl < fs.g.nEntries && fs.Fat()[ncl] == 0
    ensures ncl == INTERNAL_ERROR ==> !NoOnes(fs.Fat())
    ensures ncl == DISK_ERROR ==> fs.faulty
    ensures ncl <= DISK_ERROR
    ensures ncl != DISK_ERROR && ncl != INTERNAL_ERROR ==> fs.g.InFat(fs.winSect)
    ensures fs.winSect == old(fs.winSect) || fs.g.InFat(fs.winSect) || fs.winSect == NO_SECTOR
    ensures !old(fs.mirrored) ==> !fs.mirrored
  {
    hide Table, Entry, RawEntry;
    var n := fs.g.nEntries;
    ncl := scl;
    ghost var wrapped := false;
    while true
      invariant fs.Valid() && fs.Fat() == old(fs.Fat()) && SameButMirrors(fs.g, old(fs.Img()), fs.Img())
      invariant 1 <= ncl < n && (wrapped ==> 2 <= ncl < scl) && (!wrapped ==> scl <= ncl)
      invariant forall c :: 2 <= c < n && Passed(scl, ncl, c) ==> fs.Fat()[c] != 0
      invariant ncl != scl ==> fs.g.InFat(fs.winSect)
      invariant fs.winSect == old(fs.winSect) || fs.g.InFat(fs.winSect) || fs.winSect == NO_SECTOR
      invariant !old(fs.mirrored) ==> !fs.mirrored
      decreases !wrapped, n - ncl
    {
      ncl := ncl + 1;
      if ncl >= n {
        ncl := 2;
        wrapped := true;
        if ncl > scl {
          return 0;
        }
      }
      var cs := fs.GetFat(ncl);
      if cs == 0 {
        return;
      }
      if cs == DISK_ERROR || cs == INTERNAL_ERROR {
        return cs;
      }
      if ncl == scl {
        return 0;
      }
    }
  }

  /** Stretch the chain that ends at clst, or start a new one when clst == 0. Returns 0 when no cluster is free, 1 or
      DISK_ERROR on an error, else the cluster that follows. */
  method CreateChain(fs: FatFs, clst: nat) returns (ncl: nat)
    requires fs.Valid()
    modifies fs
    ensures fs.Valid() && SameButFats(fs.g, old(fs.Img()), fs.Img())
    ensures var fat := old(fs.Fat());
            if clst != 0 && 2 <= clst < fs.g.nEntries && 2 <= fat[clst] < fs.g.nEntries then
              ncl == DISK_ERROR || (ncl == fat[clst] && fs.Fat() == fat)
            else if ncl == 0 then Free(fat) == {} && fs.Fat() == fat
            else if 2 <= ncl < DISK_ERROR then
              && ncl < fs.g.nEntries && fat[ncl] == 0 && clst < fs.g.nEntries
              && fs.Fat() == Linked(fat, clst, ncl, fs.g.Mask())
              && fs.lastClust == ncl
            else (ncl == INTERNAL_ERROR || ncl == DISK_ERROR)
    ensures ncl == INTERNAL_ERROR ==>
      !NoOnes(old(fs.Fat())) || (clst != 0 && (clst == 1 || clst >= fs.g.nEntries || old(fs.Fat())[clst] == 0))
    ensures ncl == DISK_ERROR ==> fs.faulty
    ensures ncl != DISK_ERROR && old(CountOk(fs)) ==> CountOk(fs)
    ensures fs.winSect == old(fs.winSect) || fs.g.InFat(fs.winSect) || fs.winSect == NO_SECTOR
    ensures ncl != DISK_ERROR && ncl != INTERNAL_ERROR ==> fs.g.InFat(fs.winSect)
    ensures !old(fs.mirrored) ==> !fs.mirrored
  {
    hide Table, Entry, RawEntry, Free;
    ghost var fat, img := fs.Fat(), fs.Img();
    var scl;
    if clst == 0 {
      scl := fs.lastClust;
      if scl == 0 || scl >= fs.g.nEntries {
        scl := 1;
      }
    } else {
      var cs := fs.GetFat(clst);
      if cs < 2 {
        return INTERNAL_ERROR;
      }
      if cs == DISK_ERROR {
        return cs;
      }
      if cs < fs.g.nEntries {
        return cs;
      }
      scl := clst;
    }
    ncl := FindFree(fs, scl);
    if ncl == 0 || ncl == INTERNAL_ERROR || ncl == DISK_ERROR {
      return;
    }
    ncl := LinkCluster(fs, clst, ncl);
  }

  /** Mark a free cluster as the last link and hook it behind clst, if there is one. */
  method LinkCluster(fs: FatFs, clst: nat, free: nat) returns (ncl: nat)
    requires fs.Valid() && 2 <= free < fs.g.nEntries && fs.Fat()[free] == 0
    requires clst == 0 || (2 <= clst < fs.g.nEntries && fs.Fat()[clst] >= fs.g.nEntries)
    modifies fs
    ensures fs.Valid() && SameButFats(fs.g, old(fs.Img()), fs.Img())
    ensures ncl == free || (ncl == DISK_ERROR && fs.faulty)
    ensures ncl == free ==>
      && fs.Fat() == Linked(old(fs.Fat()), clst, ncl, fs.g.Mask())
      && fs.lastClust == ncl && (old(CountOk(fs)) ==> CountOk(fs)) && fs.g.InFat(fs.winSect)
    ensures fs.winSect == old(fs.winSect) || fs.g.InFat(fs.winSect) || fs.winSect == NO_SECTOR
    ensures !old(fs.mirrored) ==> !fs.mirrored
  {
    hide Table, Entry, RawEntry, Free;
    hide Geometry.Trunc;
    ghost var fat := fs.Fat();
    TruncValues(fs.g, free);
    Filling(fat, free, fs.g.Mask());
    ncl := free;
    var res := fs.PutFat(ncl, LAST_LINK);
    if res == FrOk && clst != 0 {
      Relinking(fs.Fat(), clst, ncl);
      res := fs.PutFat(clst, ncl);
    }
    FreeFits(fs.Fat());
    if res == FrOk {
      fs.lastClust := ncl;
      if fs.freeClust != UNKNOWN_COUNT {
        fs.freeClust := (fs.freeClust - 1) % 0x1_0000_0000;
        fs.fsiFlag := true;
      }
    } else {
      ncl := DISK_ERROR; // both cluster numbers are in range, so no other error is left
    }
  }

  // ---- freeing ----

  /** First and last sector of a range reported to the drive. */
  type Range = (nat, nat)

  ghost predicate Trimmed(trims: seq<Range>, x: nat) {
    trims != [] && (Trimmed(trims[..|trims| - 1], x) || trims[|trims| - 1].0 <= x <= trims[|trims| - 1].1)
  }

  /** Sector x belongs to one of the clusters. */
  ghost predicate InClusters(g: Geometry, s: seq<nat>, x: nat)
    requires forall i :: 0 <= i < |s| ==> 2 <= s[i]
  {
    s != [] && (InClusters(g, s[..|s| - 1], x) || InCluster(g, Last(s), x))
  }

  lemma {:induction false} InClustersMeans(g: Geometry, s: seq<nat>, x: nat)
    requires forall i :: 0 <= i < |s| ==> 2 <= s[i]
    ensures InClusters(g, s, x) <==> exists i :: 0 <= i < |s| && InCluster(g, s[i], x)
  {
    if s != [] {
      var init := s[..|s| - 1];
      InClustersMeans(g, init, x);
      if i :| 0 <= i < |init| && InCluster(g, init[i], x) {
        assert InCluster(g, s[i], x);
      }
      if i :| 0 <= i < |s| && InCluster(g, s[i], x) && !InCluster(g, Last(s), x) {
        assert InCluster(g, init[i], x);
      }
    }
  }

  /** The ranges reported so far and the run scl..ecl - 1 make up the freed clusters. */
  ghost predicate Covers(g: Geometry, trims: seq<Range>, scl: nat, ecl: nat, freed: seq<nat>)
    requires 2 <= scl && 2 <= ecl && forall i :: 0 <= i < |freed| ==> 2 <= freed[i]
  {
    forall x: nat {:trigger Trimmed(trims, x)} {:trigger InClusters(g, freed, x)} ::
      && (InClusters(g, freed, x) <==> Trimmed(trims, x) || g.ClusterBase(scl) <= x < g.ClusterBase(ecl))
      && !(Trimmed(trims, x) && g.ClusterBase(scl) <= x < g.ClusterBase(ecl))
  }

  lemma NewClusterApart(g: Geometry, freed: seq<nat>, c: nat)
    requires 2 <= c && c !in freed && forall i :: 0 <= i < |freed| ==> 2 <= freed[i]
    ensures forall x: nat :: InCluster(g, c, x) ==> !InClusters(g, freed, x)
  {
    forall x: nat | InCluster(g, c, x) ensures !InClusters(g, freed, x) {
      InClustersMeans(g, freed, x);
      forall i | 0 <= i < |freed| ensures !InCluster(g, freed[i], x) {
        if InCluster(g, freed[i], x) {
          ClustersApart(g, c, freed[i], x - g.ClusterBase(c), x - g.ClusterBase(freed[i]));
        }
      }
    }
  }

  lemma RunGrows(g: Geometry, trims: seq<Range>, scl: nat, ecl: nat, freed: seq<nat>)
    requires 2 <= scl <= ecl && forall i :: 0 <= i < |freed| ==> 2 <= freed[i]
    requires Covers(g, trims, scl, ecl, freed) && ecl !in freed
    ensures Covers(g, trims, scl, ecl + 1, freed + [ecl])
  {
    NewClusterApart(g, freed, ecl);
    Arith.MulMono(scl - 2, ecl - 2, g.clusterSize);
    NextBase(g, ecl);
    var freed' := freed + [ecl];
    assert freed'[..|freed'| - 1] == freed;
    assert forall x: nat :: InClusters(g, freed', x) <==> InClusters(g, freed, x) || InCluster(g, ecl, x);
  }

  lemma NextBase(g: Geometry, c: nat)
    requires 2 <= c
    ensures g.ClusterBase(c + 1) == g.ClusterBase(c) + g.clusterSize
  {}

  lemma RunReported(g: Geometry, trims: seq<Range>, scl: nat, ecl: nat, nxt: nat, freed: seq<nat>)
    requires 2 <= scl <= ecl && 2 <= nxt && 0 < g.clusterSize && forall i :: 0 <= i < |freed| ==> 2 <= freed[i]
    requires Covers(g, trims, scl, ecl + 1, freed)
    ensures Covers(g, trims + [(g.ClusterBase(scl), g.ClusterBase(ecl) + g.clusterSize - 1)], nxt, nxt, freed)
  {
    var r := (g.ClusterBase(scl), g.ClusterBase(ecl) + g.clusterSize - 1);
    NextBase(g, ecl);
    assert (trims + [r])[..|trims + [r]| - 1] == trims;
    assert forall x: nat :: Trimmed(trims + [r], x) <==> Trimmed(trims, x) || r.0 <= x <= r.1;
  }

  /** Take cluster ecl into the current run, and report the run unless the next cluster continues it. */
  function RunStep(g: Geometry, trims: seq<Range>, scl: nat, ecl: nat, nxt: nat): (seq<Range>, nat)
    requires 2 <= scl && 2 <= ecl && 0 < g.clusterSize
  {
    if ecl + 1 == nxt then (trims, scl)
    else (trims + [(g.ClusterBase(scl), g.ClusterBase(ecl) + g.clusterSize - 1)], nxt)
  }

  lemma RunStepCovers(g: Geometry, trims: seq<Range>, scl: nat, ecl: nat, nxt: nat, freed: seq<nat>)
    requires 2 <= scl <= ecl && 2 <= nxt && 0 < g.clusterSize && forall i :: 0 <= i < |freed| ==> 2 <= freed[i]
    requires Covers(g, trims, scl, ecl, freed) && ecl !in freed
    ensures var (t, s) := RunStep(g, trims, scl, ecl, nxt);
            2 <= s <= nxt && (s == nxt <==> ecl + 1 != nxt) && Covers(g, t, s, nxt, freed + [ecl])
  {
    RunGrows(g, trims, scl, ecl, freed);
    if ecl + 1 != nxt {
      RunReported(g, trims, scl, ecl, nxt, freed + [ecl]);
    }
  }

  /** Free the clusters reached from clst; each run of consecutive numbers is reported to the drive for erasure. The
      loop ends on every table, a cyclic one included: each round that goes on clears one more entry. */
  method RemoveChain(fs: FatFs, clst: nat)
    returns (res: FResult, trims: seq<Range>, ghost freed: seq<nat>, ghost next: nat)
    requires fs.Valid()
    modifies fs
    ensures fs.Valid() && SameButFats(fs.g, old(fs.Img()), fs.Img())
    ensures clst < 2 || clst >= fs.g.nEntries ==> res == FrIntErr && freed == [] && trims == []
    ensures forall i :: 0 <= i < |freed| ==> 2 <= freed[i] < fs.g.nEntries
    ensures res != FrDiskErr ==> fs.Fat() == Zeroed(old(fs.Fat()), freed) && (old(CountOk(fs)) ==> CountOk(fs))
    ensures 2 <= clst < fs.g.nEntries && res != FrDiskErr ==>
      freed == Walk(old(fs.Fat()), clst).0 && ((res == FrOk) <==> Walk(old(fs.Fat()), clst).1)
    ensures res == FrDiskErr ==> fs.faulty
    ensures freed != [] ==> next == old(fs.Fat())[Last(freed)]
    // The erased ranges are exactly the freed clusters, unless the last entry read continues the last run.
    ensures freed != [] ==>
      ((forall x: nat :: Trimmed(trims, x) <==> InClusters(fs.g, freed, x)) <==> next != Last(freed) + 1)
    ensures fs.winSect == old(fs.winSect) || fs.g.InFat(fs.winSect) || fs.winSect == NO_SECTOR
    ensures fs.lastClust == old(fs.lastClust)
  {
    hide *;
    ClusterNotEmpty(fs);
    res, trims, freed, next := FrIntErr, [], [], 0;
    NoneZeroed(fs.Fat());
    SameButFatsRefl(fs.g, fs.Img());
    if clst < 2 || clst >= fs.g.nEntries {
      return;
    }
    ghost var fat, start := fs.Fat(), clst;
    var clst, scl, ecl := clst, clst, clst;
    res := FrOk;
    RemovalStart(fs.g, fat, clst);
    while clst < fs.g.nEntries
      invariant fs.Valid() && (old(CountOk(fs)) ==> CountOk(fs)) && SameButFats(fs.g, old(fs.Img()), fs.Img())
        && res == FrOk
      invariant ecl == clst && |fat| == fs.g.nEntries
        && Removing(fs.g, fat, fs.Fat(), start, clst, scl, trims, freed, next)
      invariant fs.winSect == old(fs.winSect) || fs.g.InFat(fs.winSect) || fs.winSect == NO_SECTOR
      invariant fs.lastClust == old(fs.lastClust)
      decreases |Used(fs.Fat())|
    {
      ghost var now, img := fs.Fat(), fs.Img();
      InTable(fs.g, fat, now, start, clst, scl, trims, freed, next);
      var nxt;
      res, nxt := FreeCluster(fs, clst);
      SameButFatsTrans(fs.g, old(fs.Img()), img, fs.Img());
      if res != FrOk || nxt == 0 {
        RemovalEnd(fs.g, fat, now, start, clst, scl, trims, freed, next);
        return;
      }
      Zeroing(now, clst);
      RemovalStep(fs.g, fat, now, start, clst, scl, trims, freed, next);
      freed, next := freed + [clst], nxt;
      trims, scl, ecl := RunStep(fs.g, trims, scl, ecl, nxt).0, RunStep(fs.g, trims, scl, ecl, nxt).1, nxt;
      clst := nxt;
    }
    RemovalEnd(fs.g, fat, fs.Fat(), start, clst, scl, trims, freed, next);
  }

  /** What the removal of the chain from `start` has done when it stands on clst, with a run of clusters from scl on not
      yet reported. */
  ghost predicate Removing(g: Geometry, fat: FatTable, now: FatTable, start: nat, clst: nat, scl: nat,
                           trims: seq<Range>, freed: seq<nat>, next: nat) {
    && 2 <= scl <= clst && 0 < g.clusterSize && (forall i :: 0 <= i < |freed| ==> 2 <= freed[i] < |fat|)
    && now == Zeroed(fat, freed) && 2 <= start
    && Walk(fat, start).0 == freed + Walk(now, clst).0 && Walk(fat, start).1 == Walk(now, clst).1
    && (freed != [] ==> next == clst == fat[Last(freed)])
    && Covers(g, trims, scl, clst, freed)
    && (freed != [] ==> (scl == clst <==> clst != Last(freed) + 1))
  }

  lemma RemovalStart(g: Geometry, fat: FatTable, clst: nat)
    requires 2 <= clst && 0 < g.clusterSize
    ensures Removing(g, fat, fat, clst, clst, clst, [], [], 0)
  {
    NoneZeroed(fat);
    NothingFreed(g, clst);
    assert [] + Walk(fat, clst).0 == Walk(fat, clst).0;
  }

  lemma InTable(g: Geometry, fat: FatTable, now: FatTable, start: nat, clst: nat, scl: nat, trims: seq<Range>,
                freed: seq<nat>, next: nat)
    requires Removing(g, fat, now, start, clst, scl, trims, freed, next)
    ensures 2 <= scl <= clst && forall i :: 0 <= i < |freed| ==> 2 <= freed[i] < |fat|
  {}

  /** One more cluster is freed. */
  lemma RemovalStep(g: Geometry, fat: FatTable, now: FatTable, start: nat, clst: nat, scl: nat, trims: seq<Range>,
                    freed: seq<nat>, next: nat)
    requires Removing(g, fat, now, start, clst, scl, trims, freed, next) && 2 <= clst < |now| == |fat| && now[clst] >= 2
    ensures var nxt, step := now[clst], RunStep(g, trims, scl, clst, now[clst]);
            Removing(g, fat, now[clst := 0], start, nxt, step.1, step.0, freed + [clst], nxt)
  {
    hide Covers, Walk, Zeroed;
    WalkStep(now, clst);
    ZeroedOneMore(fat, freed, clst);
    RunStepCovers(g, trims, scl, clst, now[clst], freed);
    RunStepFacts(g, trims, scl, clst, now[clst]);
    assert freed + ([clst] + Walk(now[clst := 0], now[clst]).0) == (freed + [clst]) + Walk(now[clst := 0], now[clst]).0;
    assert Last(freed + [clst]) == clst;
  }

  lemma RunStepFacts(g: Geometry, trims: seq<Range>, scl: nat, ecl: nat, nxt: nat)
    requires 2 <= scl <= ecl && 2 <= nxt && 0 < g.clusterSize
    ensures var step := RunStep(g, trims, scl, ecl, nxt); 2 <= step.1 <= nxt && (step.1 == nxt <==> nxt != ecl + 1)
  {}

  /** Where the walk ends. */
  lemma RemovalEnd(g: Geometry, fat: FatTable, now: FatTable, start: nat, clst: nat, scl: nat, trims: seq<Range>,
                   freed: seq<nat>, next: nat)
    requires Removing(g, fat, now, start, clst, scl, trims, freed, next) && |now| == |fat|
    ensures clst >= |now| || now[clst] < 2 ==> freed == Walk(fat, start).0
    ensures clst >= |now| || now[clst] == 0 ==> Walk(fat, start).1
    ensures clst < |now| && now[clst] == 1 ==> !Walk(fat, start).1
    ensures now == Zeroed(fat, freed) && forall i :: 0 <= i < |freed| ==> 2 <= freed[i] < |fat|
    ensures freed != [] ==> next == fat[Last(freed)]
    ensures freed != [] ==>
      ((forall x: nat :: Trimmed(trims, x) <==> InClusters(g, freed, x)) <==> next != Last(freed) + 1)
  {
    hide Covers, Zeroed, Trimmed, InClusters;
    if clst >= |now| {
      WalkOver(now, clst);
    } else {
      WalkStep(now, clst);
    }
    CoversAll(g, trims, scl, clst, freed);
  }

  /** One round of the removal: read the link, and unless it is 0 or 1 clear it. */
  method FreeCluster(fs: FatFs, clst: nat) returns (res: FResult, nxt: nat)
    requires fs.Valid() && 2 <= clst < fs.g.nEntries
    modifies fs
    ensures fs.Valid() && SameButFats(fs.g, old(fs.Img()), fs.Img())
    ensures res == FrDiskErr ==> fs.faulty
    ensures res != FrDiskErr ==>
      (old(CountOk(fs)) ==> CountOk(fs)) && nxt == old(fs.Fat())[clst] && (res == FrIntErr <==> nxt == 1)
    ensures res != FrDiskErr ==> fs.Fat() == if nxt < 2 then old(fs.Fat()) else old(fs.Fat())[clst := 0]
    ensures res == FrOk || res == FrIntErr || res == FrDiskErr
    ensures fs.winSect == old(fs.winSect) || fs.g.InFat(fs.winSect) || fs.winSect == NO_SECTOR
    ensures fs.lastClust == old(fs.lastClust)
  {
    hide Table, Entry, RawEntry, Free;
    res := FrOk;
    nxt := fs.GetFat(clst);
    if nxt == 0 {
      return;
    }
    if nxt == INTERNAL_ERROR {
      return FrIntErr, nxt;
    }
    if nxt == DISK_ERROR {
      return FrDiskErr, nxt;
    }
    Zeroing(fs.Fat(), clst);
    TruncValues(fs.g, 0);
    res := fs.PutFat(clst, 0);
    if res != FrOk {
      return;
    }
    FreeFits(fs.Fat());
    if fs.freeClust != UNKNOWN_COUNT {
      fs.freeClust := (fs.freeClust + 1) % 0x1_0000_0000;
      fs.fsiFlag := true;
    }
  }

  lemma WalkStep(fat: FatTable, c: nat)
    requires 2 <= c < |fat|
    ensures fat[c] == 0 ==> Walk(fat, c) == ([], true)
    ensures fat[c] == 1 ==> Walk(fat, c) == ([], false)
    ensures fat[c] >= 2 ==>
      Walk(fat, c).0 == [c] + Walk(fat[c := 0], fat[c]).0 && Walk(fat, c).1 == Walk(fat[c := 0], fat[c]).1
  {
    if fat[c] >= 2 {
      Zeroing(fat, c);
    }
  }

  lemma ClusterNotEmpty(fs: FatFs)
    requires fs.Valid()
    ensures 0 < fs.g.clusterSize
  {}

  lemma NothingFreed(g: Geometry, c: nat)
    requires 2 <= c
    ensures Covers(g, [], c, c, [])
  {}

  lemma NoneZeroed(fat: FatTable)
    ensures Zeroed(fat, []) == fat
  {}

  lemma WalkOver(fat: FatTable, c: nat)
    requires c >= |fat|
    ensures Walk(fat, c) == ([], true)
  {}

  lemma CoversAll(g: Geometry, trims: seq<Range>, scl: nat, ecl: nat, freed: seq<nat>)
    requires 2 <= scl <= ecl && 0 < g.clusterSize && forall i :: 0 <= i < |freed| ==> 2 <= freed[i]
    requires Covers(g, trims, scl, ecl, freed)
    ensures (forall x: nat :: Trimmed(trims, x) <==> InClusters(g, freed, x)) <==> scl == ecl
  {
    hide Trimmed, InClusters, Geometry.ClusterBase;
    BasesAscend(g, scl, ecl);
    var x := g.ClusterBase(scl);
    if scl < ecl {
      assert Trimmed(trims, x) != InClusters(g, freed, x);
    }
  }

  lemma BasesAscend(g: Geometry, c: nat, d: nat)
    requires 2 <= c <= d && 0 < g.clusterSize
    ensures c < d ==> g.ClusterBase(c) < g.ClusterBase(d)
  {
    if c < d {
      Arith.MulMono(c - 1, d - 2, g.clusterSize);
    }
  }

  /** In a table of three entries the end mark 3 of the chain [2] is such a number: nothing is reported. */
  lemma RunNotReported(g: Geometry)
    requires 0 < g.clusterSize
    ensures var fat := [0xFF8, 0xFFF, 3];
            && IsChain(fat, [2]) && Walk(fat, 2) == ([2], true) && RunStep(g, [], 2, 2, fat[2]) == ([], 2)
            && InClusters(g, [2], g.ClusterBase(2)) && !Trimmed([], g.ClusterBase(2))
  {
    var fat := [0xFF8, 0xFFF, 3];
    WalkOfChain(fat, [2]);
    assert InCluster(g, 2, g.ClusterBase(2));
    assert Last([2]) == 2;
  }

  lemma {:induction false} ZeroedOneMore(fat: FatTable, s: seq<nat>, c: nat)
    requires c < |fat| && forall i :: 0 <= i < |s| ==> s[i] < |fat|
    ensures Zeroed(fat, s + [c]) == Zeroed(fat, s)[c := 0]
    ensures Zeroed(fat, s)[c] != 0 ==> Zeroed(fat, s)[c] == fat[c] && c !in s
    decreases |s|
  {
    ZeroedAt(fat, s, c);
    if s == [] {
      assert (s + [c])[1..] == [];
    } else {
      ZeroedOneMore(fat[s[0] := 0], s[1..], c);
      assert (s + [c])[1..] == s[1..] + [c];
    }
  }

  /** Removing a whole chain: the walk frees exactly it, and every chain that ends elsewhere stays. The condition of
      RemoveChain under which a run is left unreported, an end mark of Last(s) + 1, is met only by a chain that ends in
      the last entry of the table with the number of entries as its mark. */
  lemma ChainRemoved(g: Geometry, fat: FatTable, s: seq<nat>)
    requires IsChain(fat, s)
    ensures Walk(fat, s[0]) == (s, true)
    ensures Free(Zeroed(fat, s)) == Free(fat) + (set c | c in s)
    ensures forall t :: IsChain(fat, t) && Last(t) != Last(s) ==> IsChain(Zeroed(fat, s), t)
    ensures fat[Last(s)] == Last(s) + 1 <==> Last(s) == |fat| - 1 && fat[Last(s)] == |fat|
  {
    WalkOfChain(fat, s);
    Removed(fat, s);
  }

  // ---- counting ----

  /** Entries of the table from lo on that are zero. */
  ghost function ZerosFrom(fat: FatTable, lo: nat): nat
    requires lo <= |fat|
    decreases |fat| - lo
  {
    if lo == |fat| then 0 else (if fat[lo] == 0 then 1 else 0) + ZerosFrom(fat, lo + 1)
  }

  lemma {:induction false} ZerosAreFree(fat: FatTable, lo: nat)
    requires 2 <= lo <= |fat|
    ensures ZerosFrom(fat, lo) == |set c | lo <= c < |fat| && fat[c] == 0|
    decreases |fat| - lo
  {
    var here := set c | lo <= c < |fat| && fat[c] == 0;
    if lo == |fat| {
      assert here == {};
    } else {
      ZerosAreFree(fat, lo + 1);
      var rest := set c | lo + 1 <= c < |fat| && fat[c] == 0;
      if fat[lo] == 0 {
        assert here == rest + {lo};
      } else {
        assert here == rest;
      }
    }
  }

  /** The number of free clusters: the cached count if it is plausible, else what a scan of the table counts. The scan
      of k entries is cached as it is, even if it broke off, and the FAT16 and FAT32 scan also looks at the two reserved
      entries: the cached count is right afterwards exactly if the entries not looked at make up for that. */
  method GetFree(fs: FatFs) returns (res: FResult, nclst: nat, ghost k: nat)
    requires fs.Valid()
    modifies fs
    ensures fs.Valid() && fs.Fat() == old(fs.Fat()) && SameButMirrors(fs.g, old(fs.Img()), fs.Img())
    ensures nclst == fs.freeClust && k <= fs.g.nEntries
    ensures old(fs.freeClust) <= fs.g.nEntries - 2 ==> res == FrOk && fs.freeClust == old(fs.freeClust)
    ensures old(fs.freeClust) > fs.g.nEntries - 2 ==>
      && ScanBase(fs) <= k && (res == FrOk <==> k == fs.g.nEntries)
      && nclst + ZerosFrom(fs.Fat(), k) == ZerosFrom(fs.Fat(), ScanBase(fs))
      && (CountOk(fs) <==>
           ZerosFrom(fs.Fat(), k) == if fs.g.fatType == Fat12 then 0 else |set c | 0 <= c < 2 && fs.Fat()[c] == 0|)
    ensures old(fs.freeClust) > fs.g.nEntries - 2 && !fs.faulty ==> k == ScanEnd(fs.g, fs.Fat())
    ensures res == FrIntErr ==> k < fs.g.nEntries && fs.Fat()[k] == 1
    ensures res == FrDiskErr ==> fs.faulty
    ensures res == FrOk || res == FrIntErr || res == FrDiskErr
  {
    hide Table, Entry, RawEntry, ZerosFrom;
    if fs.freeClust <= fs.g.nEntries - 2 {
      return FrOk, fs.freeClust, fs.g.nEntries;
    }
    if fs.g.fatType == Fat12 {
      res, nclst, k := CountByEntry(fs);
      if res != FrDiskErr {
        OneFromIs(fs.Fat(), 2, k);
      }
    } else {
      res, nclst, k := CountBySector(fs);
    }
    ReservedZeros(fs.Fat());
    ZerosAreFree(fs.Fat(), 2);
    ZerosBound(fs.Fat(), ScanBase(fs));
    fs.freeClust := nclst;
    fs.fsiFlag := true;
  }

  /** The first entry from lo on that is 1. */
  ghost function OneFrom(fat: FatTable, lo: nat): nat
    requires lo <= |fat|
    decreases |fat| - lo
  {
    if lo == |fat| || fat[lo] == 1 then lo else OneFrom(fat, lo + 1)
  }

  lemma {:induction false} OneFromIs(fat: FatTable, lo: nat, k: nat)
    requires lo <= k <= |fat| && (k < |fat| ==> fat[k] == 1) && forall c :: lo <= c < k ==> fat[c] != 1
    ensures OneFrom(fat, lo) == k
    decreases k - lo
  {
    if lo < k {
      OneFromIs(fat, lo + 1, k);
    }
  }

  /** The entries a scan without transfer errors gets through: on FAT12 it stops at an entry of 1. */
  ghost function ScanEnd(g: Geometry, fat: FatTable): nat
    requires 2 <= |fat|
  {
    if g.fatType == Fat12 then OneFrom(fat, 2) else |fat|
  }

  /** The first entry a scan looks at. */
  function ScanBase(fs: FatFs): nat {
    if fs.g.fatType == Fat12 then 2 else 0
  }

  lemma {:induction false} ZerosBound(fat: FatTable, lo: nat)
    requires lo <= |fat|
    ensures ZerosFrom(fat, lo) <= |fat| - lo && ZerosFrom(fat, |fat|) == 0
    decreases |fat| - lo
  {
    if lo < |fat| {
      ZerosBound(fat, lo + 1);
    }
  }

  lemma FreeFits(fat: FatTable)
    requires 2 <= |fat|
    ensures |Free(fat)| <= |fat| - 2
  {
    ZerosAreFree(fat, 2);
    ZerosBound(fat, 2);
  }

  /** With zero in a reserved entry the count is one too many. */
  lemma ReservedEntryCounted()
    ensures var fat := [0, 0xFFFF, 0xFFFF]; ZerosFrom(fat, 0) == 1 && Free(fat) == {}
  {
    var fat := [0, 0xFFFF, 0xFFFF];
    assert ZerosFrom(fat, 3) == 0 && ZerosFrom(fat, 2) == 0 && ZerosFrom(fat, 1) == 0;
  }

  /** An entry of 1 right at the start of a FAT12 table: the first call fails, the second says that nothing is free. */
  method GetFreeTwice(fs: FatFs) returns (first: FResult, second: FResult, nclst: nat)
    requires fs.Valid() && !fs.faulty && fs.g.fatType == Fat12 && fs.freeClust == UNKNOWN_COUNT
    requires fs.Fat()[2] == 1
    modifies fs
    ensures fs.Valid() && fs.Fat() == old(fs.Fat())
    ensures first == FrIntErr && second == FrOk && nclst == 0
  {
    hide Table, Entry, RawEntry, ZerosFrom, Free;
    ghost var fat := fs.Fat();
    ghost var k;
    first, nclst, k := GetFree(fs);
    assert k == 2;
    second, nclst, k := GetFree(fs);
  }

  lemma ReservedZeros(fat: FatTable)
    requires 2 <= |fat|
    ensures ZerosFrom(fat, 0) == ZerosFrom(fat, 2) + |set c | 0 <= c < 2 && fat[c] == 0|
  {
    var z := set c | 0 <= c < 2 && fat[c] == 0;
    assert ZerosFrom(fat, 0) == (if fat[0] == 0 then 1 else 0) + (if fat[1] == 0 then 1 else 0) + ZerosFrom(fat, 2);
    assert z == (if fat[0] == 0 then {0} else {}) + (if fat[1] == 0 then {1} else {});
  }

  method CountByEntry(fs: FatFs) returns (res: FResult, n: nat, ghost k: nat)
    requires fs.Valid()
    modifies fs`disk, fs`wFlag, fs`winSect, fs`mirrored, fs`win
    ensures fs.Valid() && fs.Fat() == old(fs.Fat()) && SameButMirrors(fs.g, old(fs.Img()), fs.Img())
    ensures 2 <= k <= fs.g.nEntries && n + ZerosFrom(fs.Fat(), k) == ZerosFrom(fs.Fat(), 2)
      && (res == FrOk <==> k == fs.g.nEntries)
    ensures forall c :: 2 <= c < k ==> fs.Fat()[c] != 1
    ensures res == FrIntErr ==> fs.Fat()[k] == 1
    ensures res == FrDiskErr ==> fs.faulty
    ensures res == FrOk || res == FrIntErr || res == FrDiskErr
  {
    hide Table, Entry, RawEntry;
    res, n := FrOk, 0;
    var clst := 2;
    while clst < fs.g.nEntries
      invariant fs.Valid() && fs.Fat() == old(fs.Fat()) && SameButMirrors(fs.g, old(fs.Img()), fs.Img())
      invariant 2 <= clst <= fs.g.nEntries && n + ZerosFrom(fs.Fat(), clst) == ZerosFrom(fs.Fat(), 2)
      invariant forall c :: 2 <= c < clst ==> fs.Fat()[c] != 1
    {
      var stat := fs.GetFat(clst);
      if stat == DISK_ERROR {
        return FrDiskErr, n, clst;
      }
      if stat == INTERNAL_ERROR {
        return FrIntErr, n, clst;
      }
      if stat == 0 {
        n := n + 1;
      }
      clst := clst + 1;
    }
    k := clst;
  }

  /** The byte width of an entry divides the sector size, so the scan meets whole entries only. */
  method CountBySector(fs: FatFs) returns (res: FResult, n: nat, ghost k: nat)
    requires fs.Valid() && fs.g.fatType != Fat12
    modifies fs`disk, fs`wFlag, fs`winSect, fs`mirrored, fs`win
    ensures fs.Valid() && fs.Fat() == old(fs.Fat()) && SameButMirrors(fs.g, old(fs.Img()), fs.Img())
    ensures k <= fs.g.nEntries && n + ZerosFrom(fs.Fat(), k) == ZerosFrom(fs.Fat(), 0)
      && (res == FrOk <==> k == fs.g.nEntries)
    ensures res == FrDiskErr ==> fs.faulty
    ensures res == FrOk || res == FrDiskErr
  {
    hide Table, Entry, RawEntry, FatByte, ScanAt, SectorNo, SectorOff, Overlay, FatFs.Valid, Geometry.Valid, WellSized;
    fs.VolumeFacts();
    ScanStart(fs.g.ss);
    var g := fs.g;
    ghost var img := fs.Img();
    res, n := FrOk, 0;
    var clst, sect, i := g.nEntries, g.fatBase, 0;
    while clst > 0
      invariant fs.Valid() && fs.Fat() == old(fs.Fat()) && SameButMirrors(g, img, fs.Img())
      invariant res == FrOk && 0 <= clst <= g.nEntries
        && n + ZerosFrom(fs.Fat(), g.nEntries - clst) == ZerosFrom(fs.Fat(), 0)
      invariant 0 <= i <= g.ss && (i == 0 || fs.winSect + 1 == sect)
      invariant ScanAt(g.ss, EntryOffset(g.fatType, g.nEntries - clst), sect - g.fatBase, i)
    {
      ghost var e := g.nEntries - clst;
      fs.VolumeFacts();
      EntryFits(g, e);
      assert ByteInFat(g, EntryOffset(g.fatType, e));
      if i == 0 {
        ghost var img' := fs.Img();
        ScanLoad(g.ss, EntryOffset(g.fatType, e), sect - g.fatBase);
        res := fs.MoveWindow(sect);
        fs.VolumeFacts();
        TableFrame(g, img', fs.Img());
        if res != FrOk {
          k := e;
          return;
        }
        sect := sect + 1;
        i := g.ss;
      }
      ScanEntry(fs, e, i);
      var entry := if g.fatType == Fat16 then fs.LoadWord(g.ss - i)
                   else (fs.LoadWord(g.ss - i) + 0x1_0000 * fs.LoadWord(g.ss - i + 2)) % 0x1000_0000;
      if entry == 0 {
        n := n + 1;
      }
      ScanStep(g.ss, g.fatType, e, sect - g.fatBase, i);
      i := i - EntryWidth(g.fatType);
      clst := clst - 1;
    }
    k := g.nEntries;
  }

  /** With i bytes of the current sector left to scan, byte number b of the FAT is next and k sectors have been read. */
  ghost predicate ScanAt(ss: nat, b: nat, k: int, i: nat)
    requires IsSectorSize(ss)
  {
    if i == 0 then SectorOff(ss, b) == 0 && k == SectorNo(ss, b)
    else i <= ss && SectorOff(ss, b) == ss - i && k == SectorNo(ss, b) + 1
  }

  lemma ScanStart(ss: nat)
    requires IsSectorSize(ss)
    ensures ScanAt(ss, 0, 0, 0)
  {}

  lemma ScanLoad(ss: nat, b: nat, k: int)
    requires IsSectorSize(ss) && ScanAt(ss, b, k, 0)
    ensures k == SectorNo(ss, b) && ScanAt(ss, b, k + 1, ss)
  {}

  lemma ScanStep(ss: nat, t: FatType, e: nat, k: int, i: nat)
    requires IsSectorSize(ss) && t != Fat12 && 0 < i && ScanAt(ss, EntryOffset(t, e), k, i)
    ensures EntryWidth(t) <= i && ScanAt(ss, EntryOffset(t, e + 1), k, i - EntryWidth(t))
  {
    Aligned16(ss, e);
    Aligned32(ss, e);
    var b, w := EntryOffset(t, e), EntryWidth(t);
    assert SectorOff(ss, b + (w - 1)) == SectorOff(ss, b) + (w - 1);
    if SectorOff(ss, b) + w < ss {
      SameSector(ss, b, w);
    } else {
      NextSector(ss, b, w);
    }
  }

  lemma ScanEntry(fs: FatFs, e: nat, i: nat)
    requires fs.Valid() && fs.g.fatType != Fat12 && e < fs.g.nEntries
    requires 0 < i && ScanAt(fs.g.ss, EntryOffset(fs.g.fatType, e), fs.winSect + 1 - fs.g.fatBase, i)
    ensures fs.g.fatType == Fat16 ==> fs.g.ss - i + 1 < fs.g.ss && fs.LoadWord(fs.g.ss - i) == fs.Fat()[e]
    ensures fs.g.fatType == Fat32 ==> fs.g.ss - i + 3 < fs.g.ss
    ensures fs.g.fatType == Fat32 ==>
      (fs.LoadWord(fs.g.ss - i) + 0x1_0000 * fs.LoadWord(fs.g.ss - i + 2)) % 0x1000_0000 == fs.Fat()[e]
  {
    hide Entry, RawEntry;
    var g, img := fs.g, fs.Img();
    EntryFits(g, e);
    assert ByteInFat(g, EntryOffset(g.fatType, e));
    assert img[fs.winSect] == fs.win;
    if g.fatType == Fat16 {
      Aligned16(g.ss, e);
      Entry16(g, img, e);
    } else {
      Aligned32(g.ss, e);
      Entry32(g, img, e);
      forall j: nat | 4 * e <= j < 4 * e + 4
        ensures FatByte(g, img, j) == fs.win[SectorOff(g.ss, 4 * e) + (j - 4 * e)] {
        assert g.fatBase + SectorNo(g.ss, j) == fs.winSect;
      }
    }
  }
}
