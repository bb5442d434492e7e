/** What a sequence of operations on a file amounts to, for the file itself and for the others on the volume. */
module FatRuns {
  import opened Bytes
  import opened FatImage
  import opened FatChain
  import opened FatFileView
  import opened FatFile
  import opened FatVolume

  /** One successful f_write, or f_lseek past the end: then p is the old size and the bytes are what was on the
      drive. */
  datatype Change = Change(p: nat, bytes: seq<byte>) {
    predicate Covers(i: nat) {
      p <= i < p + |bytes|
    }
  }

  /** Every change starts within the content it finds. */
  predicate InOrder(size: nat, run: seq<Change>) {
    run == [] || (InOrder(size, run[..|run| - 1]) && run[|run| - 1].p <= SizeAfter(size, run[..|run| - 1]))
  }

  function SizeAfter(size: nat, run: seq<Change>): nat {
    if run == [] then size
    else
      var c := run[|run| - 1];
      Max(SizeAfter(size, run[..|run| - 1]), c.p + |c.bytes|)
  }

  function After(s: seq<byte>, run: seq<Change>): (r: seq<byte>)
    requires InOrder(|s|, run)
    ensures |r| == SizeAfter(|s|, run)
  {
    if run == [] then s
    else Overwrite(After(s, run[..|run| - 1]), run[|run| - 1].p, run[|run| - 1].bytes)
  }

  /** Whatever else happened before or after, a byte is what the last change that covered it wrote there. */
  lemma {:induction false} LastWriteWins(s: seq<byte>, run: seq<Change>, k: nat, i: nat)
    requires InOrder(|s|, run) && k < |run| && run[k].Covers(i)
    requires forall j :: k < j < |run| ==> !run[j].Covers(i)
    ensures i < |After(s, run)| && After(s, run)[i] == run[k].bytes[i - run[k].p]
    decreases |run|
  {
    if k < |run| - 1 {
      LastWriteWins(s, run[..|run| - 1], k, i);
      assert !run[|run| - 1].Covers(i);
    }
  }

  lemma {:induction false} NeverWritten(s: seq<byte>, run: seq<Change>, i: nat)
    requires InOrder(|s|, run) && i < |s|
    requires forall j :: 0 <= j < |run| ==> !run[j].Covers(i)
    ensures i < |After(s, run)| && After(s, run)[i] == s[i]
    decreases |run|
  {
    if run != [] {
      NeverWritten(s, run[..|run| - 1], i);
      assert !run[|run| - 1].Covers(i);
    }
  }

  // ---- runs of calls ----

  datatype Op = Read(n: nat) | Write(data: seq<byte>) | Seek(ofs: nat) {
    /** The arguments have 32 bits. */
    predicate Fits() {
      (Write? ==> |data| < 0x1_0000_0000) && (Seek? ==> ofs < 0x1_0000_0000)
    }

    /** The file is open for what the call does. */
    predicate Allowed(canRead: bool, canWrite: bool) {
      (Read? ==> canRead) && (Write? ==> canWrite)
    }
  }

  /** What does not change while a file is open: whether it may be written, and the end it would have if it took every
      free cluster of the volume. */
  datatype Bounds = Bounds(write: bool, limit: nat)

  /** What a call does on content `s` at position p: what it changes, where it leaves the position, what it hands out. A
      read stops at the end of the file, a write or a seek only where the volume ends; a write that would pass 4 GB
      writes nothing. */
  ghost predicate DoneBy(b: Bounds, op: Op, s: seq<byte>, p: nat, change: seq<Change>, p': nat, got: seq<byte>) {
    match op
    case Read(n) => change == [] && p <= |s| && p' == p + Min(n, |s| - p) && got == s[p..p']
    case Write(data) =>
      && p <= b.limit && got == []
      && var n := if p + |data| >= 0x1_0000_0000 then 0 else Min(|data|, b.limit - p);
      && change == [Change(p, data[..n])] && p' == p + n
    case Seek(ofs) =>
      && |change| == 1 && change[0].p == |s| && |change[0].bytes| == Max(p', |s|) - |s|
      && p' == Min(ofs, if b.write then b.limit else |s|) && got == []
  }

  /** A run of calls: before call i there had been marks[i] changes and the position was places[i]. */
  ghost predicate RunOf(b: Bounds, s: seq<byte>, ops: seq<Op>, run: seq<Change>, marks: seq<nat>, places: seq<nat>,
                        got: seq<seq<byte>>) {
    && InOrder(|s|, run) && |marks| == |places| == |ops| + 1 && |got| == |ops| && marks[|ops|] == |run|
    && forall i ::
      0 <= i < |ops| ==> StepOf(b, s, run, ops[i], marks[i], marks[i + 1], places[i], places[i + 1], got[i])
  }

  ghost predicate StepOf(b: Bounds, s: seq<byte>, run: seq<Change>, op: Op, k: nat, k': nat, p: nat, p': nat,
                         got: seq<byte>) {
    && k <= k' <= |run| && InOrder(|s|, run[..k])
    && DoneBy(b, op, After(s, run[..k]), p, run[k..k'], p', got)
  }

  lemma OneChange(s: seq<byte>, c: Change)
    requires c.p <= |s|
    ensures InOrder(|s|, []) && After(s, []) == s
    ensures InOrder(|s|, [c]) && After(s, [c]) == Overwrite(s, c.p, c.bytes)
  {
    assert [c][..0] == [];
  }

  lemma NextChange(s: seq<byte>, run: seq<Change>, more: seq<Change>)
    requires InOrder(|s|, run) && |more| <= 1 && InOrder(|After(s, run)|, more)
    ensures InOrder(|s|, run + more) && After(s, run + more) == After(After(s, run), more)
  {
    if more == [] {
      assert run + more == run;
    } else {
      assert (run + more)[..|run|] == run;
      assert more[..0] == [];
    }
  }

  lemma StillStep(b: Bounds, s: seq<byte>, run: seq<Change>, more: seq<Change>, op: Op, k: nat, k': nat, p: nat,
                  p': nat, got: seq<byte>)
    requires StepOf(b, s, run, op, k, k', p, p', got)
    ensures StepOf(b, s, run + more, op, k, k', p, p', got)
  {
    assert (run + more)[..k] == run[..k] && (run + more)[k..k'] == run[k..k'];
  }

  /** One more call. */
  lemma LongerRun(b: Bounds, s: seq<byte>, ops: seq<Op>, run: seq<Change>, marks: seq<nat>, places: seq<nat>,
                  got: seq<seq<byte>>, op: Op, more: seq<Change>, p': nat, out: seq<byte>)
    requires RunOf(b, s, ops, run, marks, places, got) && |more| <= 1 && InOrder(|After(s, run)|, more)
    requires DoneBy(b, op, After(s, run), places[|ops|], more, p', out)
    ensures RunOf(b, s, ops + [op], run + more, marks + [|run + more|], places + [p'], got + [out])
  {
    hide DoneBy, After, InOrder, StepOf;
    NextChange(s, run, more);
    forall i | 0 <= i < |ops|
      ensures StepOf(b, s, run + more, ops[i], marks[i], marks[i + 1], places[i], places[i + 1], got[i]) {
      StillStep(b, s, run, more, ops[i], marks[i], marks[i + 1], places[i], places[i + 1], got[i]);
    }
    LastStep(b, s, run, more, op, places[|ops|], p', out);
  }

  lemma LastStep(b: Bounds, s: seq<byte>, run: seq<Change>, more: seq<Change>, op: Op, p: nat, p': nat, out: seq<byte>)
    requires InOrder(|s|, run) && DoneBy(b, op, After(s, run), p, more, p', out)
    ensures StepOf(b, s, run + more, op, |run|, |run + more|, p, p', out)
  {
    hide DoneBy, After, InOrder;
    assert (run + more)[..|run|] == run && (run + more)[|run|..|run + more|] == more;
  }

  lemma Appended(was: seq<byte>, now: seq<byte>)
    requires |was| <= |now| && now[..|was|] == was
    ensures now == Overwrite(was, |was|, now[|was|..])
  {}

  lemma ReadDone(b: Bounds, n: nat, s: seq<byte>, p: nat, got: seq<byte>)
    requires p <= |s| && got == s[p..p + Min(n, |s| - p)]
    ensures InOrder(|s|, []) && After(s, []) == s && DoneBy(b, Read(n), s, p, [], p + |got|, got)
  {}

  lemma WriteDone(b: Bounds, data: seq<byte>, s: seq<byte>, p: nat, bw: nat)
    requires p <= |s| && p <= b.limit
    requires bw == if p + |data| >= 0x1_0000_0000 then 0 else Min(|data|, b.limit - p)
    ensures var change := [Change(p, data[..bw])];
            && InOrder(|s|, change) && After(s, change) == Overwrite(s, p, data[..bw])
            && DoneBy(b, Write(data), s, p, change, p + bw, [])
  {
    hide Overwrite;
    OneChange(s, Change(p, data[..bw]));
  }

  lemma SeekDone(b: Bounds, ofs: nat, s: seq<byte>, now: seq<byte>, p: nat, p': nat)
    requires |now| == Max(|s|, p') && now[..|s|] == s && p' == Min(ofs, if b.write then b.limit else |s|)
    ensures var change := [Change(|s|, now[|s|..])];
            && InOrder(|s|, change) && After(s, change) == now && DoneBy(b, Seek(ofs), s, p, change, p', [])
  {
    OneChange(s, Change(|s|, now[|s|..]));
    Appended(s, now);
  }

  /** One call, and what it changes. */
  method Apply(f: Fil, op: Op) returns (res: FResult, got: seq<byte>, ghost change: seq<Change>)
    requires f.Valid() && f.err == FrOk && op.Fits()
    modifies f, f.fs
    ensures f.Valid()
    ensures res == FrDenied ==> !op.Allowed(f.canRead, f.canWrite) && unchanged(f) && unchanged(f.fs)
    ensures res == FrOk || res == FrDenied || (res == FrDiskErr && f.fs.faulty)
    ensures res == FrOk ==>
      && op.Allowed(f.canRead, f.canWrite) && f.err == FrOk && f.fs.Valid() && f.Limit() == old(f.Limit())
      && |change| <= 1 && InOrder(old(f.fsize), change)
      && f.Bytes(f.fsize) == After(old(f.Bytes(f.fsize)), change)
      && Framed(old(f.L()), old(f.fs.Img()), old(f.fs.Fat()), f.L(), f.fs.Img(), f.fs.Fat())
      && DoneBy(Bounds(f.canWrite, f.Limit()), op, old(f.Bytes(f.fsize)), old(f.fptr), change, f.fptr, got)
  {
    hide Fil.Bytes, Fil.At, Fil.ChainOk, Fil.Covers, Fil.Apart, Exact, Framed, Overwrite, Geometry.Valid, LimitOf,
      Sound, After, InOrder, Free, IsChain, ClusterStart, FatFs.Valid, Fil.Core, Fil.Base, Fil.Valid;
    hide DoneBy;
    got, change := [], [];
    f.OpenFacts();
    ghost var was, p := f.Bytes(f.fsize), f.fptr;
    f.ChainIsSound(f.fsize);
    ghost var l, img, fat := f.L(), f.fs.Img(), f.fs.Fat();
    match op {
      case Read(n) =>
        var br;
        res, br, got := f.FRead(n);
        if res == FrOk {
          f.OpenFacts();
          f.ChainIsSound(f.fsize);
          LimitKept(l, img, fat, f.L(), f.fs.Img(), f.fs.Fat());
          ReadDone(Bounds(f.canWrite, f.Limit()), n, was, p, got);
        }
      case Write(data) =>
        var bw;
        res, bw := f.FWrite(data);
        if res == FrOk {
          f.OpenFacts();
          change := [Change(p, data[..bw])];
          WriteDone(Bounds(f.canWrite, f.Limit()), data, was, p, bw);
        }
      case Seek(ofs) =>
        res := f.FLseek(ofs);
        if res == FrOk {
          f.OpenFacts();
          change := [Change(|was|, f.Bytes(f.fsize)[|was|..])];
          SeekDone(Bounds(f.canWrite, f.Limit()), ofs, was, f.Bytes(f.fsize), p, f.fptr);
        }
    }
  }

  /** Reads, writes and seeks on a file, one after the other, up to the first call the file is not open for: the content
      is what the changes make of it, each read hands out what the changes before it have made, each write is whole
      unless the volume ends before it does, and nothing else on the volume changes. */
  method Run(f: Fil, ops: seq<Op>)
    returns (res: FResult, got: seq<seq<byte>>, ghost run: seq<Change>, ghost marks: seq<nat>, ghost places: seq<nat>)
    requires f.Valid() && f.err == FrOk && forall i :: 0 <= i < |ops| ==> ops[i].Fits()
    modifies f, f.fs
    ensures f.Valid()
    ensures res == FrOk || res == FrDenied || (res == FrDiskErr && f.fs.faulty)
    ensures res == FrOk ==> |got| == |ops|
    ensures res == FrDenied ==> |got| < |ops| && !ops[|got|].Allowed(f.canRead, f.canWrite)
    ensures res != FrDiskErr ==>
      && |got| <= |ops| && (forall i :: 0 <= i < |got| ==> ops[i].Allowed(f.canRead, f.canWrite))
      && f.err == FrOk && f.fs.Valid() && f.Limit() == old(f.Limit())
      && RunOf(Bounds(f.canWrite, f.Limit()), old(f.Bytes(f.fsize)), ops[..|got|], run, marks, places, got)
      && places[0] == old(f.fptr) && places[|got|] == f.fptr
      && f.Bytes(f.fsize) == After(old(f.Bytes(f.fsize)), run)
      && Framed(old(f.L()), old(f.fs.Img()), old(f.fs.Fat()), f.L(), f.fs.Img(), f.fs.Fat())
  {
    hide Fil.Bytes, Fil.At, Fil.ChainOk, Fil.Covers, Fil.Apart, Exact, Framed, Overwrite, After, InOrder, StepOf,
      DoneBy, Geometry.Valid, LimitOf;
    res, got, run, marks, places := FrOk, [], [], [0], [f.fptr];
    ghost var s, b := f.Bytes(f.fsize), Bounds(f.canWrite, f.Limit());
    OneChange(s, Change(0, []));
    f.FramedRefl(f.fsize);
    var i := 0;
    while i < |ops|
      invariant i == |got| <= |ops| && f.Valid() && f.err == FrOk && res == FrOk && f.fs.Valid()
      invariant f.Limit() == old(f.Limit()) && forall j :: 0 <= j < i ==> ops[j].Allowed(f.canRead, f.canWrite)
      invariant RunOf(b, s, ops[..i], run, marks, places, got) && places[0] == old(f.fptr) && places[i] == f.fptr
      invariant f.Bytes(f.fsize) == After(s, run)
      invariant Framed(old(f.L()), old(f.fs.Img()), old(f.fs.Fat()), f.L(), f.fs.Img(), f.fs.Fat())
    {
      ghost var l, img, fat := f.L(), f.fs.Img(), f.fs.Fat();
      var out;
      ghost var change;
      res, out, change := Apply(f, ops[i]);
      if res != FrOk {
        return;
      }
      FramedTrans(old(f.L()), old(f.fs.Img()), old(f.fs.Fat()), l, img, fat, f.L(), f.fs.Img(), f.fs.Fat());
      LongerRun(b, s, ops[..i], run, marks, places, got, ops[i], change, f.fptr, out);
      NextChange(s, run, change);
      assert ops[..i + 1] == ops[..i] + [ops[i]];
      run, got := run + change, got + [out];
      marks, places := marks + [|run|], places + [f.fptr];
      i := i + 1;
    }
  }

  /** Reads, writes and seeks on one file leave every other file alone: its chain and all its sectors. */
  lemma OtherFilesKept(l: Layout, img: Image, fat: FatTable, m: Layout, img': Image, fat': FatTable, o: Layout)
    requires l.Shape() && m.Shape() && o.Shape() && o.g == l.g && Framed(l, img, fat, m, img', fat')
    requires IsChain(fat, o.chain) && (l.chain == [] || (IsChain(fat, l.chain) && Last(l.chain) != Last(o.chain)))
    ensures IsChain(fat', o.chain)
    ensures forall k: nat {:trigger o.Has(k)} :: o.Has(k) ==>
      o.SectorAt(k) < |img| && o.SectorAt(k) < |img'| && img'[o.SectorAt(k)] == img[o.SectorAt(k)]
  {
    forall i, j | 0 <= i < |o.chain| && 0 <= j < |m.chain| ensures o.chain[i] != m.chain[j] {
      if j < |l.chain| {
        assert m.chain[j] == l.chain[j];
        DifferentEnds(fat, l.chain, o.chain);
      } else {
        assert fat[m.chain[j]] == 0;
        NotFree(fat, o.chain, m.chain[j]);
      }
    }
    forall i | 0 <= i < |o.chain| ensures fat'[o.chain[i]] == fat[o.chain[i]] {
      assert o.chain[i] !in m.chain;
    }
    forall k: nat | o.Has(k) ensures InData(o, k) && !m.Mine(o.SectorAt(k)) {
      NotShared(o, m, k);
    }
  }

  ghost predicate InData(o: Layout, k: nat)
    requires o.Shape() && o.Has(k)
  {
    o.g.dataBase <= o.SectorAt(k) < o.g.total
  }

  lemma NotShared(o: Layout, m: Layout, k: nat)
    requires o.Shape() && m.Shape() && o.g == m.g && o.Has(k)
    requires forall i, j :: 0 <= i < |o.chain| && 0 <= j < |m.chain| ==> o.chain[i] != m.chain[j]
    ensures o.g.dataBase <= o.SectorAt(k) < o.g.total && !m.Mine(o.SectorAt(k))
  {
    hide ClusterNo, ClusterOff;
    o.SectorInRange(k);
    forall j: nat | m.Has(j) ensures m.SectorAt(j) != o.SectorAt(k) {
      if m.SectorAt(j) == o.SectorAt(k) {
        var n := o.g.clusterSize;
        ClustersApart(o.g, o.chain[ClusterNo(n, k)], m.chain[ClusterNo(n, j)], ClusterOff(n, k), ClusterOff(n, j));
      }
    }
  }
}
