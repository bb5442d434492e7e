/** Block and chunk management of YAFFS: allocation, deletion, erasure, retirement and summaries, with the redundant
    counters the file system keeps beside the blocks. */
module YaffsBlocks {

  datatype Option<T> = None | Some(value: T)

  datatype BlockState = Empty | Allocating | Full | Dirty | Checkpoint | Collecting | Dead

  /** A page of the flash. */
  datatype Chunk = Chunk(block: nat, page: nat)

  datatype Tags = Tags(objId: nat, chunkId: nat, nBytes: nat, serial: nat, seqNumber: nat,
                       extraIsShrink: bool, extraShadows: bool, extraFileSize: nat)

  /** What a page holds besides its tags: file data, an object header, or part of a block summary. */
  datatype Content =
    | Data(bytes: seq<nat>)
    | Header(isShrink: bool, shadowsObj: nat, inbandShadowed: nat, fileSize: nat, details: seq<nat>)
    | Summary(part: nat)

  datatype Page = Page(content: Content, tags: Tags)

  datatype Block = Block(state: BlockState, bits: set<nat>, pages: int, softDel: int, seqNumber: nat,
                         needsRetiring: bool, hasShrinkHdr: bool, skipErasedCheck: bool, gcPrioritise: bool,
                         strikes: nat, hasSummary: bool)

  /** The object number reserved for summaries. */
  const SUMMARY_ID: nat := 0x10

  type Nand = map<Chunk, Page>

  /** Sequence numbers of blocks, counted up from the lowest; the smaller ones have meanings of their own. */
  type Sequence = n: nat | n >= 0x1000 witness 0x1000

  const CHECKPOINT_SEQUENCE: nat := 0x21
  const BAD_BLOCK_SEQUENCE: nat := 0xFFFF_0000

  /** Pages from..cpb of a block are erased. */
  predicate Blank(nand: Nand, b: nat, from: nat, cpb: nat) {
    forall p {:trigger Chunk(b, p)} :: from <= p < cpb ==> Chunk(b, p) !in nand
  }

  /** Behind an erased page everything is erased: pages are programmed in order. */
  predicate Sequential(nand: Nand, b: nat, from: nat, cpb: nat) {
    forall p {:trigger Chunk(b, p)} :: from <= p < cpb && Chunk(b, p) !in nand ==> Blank(nand, b, p, cpb)
  }

  /** The pages from..cpb that are not in use may only be programmed in order, and are erased if that is certain. */
  predicate Unwritten(nand: Nand, b: nat, from: nat, sure: bool, cpb: nat) {
    Sequential(nand, b, from, cpb) && (sure ==> Blank(nand, b, from, cpb))
  }

  /** Does the first page of a block carry the mark of a checkpoint? */
  predicate Stamped(nand: Nand, b: nat) {
    Chunk(b, 0) in nand && Marks(nand[Chunk(b, 0)])
  }

  predicate Marks(p: Page) {
    p.tags.seqNumber == CHECKPOINT_SEQUENCE
  }

  /** Empty blocks are erased, and no block bears the mark of a checkpoint but those of one and dead ones. */
  ghost predicate Unmarked(nand: Nand, b: nat, state: BlockState, cpb: nat) {
    && (state == Empty ==> Blank(nand, b, 0, cpb))
    && (state == Allocating || state == Full || state == Dirty || state == Collecting ==> !Stamped(nand, b))
  }

  ghost predicate NoMarks(blocks: seq<Block>, nand: Nand, cpb: nat) {
    forall b {:trigger blocks[b]} :: 0 <= b < |blocks| ==> Unmarked(nand, b, blocks[b].state, cpb)
  }

  lemma NoMarksChanged(blocks: seq<Block>, nand: Nand, cpb: nat, b: nat, bi: Block)
    requires NoMarks(blocks, nand, cpb) && b < |blocks|
      && (Unmarked(nand, b, blocks[b].state, cpb) ==> Unmarked(nand, b, bi.state, cpb))
    ensures NoMarks(blocks[b := bi], nand, cpb)
  {}

  lemma UnmarkedStill(nand: Nand, b: nat, s: BlockState, t: BlockState, cpb: nat)
    requires (s == Allocating || s == Full) && (t == Allocating || t == Full)
    ensures Unmarked(nand, b, s, cpb) == Unmarked(nand, b, t, cpb)
  {}

  lemma NoMarksErased(blocks: seq<Block>, nand: Nand, cpb: nat, b: nat, bi: Block)
    requires NoMarks(blocks, nand, cpb) && b < |blocks|
    ensures NoMarks(blocks[b := bi], WithoutBlock(nand, b), cpb)
  {
    hide Blank, Stamped, Unwritten;
    ErasedUnwritten(nand, b, cpb);
  }

  /** A page that a failed operation leaves behind does not bear the mark. */
  method AnyPage() returns (p: Page)
    ensures !Marks(p)
  {
    assert !Marks(Page(Data([]), Tags(0, 0, 0, 0, 0, false, false, 0)));
    p :| !Marks(p);
  }

  function WithoutBlock(nand: Nand, b: nat): Nand {
    map c | c in nand && c.block != b :: nand[c]
  }

  lemma UnwrittenFrame(nand: Nand, nand': Nand, b: nat, cpb: nat)
    requires forall p {:trigger Chunk(b, p)} :: 0 <= p ==> (Chunk(b, p) in nand <==> Chunk(b, p) in nand')
    ensures forall from: nat, sure :: Unwritten(nand', b, from, sure, cpb) <==> Unwritten(nand, b, from, sure, cpb)
  {}

  /** Erasing a block leaves it unwritten, and the others as they were. */
  lemma ErasedUnwritten(nand: Nand, b: nat, cpb: nat)
    ensures Blank(WithoutBlock(nand, b), b, 0, cpb) && !Stamped(WithoutBlock(nand, b), b)
    ensures forall from: nat, sure :: Unwritten(WithoutBlock(nand, b), b, from, sure, cpb)
    ensures forall x: nat {:trigger Blank(WithoutBlock(nand, b), x, 0, cpb)} ::
      x != b ==> (Blank(WithoutBlock(nand, b), x, 0, cpb) <==> Blank(nand, x, 0, cpb))
    ensures forall x: nat {:trigger Stamped(WithoutBlock(nand, b), x)} ::
      x != b ==> (Stamped(WithoutBlock(nand, b), x) <==> Stamped(nand, x))
    ensures forall x: nat, from: nat, sure {:trigger Unwritten(WithoutBlock(nand, b), x, from, sure, cpb)} ::
      x != b ==> (Unwritten(WithoutBlock(nand, b), x, from, sure, cpb) <==> Unwritten(nand, x, from, sure, cpb))
  {
    forall x: nat, from: nat, sure | x != b
      ensures Unwritten(WithoutBlock(nand, b), x, from, sure, cpb) <==> Unwritten(nand, x, from, sure, cpb)
    {
      UnwrittenFrame(nand, WithoutBlock(nand, b), x, cpb);
    }
  }

  lemma UnwrittenNext(nand: Nand, b: nat, from: nat, sure: bool, cpb: nat)
    requires Unwritten(nand, b, from, sure, cpb)
    ensures Unwritten(nand, b, from + 1, sure, cpb)
  {}

  /** The redundant counts. */
  datatype Count = FreeChunks | ErasedBlocks | CheckpointBlocks

  /** What one block contributes: the free chunks are those of yaffs_count_free_chunks. */
  function Weight(count: Count, cpb: nat, bi: Block): int {
    match count
    case FreeChunks =>
      if bi.state == Empty || bi.state == Allocating || bi.state == Collecting || bi.state == Full
      then cpb - bi.pages + bi.softDel else 0
    case ErasedBlocks => if bi.state == Empty then 1 else 0
    case CheckpointBlocks => if bi.state == Checkpoint then 1 else 0
  }

  function Total(count: Count, cpb: nat, blocks: seq<Block>, lo: nat): int
    decreases |blocks| - lo
  {
    if lo >= |blocks| then 0 else Weight(count, cpb, blocks[lo]) + Total(count, cpb, blocks, lo + 1)
  }

  lemma {:induction false} TotalUpdate(count: Count, cpb: nat, blocks: seq<Block>, lo: nat, b: nat, bi: Block)
    requires b < |blocks|
    ensures Total(count, cpb, blocks[b := bi], lo)
         == Total(count, cpb, blocks,
             lo) + (if lo <= b then Weight(count, cpb, bi) - Weight(count, cpb, blocks[b]) else 0)
    decreases |blocks| - lo
  {
    if lo < |blocks| {
      TotalUpdate(count, cpb, blocks, lo + 1, b, bi);
    }
  }

  lemma TotalFrom(cpb: nat, blocks: seq<Block>, b: nat)
    requires b < |blocks|
    ensures Total(ErasedBlocks, cpb, blocks, b)
         == Weight(ErasedBlocks, cpb, blocks[b]) + Total(ErasedBlocks, cpb, blocks, b + 1)
    ensures Total(FreeChunks, cpb, blocks, b)
         == Weight(FreeChunks, cpb, blocks[b]) + Total(FreeChunks, cpb, blocks, b + 1)
  {}

  /** The chunks of n blocks. */
  function ChunksIn(n: int, cpb: nat): int {
    if n <= 0 then 0 else ChunksIn(n - 1, cpb) + cpb
  }

  lemma OneMoreBlock(n: int, cpb: nat)
    requires n >= 0
    ensures ChunksIn(n + 1, cpb) == ChunksIn(n, cpb) + cpb && ChunksIn(0, cpb) == 0
  {}

  lemma {:induction false} CheckpointsNotNegative(cpb: nat, blocks: seq<Block>, lo: nat)
    ensures Total(CheckpointBlocks, cpb, blocks, lo) >= 0
    decreases |blocks| - lo
  {
    if lo < |blocks| {
      CheckpointsNotNegative(cpb, blocks, lo + 1);
    }
  }

  lemma CheckpointsFrom(cpb: nat, blocks: seq<Block>, b: nat)
    requires b < |blocks|
    ensures Total(CheckpointBlocks, cpb, blocks, b)
         == Weight(CheckpointBlocks, cpb, blocks[b]) + Total(CheckpointBlocks, cpb, blocks, b + 1)
  {}

  lemma TotalOfNone(cpb: nat, blocks: seq<Block>)
    ensures forall count :: Total(count, cpb, blocks, |blocks|) == 0
  {}

  lemma BlankUnwritten(cpb: nat)
    ensures forall b: nat, from: nat, sure :: Unwritten(map[], b, from, sure, cpb)
    ensures forall b: nat :: Blank(map[], b, 0, cpb) && !Stamped(map[], b)
  {}

  /** A positive count has a witness. */
  lemma {:induction false} SomeErased(cpb: nat, blocks: seq<Block>, lo: nat)
    requires Total(ErasedBlocks, cpb, blocks, lo) >= 1
    ensures exists b :: lo <= b < |blocks| && blocks[b].state == Empty
    decreases |blocks| - lo
  {
    if blocks[lo].state != Empty {
      SomeErased(cpb, blocks, lo + 1);
    }
  }

  lemma {:induction false} ErasedNotNegative(cpb: nat, blocks: seq<Block>, lo: nat)
    ensures Total(ErasedBlocks, cpb, blocks, lo) >= 0
    ensures forall b :: lo <= b < |blocks| && blocks[b].state == Empty ==> Total(ErasedBlocks, cpb, blocks, lo) >= 1
    decreases |blocks| - lo
  {
    if lo < |blocks| {
      ErasedNotNegative(cpb, blocks, lo + 1);
    }
  }

  lemma SubsetSize<T>(a: set<T>, b: set<T>)
    requires a <= b
    ensures |a| <= |b|
  {
    if a != {} {
      var x :| x in a;
      SubsetSize(a - {x}, b - {x});
    }
  }

  /** pages_in_use counts the bits, soft_del_pages the soft-deleted ones, and only blocks in use have any. */
  ghost predicate BlockOk(bi: Block, softBits: set<nat>, cpb: nat) {
    && bi.pages == |bi.bits| && bi.softDel == |softBits| && softBits <= bi.bits
    && (forall p :: p in bi.bits ==> p < cpb)
    && (bi.state == Empty || bi.state == Checkpoint || bi.state == Dirty || bi.state == Dead ==> bi.bits == {})
  }

  /** The record of a block after its next page has been taken. */
  function Taken(bi: Block, page: nat, state: BlockState): Block {
    bi.(pages := bi.pages + 1, bits := bi.bits + {page}, state := state)
  }

  lemma TakenFacts(bi: Block, softBits: set<nat>, cpb: nat, page: nat, state: BlockState)
    requires BlockOk(bi, softBits, cpb) && page < cpb && page !in bi.bits
    requires bi.state == Allocating && (state == Allocating || state == Full)
    ensures var t := Taken(bi, page, state);
            && BlockOk(t, softBits, cpb) && page !in softBits
            && t.bits == bi.bits + {page} && t.state == state && t.skipErasedCheck == bi.skipErasedCheck
              && t.hasSummary == bi.hasSummary
            && Weight(FreeChunks, cpb, t) == Weight(FreeChunks, cpb, bi) - 1
            && Weight(ErasedBlocks, cpb, t) == Weight(ErasedBlocks, cpb, bi)
            && Weight(CheckpointBlocks, cpb, t) == Weight(CheckpointBlocks, cpb, bi)
  {}

  /** The record of a block before anything was written to it; blocks below the first are not used. */
  function BlankBlock(below: bool): Block {
    Block(if below then Dead else Empty, {}, 0, 0, 0, false, false, false, false, 0, false)
  }

  predicate Used(blocks: seq<Block>, c: Chunk) {
    c.block < |blocks| && c.page in blocks[c.block].bits
  }

  /** Chunks in use stay in use and keep what they hold; only those of `more` and summaries come into use; full blocks
      and the one being collected are not touched. */
  ghost predicate Grown(blocks: seq<Block>, nand: Nand, blocks': seq<Block>, nand': Nand, more: set<Chunk>) {
    && |blocks| == |blocks'|
    && (forall c: Chunk {:trigger Used(blocks, c)} {:trigger Used(blocks', c)} :: Used(blocks, c) ==>
         Used(blocks', c) && (c in nand <==> c in nand') && (c in nand ==> nand'[c] == nand[c]))
    && (forall c: Chunk {:trigger Used(blocks', c)} :: Used(blocks', c) && !Used(blocks, c) ==>
         c in more || (c in nand' && nand'[c].tags.objId == SUMMARY_ID))
    && (forall b {:trigger blocks[b]} {:trigger blocks'[b]} ::
         0 <= b < |blocks|
         && (blocks[b].state == Full || blocks[b].state == Collecting || blocks'[b].state == Collecting) ==>
           blocks'[b] == blocks[b])
  }

  lemma GrownTrans(b0: seq<Block>, n0: Nand, b1: seq<Block>, n1: Nand, m1: set<Chunk>, b2: seq<Block>, n2: Nand,
                   m2: set<Chunk>, m: set<Chunk>)
    requires Grown(b0, n0, b1, n1, m1) && Grown(b1, n1, b2, n2, m2) && m1 <= m && m2 <= m
    ensures Grown(b0, n0, b2, n2, m)
  {}

  /** Programming a chunk that was not in use shows nowhere else. */
  lemma GrownProgrammed(b0: seq<Block>, n0: Nand, b1: seq<Block>, n1: Nand, n2: Nand, c: Chunk)
    requires Grown(b0, n0, b1, n1, {c}) && !Used(b0, c)
    requires forall x: Chunk {:trigger x in n2} {:trigger x in n1} ::
      x != c ==> (x in n2 <==> x in n1) && (x in n2 ==> n2[x] == n1[x])
    ensures Grown(b0, n0, b1, n2, {c})
  {}

  /** Flags of a block that was not full do not matter. */
  lemma GrownFlags(b0: seq<Block>, n0: Nand, b1: seq<Block>, n1: Nand, b2: seq<Block>, more: set<Chunk>, b: nat)
    requires Grown(b0, n0, b1, n1, more) && b < |b0| && (b0[b].state == Empty || b0[b].state == Allocating)
    requires |b2| == |b1| && b2 == b1[b := b2[b]] && b2[b].bits == b1[b].bits && b2[b].state != Collecting
    ensures Grown(b0, n0, b2, n1, more)
  {
    forall c: Chunk ensures Used(b2, c) <==> Used(b1, c) {}
    forall x | 0 <= x < |b0| && x != b ensures b2[x] == b1[x] {}
  }

  lemma GrownByOne(blocks: seq<Block>, nand: Nand, b: nat, page: nat)
    requires b < |blocks| && (blocks[b].state == Empty || blocks[b].state == Allocating)
    ensures forall bi: Block {:trigger blocks[b := bi]} ::
      bi.bits == blocks[b].bits + {page} && bi.state != Collecting ==>
      Grown(blocks, nand, blocks[b := bi], nand, {Chunk(b, page)})
  {}

  /** What tells whose chunk it is. */
  predicate SameOwner(a: Tags, b: Tags) {
    a.objId == b.objId && a.chunkId == b.chunkId && a.nBytes == b.nBytes
  }

  /** Blocks other than b are as they were, checkpoint blocks aside: those may have been given up. */
  ghost predicate OthersKept(was: seq<Block>, now: seq<Block>, b: int) {
    && |now| == |was|
    && forall x {:trigger now[x]} {:trigger was[x]} :: 0 <= x < |was| && x != b ==>
         now[x] == was[x] || (was[x].state == Checkpoint && now[x].bits == {}
             && (now[x].state == Empty || now[x].state == Dead))
  }

  /** Only blocks that held the checkpoint, and perhaps block b, were erased. */
  ghost predicate NandKept(was: seq<Block>, wasNand: Nand, nowNand: Nand, b: int) {
    forall c: Chunk {:trigger c in nowNand} {:trigger c in wasNand} ::
      c.block < |was| && c.block != b && was[c.block].state != Checkpoint ==>
        (c in nowNand <==> c in wasNand) && (c in nowNand ==> nowNand[c] == wasNand[c])
  }

  lemma KeptTrans(b0: seq<Block>, n0: Nand, b1: seq<Block>, n1: Nand, b2: seq<Block>, n2: Nand, b: int)
    requires OthersKept(b0, b1, b) && NandKept(b0, n0, n1, b)
    requires OthersKept(b1, b2, b) && NandKept(b1, n1, n2, b)
    ensures OthersKept(b0, b2, b) && NandKept(b0, n0, n2, b)
  {}

  /** What is kept save for no block is kept save for b. */
  lemma KeptWeaker(b0: seq<Block>, n0: Nand, b1: seq<Block>, n1: Nand, b: int)
    requires OthersKept(b0, b1, -1) && NandKept(b0, n0, n1, -1)
    ensures OthersKept(b0, b1, b) && NandKept(b0, n0, n1, b)
    ensures 0 <= b < |b0| && b0[b].state != Checkpoint ==> b1[b] == b0[b]
  {}

  lemma SelfKept(blocks: seq<Block>, nand: Nand)
    ensures OthersKept(blocks, blocks, -1) && NandKept(blocks, nand, nand, -1)
  {}

  /** Giving up one more block of the checkpoint leaves the rest as it was. */
  lemma GivenUpKept(b0: seq<Block>, n0: Nand, b1: seq<Block>, n1: Nand, b2: seq<Block>, n2: Nand, b: nat)
    requires OthersKept(b0, b1, -1) && NandKept(b0, n0, n1, -1)
    requires b < |b0| == |b1| && b1[b] == b0[b] && b0[b].state == Checkpoint && b0[b].bits == {}
    requires |b2| == |b1| && b2 == b1[b := b1[b].(state := b2[b].state)]
      && (b2[b].state == Empty || b2[b].state == Dead)
    requires forall c: Chunk :: c.block != b ==> (c in n2 <==> c in n1) && (c in n2 ==> n2[c] == n1[c])
    ensures OthersKept(b0, b2, -1) && NandKept(b0, n0, n2, -1)
  {}

  class Flash {
    const start: nat          // first block; blocks before it belong to nobody here
    const cpb: nat            // chunks per block
    const reserved: nat
    const yaffs2: bool
    const alwaysCheck: bool
    const attempts: nat       // write attempts allowed
    const faulty: bool        // may operations of the device fail?
    const cps: nat            // chunks per block that a summary describes, 0 if there are no summaries
    const sumChunks: nat      // chunks that one summary takes
    var blocks: seq<Block>
    var nand: Nand
    var allocBlock: int       // -1 if none
    var allocPage: nat
    var allocFinder: nat
    var nErased: int
    var nFree: int
    var seqNumber: Sequence
    var gcBlock: nat          // 0 if none
    var isCheckpointed: bool
    var blocksInCheckpt: int
    ghost var soft: seq<set<nat>>

    /** A blank flash: every block is found empty and counted. */
    constructor (start: nat, nBlocks: nat, cpb: nat, reserved: nat, yaffs2: bool, alwaysCheck: bool, attempts: nat,
                 cps: nat, sumChunks: nat, faulty: bool)
      requires 1 <= start && 1 <= nBlocks && 2 <= cpb && 1 <= attempts
      requires cps > 0 ==> yaffs2 && 1 <= sumChunks && cps + sumChunks <= cpb
      ensures Valid() && this.start == start && this.cpb == cpb && |blocks| == start + nBlocks && nand == map[]
        && gcBlock == 0
      ensures this.faulty == faulty && forall b :: start <= b < |blocks| ==> blocks[b].state == Empty
    {
      this.start, this.cpb, this.reserved, this.yaffs2, this.alwaysCheck := start, cpb, reserved, yaffs2, alwaysCheck;
      this.attempts, this.cps, this.sumChunks, this.faulty := attempts, cps, sumChunks, faulty;
      blocks := seq(start + nBlocks, b => BlankBlock(b < start));
      nand, soft := map[], seq(start + nBlocks, _ => {});
      allocBlock, allocPage, allocFinder, seqNumber, gcBlock := -1, 0, 0, 0x1000, 0;
      isCheckpointed, blocksInCheckpt := false, 0;
      nErased, nFree := 0, 0;
      new;
      hide Total, Unwritten;
      BlankUnwritten(cpb);
      CountBlank();
    }

    /** What scanning a blank flash counts. */
    method CountBlank()
      requires start < |blocks| && nErased == nFree == 0
      requires forall b {:trigger blocks[b]} :: 0 <= b < |blocks| ==> blocks[b] == BlankBlock(b < start)
      modifies this`nErased, this`nFree
      ensures CountsOk(0) && Total(CheckpointBlocks, cpb, blocks, start) == 0
    {
      hide Total;
      TotalOfNone(cpb, blocks);
      var b := |blocks|;
      while b > start
        invariant start <= b <= |blocks| && nErased == Total(ErasedBlocks, cpb, blocks, b)
          && nFree == Total(FreeChunks, cpb, blocks, b)
      {
        b := b - 1;
        TotalFrom(cpb, blocks, b);
        nErased := nErased + 1;
        nFree := nFree + cpb;
      }
      NoCheckpoint(cpb, blocks, start);
    }

    ghost predicate Params() {
      && 1 <= start && 2 <= cpb && 1 <= attempts
      && (cps > 0 ==> yaffs2 && 1 <= sumChunks && cps + sumChunks <= cpb)
    }

    /** The rest of the block is erased for sure: it is known to be, or the device never fails. */
    predicate Sure(bi: Block) {
      bi.skipErasedCheck || !faulty
    }

    /** Does the device fail here? That is not known beforehand, but a device that is not faulty never does. */
    method Fails() returns (failed: bool)
      ensures failed ==> faulty
    {
      failed := *;
      failed := failed && faulty;
    }

    predicate IsBlock(b: int)
      reads this`blocks
    {
      start <= b < |blocks|
    }

    ghost predicate BlocksOk()
      reads this`blocks, this`soft
    {
      && start < |blocks| == |soft|
      && (forall b {:trigger blocks[b]} {:trigger soft[b]} :: 0 <= b < |blocks| ==> BlockOk(blocks[b], soft[b], cpb))
      && (forall b {:trigger blocks[b]} :: 0 <= b < start ==> blocks[b].state == Dead)
      && (forall b {:trigger blocks[b]} :: 0 <= b < |blocks| && blocks[b].hasSummary ==> cps > 0)
    }

    /** At most one block is allocating: the one the next chunk comes from. */
    ghost predicate AllocOk()
      reads this`blocks, this`allocBlock, this`allocPage
    {
      && -1 <= allocBlock
      && (allocBlock >= 0 ==>
           (IsBlock(allocBlock) && blocks[allocBlock].state == Allocating && allocPage < cpb))
      && (forall b {:trigger blocks[b]} :: 0 <= b < |blocks| && blocks[b].state == Allocating ==> b == allocBlock)
    }

    /** The pages the allocator will hand out are erased, or will be found not to be by the check; and a checkpoint is
        not mistaken for one. */
    ghost predicate ErasedOk()
      reads this`blocks, this`allocPage, this`nand
    {
      && NoMarks(blocks, nand, cpb)
      && forall b {:trigger blocks[b]} ::
        0 <= b < |blocks| && (blocks[b].state == Empty || blocks[b].state == Allocating) ==>
        Unwritten(nand, b, if blocks[b].state == Empty then 0 else allocPage, Sure(blocks[b]), cpb)
    }

    /** The counters agree with the blocks, but for d chunks that are counted free and no longer are. */
    ghost predicate CountsOk(d: int)
      reads this`blocks, this`nErased, this`nFree
    {
      && nFree == Total(FreeChunks, cpb, blocks, start) + d
      && nErased == Total(ErasedBlocks, cpb, blocks, start)
    }

    ghost predicate CheckptOk()
      reads this`blocks, this`blocksInCheckpt
    {
      blocksInCheckpt == Total(CheckpointBlocks, cpb, blocks, start)
    }

    ghost predicate Core(d: int)
      reads this`blocks, this`soft, this`allocBlock, this`allocPage, this`nand, this`nErased, this`nFree
    {
      Params() && BlocksOk() && AllocOk() && ErasedOk() && CountsOk(d)
    }

    /** Pages are taken in order. */
    ghost predicate BelowOk()
      reads this`blocks, this`allocBlock, this`allocPage
    {
      0 <= allocBlock < |blocks| ==> forall p :: p in blocks[allocBlock].bits ==> p < allocPage
    }

    /** A block is given up for allocation as soon as its summary is due. */
    ghost predicate SumOk()
      reads this`allocBlock, this`allocPage
    {
      cps > 0 && allocBlock >= 0 ==> allocPage < cps
    }

    ghost predicate NoneDirty()
      reads this`blocks
    {
      forall b {:trigger blocks[b]} :: 0 <= b < |blocks| ==> blocks[b].state != Dirty
    }

    ghost predicate Valid()
      reads this`blocks, this`soft, this`allocBlock, this`allocPage, this`nand, this`nErased, this`nFree,
        this`blocksInCheckpt
    {
      Stable() && SumOk()
    }

    /** Valid, but that a summary may be due. */
    ghost predicate Stable()
      reads this`blocks, this`soft, this`allocBlock, this`allocPage, this`nand, this`nErased, this`nFree,
        this`blocksInCheckpt
    {
      Core(0) && CheckptOk() && NoneDirty() && BelowOk()
    }

    predicate InUse(c: Chunk)
      reads this`blocks
    {
      Used(blocks, c)
    }

    ghost predicate IsSoft(c: Chunk)
      reads this`soft
    {
      c.block < |soft| && c.page in soft[c.block]
    }

    // ---- erasing ----

    /** The driver's erase. */
    method EraseBlock(b: nat) returns (ok: bool)
      modifies this`nand
      ensures nand == (if ok then WithoutBlock(old(nand), b) else old(nand)) && (!faulty ==> ok)
    {
      var failed := Fails();
      ok := !failed;
      if ok {
        nand := WithoutBlock(nand, b);
      }
    }

    method CheckptEraseBlock(b: nat, ghost d: int)
      requires Core(d) && start <= b < |blocks| && blocks[b].state == Checkpoint
      modifies this`blocks, this`nand, this`nErased, this`nFree
      ensures Core(d) && |blocks| == |old(blocks)|
      ensures blocks == old(blocks)[b := old(blocks)[b].(state := blocks[b].state)]
        && (blocks[b].state == Empty || blocks[b].state == Dead)
      ensures forall c: Chunk ::
        c.block != b ==> (c in nand <==> c in old(nand)) && (c in nand ==> nand[c] == old(nand)[c])
      ensures (blocks[b].state == Empty ==> Blank(nand, b, 0, cpb)) && (!faulty ==> blocks[b].state == Empty)
      ensures nErased == old(nErased) + (if blocks[b].state == Empty then 1 else 0)
      ensures nFree == old(nFree) + (if blocks[b].state == Empty then cpb else 0)
    {
      hide Unwritten, Total, Blank, Stamped, BlockOk, NoMarks, BlocksOk, ErasedOk;
      BlocksAreOk();
      ghost var was := blocks;
      ErasedUnwritten(nand, b, cpb);
      GivenUpIsOk(blocks[b], soft[b], cpb);
      var erased := EraseBlock(b);
      if erased {
        blocks := blocks[b := blocks[b].(state := Empty)];
        nErased := nErased + 1;
        nFree := nFree + cpb;
        ErasedChanged(b);
      } else {
        blocks := blocks[b := blocks[b].(state := Dead)];
        RetiredChanged(b);
      }
      OneBlockChanged(b);
      TotalUpdate(FreeChunks, cpb, was, start, b, blocks[b]);
      TotalUpdate(ErasedBlocks, cpb, was, start, b, blocks[b]);
    }

    lemma CheckpointsUnused(d: int)
      requires Core(d)
      ensures forall b {:trigger blocks[b]} :: 0 <= b < start ==> blocks[b].state != Checkpoint
      ensures forall b {:trigger blocks[b]} ::
        0 <= b < |blocks| && blocks[b].state == Checkpoint ==> blocks[b].bits == {}
    {
      hide ErasedOk, Total;
      BlocksAreOk();
    }

    /** Give up the stored checkpoint: its blocks become empty, or dead when they cannot be erased. */
    method CheckptErase(ghost d: int)
      requires Core(d)
      modifies this`blocks, this`nand, this`nErased, this`nFree, this`blocksInCheckpt
      ensures Core(d) && CheckptOk() && blocksInCheckpt == 0
      ensures old(nErased) <= nErased <= old(nErased) + old(Total(CheckpointBlocks, cpb, blocks, start))
      ensures !faulty ==> nErased == old(nErased) + old(Total(CheckpointBlocks, cpb, blocks, start))
      ensures nFree == old(nFree) + ChunksIn(nErased - old(nErased), cpb)
      ensures OthersKept(old(blocks), blocks, -1) && NandKept(old(blocks), old(nand), nand, -1)
      ensures forall b {:trigger blocks[b]} :: 0 <= b < |blocks| ==>
        blocks[b].state != Checkpoint
          && (old(blocks)[b].state == Checkpoint && blocks[b].state == Empty ==> Blank(nand, b, 0, cpb))
    {
      hide ChunksIn, Total, Core, OthersKept, NandKept;
      CoreParts(d);
      CheckpointsUnused(d);
      SelfKept(blocks, nand);
      var i := start;
      ghost var b0 := blocks;
      TotalOfNone(cpb, b0);
      OneMoreBlock(0, cpb);
      while i < |blocks|
        invariant start <= i <= |blocks| == |old(blocks)| && nErased >= old(nErased)
        invariant nErased + Total(CheckpointBlocks, cpb, b0, i)
               <= old(nErased) + Total(CheckpointBlocks, cpb, b0, start)
        invariant !faulty ==>
          nErased + Total(CheckpointBlocks, cpb, b0, i) == old(nErased) + Total(CheckpointBlocks, cpb, b0, start)
        invariant nFree == old(nFree) + ChunksIn(nErased - old(nErased), cpb)
        invariant forall b {:trigger blocks[b]} ::
          0 <= b < i && old(blocks)[b].state == Checkpoint && blocks[b].state == Empty ==> Blank(nand, b, 0, cpb)
        invariant Core(d) && OthersKept(old(blocks), blocks, -1) && NandKept(old(blocks), old(nand), nand, -1)
        invariant forall b :: 0 <= b < i ==> blocks[b].state != Checkpoint
        invariant forall b :: i <= b < |blocks| ==> blocks[b] == old(blocks)[b]
      {
        CheckpointsFrom(cpb, b0, i);
        if blocks[i].state == Checkpoint {
          OneMoreBlock(nErased - old(nErased), cpb);
          ghost var b1, n1 := blocks, nand;
          CheckptEraseBlock(i, d);
          GivenUpKept(old(blocks), old(nand), b1, n1, blocks, nand, i);
        }
        i := i + 1;
      }
      assert Total(CheckpointBlocks, cpb, b0, |b0|) == 0;
      blocksInCheckpt := 0;
      NoCheckpoint(cpb, blocks, start);
    }

    /** yaffs2_checkpt_invalidate: any change to the flash makes the stored checkpoint worthless. */
    method CheckptInvalidate(ghost d: int)
      requires Core(d) && CheckptOk()
      modifies this`blocks, this`nand, this`nErased, this`nFree, this`blocksInCheckpt, this`isCheckpointed
      ensures Core(d) && CheckptOk() && !isCheckpointed && blocksInCheckpt <= 0
      ensures !faulty ==> nErased == old(nErased) + old(blocksInCheckpt)
      ensures !faulty ==> nFree == old(nFree) + ChunksIn(old(blocksInCheckpt), cpb)
      ensures OthersKept(old(blocks), blocks, -1) && NandKept(old(blocks), old(nand), nand, -1)
    {
      CheckpointsNotNegative(cpb, blocks, start);
      OneMoreBlock(0, cpb);
      if isCheckpointed || blocksInCheckpt > 0 {
        isCheckpointed := false;
        CheckptErase(d);
      }
    }

    /** How the counts change with one block. */
    lemma Recount(was: seq<Block>, b: nat, bi: Block)
      requires start <= b < |was|
      ensures Total(FreeChunks, cpb, was[b := bi], start)
           == Total(FreeChunks, cpb, was, start) + Weight(FreeChunks, cpb, bi) - Weight(FreeChunks, cpb, was[b])
      ensures Total(ErasedBlocks, cpb, was[b := bi], start)
           == Total(ErasedBlocks, cpb, was, start) + Weight(ErasedBlocks, cpb, bi) - Weight(ErasedBlocks, cpb, was[b])
      ensures Total(CheckpointBlocks, cpb, was[b := bi], start)
           == Total(CheckpointBlocks, cpb, was, start) + Weight(CheckpointBlocks, cpb, bi) - Weight(CheckpointBlocks,
               cpb, was[b])
    {
      TotalUpdate(FreeChunks, cpb, was, start, b, bi);
      TotalUpdate(ErasedBlocks, cpb, was, start, b, bi);
      TotalUpdate(CheckpointBlocks, cpb, was, start, b, bi);
    }

    /** Try to mark a block bad; if that fails, erase it and program a marker into its first page. */
    method MarkBad(b: nat)
      modifies this`nand
      ensures forall c: Chunk {:trigger c in nand} {:trigger c in old(nand)} ::
        c.block != b ==> (c in nand <==> c in old(nand)) && (c in nand ==> nand[c] == old(nand)[c])
    {
      var marked: bool := *;
      if !marked {
        var erased := EraseBlock(b);
        if erased {
          var wrote: bool := *;
          if wrote {
            nand := nand[Chunk(b, 0) := Page(Data([]), Tags(0, 0, 0, 0, BAD_BLOCK_SEQUENCE, false, false, 0))];
          }
        }
      }
    }

    /** Take a broken block out of service. */
    method RetireBlock(b: nat)
      requires Core(0) && CheckptOk() && IsBlock(b) && blocks[b].state == Dirty
      modifies this`blocks, this`nand, this`nErased, this`nFree, this`blocksInCheckpt, this`isCheckpointed
      ensures Core(0) && CheckptOk() && OthersKept(old(blocks), blocks, b) && NandKept(old(blocks), old(nand), nand, b)
      ensures blocks[b] == old(blocks)[b].(state := Dead, gcPrioritise := false, needsRetiring := false)
    {
      hide Unwritten, Total, OthersKept, NandKept;
      CheckptInvalidate(0);
      KeptWeaker(old(blocks), old(nand), blocks, nand, b);
      ghost var b1, n1 := blocks, nand;
      RetireNow(b);
      KeptTrans(old(blocks), old(nand), b1, n1, blocks, nand, b);
    }

    method RetireNow(b: nat)
      requires Core(0) && CheckptOk() && IsBlock(b) && blocks[b].state == Dirty
      modifies this`blocks, this`nand
      ensures Core(0) && CheckptOk() && OthersKept(old(blocks), blocks, b) && NandKept(old(blocks), old(nand), nand, b)
      ensures blocks[b] == old(blocks)[b].(state := Dead, gcPrioritise := false, needsRetiring := false)
    {
      hide Unwritten, Total;
      ghost var was, wasNand := blocks, nand;
      MarkBad(b);
      OtherBlocksUnwritten(wasNand, nand, b, cpb);
      blocks := blocks[b := blocks[b].(state := Dead, gcPrioritise := false, needsRetiring := false)];
      Recount(was, b, blocks[b]);
    }

    /** A block without chunks in use is erased, or retired if it cannot be or has failed before. */
    method BlockBecameDirty(b: nat)
      requires Core(0) && CheckptOk() && IsBlock(b) && blocks[b].bits == {}
        && (blocks[b].state == Full || blocks[b].state == Collecting)
      modifies this`blocks, this`nand, this`nErased, this`nFree, this`blocksInCheckpt, this`isCheckpointed, this`gcBlock
      ensures Core(0) && CheckptOk() && OthersKept(old(blocks), blocks, b) && NandKept(old(blocks), old(nand), nand, b)
      ensures blocks[b].bits == {} && (blocks[b].state == Empty || blocks[b].state == Dead)
      ensures old(blocks)[b].needsRetiring ==> blocks[b].state == Dead
      ensures gcBlock == if old(gcBlock) == b then 0 else old(gcBlock)
    {
      hide Unwritten, Total, OthersKept, NandKept, Core;
      MarkDirty(b);
      ghost var b1 := blocks;
      if b == gcBlock {
        gcBlock := 0;
      }
      var erasedOk := false;
      if !blocks[b].needsRetiring {
        CheckptInvalidate(cpb);
        KeptWeaker(b1, old(nand), blocks, nand, b);
        KeptTrans(old(blocks), old(nand), b1, old(nand), blocks, nand, b);
        ghost var b2, n2 := blocks, nand;
        erasedOk := EraseDirty(b);
        KeptTrans(old(blocks), old(nand), b2, n2, blocks, nand, b);
      }
      if !erasedOk {
        ghost var b2, n2 := blocks, nand;
        LoseBlock();
        RetireBlock(b);
        KeptTrans(old(blocks), old(nand), b2, n2, blocks, nand, b);
      }
    }

    method MarkDirty(b: nat)
      requires Core(0) && CheckptOk() && IsBlock(b) && blocks[b].bits == {}
        && (blocks[b].state == Full || blocks[b].state == Collecting)
      modifies this`blocks
      ensures Core(cpb) && CheckptOk() && blocks == old(blocks)[b := old(blocks)[b].(state := Dirty)] && IsBlock(b)
      ensures OthersKept(old(blocks), blocks, b) && NandKept(old(blocks), nand, nand, b)
    {
      hide Unwritten, Total;
      ghost var was := blocks;
      blocks := blocks[b := blocks[b].(state := Dirty)];
      Recount(was, b, blocks[b]);
    }

    /** A dirty block that cannot be used again is a block of free space lost. */
    method LoseBlock()
      requires Core(cpb)
      modifies this`nFree
      ensures Core(0)
    {
      nFree := nFree - cpb;
    }

    /** Erase a dirty block and clean up its record. */
    method EraseDirty(b: nat) returns (ok: bool)
      requires Core(cpb) && CheckptOk() && IsBlock(b) && blocks[b].state == Dirty
      modifies this`blocks, this`nand, this`nErased
      ensures CheckptOk() && OthersKept(old(blocks), blocks, b) && NandKept(old(blocks), old(nand), nand, b)
      ensures if ok then Core(0) else Core(cpb)
      ensures blocks == if ok then old(blocks)[b := Cleaned(old(blocks)[b])] else old(blocks)
    {
      hide Unwritten, Total, BlockOk, BlocksOk, ErasedOk;
      BlocksAreOk();
      ghost var was := blocks;
      CleanedIsOk(blocks[b], soft[b], cpb);
      ok := EraseBlock(b);
      if ok {
        blocks := blocks[b := Cleaned(blocks[b])];
        nErased := nErased + 1;
        Recount(was, b, blocks[b]);
        ErasedChanged(b);
        OneBlockChanged(b);
      }
    }

    // ---- allocation ----

    lemma CoreParts(d: int)
      requires Core(d)
      ensures Params() && start < |blocks| && CountsOk(d)
    {}

    /** Blocks the circular search has looked at when it stands on f, having looked at f0 first. */
    ghost predicate Seen(f0: nat, f: nat, wrapped: bool, b: nat)
      reads this`blocks
    {
      IsBlock(b) && if wrapped then b <= f || f0 <= b else f0 <= b <= f
    }

    method StartBlock(b: nat)
      requires CountsOk(0) && CheckptOk() && IsBlock(b) && blocks[b].state == Empty
      modifies this`blocks, this`nErased, this`seqNumber
      ensures nErased == old(nErased) - 1
        && blocks == old(blocks)[b := old(blocks)[b].(state := Allocating, seqNumber := seqNumber)]
      ensures CountsOk(0) && CheckptOk()
    {
      hide Total;
      ghost var was := blocks;
      seqNumber := seqNumber + 1;
      blocks := blocks[b := blocks[b].(state := Allocating, seqNumber := seqNumber)];
      nErased := nErased - 1;
      Recount(was, b, blocks[b]);
    }

    /** Find an empty block and make it the allocating one. It fails only if the count says there is none: the circular
        scan then looks at every block. */
    method FindAllocBlock() returns (r: int)
      requires Core(0) && CheckptOk() && allocBlock == -1
      modifies this`blocks, this`allocFinder, this`nErased, this`seqNumber
      ensures r >= 0 <==> old(nErased) >= 1
      ensures r < 0 ==> r == -1 && blocks == old(blocks) && nErased == old(nErased)
      ensures r >= 0 ==> start <= r < |old(blocks)| && old(blocks)[r].state == Empty && nErased == old(nErased) - 1
      ensures r >= 0 ==> blocks == old(blocks)[r := old(blocks)[r].(state := Allocating, seqNumber := seqNumber)]
      ensures r >= 0 ==> CountsOk(0) && CheckptOk()
    {
      hide Total, ErasedOk, BlockOk, BlocksOk, Core;
      CoreParts(0);
      if nErased < 1 {
        return -1;
      }
      SomeErased(cpb, blocks, start);
      ghost var e :| start <= e < |blocks| && blocks[e].state == Empty;
      var i := start;
      ghost var f0: nat, wrapped: bool := start, false;
      while i < |blocks|
        invariant start <= i <= |blocks| && blocks == old(blocks) && nErased == old(nErased) && f0 >= start
        invariant i > start ==> IsBlock(allocFinder) && IsBlock(f0)
        invariant i > start ==>
          i - start == if wrapped then (allocFinder - start + 1) + (|blocks| - f0) else allocFinder - f0 + 1
        invariant wrapped ==> i > start && allocFinder < f0
        invariant i > start ==> !Seen(f0, allocFinder, wrapped, e)
      {
        ghost var first := i == start;
        allocFinder := allocFinder + 1;
        if allocFinder < start || allocFinder >= |blocks| {
          allocFinder := start;
          wrapped := !first;
        }
        if first {
          f0 := allocFinder;
        }
        if blocks[allocFinder].state == Empty {
          StartBlock(allocFinder);
          return allocFinder;
        }
        i := i + 1;
      }
      assert false; // the search has seen the empty block
      r := -1;
    }

    /** Is there more free space than the reserve and the blocks a checkpoint needs? */
    predicate AllocAvailable(checkptBlocks: nat, n: nat)
      reads this`nFree
    {
      nFree > (reserved + checkptBlocks) * cpb + n
    }

    /** The state in which a chunk has been taken from the allocator and not yet been written. */
    ghost predicate Placed(c: Chunk)
      reads this`blocks, this`soft, this`allocBlock, this`allocPage, this`nand, this`nErased, this`nFree,
        this`blocksInCheckpt
    {
      && Stable() && InUse(c) && !IsSoft(c) && start <= c.block && c.page < cpb
      && (if allocBlock >= 0 then allocBlock == c.block && allocPage == c.page + 1
          else blocks[c.block].state == Full && c.page + 1 == cpb)
      && (forall p :: p in blocks[c.block].bits ==> p <= c.page)
      && (cps > 0 ==> c.page < cps)
    }

    /** A chunk can be taken: there is one, and not only in the reserve if that may not be used. */
    predicate HasRoom(useReserve: bool, checkptBlocks: nat)
      reads this`nFree, this`allocBlock, this`nErased
    {
      (useReserve || AllocAvailable(checkptBlocks, 1)) && (allocBlock >= 0 || nErased >= 1)
    }

    /** Take the next chunk: of the allocating block, or of a new one. */
    method AllocChunk(useReserve: bool, checkptBlocks: nat) returns (r: Option<Chunk>)
      requires Valid()
      modifies this`blocks, this`allocFinder, this`nErased, this`seqNumber, this`allocBlock, this`allocPage, this`nFree
      ensures r.None? ==> Valid() && Grown(old(blocks), nand, blocks, nand, {})
      ensures r.Some? ==> Placed(r.value) && !old(InUse(r.value)) && Grown(old(blocks), nand, blocks, nand, {r.value})
      ensures r.Some? ==> Unwritten(nand, r.value.block, r.value.page, Sure(blocks[r.value.block]), cpb)
      ensures r.Some? ==> old(blocks)[r.value.block].state == Empty || old(blocks)[r.value.block].state == Allocating
      ensures (r.Some? <==> old(HasRoom(useReserve, checkptBlocks)))
        && (r.None? ==> !HasRoom(useReserve, checkptBlocks))
    {
      hide Unwritten, Total;
      if allocBlock < 0 {
        NextBlock();
      }
      if !useReserve && !AllocAvailable(checkptBlocks, 1) {
        return None;
      }
      if allocBlock >= 0 {
        var c := TakePage();
        return Some(c);
      }
      r := None;
    }

    method NextBlock()
      requires Valid() && allocBlock == -1
      modifies this`blocks, this`allocFinder, this`nErased, this`seqNumber, this`allocBlock, this`allocPage
      ensures Valid() && Grown(old(blocks), nand, blocks, nand, {}) && (allocBlock >= 0 <==> old(nErased) >= 1)
      ensures allocBlock >= 0 ==> old(blocks)[allocBlock].state == Empty
      ensures allocBlock < 0 ==> nErased == old(nErased)
      ensures forall c: Chunk :: Used(blocks, c) <==> Used(old(blocks), c)
    {
      hide Unwritten, Total;
      allocBlock := FindAllocBlock();
      allocPage := 0;
    }

    method TakePage() returns (c: Chunk)
      requires Valid() && allocBlock >= 0
      modifies this`blocks, this`allocBlock, this`allocPage, this`nFree
      ensures Placed(c) && !old(InUse(c)) && Grown(old(blocks), nand, blocks, nand, {c})
      ensures c.block == old(allocBlock)
      ensures Unwritten(nand, c.block, c.page, Sure(blocks[c.block]), cpb)
    {
      hide Unwritten, Total, Grown, BlockOk, Weight, Taken, BlocksOk, ErasedOk, Unmarked;
      AllocatingFacts();
      ghost var was := blocks;
      var b, page := allocBlock, allocPage;
      var state := if page + 1 >= cpb then Full else Allocating;
      TakenFacts(blocks[b], soft[b], cpb, page, state);
      UnmarkedStill(nand, b, blocks[b].state, state, cpb);
      GrownByOne(blocks, nand, b, page);
      c := Chunk(b, page);
      blocks := blocks[b := Taken(blocks[b], page, state)];
      Recount(was, b, blocks[b]);
      UnwrittenNext(nand, b, page, Sure(blocks[b]), cpb);
      allocPage := allocPage + 1;
      nFree := nFree - 1;
      OneBlockChanged(b);
      AllocatingChanged(b);
      if allocPage >= cpb {
        allocBlock := -1;
      }
    }

    lemma AllocatingFacts()
      requires Valid() && allocBlock >= 0
      ensures start <= allocBlock < |blocks| == |soft| && BlockOk(blocks[allocBlock], soft[allocBlock], cpb)
        && allocPage < cpb
      ensures blocks[allocBlock].hasSummary ==> cps > 0
      ensures Unwritten(nand, allocBlock, allocPage, Sure(blocks[allocBlock]), cpb)
    {
      hide Unwritten, Total, BlockOk, NoMarks;
    }

    /** One block's record changes: what holds of all of them holds still. */
    twostate lemma OneBlockChanged(b: nat)
      requires old(BlocksOk()) && old(IsBlock(b)) && |blocks| == |old(blocks)| && blocks == old(blocks)[b := blocks[b]]
        && soft == old(soft)
      requires BlockOk(blocks[b], soft[b], cpb) && (blocks[b].hasSummary ==> cps > 0)
      ensures BlocksOk()
    {
      hide BlockOk;
    }

    /** The allocating block, and the pages of it that may be taken, change. */
    twostate lemma AllocatingChanged(b: nat)
      requires old(ErasedOk()) && b < |old(blocks)| == |blocks| && blocks == old(blocks)[b := blocks[b]]
        && nand == old(nand)
      requires Unmarked(nand, b, old(blocks)[b].state, cpb) ==> Unmarked(nand, b, blocks[b].state, cpb)
      requires blocks[b].state != Empty
        && (blocks[b].state == Allocating ==> Unwritten(nand, b, allocPage, Sure(blocks[b]), cpb))
      requires forall x {:trigger blocks[x]} :: 0 <= x < |blocks| && x != b ==> blocks[x].state != Allocating
      ensures ErasedOk()
    {
      hide Unwritten, NoMarks, Blank, Stamped;
      NoMarksChanged(old(blocks), nand, cpb, b, blocks[b]);
    }

    /** A block is erased. */
    twostate lemma ErasedChanged(b: nat)
      requires old(ErasedOk()) && b < |old(blocks)| == |blocks| && blocks == old(blocks)[b := blocks[b]]
        && nand == WithoutBlock(old(nand), b) && allocPage == old(allocPage) && blocks[b].state == Empty
      ensures ErasedOk()
    {
      hide Unwritten, NoMarks, Blank, Stamped;
      ErasedUnwritten(old(nand), b, cpb);
      NoMarksErased(old(blocks), old(nand), cpb, b, blocks[b]);
    }

    /** A block is given up. */
    twostate lemma RetiredChanged(b: nat)
      requires old(ErasedOk()) && b < |old(blocks)| == |blocks| && blocks == old(blocks)[b := blocks[b]]
        && nand == old(nand) && allocPage == old(allocPage) && blocks[b].state == Dead
      ensures ErasedOk()
    {
      hide Unwritten, NoMarks, Blank, Stamped;
      NoMarksChanged(old(blocks), nand, cpb, b, blocks[b]);
    }

    /** Stop allocating from the current block. */
    method SkipRestOfBlock()
      requires allocBlock >= 0 ==> IsBlock(allocBlock) && 0 < start && blocks[allocBlock].state == Allocating
      modifies this`blocks, this`allocBlock
      ensures old(Stable()) && old(allocBlock) >= -1 ==> Valid()
      ensures allocBlock == if old(allocBlock) < 0 then old(allocBlock) else -1
      ensures blocks == if old(allocBlock) < 0 then old(blocks)
                        else old(blocks)[old(allocBlock) := old(blocks)[old(allocBlock)].(state := Full)]
    {
      hide Unwritten, Total;
      if allocBlock > 0 {
        ghost var was := blocks;
        if blocks[allocBlock].state == Allocating {
          blocks := blocks[allocBlock := blocks[allocBlock].(state := Full)];
          Recount(was, allocBlock, blocks[allocBlock]);
          allocBlock := -1;
        }
      }
    }

    // ---- deleting ----

    /** YAFFS1 programs a deletion mark into the tags of a chunk it deletes, unless the block is about to be erased. */
    method MarkDeleted(c: Chunk, markFlash: bool)
      requires Stable() && InUse(c)
      modifies this`nand
      ensures Stable() && forall x: Chunk {:trigger x in nand} {:trigger x in old(nand)} ::
        x != c ==> (x in nand <==> x in old(nand)) && (x in nand ==> nand[x] == old(nand)[x])
    {
      hide Unwritten, Total;
      if !yaffs2 && markFlash && blocks[c.block].state != Collecting {
        ghost var was := nand;
        var p := AnyPage();
        nand := nand[c := p];
        MarkedUnwritten(was, nand, c, cpb);
      }
    }

    method ClearBit(c: Chunk)
      requires Stable() && InUse(c) && !IsSoft(c)
      modifies this`blocks, this`nFree
      ensures Stable() && blocks == old(blocks)[c.block := BitCleared(old(blocks)[c.block], c.page)]
    {
      hide Unwritten, Total, BlockOk;
      UsedState(c);
      ghost var was := blocks;
      BitClear(blocks[c.block], soft[c.block], cpb, c.page);
      nFree := nFree + 1;
      blocks := blocks[c.block := BitCleared(blocks[c.block], c.page)];
      Recount(was, c.block, blocks[c.block]);
    }

    /** Only allocating, full and collected blocks have chunks in use. */
    lemma UsedState(c: Chunk)
      requires Stable() && InUse(c)
      ensures start <= c.block < |blocks| == |soft| && BlockOk(blocks[c.block], soft[c.block], cpb)
      ensures var state := blocks[c.block].state; state == Allocating || state == Full || state == Collecting
    {}

    lemma BlocksAreOk()
      requires BlocksOk()
      ensures start < |blocks| == |soft|
        && forall b {:trigger blocks[b]} :: 0 <= b < |blocks| && blocks[b].hasSummary ==> cps > 0
      ensures forall b {:trigger blocks[b]} :: 0 <= b < |blocks| ==> BlockOk(blocks[b], soft[b], cpb)
      ensures forall b {:trigger blocks[b]} ::
        0 <= b < |blocks| && (blocks[b].state == Checkpoint || blocks[b].state == Empty) ==> blocks[b].bits == {}
    {}

    /** Take a chunk out of use; a block that has none left is erased, unless chunks are still being taken from it. */
    method ChunkDel(c: Chunk, markFlash: bool)
      requires Stable() && InUse(c) && !IsSoft(c)
      modifies this`blocks, this`nand, this`nErased, this`nFree, this`blocksInCheckpt, this`isCheckpointed, this`gcBlock
      ensures Stable() && Shrunk(old(blocks), old(nand), blocks, nand, c) && IsBlock(c.block)
      ensures if Erases(old(blocks)[c.block], c.page)
              then blocks[c.block].bits == {} && (blocks[c.block].state == Empty || blocks[c.block].state == Dead)
                   && gcBlock == (if old(gcBlock) == c.block then 0 else old(gcBlock))
              else blocks[c.block] == BitCleared(old(blocks)[c.block], c.page) && gcBlock == old(gcBlock)
    {
      hide Unwritten, Total, OthersKept, NandKept, BlockOk, Shrunk;
      UsedState(c);
      BlocksAreOk();
      ghost var b0, n0 := blocks, nand;
      MarkDeleted(c, markFlash);
      ClearBit(c);
      ghost var b1, n1 := blocks, nand;
      ShrunkClearing(b0, n0, n1, c);
      BlocksAreOk();
      NoPages(blocks[c.block], soft[c.block], cpb);
      if blocks[c.block].pages == 0 && !blocks[c.block].hasShrinkHdr && blocks[c.block].state != Allocating {
        BlockBecameDirty(c.block);
        StillNoneDirty(b1, blocks, c.block);
        ShrunkFurther(b0, n0, b1, n1, blocks, nand, c);
      }
    }

    // ---- writing ----

    /** A read or write error counts against the block. */
    method HandleChunkError(b: nat, ghost c: Chunk)
      requires start <= b < |blocks|
      modifies this`blocks
      ensures |blocks| == |old(blocks)| && blocks == old(blocks)[b := blocks[b]]
        && SameButHealth(old(blocks)[b], blocks[b])
      ensures old(Placed(c)) ==> Placed(c)
      ensures old(Stable()) ==> Stable()
    {
      hide Unwritten, Total, BlockOk;
      ghost var was := blocks;
      if !blocks[b].gcPrioritise {
        blocks := blocks[b := blocks[b].(gcPrioritise := true, strikes := blocks[b].strikes + 1,
          needsRetiring := blocks[b].needsRetiring || blocks[b].strikes >= 3)];
        Recount(was, b, blocks[b]);
        assert forall s: set<nat> :: BlockOk(was[b], s, cpb) <==> BlockOk(blocks[b], s, cpb) by {
          HealthAside(was[b], blocks[b], cpb);
        }
      }
    }

    /** Program an erased page: an unerased one is never programmed. A failure leaves the page as it may. */
    method ProgramChunk(c: Chunk, content: Content, tags: Tags) returns (ok: bool)
      requires c !in nand
      modifies this`nand
      ensures forall x: Chunk {:trigger x in nand} {:trigger x in old(nand)} ::
        x != c ==> (x in nand <==> x in old(nand)) && (x in nand ==> nand[x] == old(nand)[x])
      ensures c in nand ==> !Marks(nand[c])
      ensures ok ==> c in nand && nand[c] == Page(content, tags.(seqNumber := seqNumber))
      ensures !faulty ==> ok
    {
      var failed := Fails();
      ok := !failed;
      if ok {
        nand := nand[c := Page(content, tags.(seqNumber := seqNumber))];
      } else {
        var touched: bool := *;
        if touched {
          var p := AnyPage();
          nand := nand[c := p];
        }
      }
    }

    /** Does a page read back as erased? A corrected read error says no, and counts against the block. */
    method CheckChunkErased(c: Chunk) returns (ok: bool)
      requires Placed(c)
      modifies this`blocks
      ensures Placed(c) && blocks == old(blocks)[c.block := blocks[c.block]]
        && SameButHealth(old(blocks)[c.block], blocks[c.block])
      ensures (ok ==> c !in nand) && (!faulty ==> (ok <==> c !in nand))
    {
      var eccError := Fails();
      if eccError {
        HandleChunkError(c.block, c);
      }
      ok := !eccError && c !in nand;
    }

    /** Does a page read back as it was meant to be written? The serial number is not compared. */
    method VerifyChunkWritten(c: Chunk, content: Content, tags: Tags) returns (ok: bool)
      requires Stable() && IsBlock(c.block)
      modifies this`blocks
      ensures Stable() && blocks == old(blocks)[c.block := blocks[c.block]]
        && SameButHealth(old(blocks)[c.block], blocks[c.block])
      ensures ok <==> c in nand && nand[c].content == content && SameOwner(nand[c].tags, tags)
    {
      var eccError := Fails();
      if eccError {
        HandleChunkError(c.block, c);
      }
      ok := c in nand && nand[c].content == content && SameOwner(nand[c].tags, tags);
    }

    /** Write the summary of a block behind the chunks it describes. */
    method SummaryWrite(b: nat) returns (n: nat)
      requires Params() && cps > 0 && start <= b < |blocks| && Blank(nand, b, cps, cpb)
      modifies this`blocks, this`nand, this`nFree
      ensures n <= sumChunks && nFree == old(nFree) - n
      ensures blocks == old(blocks)[b := WithSummary(old(blocks)[b], cps, n, n == sumChunks)]
      ensures SummarizedNand(old(nand), nand, b, n)
    {
      hide WithSummary, Pages;
      n := 0;
      var ok := true;
      NoSummaryYet(blocks[b], cps);
      while ok && n < sumChunks
        invariant n <= sumChunks && nFree == old(nFree) - n && SummarizedNand(old(nand), nand, b, n)
        invariant ok ==> Blank(nand, b, cps + n, cpb)
        invariant !ok ==> n < sumChunks
        invariant blocks == old(blocks)[b := WithSummary(old(blocks)[b], cps, n, false)]
        decreases ok, sumChunks - n
      {
        var c := Chunk(b, cps + n);
        ok := ProgramChunk(c, Summary(n), Tags(SUMMARY_ID, n + 1, 0, 0, 0, false, false, 0));
        if ok {
          OneMoreSummary(old(blocks)[b], cps, n);
          blocks := blocks[b := blocks[b].(bits := blocks[b].bits + {c.page}, pages := blocks[b].pages + 1)];
          nFree := nFree - 1;
          n := n + 1;
        }
      }
      if ok {
        SummaryDone(old(blocks)[b], cps, n);
        blocks := blocks[b := blocks[b].(hasSummary := true)];
      }
    }

    /** n summary chunks have been written into block b; one more may have failed. */
    ghost predicate SummarizedNand(n0: Nand, n1: Nand, b: nat, n: nat) {
      && (forall x: Chunk {:trigger x in n0} {:trigger x in n1} :: x.block != b || x.page < cps ==>
           (x in n1 <==> x in n0) && (x in n1 ==> n1[x] == n0[x]))
      && (forall p {:trigger Chunk(b, p)} ::
           cps <= p < cps + n ==> Chunk(b, p) in n1 && n1[Chunk(b, p)].tags.objId == SUMMARY_ID)
    }

    /** What is known of the block of a chunk just written. */
    ghost predicate Continues(c: Chunk, was: Block)
      reads this`blocks, this`nand, this`allocPage
    {
      && start <= c.block < |blocks| && blocks[c.block].skipErasedCheck == was.skipErasedCheck
        && blocks[c.block].hasShrinkHdr == was.hasShrinkHdr
      && (blocks[c.block].state == Full
          || (blocks[c.block].state == Allocating && Blank(nand, c.block, allocPage, cpb)))
    }

    lemma PlacedIsValid(c: Chunk)
      requires Placed(c) && !(0 < cps == c.page + 1) && Blank(nand, c.block, c.page + 1, cpb)
      ensures Valid() && Continues(c, blocks[c.block])
    {}

    /** When the last chunk that a summary describes has been written, the summary is written and the block is done
        with. */
    method SummaryAdd(c: Chunk)
      requires Placed(c) && Blank(nand, c.block, c.page + 1, cpb)
      modifies this`blocks, this`nand, this`nFree, this`allocBlock
      ensures Valid() && Grown(old(blocks), old(nand), blocks, nand, {}) && Continues(c, old(blocks)[c.block])
      ensures allocBlock < 0 || allocBlock == old(allocBlock)
    {
      if 0 < cps == c.page + 1 {
        SummaryDue(c);
      } else {
        PlacedIsValid(c);
      }
    }

    method SummaryDue(c: Chunk)
      requires Placed(c) && Blank(nand, c.block, c.page + 1, cpb) && 0 < cps == c.page + 1
      modifies this`blocks, this`nand, this`nFree, this`allocBlock
      ensures Valid() && Grown(old(blocks), old(nand), blocks, nand, {}) && Continues(c, old(blocks)[c.block])
      ensures allocBlock < 0 || allocBlock == old(allocBlock)
    {
      hide Total, Unwritten, Grown, BlockOk, WithSummary, SummarizedNand, Blank, Stamped;
      ghost var b0, n0, bi := blocks, nand, blocks[c.block];
      var n := SummaryWrite(c.block);
      SummaryParts(bi, cps, n, n == sumChunks);
      SummaryCounted(bi, soft[c.block], cpb, cps, n, n == sumChunks);
      SkipRestOfBlock();
      FullIsOk(WithSummary(bi, cps, n, n == sumChunks), soft[c.block], cpb);
      assert blocks == b0[c.block := blocks[c.block]];
      Recount(b0, c.block, blocks[c.block]);
      OtherBlocksSummarized(n0, nand, c.block, n);
      SummaryGrown(b0, n0, nand, c.block, n, blocks[c.block]);
    }

    lemma OtherBlocksSummarized(n0: Nand, n1: Nand, b: nat, n: nat)
      requires SummarizedNand(n0, n1, b, n) && cps > 0
      ensures forall x: nat {:trigger Blank(n1, x, 0, cpb)} ::
        x != b ==> (Blank(n1, x, 0, cpb) <==> Blank(n0, x, 0, cpb))
      ensures forall x: nat {:trigger Stamped(n1, x)} :: Stamped(n1, x) <==> Stamped(n0, x)
      ensures forall x: nat, from: nat, sure {:trigger Unwritten(n1, x, from, sure, cpb)} ::
        x != b ==> (Unwritten(n1, x, from, sure, cpb) <==> Unwritten(n0, x, from, sure, cpb))
    {
      OtherBlocksUnwritten(n0, n1, b, cpb);
    }

    lemma SummaryGrown(b0: seq<Block>, n0: Nand, n1: Nand, b: nat, n: nat, bi: Block)
      requires b < |b0| && b0[b].state == Allocating && SummarizedNand(n0, n1, b, n)
      requires forall p: nat :: p in bi.bits <==> p in b0[b].bits || cps <= p < cps + n
      requires bi.state != Collecting && forall p :: p in b0[b].bits ==> p < cps
      ensures Grown(b0, n0, b0[b := bi], n1, {})
    {}

    /** Write a page and its tags. */
    method WrChunkTags(c: Chunk, content: Content, tags: Tags, ghost b0: seq<Block>, ghost n0: Nand) returns (ok: bool)
      requires Placed(c) && Blank(nand, c.block, c.page, cpb)
      requires Grown(b0, n0, blocks, nand, {c}) && !Used(b0, c)
      modifies this`blocks, this`nand, this`nFree, this`allocBlock
      ensures Valid() && Grown(b0, n0, blocks, nand, {c}) && Continues(c, old(blocks)[c.block]) && InUse(c)
      ensures allocBlock < 0 || allocBlock == c.block
      ensures ok ==> c in nand && nand[c] == Page(content, tags.(seqNumber := seqNumber))
      ensures !faulty ==> ok
    {
      hide Total, Unwritten, BlockOk, Continues;
      ghost var n1 := nand;
      ok := ProgramChunk(c, content, tags);
      MarkedUnwritten(n1, nand, c, cpb);
      GrownProgrammed(b0, n0, blocks, n1, nand, c);
      ghost var b2, n2 := blocks, nand;
      SummaryAdd(c);
      GrownTrans(b0, n0, b2, n2, {c}, blocks, nand, {}, {c});
    }

    /** Forget that the rest of a block is known to be erased. */
    method SetUnchecked(c: Chunk)
      requires Placed(c)
      modifies this`blocks
      ensures Placed(c) && blocks == old(blocks)[c.block := old(blocks)[c.block].(skipErasedCheck := false)]
    {
      hide Total, BlockOk, Blank;
      ghost var was := blocks;
      blocks := blocks[c.block := blocks[c.block].(skipErasedCheck := false)];
      Recount(was, c.block, blocks[c.block]);
      SameBits(was[c.block], blocks[c.block], cpb);
    }

    /** The rest of a block is known to be erased once its first unused page has been. */
    method SetChecked(b: nat)
      requires Valid() && start <= b < |blocks|
      requires blocks[b].state == Full || (blocks[b].state == Allocating && Blank(nand, b, allocPage, cpb))
      modifies this`blocks
      ensures Valid() && blocks == old(blocks)[b := old(blocks)[b].(skipErasedCheck := true)]
    {
      hide Total, BlockOk, Blank;
      ghost var was := blocks;
      blocks := blocks[b := blocks[b].(skipErasedCheck := true)];
      Recount(was, b, blocks[b]);
      SameBits(was[b], blocks[b], cpb);
    }

    /** Have a chunk ready to be programmed: it is erased, either for sure or because it has been read. */
    method EnsureErased(c: Chunk) returns (erased: bool, checked: bool)
      requires Placed(c) && Unwritten(nand, c.block, c.page, Sure(blocks[c.block]), cpb)
      modifies this`blocks
      ensures Placed(c) && |blocks| == |old(blocks)| && blocks == old(blocks)[c.block := blocks[c.block]]
        && blocks[c.block].bits == old(blocks)[c.block].bits
      ensures (erased ==> Blank(nand, c.block, c.page, cpb)) && (!faulty ==> erased)
      ensures checked <==> erased && !blocks[c.block].skipErasedCheck
      ensures blocks[c.block].hasShrinkHdr == old(blocks)[c.block].hasShrinkHdr
    {
      hide Placed;
      PlacedFacts(c);
      if alwaysCheck {
        SetUnchecked(c);
      }
      erased, checked := true, false;
      if !blocks[c.block].skipErasedCheck {
        erased := CheckChunkErased(c);
        checked := erased;
      }
    }

    lemma PlacedFacts(c: Chunk)
      requires Placed(c)
      ensures Stable() && InUse(c) && !IsSoft(c) && start <= c.block < |blocks| && c.page < cpb
        && (cps > 0 ==> c.page < cps)
      ensures blocks[c.block].state != Collecting
      ensures allocBlock >= 0 ==> IsBlock(allocBlock) && 0 < start && blocks[allocBlock].state == Allocating
      ensures allocBlock >= -1
    {}

    /** Give a chunk back after a failed write, and its block up for allocation. */
    method AbandonChunk(c: Chunk, ghost b0: seq<Block>, ghost n0: Nand)
      requires Stable() && InUse(c) && !IsSoft(c)
      requires Grown(b0, n0, blocks, nand, {c}) && !Used(b0, c) && c.block < |b0|
        && (b0[c.block].state == Empty || b0[c.block].state == Allocating)
      requires allocBlock < 0 || b0[allocBlock].state == Empty || b0[allocBlock].state == Allocating
      modifies this`blocks, this`nand, this`nErased, this`nFree, this`blocksInCheckpt, this`isCheckpointed,
        this`gcBlock, this`allocBlock
      ensures Valid() && Grown(b0, n0, blocks, nand, {})
        && (gcBlock == old(gcBlock) || (gcBlock == 0 && c.block == old(gcBlock)))
    {
      hide Grown, Core, Shrunk, CheckptOk;
      StableFacts();
      ghost var b1, n1 := blocks, nand;
      ChunkDel(c, true);
      GrownShrunk(b0, n0, b1, n1, blocks, nand, c);
      StableFacts();
      ghost var b2 := blocks;
      SkipRestOfBlock();
      if b2 != blocks {
        GrownSize(b0, n0, b2, nand, {});
        GrownFlags(b0, n0, b2, nand, blocks, {}, old(allocBlock));
      }
    }

    /** Chunks are only taken from the block of c. */
    lemma OnlyOne(c: Chunk)
      requires Placed(c)
      ensures allocBlock < 0 || allocBlock == c.block
    {}

    lemma StableFacts()
      requires Stable()
      ensures Params() && |blocks| == |soft| && -1 <= allocBlock < |blocks|
      ensures allocBlock >= 0 ==> IsBlock(allocBlock) && blocks[allocBlock].state == Allocating
    {}

    /** Mark the block of a failed write, for retirement if the page was seen to be erased before. */
    method BlameBlock(c: Chunk, retire: bool)
      requires Valid() && IsBlock(c.block)
      modifies this`blocks
      ensures Valid() && |blocks| == |old(blocks)| && blocks == old(blocks)[c.block := blocks[c.block]]
      ensures SameButHealth(old(blocks)[c.block], blocks[c.block]) && (retire ==> blocks[c.block].needsRetiring)
    {
      hide Total, BlockOk, Unwritten;
      HandleChunkError(c.block, c);
      if retire {
        ghost var was := blocks;
        blocks := blocks[c.block := blocks[c.block].(needsRetiring := true)];
        Recount(was, c.block, blocks[c.block]);
        HealthAside(was[c.block], blocks[c.block], cpb);
      }
    }

    /** Did what was written arrive? It is read back unless the block is known to have been erased. */
    method CheckWritten(c: Chunk, content: Content, tags: Tags, written: bool) returns (ok: bool)
      requires Valid() && IsBlock(c.block)
        && (written ==> c in nand && nand[c].content == content && SameOwner(nand[c].tags, tags))
      modifies this`blocks
      ensures Valid() && |blocks| == |old(blocks)| && blocks == old(blocks)[c.block := blocks[c.block]]
      ensures SameButHealth(old(blocks)[c.block], blocks[c.block])
      ensures ok ==> c in nand && nand[c].content == content && SameOwner(nand[c].tags, tags)
      ensures written ==> ok
    {
      ok := written;
      if !blocks[c.block].skipErasedCheck {
        ok := VerifyChunkWritten(c, content, tags);
      }
    }

    /** Program a chunk just taken and found erased, and give it back if that fails. */
    method WritePlaced(c: Chunk, content: Content, tags: Tags, checked: bool, ghost b0: seq<Block>, ghost n0: Nand)
      returns (ok: bool)
      requires Placed(c) && Blank(nand, c.block, c.page, cpb)
      requires Grown(b0, n0, blocks, nand, {c}) && !Used(b0, c) && c.block < |b0|
        && (b0[c.block].state == Empty || b0[c.block].state == Allocating)
      modifies this`blocks, this`nand, this`nErased, this`nFree, this`blocksInCheckpt, this`isCheckpointed,
        this`gcBlock, this`allocBlock
      ensures Valid() && Grown(b0, n0, blocks, nand, if ok then {c} else {})
      ensures ok ==> InUse(c) && !IsSoft(c) && c in nand && nand[c].content == content && SameOwner(nand[c].tags, tags)
      ensures gcBlock == old(gcBlock) || (gcBlock == 0 && c.block == old(gcBlock))
      ensures !faulty ==> ok
    {
      hide Grown, Core, Placed, CheckptOk, NoneDirty, BelowOk;
      PlacedFacts(c);
      var written := WrChunkTags(c, content, tags, b0, n0);
      ghost var b1 := blocks;
      StableFacts();
      GrownSize(b0, n0, b1, nand, {c});
      ok := CheckWritten(c, content, tags, written);
      GrownFlags(b0, n0, b1, nand, blocks, {c}, c.block);
      ghost var b2 := blocks;
      if !ok {
        BlameBlock(c, checked);
        GrownFlags(b0, n0, b2, nand, blocks, {c}, c.block);
        AbandonChunk(c, b0, n0);
      } else {
        SetChecked(c.block);
        GrownFlags(b0, n0, b2, nand, blocks, {c}, c.block);
      }
    }

    /** One attempt to write: no chunk, or a chunk and whether it holds what it should. */
    method WriteAttempt(content: Content, tags: Tags, useReserve: bool, checkptBlocks: nat)
      returns (r: Option<Chunk>, ok: bool)
      requires Valid()
      modifies this`blocks, this`nand, this`nErased, this`nFree, this`blocksInCheckpt, this`isCheckpointed,
        this`gcBlock, this`allocFinder, this`seqNumber, this`allocBlock, this`allocPage
      ensures Valid() && (ok ==> r.Some?) && Grown(old(blocks), old(nand), blocks, nand, if ok then {r.value} else {})
      ensures ok ==> !old(InUse(r.value)) && Written(r.value, content, tags)
      ensures GcKept(old(blocks), old(gcBlock), gcBlock)
      ensures (r.Some? <==> old(HasRoom(useReserve, checkptBlocks)))
        && (r.None? ==> !HasRoom(useReserve, checkptBlocks))
      ensures r.Some? && !faulty ==> ok
    {
      hide Grown, Core, Placed, CheckptOk, NoneDirty, BelowOk, Unwritten;
      ghost var b0, n0 := blocks, nand;
      ok := false;
      r := AllocChunk(useReserve, checkptBlocks);
      if r.None? {
        return;
      }
      var c := r.value;
      PlacedFacts(c);
      GrownSize(b0, n0, blocks, nand, {c});
      ghost var b1 := blocks;
      var erased, checked := EnsureErased(c);
      PlacedFacts(c);
      GrownFlags(b0, n0, b1, nand, blocks, {c}, c.block);
      if !erased {
        OnlyOne(c);
        AbandonChunk(c, b0, n0);
      } else {
        ok := WritePlaced(c, content, tags, checked, b0, n0);
      }
    }

    /** The chunk is in use and holds this. */
    ghost predicate Written(c: Chunk, content: Content, tags: Tags)
      reads this`blocks, this`nand, this`soft
    {
      InUse(c) && !IsSoft(c) && c in nand && nand[c].content == content && SameOwner(nand[c].tags, tags)
        && (cps > 0 ==> c.page < cps)
    }

    /** There is room once the blocks of the stored checkpoint have been given up. */
    predicate WillHaveRoom(useReserve: bool, checkptBlocks: nat)
      reads this`nFree, this`allocBlock, this`nErased, this`blocksInCheckpt
    {
      && (useReserve || nFree + ChunksIn(blocksInCheckpt, cpb) > (reserved + checkptBlocks) * cpb + 1)
      && (allocBlock >= 0 || nErased + blocksInCheckpt >= 1)
    }

    /** Write a new chunk, trying again on bad pages. It stays where it was put even when other blocks are erased or
        retired on the way; if no attempt succeeds nothing has come into use but summaries. */
    method WriteNewChunk(content: Content, tags: Tags, useReserve: bool, checkptBlocks: nat) returns (r: Option<Chunk>)
      requires Valid()
      modifies this`blocks, this`nand, this`nErased, this`nFree, this`blocksInCheckpt, this`isCheckpointed,
        this`gcBlock, this`allocFinder, this`seqNumber, this`allocBlock, this`allocPage
      ensures Valid() && Grown(old(blocks), old(nand), blocks, nand, if r.Some? then {r.value} else {})
      ensures r.Some? ==> !old(InUse(r.value)) && Written(r.value, content, tags)
      ensures GcKept(old(blocks), old(gcBlock), gcBlock)
      // It fails only for lack of room or because the device does; a device that does not fail writes if there is room.
      ensures r.None? ==> faulty || !HasRoom(useReserve, checkptBlocks)
      ensures !faulty ==> (r.Some? <==> old(WillHaveRoom(useReserve, checkptBlocks)))
    {
      hide Grown, Core, CheckptOk, NoneDirty, BelowOk;
      ghost var b0, n0 := blocks, nand;
      InvalidateFirst();
      ghost var room := HasRoom(useReserve, checkptBlocks);
      r := None;
      var tries := 0;
      var again := true;
      while again
        invariant Valid() && Grown(b0, n0, blocks, nand, if r.Some? then {r.value} else {}) && tries <= attempts + 1
        invariant r.Some? ==> !again && !Used(b0, r.value) && Written(r.value, content, tags)
        invariant GcKept(b0, old(gcBlock), gcBlock)
        invariant again ==> tries <= attempts
        invariant !again && r.None? ==> faulty || !HasRoom(useReserve, checkptBlocks)
        invariant !faulty ==> if again then r.None? && HasRoom(useReserve, checkptBlocks) == room else r.Some? == room
        decreases again, attempts + 1 - tries
      {
        ghost var b1, n1, gc := blocks, nand, gcBlock;
        var c, ok := WriteAttempt(content, tags, useReserve, checkptBlocks);
        GrownTrans(b0, n0, b1, n1, {}, blocks, nand, if ok then {c.value} else {}, if ok then {c.value} else {});
        GcKeptTrans(b0, n0, b1, n1, {}, old(gcBlock), gc, gcBlock);
        tries := tries + 1;
        if ok {
          NotUsedBefore(b0, n0, b1, n1, c.value);
          r := c;
        }
        again := c.Some? && !ok && tries <= attempts;
      }
    }

    method InvalidateFirst()
      requires Valid()
      modifies this`blocks, this`nand, this`nErased, this`nFree, this`blocksInCheckpt, this`isCheckpointed
      ensures Valid() && Grown(old(blocks), old(nand), blocks, nand, {})
      ensures !faulty ==> forall useReserve, n :: HasRoom(useReserve, n) == old(WillHaveRoom(useReserve, n))
    {
      hide Total, Unwritten, BlockOk, NoMarks, ErasedOk, BlocksOk;
      ghost var b0 := blocks;
      BlocksAreOk();
      CheckptInvalidate(0);
    }

    // ---- collecting, soft deletion and checking ----

    /** Change flags of a block, or its state between Full and Collecting. */
    method SetBlock(b: nat, bi: Block)
      requires Valid() && IsBlock(b) && (blocks[b].state == Full || blocks[b].state == Collecting)
      requires bi == blocks[b].(state := bi.state, hasShrinkHdr := bi.hasShrinkHdr)
        && (bi.state == Full || bi.state == Collecting)
      modifies this`blocks
      ensures Valid() && blocks == old(blocks)[b := bi]
    {
      hide Total, BlockOk, Unwritten;
      ghost var was := blocks;
      blocks := blocks[b := bi];
      Recount(was, b, bi);
      CollectingAside(was[b], bi, cpb);
    }

    /** A chunk of a soft-deleted file stays where it is but counts as free. */
    method SoftDelChunk(c: Chunk)
      requires Valid() && InUse(c) && !IsSoft(c)
      modifies this`blocks, this`nFree, this`soft
      ensures Valid()
        && blocks == old(blocks)[c.block := old(blocks)[c.block].(softDel := old(blocks)[c.block].softDel + 1)]
      ensures nFree == old(nFree) + 1
      ensures c.block < |old(soft)| && soft == old(soft)[c.block := old(soft)[c.block] + {c.page}]
    {
      hide Total, BlockOk, Unwritten;
      UsedState(c);
      ghost var was := blocks;
      SoftBit(blocks[c.block], soft[c.block], cpb, c.page);
      blocks := blocks[c.block := blocks[c.block].(softDel := blocks[c.block].softDel + 1)];
      nFree := nFree + 1;
      soft := soft[c.block := soft[c.block] + {c.page}];
      Recount(was, c.block, blocks[c.block]);
    }

    /** Before a soft-deleted chunk is really deleted it stops counting as free. */
    method UnsoftenChunk(c: Chunk)
      requires Valid() && InUse(c) && IsSoft(c)
      modifies this`blocks, this`nFree, this`soft
      ensures Valid()
        && blocks == old(blocks)[c.block := old(blocks)[c.block].(softDel := old(blocks)[c.block].softDel - 1)]
      ensures nFree == old(nFree) - 1
      ensures c.block < |old(soft)| && soft == old(soft)[c.block := old(soft)[c.block] - {c.page}]
    {
      hide Total, BlockOk, Unwritten;
      UsedState(c);
      ghost var was := blocks;
      HardBit(blocks[c.block], soft[c.block], cpb, c.page);
      nFree := nFree - 1;
      blocks := blocks[c.block := blocks[c.block].(softDel := blocks[c.block].softDel - 1)];
      soft := soft[c.block := soft[c.block] - {c.page}];
      Recount(was, c.block, blocks[c.block]);
    }

    /** Collecting a block starts by dropping its summary. */
    method SummaryGc(b: nat)
      requires Valid() && IsBlock(b) && (blocks[b].state == Full || blocks[b].state == Collecting) && b < |soft|
      requires forall p :: p in soft[b] ==> cps == 0 || p < cps
      modifies this`blocks, this`nFree
      ensures Valid() && |blocks| == |old(blocks)| && blocks == old(blocks)[b := blocks[b]]
      ensures blocks[b] == old(blocks)[b].(bits := blocks[b].bits, pages := blocks[b].pages)
      ensures forall p: nat ::
        p in blocks[b].bits <==> p in old(blocks)[b].bits && (old(blocks)[b].hasSummary ==> p < cps)
    {
      hide Stable;
      if !blocks[b].hasSummary {
        return;
      }
      var i := cps;
      BitsInBlock(b);
      while i < cpb
        invariant cps <= i <= cpb && Valid() && |blocks| == |old(blocks)| && blocks == old(blocks)[b := blocks[b]]
        invariant blocks[b] == old(blocks)[b].(bits := blocks[b].bits, pages := blocks[b].pages)
        invariant forall p: nat :: p in blocks[b].bits <==> p in old(blocks)[b].bits && !(cps <= p < i)
      {
        if i in blocks[b].bits {
          ClearBit(Chunk(b, i));
        }
        i := i + 1;
      }
    }

    lemma BitsInBlock(b: nat)
      requires Stable() && b < |blocks|
      ensures forall p :: p in blocks[b].bits ==> p < cpb
      ensures cps < cpb && (blocks[b].hasSummary ==> cps > 0)
    {}

    /** Give up a block that is being collected and has no chunk left. */
    method EraseUnused(b: nat)
      requires Valid() && IsBlock(b) && blocks[b].bits == {} && blocks[b].state == Collecting
      modifies this`blocks, this`nand, this`nErased, this`nFree, this`blocksInCheckpt, this`isCheckpointed, this`gcBlock
      ensures Valid() && |blocks| == |old(blocks)| && (blocks[b].state == Empty || blocks[b].state == Dead)
        && blocks[b].bits == {}
      ensures forall c: Chunk {:trigger Used(blocks, c)} :: Used(blocks, c) <==> Used(old(blocks), c)
      ensures forall c: Chunk {:trigger Used(blocks, c)} ::
        Used(blocks, c) ==> (c in nand <==> c in old(nand)) && (c in nand ==> nand[c] == old(nand)[c])
      ensures forall x {:trigger blocks[x]} ::
        0 <= x < |blocks| && blocks[x].state == Collecting ==> old(blocks)[x].state == Collecting
      ensures gcBlock == if old(gcBlock) == b then 0 else old(gcBlock)
    {
      hide Total, Unwritten;
      BlocksAreOk();
      BlockBecameDirty(b);
      BlocksAreOk();
    }

    /** yaffs_count_free_chunks: what the block records say is what the running counter says. */
    method CountFreeChunks() returns (n: int)
      requires Valid()
      ensures n == nFree
    {
      n := 0;
      var b := start;
      while b < |blocks|
        invariant start <= b <= |blocks|
          && n + Total(FreeChunks, cpb, blocks, b) == Total(FreeChunks, cpb, blocks, start)
      {
        match blocks[b].state {
          case Empty => n := n + (cpb - blocks[b].pages + blocks[b].softDel);
          case Allocating => n := n + (cpb - blocks[b].pages + blocks[b].softDel);
          case Collecting => n := n + (cpb - blocks[b].pages + blocks[b].softDel);
          case Full => n := n + (cpb - blocks[b].pages + blocks[b].softDel);
          case _ =>
        }
        b := b + 1;
      }
    }

    /** yaffs_verify_blk: the run-time checks on one block find nothing wrong. */
    method VerifyBlk(b: nat) returns (sound: bool)
      requires Valid() && IsBlock(b)
      ensures sound
    {
      var bi := blocks[b];
      SubsetSize(soft[b], bi.bits);
      PagesFit(bi.bits, cpb);
      var actuallyUsed := bi.pages - bi.softDel;
      var inUse := |bi.bits|;
      sound := 0 <= bi.pages <= cpb && 0 <= bi.softDel <= cpb && 0 <= actuallyUsed <= cpb && inUse == bi.pages;
    }

    /** yaffs_verify_blocks finds nothing wrong, during a collection either. */
    method VerifyBlocks() returns (sound: bool)
      requires Valid()
        && forall b {:trigger blocks[b]} :: 0 <= b < |blocks| && blocks[b].state == Collecting ==> b == gcBlock
      ensures sound
    {
      hide BlocksOk, ErasedOk;
      CoreParts(0);
      sound := true;
      var allocating, checkpoint, empty, collecting := 0, 0, 0, 0;
      var b := start;
      while b < |blocks|
        invariant start <= b <= |blocks| && sound
        invariant empty + Total(ErasedBlocks, cpb, blocks, b) == Total(ErasedBlocks, cpb, blocks, start)
        invariant checkpoint + Total(CheckpointBlocks, cpb, blocks, b) == Total(CheckpointBlocks, cpb, blocks, start)
        invariant allocating == if start <= allocBlock < b then 1 else 0
        invariant collecting <= if start <= gcBlock < b then 1 else 0
      {
        var found := VerifyBlk(b);
        sound := sound && found;
        match blocks[b].state {
          case Allocating => allocating := allocating + 1;
          case Checkpoint => checkpoint := checkpoint + 1;
          case Empty => empty := empty + 1;
          case Collecting => collecting := collecting + 1;
          case _ =>
        }
        b := b + 1;
      }
      sound := sound && allocating <= 1 && blocksInCheckpt == checkpoint && nErased == empty && collecting <= 1;
    }
  }

  /** A block of a checkpoint has no chunk in use. */
  lemma GivenUpIsOk(bi: Block, softBits: set<nat>, cpb: nat)
    requires bi.state == Checkpoint
    ensures BlockOk(bi, softBits, cpb) ==>
      BlockOk(bi.(state := Empty), softBits, cpb) && BlockOk(bi.(state := Dead), softBits, cpb)
    ensures BlockOk(bi, softBits, cpb) ==> bi.pages == 0 && bi.softDel == 0 && bi.bits == {}
  {}

  /** Full or being collected, a block counts alike. */
  lemma CollectingAside(a: Block, b: Block, cpb: nat)
    requires b == a.(state := b.state, hasShrinkHdr := b.hasShrinkHdr)
    requires (a.state == Full || a.state == Collecting) && (b.state == Full || b.state == Collecting)
    ensures forall s: set<nat> :: BlockOk(a, s, cpb) <==> BlockOk(b, s, cpb)
    ensures forall count :: Weight(count, cpb, a) == Weight(count, cpb, b)
  {}

  lemma SoftBit(bi: Block, softBits: set<nat>, cpb: nat, page: nat)
    requires BlockOk(bi, softBits, cpb) && page in bi.bits && page !in softBits
    ensures BlockOk(bi.(softDel := bi.softDel + 1), softBits + {page}, cpb)
  {}

  lemma HardBit(bi: Block, softBits: set<nat>, cpb: nat, page: nat)
    requires BlockOk(bi, softBits, cpb) && page in softBits
    ensures BlockOk(bi.(softDel := bi.softDel - 1), softBits - {page}, cpb)
  {}

  lemma PagesFit(bits: set<nat>, cpb: nat)
    requires forall p :: p in bits ==> p < cpb
    ensures |bits| <= cpb
  {
    InPages(0, cpb);
    PagesCounted({}, 0, cpb);
    assert {} + Pages(0, cpb) == Pages(0, cpb);
    SubsetSize(bits, Pages(0, cpb));
  }

  /** The block being collected is not erased by anything else. */
  ghost predicate GcKept(b0: seq<Block>, gc: nat, gc': nat) {
    && (gc' == gc || gc' == 0)
    && (gc < |b0| && (b0[gc].state == Full || b0[gc].state == Collecting) ==> gc' == gc)
  }

  lemma GcKeptTrans(b0: seq<Block>, n0: Nand, b1: seq<Block>, n1: Nand, more: set<Chunk>, gc0: nat, gc1: nat, gc2: nat)
    requires Grown(b0, n0, b1, n1, more) && GcKept(b0, gc0, gc1) && GcKept(b1, gc1, gc2)
    ensures GcKept(b0, gc0, gc2)
  {}

  lemma NotUsedBefore(b0: seq<Block>, n0: Nand, b1: seq<Block>, n1: Nand, c: Chunk)
    requires Grown(b0, n0, b1, n1, {}) && !Used(b1, c)
    ensures !Used(b0, c)
  {}

  lemma GrownSize(b0: seq<Block>, n0: Nand, b1: seq<Block>, n1: Nand, more: set<Chunk>)
    requires Grown(b0, n0, b1, n1, more)
    ensures |b0| == |b1|
  {}

  /** n pages from lo on. */
  function Pages(lo: nat, n: nat): set<nat> {
    if n == 0 then {} else Pages(lo, n - 1) + {lo + n - 1}
  }

  /** The record of a block once n chunks of its summary are written. */
  function WithSummary(bi: Block, lo: nat, n: nat, done: bool): Block {
    bi.(bits := bi.bits + Pages(lo, n), pages := bi.pages + n, hasSummary := bi.hasSummary || done)
  }

  lemma NoSummaryYet(bi: Block, lo: nat)
    ensures WithSummary(bi, lo, 0, false) == bi
  {}

  lemma OneMoreSummary(bi: Block, lo: nat, n: nat)
    ensures var b := WithSummary(bi, lo, n, false);
            WithSummary(bi, lo, n + 1, false) == b.(bits := b.bits + {lo + n}, pages := b.pages + 1)
  {
    assert bi.bits + (Pages(lo, n) + {lo + n}) == (bi.bits + Pages(lo, n)) + {lo + n};
  }

  lemma SummaryDone(bi: Block, lo: nat, n: nat)
    ensures WithSummary(bi, lo, n, true) == WithSummary(bi, lo, n, false).(hasSummary := true)
  {}

  lemma {:induction false} InPages(lo: nat, n: nat)
    ensures forall p: nat :: p in Pages(lo, n) <==> lo <= p < lo + n
  {
    if n > 0 {
      InPages(lo, n - 1);
    }
  }

  lemma {:induction false} PagesCounted(bits: set<nat>, lo: nat, n: nat)
    requires forall p :: p in bits ==> p < lo
    ensures |bits + Pages(lo, n)| == |bits| + n
  {
    if n == 0 {
      assert bits + Pages(lo, 0) == bits;
    } else {
      PagesCounted(bits, lo, n - 1);
      InPages(lo, n - 1);
      OneMore(bits, Pages(lo, n - 1), lo + n - 1);
    }
  }

  lemma OneMore(a: set<nat>, b: set<nat>, x: nat)
    requires x !in a + b
    ensures |a + (b + {x})| == |a + b| + 1
  {
    assert a + (b + {x}) == (a + b) + {x};
  }

  /** The chunks of a summary are counted like any others. */
  lemma SummaryCounted(bi: Block, softBits: set<nat>, cpb: nat, lo: nat, n: nat, done: bool)
    requires BlockOk(bi, softBits, cpb) && lo + n <= cpb && forall p :: p in bi.bits ==> p < lo
    requires bi.state == Allocating || bi.state == Full
    ensures BlockOk(WithSummary(bi, lo, n, done), softBits, cpb)
    ensures forall p: nat :: p in WithSummary(bi, lo, n, done).bits <==> p in bi.bits || lo <= p < lo + n
  {
    hide Pages;
    InPages(lo, n);
    PagesCounted(bi.bits, lo, n);
  }

  lemma SameBits(a: Block, b: Block, cpb: nat)
    requires a.state == b.state && a.bits == b.bits && a.pages == b.pages && a.softDel == b.softDel
    ensures forall s: set<nat> :: BlockOk(a, s, cpb) <==> BlockOk(b, s, cpb)
  {}

  lemma SummaryParts(bi: Block, lo: nat, n: nat, done: bool)
    ensures var b := WithSummary(bi, lo, n, done);
            b.state == bi.state && b.pages == bi.pages + n && b.softDel == bi.softDel
              && b.skipErasedCheck == bi.skipErasedCheck
            && b.hasShrinkHdr == bi.hasShrinkHdr
  {}

  lemma FullIsOk(bi: Block, softBits: set<nat>, cpb: nat)
    requires BlockOk(bi, softBits, cpb)
    ensures BlockOk(bi.(state := Full), softBits, cpb)
  {}

  ghost predicate SameButHealth(a: Block, b: Block) {
    b == a.(gcPrioritise := b.gcPrioritise, strikes := b.strikes, needsRetiring := b.needsRetiring)
  }

  lemma HealthAside(a: Block, b: Block, cpb: nat)
    requires SameButHealth(a, b)
    ensures forall s: set<nat> :: BlockOk(a, s, cpb) <==> BlockOk(b, s, cpb)
    ensures forall count :: Weight(count, cpb, a) == Weight(count, cpb, b)
  {}

  lemma StillNoneDirty(b0: seq<Block>, b1: seq<Block>, b: nat)
    requires OthersKept(b0, b1, b) && b < |b0| && b1[b].state != Dirty
    requires forall x {:trigger b0[x]} :: 0 <= x < |b0| ==> b0[x].state != Dirty
    ensures forall x {:trigger b1[x]} :: 0 <= x < |b1| ==> b1[x].state != Dirty
    ensures forall x {:trigger b1[x]} :: 0 <= x < |b1| && b0[x].state == Allocating && x != b ==> b1[x] == b0[x]
  {}

  lemma NoPages(bi: Block, softBits: set<nat>, cpb: nat)
    requires BlockOk(bi, softBits, cpb)
    ensures bi.pages == 0 <==> bi.bits == {}
  {}

  lemma MarkedUnwritten(nand: Nand, nand': Nand, c: Chunk, cpb: nat)
    requires forall x: Chunk {:trigger x in nand} {:trigger x in nand'} ::
      x != c ==> (x in nand <==> x in nand') && (x in nand ==> nand'[x] == nand[x])
    requires c in nand' ==> !Marks(nand'[c])
    ensures forall x: nat {:trigger Blank(nand', x, 0, cpb)} ::
      x != c.block ==> (Blank(nand', x, 0, cpb) <==> Blank(nand, x, 0, cpb))
    ensures forall x: nat {:trigger Stamped(nand', x)} :: Stamped(nand', x) ==> Stamped(nand, x)
    ensures forall b: nat, from: nat, sure {:trigger Unwritten(nand', b, from, sure, cpb)} ::
      b != c.block || c.page < from ==> (Unwritten(nand', b, from, sure, cpb) <==> Unwritten(nand, b, from, sure, cpb))
  {
    forall b: nat, from: nat, sure | b != c.block || c.page < from
      ensures Unwritten(nand', b, from, sure, cpb) <==> Unwritten(nand, b, from, sure, cpb)
    {
      assert forall p {:trigger Chunk(b, p)} :: from <= p ==> (Chunk(b, p) in nand <==> Chunk(b, p) in nand');
    }
  }

  function BitCleared(bi: Block, page: nat): Block {
    bi.(bits := bi.bits - {page}, pages := bi.pages - 1)
  }

  /** Deleting this page gives the block up. */
  predicate Erases(bi: Block, page: nat) {
    bi.bits - {page} == {} && !bi.hasShrinkHdr && bi.state != Allocating
  }

  lemma BitClear(bi: Block, softBits: set<nat>, cpb: nat, page: nat)
    requires BlockOk(bi, softBits, cpb) && page in bi.bits && page !in softBits
    ensures BlockOk(BitCleared(bi, page), softBits, cpb)
  {}

  /** Chunk c has gone out of use and nothing else has changed, but that its block and stored checkpoints may have been
      erased. */
  ghost predicate Shrunk(b0: seq<Block>, n0: Nand, b1: seq<Block>, n1: Nand, c: Chunk) {
    && OthersKept(b0, b1, c.block)
    && forall x: Chunk {:trigger Used(b1, x)} {:trigger Used(b0, x)} ::
         && (Used(b1, x) <==> Used(b0, x) && x != c)
         && (Used(b1, x) ==> (x in n0 <==> x in n1) && (x in n0 ==> n1[x] == n0[x]))
  }

  lemma ShrunkClearing(b0: seq<Block>, n0: Nand, n1: Nand, c: Chunk)
    requires Used(b0, c)
      && forall x: Chunk {:trigger x in n1} {:trigger x in n0} ::
      x != c ==> (x in n1 <==> x in n0) && (x in n1 ==> n1[x] == n0[x])
    ensures Shrunk(b0, n0, b0[c.block := BitCleared(b0[c.block], c.page)], n1, c)
  {}

  lemma ShrunkFurther(b0: seq<Block>, n0: Nand, b1: seq<Block>, n1: Nand, b2: seq<Block>, n2: Nand, c: Chunk)
    requires Shrunk(b0, n0, b1, n1, c) && OthersKept(b1, b2, c.block) && NandKept(b1, n1, n2, c.block)
    requires c.block < |b1| && b1[c.block].bits == {} && b2[c.block].bits == {}
    requires forall b {:trigger b1[b]} :: 0 <= b < |b1| && b1[b].state == Checkpoint ==> b1[b].bits == {}
    requires forall b {:trigger b0[b]} :: 0 <= b < |b0| && b0[b].state == Checkpoint ==> b0[b].bits == {}
    ensures Shrunk(b0, n0, b2, n2, c)
  {}

  lemma GrownShrunk(b0: seq<Block>, n0: Nand, b1: seq<Block>, n1: Nand, b2: seq<Block>, n2: Nand, c: Chunk)
    requires Grown(b0, n0, b1, n1, {c}) && Shrunk(b1, n1, b2, n2, c)
    requires !Used(b0, c) && c.block < |b0| && (b0[c.block].state == Empty || b0[c.block].state == Allocating)
    requires b2[c.block].state == Collecting ==> b1[c.block].state == Collecting
    ensures Grown(b0, n0, b2, n2, {})
  {}

  /** The record of a block that has just been erased. */
  function Cleaned(bi: Block): Block {
    bi.(state := Empty, seqNumber := 0, pages := 0, softDel := 0, hasShrinkHdr := false, skipErasedCheck := true,
        gcPrioritise := false, hasSummary := false, bits := {})
  }

  lemma CleanedIsOk(bi: Block, softBits: set<nat>, cpb: nat)
    requires bi.state == Dirty && BlockOk(bi, softBits, cpb)
    ensures BlockOk(Cleaned(bi), softBits, cpb)
  {}

  lemma OtherBlocksUnwritten(nand: Nand, nand': Nand, b: nat, cpb: nat)
    requires forall c: Chunk {:trigger c in nand} {:trigger c in nand'} ::
      c.block != b ==> (c in nand <==> c in nand') && (c in nand ==> nand'[c] == nand[c])
    ensures forall x: nat {:trigger Blank(nand', x, 0, cpb)} ::
      x != b ==> (Blank(nand', x, 0, cpb) <==> Blank(nand, x, 0, cpb))
    ensures forall x: nat {:trigger Stamped(nand', x)} :: x != b ==> (Stamped(nand', x) <==> Stamped(nand, x))
    ensures forall x: nat, from: nat, sure {:trigger Unwritten(nand', x, from, sure, cpb)} ::
      x != b ==> (Unwritten(nand', x, from, sure, cpb) <==> Unwritten(nand, x, from, sure, cpb))
  {
    forall x: nat, from: nat, sure | x != b ensures Unwritten(nand', x, from, sure, cpb)
       <==> Unwritten(nand, x, from, sure, cpb) {
      UnwrittenFrame(nand, nand', x, cpb);
    }
  }

  lemma {:induction false} NoCheckpoint(cpb: nat, blocks: seq<Block>, lo: nat)
    requires forall b :: lo <= b < |blocks| ==> blocks[b].state != Checkpoint
    ensures Total(CheckpointBlocks, cpb, blocks, lo) == 0
    decreases |blocks| - lo
  {
    if lo < |blocks| {
      NoCheckpoint(cpb, blocks, lo + 1);
    }
  }
}
