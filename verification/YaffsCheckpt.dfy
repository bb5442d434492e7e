/** The checkpoint stream: bytes cut into self-checking chunks that are scattered over erased blocks. */
module YaffsCheckpt {
  import opened YaffsBlocks
  import opened Arith
  import opened Bytes

  const HDR_SIZE: nat := 16
  const SIZE_OF_SIZE: nat := 4    // what the header's size is mistaken for when the stream is closed
  const VERSION: nat := 7

  function U32(x: int): nat {
    x % 0x1_0000_0000
  }

  lemma NextSeq(p: nat)
    ensures U32(U32(p) + 1) == U32(p + 1)
  {}

  lemma SameSeq(p: nat, q: nat)
    ensures U32(p + 1) == U32(q + 1) ==> U32(p) == U32(q)
  {}

  lemma SeqFits(p: nat)
    ensures U32(p) < 0x1_0000_0000
  {}

  function XorByte(a: byte, b: byte): byte {
    ((a as bv8) ^ (b as bv8)) as nat
  }

  /** The running sum and the running exclusive-or of a stream. */
  function Sum(s: seq<byte>): nat {
    if s == [] then 0 else U32(Sum(s[..|s| - 1]) + s[|s| - 1])
  }

  function Xor(s: seq<byte>): byte {
    if s == [] then 0 else XorByte(Xor(s[..|s| - 1]), s[|s| - 1])
  }

  lemma SumFits(s: seq<byte>)
    ensures Sum(s) < 0x1_0000_0000
  {}

  lemma SumSnoc(s: seq<byte>, b: byte)
    ensures Sum(s + [b]) == U32(Sum(s) + b) && Xor(s + [b]) == XorByte(Xor(s), b)
  {
    assert (s + [b])[..|s|] == s;
  }

  function ChunkHeader(pageSeq: nat, sum: nat, xor: nat): (s: seq<byte>)
    ensures |s| == HDR_SIZE
  {
    Le32(VERSION) + Le32(pageSeq) + Le32(sum) + Le32(xor)
  }

  /** The check of a header that has been read. */
  predicate HeaderOk(buf: seq<byte>, pageSeq: nat, sum: nat, xor: nat)
    requires |buf| >= HDR_SIZE
  {
    Val32(buf[0..4]) == VERSION && Val32(buf[4..8]) == pageSeq && Val32(buf[8..12]) == sum && Val32(buf[12..16]) == xor
  }

  lemma HeaderChecks(buf: seq<byte>, pageSeq: nat, sum: nat, xor: byte)
    requires |buf| >= HDR_SIZE && buf[..HDR_SIZE] == ChunkHeader(pageSeq, sum, xor) && pageSeq < 0x1_0000_0000
      && sum < 0x1_0000_0000
    ensures HeaderOk(buf, pageSeq, sum, xor)
  {
    var h := ChunkHeader(pageSeq, sum, xor);
    assert buf[0..4] == h[0..4] == Le32(VERSION) && buf[4..8] == h[4..8] == Le32(pageSeq);
    assert buf[8..12] == h[8..12] == Le32(sum) && buf[12..16] == h[12..16] == Le32(xor);
    Le32Value(VERSION);
    Le32Value(pageSeq);
    Le32Value(sum);
    Le32Value(xor);
  }

  lemma AddNothing(s: seq<byte>)
    ensures U32(Sum(s)) == Sum(s) && XorByte(Xor(s), 0) == Xor(s)
  {
    hide Xor;
  }

  /** Zeros do not change the checks. */
  lemma {:induction false} Padded(s: seq<byte>, n: nat)
    ensures Sum(s + Zeros(n)) == Sum(s) && Xor(s + Zeros(n)) == Xor(s)
  {
    hide Sum, Xor, XorByte;
    if n == 0 {
      assert s + Zeros(0) == s;
    } else {
      Padded(s, n - 1);
      assert s + Zeros(n) == (s + Zeros(n - 1)) + [0];
      SumSnoc(s + Zeros(n - 1), 0);
      AddNothing(s);
    }
  }

  /** The payloads of the chunks, one after the other. */
  function Flat(pages: seq<seq<byte>>): seq<byte> {
    if pages == [] then [] else Flat(pages[..|pages| - 1]) + pages[|pages| - 1]
  }

  lemma FlatSnoc(pages: seq<seq<byte>>, page: seq<byte>)
    ensures Flat(pages + [page]) == Flat(pages) + page
  {
    assert (pages + [page])[..|pages|] == pages;
  }

  /** Every page is as long as the chunk size leaves. */
  ghost predicate FullPages(pages: seq<seq<byte>>, size: nat) {
    forall p :: 0 <= p < |pages| ==> |pages[p]| + HDR_SIZE == size
  }

  lemma {:induction false} FlatSize(pages: seq<seq<byte>>, size: nat)
    requires FullPages(pages, size) && HDR_SIZE < size
    ensures |Flat(pages)| == |pages| * (size - HDR_SIZE)
  {
    if pages != [] {
      FlatSize(pages[..|pages| - 1], size);
      assert |pages| * (size - HDR_SIZE) == (|pages| - 1) * (size - HDR_SIZE) + (size - HDR_SIZE);
    }
  }

  lemma {:induction false} FlatPrefix(pages: seq<seq<byte>>, r: nat)
    requires r <= |pages|
    ensures Flat(pages[..r]) <= Flat(pages)
    decreases |pages| - r
  {
    if r < |pages| {
      FlatPrefix(pages, r + 1);
      assert pages[..r + 1] == pages[..r] + [pages[r]];
      FlatSnoc(pages[..r], pages[r]);
    } else {
      assert pages[..r] == pages;
    }
  }

  /** Chunk p of a checkpoint is page Pg of the Nth of its blocks. */
  function Nth(p: nat, cpb: nat): nat
    requires cpb > 0
  {
    p / cpb
  }

  function Pg(p: nat, cpb: nat): nat
    requires cpb > 0
  {
    p % cpb
  }

  lemma NextPlace(p: nat, cpb: nat)
    requires cpb > 0
    ensures Pg(p, cpb) < cpb && Nth(0, cpb) == Pg(0, cpb) == 0
    ensures if Pg(p, cpb) + 1 < cpb then Nth(p + 1, cpb) == Nth(p, cpb) && Pg(p + 1, cpb) == Pg(p, cpb) + 1
            else Nth(p + 1, cpb) == Nth(p, cpb) + 1 && Pg(p + 1, cpb) == 0
  {
    var q, m := p / cpb, p % cpb;
    assert p == q * cpb + m;
    if m + 1 < cpb {
      DivUnique(q, cpb, m + 1);
    } else {
      assert p + 1 == q * cpb + cpb == (q + 1) * cpb;
      DivUnique(q + 1, cpb, 0);
    }
    DivUnique(0, cpb, 0);
  }

  /** The blocks that so many pages take. */
  function BlocksFor(pages: nat, cpb: nat): nat
    requires cpb > 0
  {
    (pages + cpb - 1) / cpb
  }

  lemma BlocksForPlace(p: nat, cpb: nat)
    requires cpb > 0
    ensures BlocksFor(p, cpb) == Nth(p, cpb) + if Pg(p, cpb) == 0 then 0 else 1
  {
    var q, m := p / cpb, p % cpb;
    assert p == q * cpb + m;
    if m == 0 {
      DivUnique(q, cpb, cpb - 1);
    } else {
      assert p + cpb - 1 == (q + 1) * cpb + (m - 1);
      DivUnique(q + 1, cpb, m - 1);
    }
  }

  /** The pages that so many bytes take, the last one included that closing adds, when there is room for `room`. */
  function PagesFor(bytes: nat, payload: nat, room: nat): nat
    requires payload > 0
  {
    if bytes / payload < room then bytes / payload + 1 else room
  }

  lemma PagesForBytes(bytes: nat, payload: nat, room: nat, full: nat, rest: nat)
    requires payload > 0
    ensures bytes == full * payload + rest && rest < payload && full < room ==>
      PagesFor(bytes, payload, room) == full + 1
    ensures bytes >= room * payload ==> PagesFor(bytes, payload, room) == room
  {
    if bytes == full * payload + rest && rest < payload && full < room {
      DivUnique(full, payload, rest);
    }
    if bytes >= room * payload {
      DivMono(room * payload, bytes, payload);
      DivUnique(room, payload, 0);
    }
  }

  function Place(used: seq<nat>, cpb: nat, p: nat): Chunk
    requires cpb > 0 && Nth(p, cpb) < |used|
  {
    Chunk(used[Nth(p, cpb)], Pg(p, cpb))
  }

  /** What chunk p of a checkpoint holds. */
  function ChunkImage(pages: seq<seq<byte>>, p: nat): seq<byte>
    requires p < |pages|
  {
    ChunkHeader(U32(p), Sum(Flat(pages[..p])), Xor(Flat(pages[..p]))) + pages[p]
  }

  /** A checkpoint chunk says which it is and, in place of an object, where to look for the next block. */
  function ChunkTags(p: nat, next: nat, size: nat): Tags {
    Tags(next, U32(p + 1), size, 0, CHECKPOINT_SEQUENCE, false, false, 0)
  }

  /** Chunk p is where it belongs. */
  predicate Stored(nand: Nand, cpb: nat, size: nat, used: seq<nat>, pages: seq<seq<byte>>, p: nat)
    requires cpb > 0 && p < |pages|
  {
    && Nth(p, cpb) < |used| && |pages[p]| + HDR_SIZE == size
    && Place(used, cpb, p) in nand
    && nand[Place(used, cpb, p)].content == Data(ChunkImage(pages, p))
    && SameTags(nand[Place(used, cpb, p)].tags, ChunkTags(p, used[Nth(p, cpb)] + 1, size))
  }

  predicate SameTags(a: Tags, b: Tags) {
    a.objId == b.objId && a.chunkId == b.chunkId && a.seqNumber == b.seqNumber && a.nBytes == b.nBytes
  }

  ghost predicate OnFlash(nand: Nand, cpb: nat, size: nat, used: seq<nat>, pages: seq<seq<byte>>) {
    cpb > 0 && forall p {:trigger pages[p]} :: 0 <= p < |pages| ==> Stored(nand, cpb, size, used, pages, p)
  }

  /** Another block in the list, another page beyond the others: what was stored still is. */
  lemma StillOnFlash(nand: Nand, nand': Nand, cpb: nat, size: nat, used: seq<nat>, used': seq<nat>,
                     pages: seq<seq<byte>>)
    requires OnFlash(nand, cpb, size, used, pages) && used <= used'
    requires forall c: Chunk {:trigger c in nand'} :: c in nand ==> c in nand' && nand'[c] == nand[c]
    ensures OnFlash(nand', cpb, size, used', pages)
  {
    forall p | 0 <= p < |pages| ensures Stored(nand', cpb, size, used', pages, p) {
      assert pages[p] == pages[p];
      assert Stored(nand, cpb, size, used, pages, p);
      assert used'[Nth(p, cpb)] == used[Nth(p, cpb)];
    }
  }

  lemma OneMoreOnFlash(nand: Nand, cpb: nat, size: nat, used: seq<nat>, pages: seq<seq<byte>>, page: seq<byte>)
    requires OnFlash(nand, cpb, size, used, pages) && Stored(nand, cpb, size, used, pages + [page], |pages|)
    ensures OnFlash(nand, cpb, size, used, pages + [page])
  {
    var more := pages + [page];
    forall p | 0 <= p < |more| ensures Stored(nand, cpb, size, used, more, p) {
      if p < |pages| {
        assert pages[p] == more[p] && more[..p] == pages[..p];
        assert Stored(nand, cpb, size, used, pages, p);
      }
    }
  }

  predicate Increasing(used: seq<nat>) {
    forall i, j :: 0 <= i < j < |used| ==> used[i] < used[j]
  }

  /** The blocks in the state CHECKPOINT are those in use for it. */
  ghost predicate Listed(blocks: seq<Block>, start: nat, used: seq<nat>) {
    && Increasing(used)
    && (forall i {:trigger used[i]} ::
         0 <= i < |used| ==> start <= used[i] < |blocks| && blocks[used[i]].state == Checkpoint)
    && forall b {:trigger blocks[b]} :: start <= b < |blocks| && blocks[b].state == Checkpoint ==> b in used
  }

  lemma ListMore(blocks: seq<Block>, start: nat, used: seq<nat>, b: nat)
    requires Listed(blocks, start, used) && start <= b < |blocks| && (used != [] ==> used[|used| - 1] < b)
    ensures Listed(blocks[b := blocks[b].(state := Checkpoint)], start, used + [b])
  {
    var more := used + [b];
    assert more[|used|] == b;
    assert forall x :: x in used ==> x in more;
  }

  /** Writing in a block of the checkpoint marks no other. */
  lemma StillNoMarks(blocks: seq<Block>, was: Nand, nand: Nand, cpb: nat, c: Chunk)
    requires NoMarks(blocks, was, cpb) && c.block < |blocks| && blocks[c.block].state == Checkpoint
    requires forall x: Chunk {:trigger x in nand} {:trigger x in was} ::
      x != c ==> (x in nand <==> x in was) && (x in nand ==> nand[x] == was[x])
    ensures NoMarks(blocks, nand, cpb)
  {
    hide Blank, Stamped, Unwritten;
    OtherBlocksUnwritten(was, nand, c.block, cpb);
  }

  /** The buffer, and the memory that follows it, holds a header and the bytes since the last page; what is free of the
      buffer is zero. */
  ghost predicate Buffered(mem: seq<byte>, size: nat, byteOffs: nat, pageSeq: nat, sum: nat, xor: byte,
                           pages: seq<seq<byte>>, written: seq<byte>) {
    && HDR_SIZE < size <= |mem| && HDR_SIZE <= byteOffs <= |mem|
    && pageSeq == U32(|pages|)
    && mem[..HDR_SIZE] == ChunkHeader(pageSeq, Sum(Flat(pages)), Xor(Flat(pages)))
    && (byteOffs <= size ==> mem[byteOffs..size] == Zeros(size - byteOffs))
    && written == Flat(pages) + mem[HDR_SIZE..byteOffs]
    && sum == Sum(written) && xor == Xor(written)
  }

  lemma BufferFlushed(mem: seq<byte>, size: nat, byteOffs: nat, pageSeq: nat, sum: nat, xor: byte,
                      pages: seq<seq<byte>>, written: seq<byte>)
    requires Buffered(mem, size, byteOffs, pageSeq, sum, xor, pages, written) && byteOffs <= size
    ensures var written' := written + Zeros(size - byteOffs);
            Flat(pages + [mem[HDR_SIZE..size]]) == written' && sum == Sum(written') && xor == Xor(written')
  {
    hide Sum, Xor, Flat, ChunkHeader, Zeros;
    Padded(written, size - byteOffs);
    FlatSnoc(pages, mem[HDR_SIZE..size]);
    Tail(mem, HDR_SIZE, byteOffs, size, Flat(pages));
  }

  lemma Tail(mem: seq<byte>, h: nat, n: nat, size: nat, before: seq<byte>)
    requires h <= n <= size <= |mem|
    ensures before + mem[h..size] == before + mem[h..n] + mem[n..size]
  {
    assert mem[h..size] == mem[h..n] + mem[n..size];
  }

  /** With the buffer in its place the checkpoint is one page longer. */
  lemma BufferStored(was: Nand, nand: Nand, cpb: nat, img: seq<byte>, used: seq<nat>, pages: seq<seq<byte>>, c: Chunk)
    requires OnFlash(was, cpb, |img|, used, pages) && HDR_SIZE < |img|
    requires img[..HDR_SIZE] == ChunkHeader(U32(|pages|), Sum(Flat(pages)), Xor(Flat(pages)))
    requires cpb > 0 && Nth(|pages|, cpb) < |used| && c == Place(used, cpb, |pages|) && c !in was && c in nand
    requires nand[c].content == Data(img) && SameTags(nand[c].tags, ChunkTags(|pages|, c.block + 1, |img|))
    requires forall x: Chunk {:trigger x in nand} {:trigger x in was} ::
      x != c ==> (x in nand <==> x in was) && (x in nand ==> nand[x] == was[x])
    ensures OnFlash(nand, cpb, |img|, used, pages + [img[HDR_SIZE..]])
  {
    hide OnFlash, Sum, Xor, Flat, ChunkHeader;
    var more := pages + [img[HDR_SIZE..]];
    StillOnFlash(was, nand, cpb, |img|, used, used, pages);
    assert more[..|pages|] == pages && img == img[..HDR_SIZE] + img[HDR_SIZE..];
    OneMoreOnFlash(nand, cpb, |img|, used, pages, img[HDR_SIZE..]);
  }

  lemma ByteBuffered(mem: seq<byte>, size: nat, byteOffs: nat, pageSeq: nat, sum: nat, xor: byte, pages: seq<seq<byte>>,
                     written: seq<byte>, b: byte)
    requires Buffered(mem, size, byteOffs, pageSeq, sum, xor, pages, written) && byteOffs < |mem|
    ensures Buffered(mem[byteOffs := b], size, byteOffs + 1, pageSeq, U32(sum + b), XorByte(xor, b), pages,
        written + [b])
  {
    hide Sum, Xor, Flat, ChunkHeader;
    var now := mem[byteOffs := b];
    SumSnoc(written, b);
    assert now[..HDR_SIZE] == mem[..HDR_SIZE];
    assert now[HDR_SIZE..byteOffs + 1] == mem[HDR_SIZE..byteOffs] + [b];
    Regroup(Flat(pages), mem[HDR_SIZE..byteOffs], [b]);
    if byteOffs < size {
      assert now[byteOffs + 1..size] == mem[byteOffs..size][1..] == Zeros(size - (byteOffs + 1));
    }
  }

  lemma Regroup(a: seq<byte>, b: seq<byte>, c: seq<byte>)
    ensures a + (b + c) == (a + b) + c
  {}

  /** The blocks that can still be taken, looking from `next` on. */
  ghost function BlocksLeft(blocks: seq<Block>, cpb: nat, nErased: int, reserved: nat, next: int): (n: int) {
    if next < 0 || nErased <= reserved then 0 else Total(ErasedBlocks, cpb, blocks, next)
  }

  /** There are none if an earlier search has failed, too few blocks are erased or none of them is from `next` on. */
  lemma NoneLeftIff(blocks: seq<Block>, cpb: nat, nErased: int, reserved: nat, next: int)
    ensures BlocksLeft(blocks, cpb, nErased, reserved, next) >= 0
    ensures BlocksLeft(blocks, cpb, nErased, reserved, next) == 0
       <==> next < 0 || nErased <= reserved || forall b :: next <= b < |blocks| ==> blocks[b].state != Empty
  {
    hide Total;
    if next >= 0 {
      ErasedNotNegative(cpb, blocks, next);
      if Total(ErasedBlocks, cpb, blocks, next) >= 1 {
        SomeErased(cpb, blocks, next);
      }
    }
  }

  /** A checkpoint being written. */
  class Writer {
    const fl: Flash
    const size: nat           // bytes of a chunk
    const buf: array<byte>    // the chunk in the making, and the memory that follows it
    var byteOffs: nat
    var pageSeq: nat
    var sum: nat
    var xor: byte
    var curBlock: int         // -1 if none
    var curPage: nat
    var nextBlock: int        // where to look for the next erased block, -1 when there is none
    ghost var written: seq<byte>
    ghost var pages: seq<seq<byte>>
    ghost var used: seq<nat>
    ghost var intact: bool    // every page so far was programmed as it should be

    /** The counters are those of a flash without this checkpoint: they are put right when it is closed. */
    ghost predicate Counted()
      reads fl
    {
      && fl.Params() && fl.BlocksOk() && fl.AllocOk() && fl.ErasedOk() && fl.NoneDirty() && fl.BelowOk() && fl.SumOk()
        && fl.CheckptOk()
      && fl.nFree == Total(FreeChunks, fl.cpb, fl.blocks, fl.start) + fl.blocksInCheckpt * fl.cpb
      && fl.nErased == Total(ErasedBlocks, fl.cpb, fl.blocks, fl.start) + fl.blocksInCheckpt
    }

    ghost predicate BufferOk()
      reads this, buf
    {
      Buffered(buf[..], size, byteOffs, pageSeq, sum, xor, pages, written)
    }

    ghost predicate CursorOk()
      reads this, fl
    {
      && fl.cpb > 0 && Listed(fl.blocks, fl.start, used)
      && (nextBlock >= 0 ==> nextBlock == if used == [] then fl.start else used[|used| - 1] + 1)
      && if curBlock < 0 then Pg(|pages|, fl.cpb) == 0 && Nth(|pages|, fl.cpb) == |used|
         else && used != [] && curBlock == used[|used| - 1] && nextBlock >= 0 && curPage == Pg(|pages|, fl.cpb) > 0
              && Nth(|pages|, fl.cpb) == |used| - 1 && Blank(fl.nand, curBlock, curPage, fl.cpb)
    }

    ghost predicate Valid()
      reads this, buf, fl
    {
      && Counted() && BufferOk() && CursorOk() && FullPages(pages, size)
      && (intact ==> OnFlash(fl.nand, fl.cpb, size, used, pages))
    }

    /** The buffer is full: writing it out has failed and will fail. */
    ghost predicate Lost()
      reads this
    {
      byteOffs >= size && curBlock < 0 && nextBlock < 0
    }

    /** The pages that can still be written. */
    ghost function PagesLeft(): int
      reads this, fl
    {
      (if curBlock >= 0 then fl.cpb - curPage else 0)
      + BlocksLeft(fl.blocks, fl.cpb, fl.nErased, fl.reserved, nextBlock) * fl.cpb
    }

    /** The bytes that can still be taken: the buffer is filled once more when no page is left. */
    ghost function Capacity(): int
      reads this, fl
    {
      (if byteOffs < size then size - byteOffs else 0) + PagesLeft() * (size - HDR_SIZE)
    }

    /** yaffs2_checkpt_open for writing, once it has found more erased blocks than are reserved: any older checkpoint is
        given up. */
    constructor (fl: Flash, size: nat, more: nat)
      requires fl.Valid() && HDR_SIZE < size
      modifies fl`blocks, fl`nand, fl`nErased, fl`nFree, fl`blocksInCheckpt
      ensures Valid() && fresh(buf) && this.fl == fl && this.size == size && buf.Length == size + more
      ensures written == [] && pages == [] && intact && byteOffs == HDR_SIZE && fl.nErased >= old(fl.nErased)
      ensures fl.nErased <= old(fl.nErased) + old(fl.blocksInCheckpt)
      ensures !fl.faulty ==> fl.nErased == old(fl.nErased) + old(fl.blocksInCheckpt)
      ensures PagesLeft() == if fl.nErased <= fl.reserved then 0 else PagesIn(fl.nErased, fl.cpb)
    {
      hide *;
      this.fl, this.size := fl, size;
      buf := new byte[size + more](_ => 0);
      byteOffs, pageSeq, sum, xor, curBlock, curPage, nextBlock := HDR_SIZE, 0, 0, 0, -1, 0, fl.start;
      written, pages, used, intact := [], [], [], true;
      new;
      NoBytes();
      Open();
    }

    /** Start with an empty page and look for blocks from the first on. */
    method Open()
      requires fl.Valid() && HDR_SIZE < size <= buf.Length && curBlock < 0 && nextBlock == fl.start
      requires pages == [] && written == Flat([]) && used == [] && pageSeq == U32(0) && sum == Sum(Flat([]))
        && xor == Xor(Flat([]))
      modifies this`byteOffs, buf, fl`blocks, fl`nand, fl`nErased, fl`nFree, fl`blocksInCheckpt
      ensures Valid() && byteOffs == HDR_SIZE && fl.nErased >= old(fl.nErased)
      ensures fl.nErased <= old(fl.nErased) + old(fl.blocksInCheckpt)
      ensures !fl.faulty ==> fl.nErased == old(fl.nErased) + old(fl.blocksInCheckpt)
      ensures PagesLeft() == if fl.nErased <= fl.reserved then 0 else PagesIn(fl.nErased, fl.cpb)
    {
      hide *;
      InitHeader();
      Erase();
      NothingWritten();
      AllBlocksLeft();
    }

    lemma NothingWritten()
      requires Counted() && BufferOk() && fl.cpb > 0 && Listed(fl.blocks, fl.start, []) && used == [] && pages == []
      requires curBlock < 0 && nextBlock == fl.start
      ensures Valid()
    {
      assert FullPages(pages, size);
      hide Counted, Buffered, Listed;
      NextPlace(0, fl.cpb);
    }

    lemma AllBlocksLeft()
      requires nextBlock == fl.start && curBlock < 0 && fl.nErased == Total(ErasedBlocks, fl.cpb, fl.blocks, fl.start)
      ensures PagesLeft() == if fl.nErased <= fl.reserved then 0 else PagesIn(fl.nErased, fl.cpb)
    {
      hide Total;
    }

    method Erase()
      requires fl.Valid()
      modifies fl`blocks, fl`nand, fl`nErased, fl`nFree, fl`blocksInCheckpt
      ensures fl.cpb > 0 && Counted() && Listed(fl.blocks, fl.start, []) && fl.nErased >= old(fl.nErased)
      ensures fl.nErased == Total(ErasedBlocks, fl.cpb, fl.blocks, fl.start)
      ensures fl.nErased <= old(fl.nErased) + old(fl.blocksInCheckpt)
      ensures !fl.faulty ==> fl.nErased == old(fl.nErased) + old(fl.blocksInCheckpt)
    {
      hide Total, Unwritten, NoMarks, NandKept, BlockOk;
      fl.CheckptErase(0);
    }

    /** A fresh header in a cleared buffer. */
    method InitHeader()
      requires HDR_SIZE < size <= buf.Length && pageSeq == U32(|pages|) && sum == Sum(Flat(pages))
        && xor == Xor(Flat(pages))
      requires written == Flat(pages)
      modifies this`byteOffs, buf
      ensures BufferOk() && byteOffs == HDR_SIZE && buf[size..] == old(buf[size..])
    {
      hide Sum, Xor, Flat;
      var h := ChunkHeader(pageSeq, sum, xor);
      forall i | 0 <= i < size {
        buf[i] := if i < HDR_SIZE then h[i] else 0;
      }
      byteOffs := HDR_SIZE;
      assert buf[..][..HDR_SIZE] == h;
      assert buf[..][byteOffs..size] == Zeros(size - byteOffs);
      assert written == Flat(pages) + buf[..][HDR_SIZE..byteOffs];
    }

    /** The next erased block, if there is one beyond the last and more are erased than are reserved. */
    method FindErasedBlock()
      requires curBlock < 0
      modifies this`nextBlock, this`curBlock
      ensures curBlock >= 0 <==> old(BlocksLeft(fl.blocks, fl.cpb, fl.nErased, fl.reserved, nextBlock)) > 0
      ensures curBlock >= 0 ==>
        old(nextBlock) <= curBlock < |fl.blocks| && fl.blocks[curBlock].state == Empty && nextBlock == curBlock + 1
      ensures curBlock >= 0 ==>
        BlocksLeft(fl.blocks, fl.cpb, fl.nErased, fl.reserved, nextBlock) + 1
        == old(BlocksLeft(fl.blocks, fl.cpb, fl.nErased, fl.reserved, nextBlock))
      ensures curBlock >= 0 ==> forall b :: 0 <= old(nextBlock) <= b < curBlock ==> fl.blocks[b].state != Empty
      ensures curBlock < 0 ==> nextBlock < 0
    {
      hide Total;
      NoneLeftIff(fl.blocks, fl.cpb, fl.nErased, fl.reserved, nextBlock);
      var avail := fl.nErased - fl.reserved;
      if 0 <= nextBlock < |fl.blocks| && avail > 0 {
        var i := nextBlock;
        while i < |fl.blocks|
          invariant nextBlock <= i <= |fl.blocks| && unchanged(this)
          invariant forall b :: nextBlock <= b < i ==> fl.blocks[b].state != Empty
          invariant Total(ErasedBlocks, fl.cpb, fl.blocks, i) == Total(ErasedBlocks, fl.cpb, fl.blocks, nextBlock)
        {
          TotalFrom(fl.cpb, fl.blocks, i);
          if fl.blocks[i].state == Empty {
            nextBlock, curBlock := i + 1, i;
            return;
          }
          i := i + 1;
        }
      }
      nextBlock, curBlock := -1, -1;
    }

    /** The first page of a block is about to be written: the block belongs to the checkpoint now. */
    method TakeBlock()
      requires Counted() && Listed(fl.blocks, fl.start, used)
      requires fl.start <= curBlock < |fl.blocks| && fl.blocks[curBlock].state == Empty
        && (used != [] ==> used[|used| - 1] < curBlock)
      requires nextBlock == curBlock + 1
      modifies fl`blocks, fl`blocksInCheckpt, this`used
      ensures Counted() && Listed(fl.blocks, fl.start, used) && used == old(used) + [curBlock]
      ensures Blank(fl.nand, curBlock, 0, fl.cpb)
      ensures BlocksLeft(fl.blocks, fl.cpb, fl.nErased, fl.reserved, nextBlock)
           == old(BlocksLeft(fl.blocks, fl.cpb, fl.nErased, fl.reserved, nextBlock))
    {
      hide Total, Unwritten, Listed, Blank, Stamped;
      ListMore(fl.blocks, fl.start, used, curBlock);
      ghost var was := fl.blocks;
      fl.blocks := fl.blocks[curBlock := fl.blocks[curBlock].(state := Checkpoint)];
      fl.blocksInCheckpt := fl.blocksInCheckpt + 1;
      used := used + [curBlock];
      fl.Recount(was, curBlock, fl.blocks[curBlock]);
      TotalUpdate(ErasedBlocks, fl.cpb, was, nextBlock, curBlock, fl.blocks[curBlock]);
      assert (fl.blocksInCheckpt - 1) * fl.cpb + fl.cpb == fl.blocksInCheckpt * fl.cpb;
    }

    /** Program a page of a checkpoint block; the outcome is not looked at. */
    method ProgramPage(c: Chunk, content: Content, tags: Tags)
      requires Counted() && fl.start <= c.block < |fl.blocks| && fl.blocks[c.block].state == Checkpoint && c !in fl.nand
      modifies fl`nand, this`intact
      ensures Counted()
      ensures forall x: Chunk {:trigger x in fl.nand} {:trigger x in old(fl.nand)} ::
        x != c ==> (x in fl.nand <==> x in old(fl.nand)) && (x in fl.nand ==> fl.nand[x] == old(fl.nand)[x])
      ensures intact ==> old(intact) && c in fl.nand && fl.nand[c].content == content && SameTags(fl.nand[c].tags, tags)
      ensures !fl.faulty ==> intact == old(intact)
    {
      hide Total, Unwritten, NoMarks;
      ghost var was := fl.nand;
      var failed := fl.Fails();
      if !failed {
        fl.nand := fl.nand[c := Page(content, tags)];
      } else {
        intact := false;
        var p: Page := *;
        fl.nand := fl.nand[c := p];
      }
      StillNoMarks(fl.blocks, was, fl.nand, fl.cpb, c);
      forall b | 0 <= b < |fl.blocks| && (fl.blocks[b].state == Empty || fl.blocks[b].state == Allocating)
        ensures Unwritten(fl.nand, b, if fl.blocks[b].state == Empty then 0 else fl.allocPage,
            fl.Sure(fl.blocks[b]), fl.cpb)
      {
        UnwrittenFrame(was, fl.nand, b, fl.cpb);
      }
    }

    /** Where the next page goes: the block it is in belongs to the checkpoint, the page is erased. */
    ghost predicate PageChosen()
      reads this, fl
    {
      BlockChosen() && Blank(fl.nand, curBlock, curPage, fl.cpb)
    }

    ghost predicate BlockChosen()
      reads this, fl
    {
      && fl.cpb > 0 && Listed(fl.blocks, fl.start, used)
      && used != [] && curBlock == used[|used| - 1] && nextBlock == curBlock + 1 && curPage == Pg(|pages|, fl.cpb)
      && Nth(|pages|, fl.cpb) == |used| - 1
    }

    method ChoosePage() returns (ok: bool)
      requires Valid()
      modifies this`curBlock, this`curPage, this`nextBlock, this`used, fl`blocks, fl`blocksInCheckpt
      ensures Counted() && BufferOk() && (intact ==> OnFlash(fl.nand, fl.cpb, size, used, pages))
      ensures if ok then PageChosen()
        else CursorOk() && curBlock < 0 && nextBlock < 0 && used == old(used) && fl.blocks == old(fl.blocks)
      ensures PagesLeft() == old(PagesLeft()) >= 0 && (ok <==> PagesLeft() > 0)
    {
      hide Buffered, OnFlash, Listed, Blank, Flash.BlocksOk, Flash.AllocOk, Flash.ErasedOk, Total, BlocksLeft;
      NextPlace(|pages|, fl.cpb);
      NoneLeftIff(fl.blocks, fl.cpb, fl.nErased, fl.reserved, nextBlock);
      ghost var left, now := BlocksLeft(fl.blocks, fl.cpb, fl.nErased, fl.reserved, nextBlock), 0;
      LastListed();
      if curBlock < 0 {
        FindErasedBlock();
        curPage := 0;
        now := BlocksLeft(fl.blocks, fl.cpb, fl.nErased, fl.reserved, nextBlock);
        FewerLeft(left, now, fl.cpb);
      }
      NoneLeftIff(fl.blocks, fl.cpb, fl.nErased, fl.reserved, nextBlock);
      if curBlock < 0 {
        return false;
      }
      if curPage == 0 {
        TakeBlock();
        if intact {
          StillOnFlash(fl.nand, fl.nand, fl.cpb, size, old(used), used, pages);
        }
      }
      ok := true;
    }

    lemma LastListed()
      requires CursorOk()
      ensures nextBlock >= 0 ==> nextBlock >= fl.start && (used != [] ==> used[|used| - 1] < nextBlock)
    {
      if used != [] {
        assert used[|used| - 1] >= fl.start;
      }
    }

    /** Program the buffer into the chosen page. */
    method WriteBuffer()
      requires PageChosen() && Counted() && BufferOk() && (intact ==> OnFlash(fl.nand, fl.cpb, size, used, pages))
      modifies this`intact, fl`nand
      ensures Counted() && BlockChosen() && Blank(fl.nand, curBlock, curPage + 1, fl.cpb)
      ensures intact ==> old(intact) && OnFlash(fl.nand, fl.cpb, size, used, pages + [buf[HDR_SIZE..size]])
      ensures !fl.faulty ==> intact == old(intact)
    {
      hide OnFlash, Flash.BlocksOk, Flash.AllocOk, Flash.ErasedOk, Total, Sum, Xor, Flat, ChunkHeader, Zeros;
      NextPlace(|pages|, fl.cpb);
      ghost var was := fl.nand;
      var c, tags := Chunk(curBlock, curPage), ChunkTags(pageSeq, nextBlock, size);
      NextSeq(|pages|);
      ProgramPage(c, Data(buf[..size]), tags);
      if intact {
        SliceOfSlice(buf[..], 0, size, HDR_SIZE, size);
        SliceOfSlice(buf[..], 0, size, 0, HDR_SIZE);
        BufferStored(was, fl.nand, fl.cpb, buf[..size], used, pages, c);
      }
    }

    /** yaffs2_checkpt_flush_buffer: write out the buffer, what is not filled as zeros. It fails exactly if no page is
        left. */
    method FlushBuffer() returns (ok: bool)
      requires Valid() && (byteOffs <= size || Lost())
      modifies this, buf, fl`blocks, fl`nand, fl`blocksInCheckpt
      ensures Valid() && buf[size..] == old(buf[size..])
      ensures (intact ==> old(intact)) && (!fl.faulty ==> intact == old(intact))
      ensures ok <==> old(PagesLeft()) > 0
      ensures PagesLeft() == (if ok then old(PagesLeft()) - 1 else 0) && (!ok ==> old(PagesLeft()) == 0)
      ensures ok ==> pages == old(pages) + [old(buf[HDR_SIZE..size])] && old(byteOffs) <= size && byteOffs == HDR_SIZE
      ensures ok ==> written == old(written) + Zeros(size - old(byteOffs))
      ensures !ok ==>
        pages == old(pages) && written == old(written) && byteOffs == old(byteOffs) && used == old(used)
        && curBlock < 0 && nextBlock < 0
      ensures !ok ==> buf[..] == old(buf[..])
    {
      hide OnFlash, Listed, Flash.BlocksOk, Flash.AllocOk, Flash.ErasedOk, Total, Sum, Xor, Flat, ChunkHeader, Blank,
        BlocksLeft;
      ghost var lost := Lost();
      if lost {
        NoneLeftIff(fl.blocks, fl.cpb, fl.nErased, fl.reserved, nextBlock);
      }
      ok := ChoosePage();
      if !ok {
        return;
      }
      WriteBuffer();
      Advance();
    }

    /** Start the next page. */
    method Advance()
      requires BlockChosen() && BufferOk() && byteOffs <= size && Blank(fl.nand, curBlock, curPage + 1, fl.cpb)
      modifies this`pages, this`written, this`pageSeq, this`curPage, this`curBlock, this`byteOffs, buf
      ensures BufferOk() && CursorOk() && byteOffs == HDR_SIZE && buf[size..] == old(buf[size..])
      ensures pages == old(pages) + [old(buf[HDR_SIZE..size])] && written == old(written) + Zeros(size - old(byteOffs))
      ensures PagesLeft() == old(PagesLeft()) - 1
    {
      hide Listed, Sum, Xor, Flat, ChunkHeader, Blank, BlocksLeft;
      NextPlace(|pages|, fl.cpb);
      BufferFlushed(buf[..], size, byteOffs, pageSeq, sum, xor, pages, written);
      SliceOfSlice(buf[..], 0, buf.Length, HDR_SIZE, size);
      NextSeq(|pages|);
      pages, written := pages + [buf[HDR_SIZE..size]], written + Zeros(size - byteOffs);
      pageSeq := U32(pageSeq + 1);
      curPage := curPage + 1;
      if curPage >= fl.cpb {
        curPage, curBlock := 0, -1;
      }
      InitHeader();
    }

    /** yaffs2_checkpt_wr: byte by byte, a page at a time. The bytes are taken up to the capacity. If they reach it, the
        last flush has failed, which does not show unless there are more; the next byte is put behind the buffer. */
    method Wr(data: seq<byte>) returns (n: nat)
      requires Valid() && (byteOffs < size || Lost()) && byteOffs < buf.Length
      modifies this, buf, fl`blocks, fl`nand, fl`blocksInCheckpt
      ensures Valid() && (intact ==> old(intact)) && (!fl.faulty ==> intact == old(intact))
      ensures PagesLeft() + |pages| == old(PagesLeft() + |pages|)
      ensures n == if |data| <= old(Capacity()) then |data| else if old(byteOffs) < size then old(Capacity()) else 1
      ensures n <= |data| && written == old(written) + data[..n]
      ensures if |data| < old(Capacity()) then byteOffs < size && Capacity() == old(Capacity()) - |data|
        else Lost() && PagesLeft() == 0
      ensures if old(byteOffs) < size then byteOffs <= size && buf[size..] == old(buf[size..])
        else byteOffs == old(byteOffs) + n
    {
      hide Counted, Buffered, CursorOk, OnFlash, PagesLeft;
      n := 0;
      var ok := true;
      assert written == old(written) + data[..0];
      RoomLeft();
      while n < |data| && ok
        invariant n <= |data| && Valid() && written == old(written) + data[..n]
        invariant (intact ==> old(intact)) && (!fl.faulty ==> intact == old(intact))
        invariant PagesLeft() + |pages| == old(PagesLeft() + |pages|)
        invariant byteOffs < size || Lost()
        invariant old(byteOffs) < size ==>
          byteOffs <= size && Capacity() == old(Capacity()) - n && buf[size..] == old(buf[size..])
        invariant old(byteOffs) < size ==> (ok <==> byteOffs < size)
        invariant old(byteOffs) >= size ==> Lost() && byteOffs == old(byteOffs) + n && n == if ok then 0 else 1
      {
        assert data[..n + 1] == data[..n] + [data[n]];
        ghost var before, offs := Capacity(), byteOffs;
        PutByte(data[n]);
        n := n + 1;
        if byteOffs >= size {
          RoomLeft();
          ghost var left := PagesLeft();
          ok := FlushBuffer();
          FlushedRoom(left, size - HDR_SIZE);
        }
      }
      RoomLeft();
    }

    lemma WrittenSize()
      requires Valid()
      ensures HDR_SIZE < size && |written| == |pages| * (size - HDR_SIZE) + (byteOffs - HDR_SIZE)
    {
      hide Counted, CursorOk, OnFlash, Flat, FullPages, ChunkHeader, Sum, Xor;
      BufferBounds();
      FlatSize(pages, size);
    }

    lemma SomePagesLeft()
      requires Valid()
      ensures PagesLeft() >= 0 && (Lost() ==> PagesLeft() == 0)
    {
      hide Counted, Buffered, OnFlash, BlocksLeft, Listed, Blank;
      NextPlace(|pages|, fl.cpb);
      NoneLeftIff(fl.blocks, fl.cpb, fl.nErased, fl.reserved, nextBlock);
      ProductFits(BlocksLeft(fl.blocks, fl.cpb, fl.nErased, fl.reserved, nextBlock), fl.cpb);
    }

    /** The room is never negative, none once the buffer is lost, and else at least what is free of the buffer. */
    lemma RoomLeft()
      requires Valid()
      ensures PagesLeft() >= 0 && HDR_SIZE < size <= buf.Length && HDR_SIZE <= byteOffs
      ensures Lost() ==> PagesLeft() == 0 && Capacity() == 0
      ensures byteOffs < size ==> Capacity() > 0
      ensures PagesLeft() * (size - HDR_SIZE) >= 0
    {
      hide Counted, Buffered, CursorOk, OnFlash, PagesLeft;
      SomePagesLeft();
      BufferBounds();
      ProductFits(PagesLeft(), size - HDR_SIZE);
    }

    lemma BufferBounds()
      requires BufferOk()
      ensures HDR_SIZE < size <= buf.Length && HDR_SIZE <= byteOffs <= buf.Length
    {}

    method PutByte(b: byte)
      requires Valid() && byteOffs < buf.Length
      modifies this`byteOffs, this`sum, this`xor, this`written, buf
      ensures Valid() && byteOffs == old(byteOffs) + 1 && written == old(written) + [b]
        && PagesLeft() == old(PagesLeft())
      ensures old(byteOffs) < size ==> buf[size..] == old(buf[size..])
    {
      hide Buffered, OnFlash, Listed, Flash.BlocksOk, Flash.AllocOk, Flash.ErasedOk, Total, BlocksLeft;
      ByteBuffered(buf[..], size, byteOffs, pageSeq, sum, xor, pages, written, b);
      BufferBounds();
      buf[byteOffs] := b;
      assert buf[..] == old(buf[..])[old(byteOffs) := b];
      sum := U32(sum + b);
      xor := XorByte(xor, b);
      byteOffs := byteOffs + 1;
      written := written + [b];
    }

    /** yaffs_checkpt_close: the last page is written, even an empty one, and the counters are put right. Whether it
        could be written is not reported. */
    method Close()
      requires Valid() && (byteOffs <= size || Lost())
      modifies this, buf, fl`blocks, fl`nand, fl`nErased, fl`nFree, fl`blocksInCheckpt
      ensures fl.Valid() && Listed(fl.blocks, fl.start, used)
      ensures if old(PagesLeft()) > 0
              then Flat(pages) == old(written) + Zeros(size - old(byteOffs)) && old(byteOffs) <= size
              else Flat(pages) + old(buf[HDR_SIZE..byteOffs]) == old(written)
      ensures intact ==>
        old(intact) && Readable(fl.nand, fl.start, |fl.blocks|, fl.cpb, size, used, pages, DeadBlocks(fl.blocks))
      ensures !fl.faulty ==> intact == old(intact)
      ensures |pages| == |old(pages)| + (if old(PagesLeft()) > 0 then 1 else 0)
      ensures fl.cpb > 0 && |used| == BlocksFor(|pages|, fl.cpb)
    {
      hide OnFlash, Listed, Flash.BlocksOk, Flash.AllocOk, Flash.ErasedOk, Total, Sum, Xor, Flat, ChunkHeader, Blank,
        PagesLeft;
      if byteOffs != SIZE_OF_SIZE {
        var ok := FlushBuffer();
      }
      SliceOfSlice(buf[..], 0, buf.Length, HDR_SIZE, byteOffs);
      BlocksForPlace(|pages|, fl.cpb);
      NextPlace(|pages|, fl.cpb);
      if intact {
        ListedReadable();
      }
      fl.nFree := fl.nFree - fl.blocksInCheckpt * fl.cpb;
      fl.nErased := fl.nErased - fl.blocksInCheckpt;
    }

    lemma ListedReadable()
      requires Counted() && CursorOk() && OnFlash(fl.nand, fl.cpb, size, used, pages) && HDR_SIZE < size
      ensures Readable(fl.nand, fl.start, |fl.blocks|, fl.cpb, size, used, pages, DeadBlocks(fl.blocks))
    {
      hide OnFlash, Total, Unwritten;
      NextPlace(|pages|, fl.cpb);
      forall b: nat | fl.start <= b < |fl.blocks| && Stamped(fl.nand, b)
        && b !in DeadBlocks(fl.blocks) ensures b in used {
        assert Unmarked(fl.nand, b, fl.blocks[b].state, fl.cpb);
        BlankUnstamped(fl.nand, b, fl.cpb);
      }
    }
  }

  lemma NoBytes()
    ensures Flat([]) == [] && Sum([]) == 0 && Xor([]) == 0 && U32(0) == 0
  {}

  lemma BlankUnstamped(nand: Nand, b: nat, cpb: nat)
    requires cpb > 0
    ensures Blank(nand, b, 0, cpb) ==> !Stamped(nand, b)
  {}

  lemma FewerLeft(left: int, now: int, cpb: nat)
    ensures (left == now + 1 ==> left * cpb == now * cpb + cpb) && (now == 0 ==> now * cpb == 0)
    ensures left > 0 && cpb > 0 ==> left * cpb > 0
  {}

  lemma FlushedRoom(left: int, page: int)
    ensures (left - 1) * page == left * page - page
  {}

  function DeadBlocks(blocks: seq<Block>): set<nat> {
    set b: nat | b < |blocks| && blocks[b].state == Dead
  }

  /** A stored checkpoint: its blocks are the marked ones that are not bad, and nothing follows the last page. */
  ghost predicate Readable(nand: Nand, start: nat, nBlocks: nat, cpb: nat, size: nat, used: seq<nat>,
                           pages: seq<seq<byte>>, bad: set<nat>) {
    && cpb > 0 && HDR_SIZE < size && OnFlash(nand, cpb, size, used, pages) && Increasing(used)
    && (forall i {:trigger used[i]} :: 0 <= i < |used| ==> start <= used[i] < nBlocks && used[i] !in bad)
    && (forall b: nat {:trigger Stamped(nand, b)} ::
         start <= b < nBlocks && Stamped(nand, b) && b !in bad ==> b in used)
    && if Pg(|pages|, cpb) == 0 then Nth(|pages|, cpb) == |used|
       else Nth(|pages|, cpb) == |used| - 1 && Chunk(used[|used| - 1], Pg(|pages|, cpb)) !in nand
  }

  lemma ReadableSizes(nand: Nand, start: nat, nBlocks: nat, cpb: nat, size: nat, used: seq<nat>, pages: seq<seq<byte>>,
                      bad: set<nat>)
    requires Readable(nand, start, nBlocks, cpb, size, used, pages, bad)
    ensures cpb > 0 && HDR_SIZE < size
  {}

  /** A checkpoint being read, from a flash on which the blocks in `bad` are known to be bad. */
  class Reader {
    const nand: Nand
    const start: nat
    const nBlocks: nat
    const cpb: nat
    const bad: set<nat>
    const maxBlocks: nat
    const buf: array<byte>
    var byteOffs: nat
    var pageSeq: nat
    var sum: nat
    var xor: byte
    var curBlock: int
    var curPage: nat
    var nextBlock: int
    var blockList: seq<nat>
    ghost const used: seq<nat>
    ghost const pages: seq<seq<byte>>
    ghost var done: nat             // pages read so far
    ghost var taken: seq<byte>      // bytes handed out so far

    ghost predicate Stream()
      reads this
    {
      && Readable(nand, start, nBlocks, cpb, buf.Length, used, pages, bad) && done <= |pages|
      && pageSeq == U32(done) && sum == Sum(taken) && xor == Xor(taken)
      && |blockList| <= |used| && |blockList| <= maxBlocks
      && (nextBlock >= 0 ==> nextBlock == if blockList == [] then start else used[|blockList| - 1] + 1)
      && if curBlock < 0 then Pg(done, cpb) == 0 && Nth(done, cpb) == |blockList|
         else && blockList != [] && curBlock == used[|blockList| - 1] && curPage == Pg(done, cpb) > 0
              && Nth(done, cpb) == |blockList| - 1
    }

    ghost predicate Valid()
      reads this, buf
    {
      && Stream() && HDR_SIZE <= byteOffs <= buf.Length
      && if byteOffs == buf.Length then taken == Flat(pages[..done])
         else && done > 0 && buf[HDR_SIZE..] == pages[done - 1]
              && taken == Flat(pages[..done - 1]) + buf[HDR_SIZE..byteOffs]
    }

    /** Everything that can be read has been read: all of it, or as much as lies in the blocks allowed. */
    ghost predicate AtEnd()
      requires cpb > 0
      reads this
    {
      byteOffs == buf.Length && (done == |pages| || Nth(done, cpb) == maxBlocks)
    }

    /** yaffs2_checkpt_open for reading. */
    constructor (nand: Nand, start: nat, nBlocks: nat, cpb: nat, bad: set<nat>, size: nat, ghost used: seq<nat>,
                 ghost pages: seq<seq<byte>>)
      requires start < nBlocks && Readable(nand, start, nBlocks, cpb, size, used, pages, bad)
      ensures Valid() && taken == [] && nextBlock >= 0 && fresh(buf) && this.pages == pages && this.used == used
        && this.cpb == cpb
      ensures maxBlocks == (nBlocks - 1 - start) / 16 + 2
    {
      this.nand, this.start, this.nBlocks, this.cpb, this.bad, this.used, this.pages := nand, start, nBlocks, cpb, bad,
        used, pages;
      maxBlocks := (nBlocks - 1 - start) / 16 + 2;
      buf := new byte[size](_ => 0);
      byteOffs, pageSeq, sum, xor, curBlock, curPage, nextBlock := size, 0, 0, 0, -1, 0, start;
      blockList, done, taken := [], 0, [];
      new;
      NextPlace(0, cpb);
    }

    /** The driver's read of the tags; an erased page reads as ones. */
    function ReadTags(c: Chunk): Tags
      reads this
    {
      if c in nand then nand[c].tags
        else Tags(0xFFFF_FFFF, 0xFFFF_FFFF, 0xFFFF_FFFF, 0xFFFF_FFFF, 0xFFFF_FFFF, true, true, 0)
    }

    method ReadChunk(c: Chunk) returns (tags: Tags)
      modifies buf
      ensures tags == ReadTags(c)
      ensures forall img: seq<byte> ::
        c in nand && nand[c].content == Data(img) && |img| == buf.Length ==> buf[..] == img
    {
      tags := ReadTags(c);
      if c in nand && nand[c].content.Data? && |nand[c].content.bytes| == buf.Length {
        var bytes := nand[c].content.bytes;
        forall i | 0 <= i < buf.Length {
          buf[i] := bytes[i] % 256;
        }
        forall img: seq<byte> | nand[c].content == Data(img) ensures buf[..] == img {
          assert bytes == img;
        }
      } else {
        forall i | 0 <= i < buf.Length {
          buf[i] := 255;
        }
      }
    }

    /** yaffs2_checkpt_find_block: the next block that bears the mark, as long as no more than maxBlocks were found. */
    method FindBlock()
      requires Stream() && curBlock < 0 && nextBlock >= 0
      modifies this`curBlock, this`nextBlock, this`blockList
      ensures if |old(blockList)| < maxBlocks && done < |pages|
              then |old(blockList)| < |used| && curBlock == used[|old(blockList)|] && nextBlock == curBlock + 1
                && blockList == old(blockList) + [curBlock]
              else curBlock == nextBlock == -1 && blockList == old(blockList)
    {
      hide OnFlash;
      ghost var k := |blockList|;
      LastBlock();
      if |blockList| < maxBlocks {
        var i: nat := nextBlock;
        while i < nBlocks
          invariant nextBlock <= i && unchanged(this)
          invariant forall j {:trigger used[j]} :: k <= j < |used| ==> i <= used[j]
        {
          var tags := ReadTags(Chunk(i, 0));
          if tags.seqNumber == CHECKPOINT_SEQUENCE && i !in bad {
            assert Stamped(nand, i);
            FirstMarked(i, k);
            nextBlock, curBlock := tags.objId, i;
            blockList := blockList + [i];
            return;
          }
          if k < |used| && used[k] == i {
            FirstMarked(i, k);
            assert false;
          }
          i := i + 1;
        }
      }
      nextBlock, curBlock := -1, -1;
    }

    /** There is another page to read exactly if there is another block. */
    lemma LastBlock()
      requires Stream() && curBlock < 0
      ensures done < |pages| <==> |blockList| < |used|
    {
      if done < |pages| {
        assert pages[done] == pages[done];
        assert Stored(nand, cpb, buf.Length, used, pages, done);
      }
    }

    lemma FirstMarked(i: nat, k: nat)
      requires Stream() && curBlock < 0 && k == |blockList| && start <= i < nBlocks
      requires (k > 0 ==> i > used[k - 1]) && forall j {:trigger used[j]} :: k <= j < |used| ==> i <= used[j]
      requires i !in bad
      ensures Stamped(nand, i) ==> k < |used| && used[k] == i
      ensures k < |used| && used[k] == i ==> Stamped(nand, i) && nand[Chunk(i, 0)].tags.objId == i + 1
    {
      LastBlock();
      if Stamped(nand, i) {
        var j: nat :| j < |used| && used[j] == i;
      }
      if k < |used| && used[k] == i {
        assert pages[done] == pages[done];
        assert Stored(nand, cpb, buf.Length, used, pages, done);
      }
    }

    /** Read and check the next page. */
    method NextPage() returns (ok: bool)
      requires Valid() && byteOffs == buf.Length && nextBlock >= 0
      modifies this, buf
      ensures Valid() && taken == old(taken)
      ensures if ok then done == old(done) + 1 && byteOffs == HDR_SIZE && nextBlock >= 0
        else done == old(done) && AtEnd()
    {
      hide OnFlash, Sum, Xor, Flat, ChunkHeader;
      NextPlace(done, cpb);
      LastPage();
      if curBlock < 0 {
        FindBlock();
        curPage := 0;
      }
      if curBlock < 0 {
        return false;
      }
      ok := CheckPage(Chunk(curBlock, curPage), done);
      if ok {
        TurnPage();
      }
    }

    method TurnPage()
      requires Readable(nand, start, nBlocks, cpb, buf.Length, used, pages, bad) && done < |pages|
      requires pageSeq == U32(done) && sum == Sum(taken) && xor == Xor(taken) && taken == Flat(pages[..done])
        && buf[HDR_SIZE..] == pages[done]
      requires |blockList| <= |used| && |blockList| <= maxBlocks && blockList != []
        && curBlock == used[|blockList| - 1] && nextBlock == curBlock + 1
      requires curPage == Pg(done, cpb) && Nth(done, cpb) == |blockList| - 1
      modifies this`pageSeq, this`byteOffs, this`curPage, this`curBlock, this`done
      ensures Valid() && done == old(done) + 1 && byteOffs == HDR_SIZE && nextBlock >= 0
    {
      hide Readable, Sum, Xor, Flat, Nth, Pg, U32;
      ReadableSizes(nand, start, nBlocks, cpb, buf.Length, used, pages, bad);
      NextPlace(done, cpb);
      NextSeq(done);
      pageSeq := U32(pageSeq + 1);
      byteOffs := HDR_SIZE;
      curPage := curPage + 1;
      done := done + 1;
      if curPage >= cpb {
        curBlock := -1;
      }
    }

    /** Pages are left exactly if the next place holds one. */
    lemma LastPage()
      requires Stream()
      ensures curBlock >= 0 ==> (done < |pages| <==> Chunk(curBlock, curPage) in nand)
    {
      if done < |pages| {
        assert pages[done] == pages[done];
        assert Stored(nand, cpb, buf.Length, used, pages, done);
      }
    }

    /** Does page c hold the chunk that is due? Of the pages of the checkpoint only that one is accepted, or one whose
        number is the same in 32 bits; and no erased page is. */
    method CheckPage(c: Chunk, ghost q: nat) returns (ok: bool)
      requires Readable(nand, start, nBlocks, cpb, buf.Length, used, pages, bad) && done <= |pages|
      requires pageSeq == U32(done) && taken == Flat(pages[..done]) && sum == Sum(taken) && xor == Xor(taken)
      requires if q < |pages| then Nth(q, cpb) < |used| && c == Place(used, cpb, q) else c !in nand
      modifies buf
      ensures ok ==> q < |pages| && U32(q) == U32(done)
      ensures q == done < |pages| ==> ok
      ensures q < |pages| ==> buf[HDR_SIZE..] == pages[q]
    {
      hide Sum, Xor, Flat, ChunkHeader, Le32, Val32, U32;
      NextSeq(done);
      SameSeq(q, done);
      var tags := ReadChunk(c);
      if q < |pages| {
        assert pages[q] == pages[q];
        assert Stored(nand, cpb, buf.Length, used, pages, q);
        assert buf[..] == ChunkImage(pages, q);
        assert buf[HDR_SIZE..] == buf[..][HDR_SIZE..] == pages[q];
      }
      if q == done < |pages| {
        SumFits(taken);
        SeqFits(done);
        HeaderChecks(buf[..], pageSeq, sum, xor);
      }
      ok := tags.chunkId == U32(pageSeq + 1) && tags.seqNumber == CHECKPOINT_SEQUENCE
        && HeaderOk(buf[..], pageSeq, sum, xor);
    }

    lemma Bounds()
      requires Valid()
      ensures cpb > 0 && HDR_SIZE < buf.Length && byteOffs <= buf.Length
    {}

    /** yaffs2_checkpt_rd: the bytes that come next; fewer than asked for only when there are no more. */
    method Rd(n: nat) returns (data: seq<byte>)
      requires Valid() && nextBlock >= 0
      modifies this, buf
      ensures Valid() && |data| <= n && taken == old(taken) + data
      ensures if |data| < n then AtEnd() else nextBlock >= 0
    {
      hide Valid, AtEnd;
      data := [];
      Bounds();
      while |data| < n
        invariant Valid() && |data| <= n && taken == old(taken) + data && nextBlock >= 0
      {
        Bounds();
        if byteOffs >= buf.Length {
          var ok := NextPage();
          if !ok {
            break;
          }
        }
        data := data + [buf[byteOffs]];
        TakeByte();
      }
    }

    method TakeByte()
      requires Valid() && byteOffs < buf.Length
      modifies this`byteOffs, this`sum, this`xor, this`taken
      ensures Valid() && taken == old(taken) + [buf[old(byteOffs)]]
    {
      hide Readable, Sum, Xor;
      ghost var b := buf[byteOffs];
      SumSnoc(taken, b);
      assert buf[HDR_SIZE..byteOffs + 1] == buf[HDR_SIZE..byteOffs] + [b];
      assert pages[..done] == pages[..done - 1] + [pages[done - 1]];
      FlatSnoc(pages[..done - 1], pages[done - 1]);
      sum := U32(sum + buf[byteOffs]);
      xor := XorByte(xor, buf[byteOffs]);
      byteOffs := byteOffs + 1;
      taken := taken + [b];
      assert buf[HDR_SIZE..buf.Length] == buf[HDR_SIZE..];
    }
  }

  /** What has been read is always the beginning of what was stored. */
  lemma ReadsInOrder(r: Reader)
    requires r.Valid()
    ensures r.taken <= Flat(r.pages)
  {
    hide Readable, Sum, Xor, Flat;
    FlatPrefix(r.pages, r.done);
    if r.byteOffs < r.buf.Length {
      assert r.pages[..r.done] == r.pages[..r.done - 1] + [r.pages[r.done - 1]];
      FlatSnoc(r.pages[..r.done - 1], r.pages[r.done - 1]);
    }
  }

  /** A checkpoint is read to its end exactly if it is in no more blocks than the reader looks for. */
  lemma ReadsAllIff(r: Reader)
    requires r.Valid() && r.AtEnd()
    ensures r.done == |r.pages| <==> |r.used| <= r.maxBlocks
    ensures |r.used| <= r.maxBlocks ==> r.taken == Flat(r.pages)
  {
    if r.done < |r.pages| {
      assert r.pages[r.done] == r.pages[r.done];
      assert Stored(r.nand, r.cpb, r.buf.Length, r.used, r.pages, r.done);
    } else {
      assert r.pages[..r.done] == r.pages;
    }
  }

  /** Chunk p of a checkpoint, as a page. */
  function PageOf(pages: seq<seq<byte>>, used: seq<nat>, size: nat, p: nat): Page
    requires p < |pages| && p < |used|
  {
    Page(Data(ChunkImage(pages, p)), ChunkTags(p, used[p] + 1, size))
  }

  /** A checkpoint of three bytes on three blocks of one page each: the reader looks for two of them only. */
  lemma TooManyBlocks()
    ensures var used, pages: seq<seq<byte>> := [1, 2, 3], [[7], [8], [9]];
            var nand := map[Chunk(1, 0) := PageOf(pages, used, 17, 0), Chunk(2, 0) := PageOf(pages, used, 17, 1),
                Chunk(3, 0) := PageOf(pages, used, 17, 2)];
            Readable(nand, 1, 4, 1, 17, used, pages, {}) && |used| > (4 - 1 - 1) / 16 + 2
  {
    hide ChunkImage, ChunkTags;
    var used, pages: seq<seq<byte>> := [1, 2, 3], [[7], [8], [9]];
    var nand := map[Chunk(1, 0) := PageOf(pages, used, 17, 0), Chunk(2, 0) := PageOf(pages, used, 17, 1),
        Chunk(3, 0) := PageOf(pages, used, 17, 2)];
    forall p | 0 <= p < |pages| ensures Stored(nand, 1, 17, used, pages, p) {
      assert Place(used, 1, p) == Chunk(p + 1, 0);
    }
    forall b: nat | 1 <= b < 4 ensures b in used {
      assert used[b - 1] == b;
    }
  }

  function Length(sizes: seq<nat>): nat {
    if sizes == [] then 0 else Length(sizes[..|sizes| - 1]) + sizes[|sizes| - 1]
  }

  /** The bytes of the first k pieces. */
  function Before(pieces: seq<seq<byte>>, k: nat): nat
    requires k <= |pieces|
  {
    |Flat(pieces[..k])|
  }

  lemma BeforeNext(pieces: seq<seq<byte>>, k: nat)
    requires k < |pieces|
    ensures Before(pieces, k + 1) == Before(pieces, k) + |pieces[k]|
      && Flat(pieces[..k + 1]) == Flat(pieces[..k]) + pieces[k]
    ensures Flat(pieces[..k + 1]) <= Flat(pieces)
  {
    assert pieces[..k + 1] == pieces[..k] + [pieces[k]];
    FlatSnoc(pieces[..k], pieces[k]);
    FlatPrefix(pieces, k + 1);
  }

  /** What the writer takes for success: each piece ends within the room there is, or starts behind it and is one byte
      at most, which goes behind the buffer. */
  ghost predicate AllTaken(pieces: seq<seq<byte>>, room: int) {
    forall k :: 0 <= k < |pieces| ==> PieceTaken(pieces, room, k)
  }

  predicate PieceTaken(pieces: seq<seq<byte>>, room: int, k: nat)
    requires k < |pieces|
  {
    Before(pieces, k + 1) <= room || (Before(pieces, k) >= room && |pieces[k]| <= 1)
  }

  lemma PieceTakenIff(pieces: seq<seq<byte>>, room: int, k: nat)
    requires k < |pieces|
    ensures PieceTaken(pieces, room, k)
       <==> Before(pieces, k) + |pieces[k]| <= room || (Before(pieces, k) >= room && |pieces[k]| <= 1)
    ensures !PieceTaken(pieces, room, k) ==> !AllTaken(pieces, room)
  {
    BeforeNext(pieces, k);
  }

  lemma FitTaken(pieces: seq<seq<byte>>, room: int)
    requires |Flat(pieces)| <= room
    ensures AllTaken(pieces, room)
  {
    forall k | 0 <= k < |pieces| ensures PieceTaken(pieces, room, k) {
      FlatPrefix(pieces, k + 1);
    }
  }

  /** For pieces that are not single bytes that is: they fit in. */
  lemma {:induction false} TakenIff(pieces: seq<seq<byte>>, room: nat)
    requires forall k :: 0 <= k < |pieces| ==> |pieces[k]| != 1
    ensures AllTaken(pieces, room) <==> |Flat(pieces)| <= room
  {
    assert pieces[..|pieces|] == pieces;
    if AllTaken(pieces, room) {
      TakenFits(pieces, room, |pieces|);
    } else {
      var k: nat :| k < |pieces| && !PieceTaken(pieces, room, k);
      FlatPrefix(pieces, k + 1);
      assert Before(pieces, k + 1) > room;
    }
  }

  lemma {:induction false} TakenFits(pieces: seq<seq<byte>>, room: nat, k: nat)
    requires AllTaken(pieces, room) && k <= |pieces| && forall i :: 0 <= i < |pieces| ==> |pieces[i]| != 1
    ensures Before(pieces, k) <= room
  {
    if k == 0 {
      assert pieces[..0] == [];
    } else {
      TakenFits(pieces, room, k - 1);
      assert PieceTaken(pieces, room, k - 1);
      BeforeNext(pieces, k - 1);
    }
  }

  /** One erased block of one page, of twenty bytes with four for data: five bytes are taken for written, though the
      fifth does not get onto the flash. */
  lemma LastPageLost()
    ensures AllTaken([[1, 2, 3, 4, 5]], (1 * 1 + 1) * (20 - HDR_SIZE))
      && |Flat([[1, 2, 3, 4, 5]])| > 1 * 1 * (20 - HDR_SIZE)
  {
    var piece: seq<byte> := [1, 2, 3, 4, 5];
    assert [piece][..1] == [piece] && [piece][..0] == [];
    FlatSnoc([], piece);
    assert Flat([]) == [] && [] + [piece] == [piece];
  }

  /** The same flash: after eight bytes a ninth, written by itself, is taken as well, to be put behind the buffer. */
  lemma ByteBehindBuffer()
    ensures AllTaken([[1, 2, 3, 4, 5, 6, 7, 8], [9]], (1 * 1 + 1) * (20 - HDR_SIZE))
  {
    var pieces: seq<seq<byte>> := [[1, 2, 3, 4, 5, 6, 7, 8], [9]];
    assert pieces[..0] == [] && pieces[..1] == [] + [pieces[0]];
    FlatSnoc([], pieces[0]);
    assert Before(pieces, 1) == 8;
  }

  /** Write the pieces one by one, until one is not taken. */
  method WriteAll(w: Writer, pieces: seq<seq<byte>>) returns (ok: bool)
    requires w.Valid() && w.byteOffs < w.size && w.buf.Length >= w.size + |pieces|
    modifies w, w.buf, w.fl`blocks, w.fl`nand, w.fl`blocksInCheckpt
    ensures w.Valid() && (w.byteOffs < w.size || w.Lost())
    ensures (w.intact ==> old(w.intact)) && (!w.fl.faulty ==> w.intact == old(w.intact))
    ensures w.PagesLeft() + |w.pages| == old(w.PagesLeft() + |w.pages|)
    ensures (ok <==> AllTaken(pieces, old(w.Capacity()))) && (|Flat(pieces)| < old(w.Capacity()) ==> ok)
    ensures w.written <= old(w.written) + Flat(pieces) && (ok <==> w.written == old(w.written) + Flat(pieces))
    ensures if |Flat(pieces)| < old(w.Capacity())
            then w.byteOffs < w.size && w.Capacity() == old(w.Capacity()) - |Flat(pieces)|
            else w.Lost() && w.PagesLeft() == 0
  {
    hide Writer.Counted, Writer.BufferOk, Writer.CursorOk, OnFlash, Flat, Writer.Capacity, Writer.PagesLeft;
    var i := 0;
    ok := true;
    NonePut(pieces);
    w.RoomLeft();
    while i < |pieces| && ok
      invariant i <= |pieces| && w.Valid() && (w.byteOffs < w.size || w.Lost())
      invariant (w.intact ==> old(w.intact)) && (!w.fl.faulty ==> w.intact == old(w.intact))
      invariant w.PagesLeft() + |w.pages| == old(w.PagesLeft() + |w.pages|)
      invariant ok ==> w.byteOffs < w.size + i || i == 0
      invariant !ok ==> w.Lost() && w.PagesLeft() == 0 && |Flat(pieces)| >= old(w.Capacity())
      invariant w.written <= old(w.written) + Flat(pieces)
      invariant if ok then w.written == old(w.written) + Flat(pieces[..i])
        else |w.written| < |old(w.written) + Flat(pieces)|
      invariant ok ==>
        if Before(pieces, i) < old(w.Capacity())
        then w.byteOffs < w.size && w.Capacity() == old(w.Capacity()) - Before(pieces, i)
        else w.Lost() && w.PagesLeft() == 0
      invariant ok ==> forall k :: 0 <= k < i ==> PieceTaken(pieces, old(w.Capacity()), k)
      invariant !ok ==> !AllTaken(pieces, old(w.Capacity()))
    {
      w.RoomLeft();
      var n := w.Wr(pieces[i]);
      BeforeNext(pieces, i);
      PieceTakenIff(pieces, old(w.Capacity()), i);
      Extended(old(w.written), Flat(pieces[..i]), pieces[i], n, Flat(pieces));
      ok := n == |pieces[i]|;
      i := i + 1;
    }
    assert pieces[..|pieces|] == pieces;
  }

  lemma NonePut(pieces: seq<seq<byte>>)
    ensures Flat(pieces[..0]) == [] && Before(pieces, 0) == 0
  {}

  lemma Extended(was: seq<byte>, before: seq<byte>, piece: seq<byte>, n: nat, all: seq<byte>)
    requires n <= |piece| && before + piece <= all
    ensures var now := was + before + piece[..n];
            now <= was + all && |now| == |was| + |before| + n && (n == |piece| ==> now == was + (before + piece))
            && (n < |piece| ==> |now| < |was + all|)
  {
    assert before + piece[..n] == (before + piece)[..|before| + n];
    assert (was + before) + piece[..n] == was + (before + piece[..n]);
  }

  /** Read piece after piece, of the sizes given. */
  method ReadAll(r: Reader, sizes: seq<nat>) returns (data: seq<byte>)
    requires r.Valid() && r.nextBlock >= 0
    modifies r, r.buf
    ensures r.Valid() && r.taken == old(r.taken) + data && |data| <= Length(sizes)
    ensures |data| < Length(sizes) ==> r.AtEnd()
  {
    hide Reader.Valid, Length;
    data := [];
    var i := 0;
    LengthNext(sizes, 0);
    while i < |sizes|
      invariant i <= |sizes| && r.Valid() && r.taken == old(r.taken) + data
      invariant r.nextBlock >= 0 && |data| == Length(sizes[..i])
    {
      LengthNext(sizes, i);
      var more := r.Rd(sizes[i]);
      data := data + more;
      if |more| < sizes[i] {
        LengthMono(sizes, i + 1);
        return;
      }
      i := i + 1;
    }
    assert sizes[..|sizes|] == sizes;
  }

  lemma LengthNext(sizes: seq<nat>, i: nat)
    requires i <= |sizes|
    ensures Length(sizes[..0]) == 0 && (i < |sizes| ==> Length(sizes[..i + 1]) == Length(sizes[..i]) + sizes[i])
  {
    if i < |sizes| {
      assert sizes[..i + 1][..i] == sizes[..i];
    }
  }

  lemma {:induction false} LengthMono(sizes: seq<nat>, i: nat)
    requires i <= |sizes|
    ensures Length(sizes[..i]) <= Length(sizes)
    decreases |sizes| - i
  {
    if i < |sizes| {
      LengthNext(sizes, i);
      LengthMono(sizes, i + 1);
    } else {
      assert sizes[..i] == sizes;
    }
  }

  /** What fits into the pages that can be written, and once more into the buffer. */
  function Fits(erased: int, cpb: nat, payload: nat): int {
    PagesIn(erased, cpb) * payload
  }

  function PagesIn(erased: int, cpb: nat): nat {
    if erased < 0 then 0 else erased * cpb
  }

  lemma RoomAtFirst(w: Writer)
    requires w.Valid() && w.byteOffs == HDR_SIZE < w.size && w.PagesLeft() == PagesIn(w.fl.nErased, w.fl.cpb)
    ensures w.Capacity() == Fits(w.fl.nErased, w.fl.cpb, w.size - HDR_SIZE) + (w.size - HDR_SIZE)
  {
    hide Writer.Valid, Writer.PagesLeft;
  }

  /** What the room that is left says about the pages that are. */
  lemma RoomAtLast(w: Writer, all: int, fits: int)
    requires w.Valid() && HDR_SIZE < w.size && (w.byteOffs < w.size || w.Lost())
    requires if all < fits + (w.size - HDR_SIZE)
             then w.byteOffs < w.size && w.Capacity() == fits + (w.size - HDR_SIZE) - all
             else w.Lost() && w.PagesLeft() == 0
    ensures HDR_SIZE <= w.byteOffs <= w.buf.Length
    ensures w.PagesLeft() > 0 <==> all < fits
    ensures all <= fits && w.PagesLeft() <= 0 ==> w.byteOffs == HDR_SIZE
    ensures all > fits ==> w.byteOffs > HDR_SIZE
  {
    hide *;
    w.RoomLeft();
    ValidBounds(w);
    if w.byteOffs < w.size {
      CapacityThen(w);
      ProductFits(w.PagesLeft(), w.size - HDR_SIZE);
    } else {
      LostIsFull(w);
    }
  }

  lemma ValidBounds(w: Writer)
    requires w.Valid()
    ensures HDR_SIZE < w.size <= w.buf.Length && HDR_SIZE <= w.byteOffs <= w.buf.Length
  {
    hide Writer.Counted, Writer.CursorOk, Buffered, OnFlash;
    w.BufferBounds();
  }

  lemma CapacityThen(w: Writer)
    requires w.byteOffs < w.size
    ensures w.Capacity() == (w.size - w.byteOffs) + w.PagesLeft() * (w.size - HDR_SIZE)
  {
    hide Writer.PagesLeft;
  }

  lemma LostIsFull(w: Writer)
    requires w.Lost()
    ensures w.byteOffs >= w.size
  {}

  lemma ProductFits(left: int, payload: int)
    requires left >= 0 && payload > 0
    ensures left == 0 ==> left * payload == 0
    ensures left > 0 ==> left * payload >= payload
  {}

  /** Closing completes what was written exactly if it fits into the pages. */
  method CloseWritten(w: Writer, ghost all: seq<byte>, ghost room: nat, ghost fits: int)
    requires w.PagesLeft() + |w.pages| == room && fits == room * (w.size - HDR_SIZE)
    requires w.Valid() && (w.byteOffs < w.size || w.Lost()) && HDR_SIZE < w.size
    requires w.written <= all && (|all| <= fits ==> w.written == all)
    requires w.PagesLeft() > 0 <==> |all| < fits
    requires |all| <= fits && w.PagesLeft() <= 0 ==> w.byteOffs == HDR_SIZE
    requires |all| > fits ==> w.byteOffs > HDR_SIZE
    modifies w, w.buf, w.fl`blocks, w.fl`nand, w.fl`nErased, w.fl`nFree, w.fl`blocksInCheckpt
    ensures w.fl.Valid() && (all <= Flat(w.pages) <==> |all| <= fits) && (!w.fl.faulty ==> w.intact == old(w.intact))
    ensures |w.pages| == PagesFor(|all|, w.size - HDR_SIZE, room)
    ensures w.fl.cpb > 0 && |w.used| == BlocksFor(|w.pages|, w.fl.cpb)
    ensures w.intact ==>
      Readable(w.fl.nand, w.fl.start, |w.fl.blocks|, w.fl.cpb, w.size, w.used, w.pages, DeadBlocks(w.fl.blocks))
  {
    hide Flat, OnFlash, Writer.Counted, Writer.CursorOk, Writer.BufferOk, Flash.Valid, Readable, Listed,
      Writer.PagesLeft, PagesFor, BlocksFor;
    w.BufferBounds();
    w.SomePagesLeft();
    w.WrittenSize();
    PagesForBytes(|all|, w.size - HDR_SIZE, room, |w.pages|, w.byteOffs - HDR_SIZE);
    ghost var left, rest, written := w.PagesLeft(), w.buf[HDR_SIZE..w.byteOffs], w.written;
    w.Close();
    if left <= 0 {
      StoredIff(all, written, Flat(w.pages), rest);
    }
  }

  /** Write a checkpoint in any number of pieces. It is reported as written if and only if more blocks are erased than
      reserved and the pieces fit into the pages and once more into the buffer; it is written to the end if and only if
      they fit into the pages. If every page was programmed it can be read back. Whatever happens the counters agree
      with the blocks afterwards. */
  method WriteCheckpoint(fl: Flash, size: nat, more: nat, pieces: seq<seq<byte>>)
    returns (ok: bool, ghost erased: int, ghost intact: bool, ghost used: seq<nat>, ghost pages: seq<seq<byte>>)
    requires fl.Valid() && HDR_SIZE < size && |pieces| <= more
    modifies fl
    ensures fl.Valid() && |fl.blocks| == |old(fl.blocks)|
    ensures if old(fl.nErased) > fl.reserved
            then && old(fl.nErased) <= erased <= old(fl.nErased) + old(fl.blocksInCheckpt)
                 && (!fl.faulty ==> intact && erased == old(fl.nErased) + old(fl.blocksInCheckpt))
                 && |pages| == PagesFor(|Flat(pieces)|, size - HDR_SIZE, PagesIn(erased, fl.cpb))
                 && fl.cpb > 0 && |used| == BlocksFor(|pages|, fl.cpb)
                 && (ok <==> AllTaken(pieces, Fits(erased, fl.cpb, size - HDR_SIZE) + (size - HDR_SIZE)))
                 && (Flat(pieces) <= Flat(pages) <==> |Flat(pieces)| <= Fits(erased, fl.cpb, size - HDR_SIZE))
            else !ok && !intact && fl.blocks == old(fl.blocks) && fl.nand == old(fl.nand)
    ensures intact ==> Readable(fl.nand, fl.start, |fl.blocks|, fl.cpb, size, used, pages, DeadBlocks(fl.blocks))
  {
    hide Flat, OnFlash, Writer.Counted, Writer.BufferOk, Writer.CursorOk, Flash.Valid, Readable, Listed,
      Writer.Capacity, Writer.PagesLeft, PagesFor, BlocksFor, ChunksIn;
    ok, erased, intact, used, pages := false, 0, false, [], [];
    SizeOf(fl);
    if fl.nErased - fl.reserved <= 0 {
      return;
    }
    var w := new Writer(fl, size, more);
    erased := fl.nErased;
    RoomAtFirst(w);
    ok := WriteAll(w, pieces);
    RoomAtLast(w, |Flat(pieces)|, Fits(erased, fl.cpb, size - HDR_SIZE));
    CloseWritten(w, Flat(pieces), PagesIn(erased, fl.cpb), Fits(erased, fl.cpb, size - HDR_SIZE));
    intact, used, pages := w.intact, w.used, w.pages;
    SizeOf(fl);
  }

  lemma SizeOf(fl: Flash)
    requires fl.Valid()
    ensures fl.start < |fl.blocks| == |fl.soft|
  {}

  lemma StoredIff(all: seq<byte>, written: seq<byte>, stored: seq<byte>, rest: seq<byte>)
    requires written <= all && stored + rest == written
    ensures rest != [] ==> !(all <= stored)
    ensures rest == [] && written == all ==> all <= stored
  {
    assert |stored| + |rest| == |written| <= |all|;
  }

  /** Read a checkpoint back in any number of pieces: the same bytes in the same order, and all that is asked for if it
      was stored and the blocks are not too many. */
  method ReadCheckpoint(nand: Nand, start: nat, nBlocks: nat, cpb: nat, bad: set<nat>, size: nat, sizes: seq<nat>,
                        ghost used: seq<nat>, ghost pages: seq<seq<byte>>)
    returns (got: seq<byte>)
    requires start < nBlocks && Readable(nand, start, nBlocks, cpb, size, used, pages, bad)
    ensures got <= Flat(pages)
    ensures |used| <= (nBlocks - 1 - start) / 16 + 2 && Length(sizes) <= |Flat(pages)| ==>
      got == Flat(pages)[..Length(sizes)]
  {
    hide Flat, Readable, Reader.Stream, Length;
    var r := new Reader(nand, start, nBlocks, cpb, bad, size, used, pages);
    ReadableSizes(nand, start, nBlocks, cpb, size, used, pages, bad);
    got := ReadAll(r, sizes);
    ReadsInOrder(r);
    if |got| < Length(sizes) {
      ReadsAllIff(r);
    }
  }

  /** A flash that does not fail, more blocks erased than reserved, data that fits into their pages and no more blocks
      than the reader looks for: however it is cut for writing and for reading, what was written comes back. */
  method WriteAndRead(fl: Flash, size: nat, more: nat, pieces: seq<seq<byte>>, sizes: seq<nat>)
    returns (ok: bool, got: seq<byte>)
    requires fl.Valid() && !fl.faulty && HDR_SIZE < size && |pieces| <= more && fl.nErased > fl.reserved
    requires |Flat(pieces)| <= Fits(fl.nErased + fl.blocksInCheckpt, fl.cpb, size - HDR_SIZE) && fl.cpb > 0
    requires BlocksFor(PagesFor(|Flat(pieces)|, size - HDR_SIZE, PagesIn(fl.nErased + fl.blocksInCheckpt, fl.cpb)),
        fl.cpb)
          <= (|fl.blocks| - 1 - fl.start) / 16 + 2
    requires Length(sizes) <= |Flat(pieces)|
    modifies fl
    ensures fl.Valid() && ok && got == Flat(pieces)[..Length(sizes)]
  {
    hide Flat, Readable, Length, PagesFor, BlocksFor, PagesIn, Fits, Flash.Valid, AllTaken;
    ghost var erased, intact, used, pages;
    ok, erased, intact, used, pages := WriteCheckpoint(fl, size, more, pieces);
    FitTaken(pieces, Fits(erased, fl.cpb, size - HDR_SIZE) + (size - HDR_SIZE));
    SizeOf(fl);
    got := ReadCheckpoint(fl.nand, fl.start, |fl.blocks|, fl.cpb, DeadBlocks(fl.blocks), size, sizes, used, pages);
  }
}
