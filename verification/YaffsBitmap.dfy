/** The chunk bitmap of YAFFS: a bit for every chunk in use, eight to a byte, a row of bytes for every block. */
module YaffsBitmap {
  import YaffsEcc

  /** 1 << k */
  function Mask(k: nat): bv8
    requires k < 8
  {
    if k == 0 then 0x01 else if k == 1 then 0x02 else if k == 2 then 0x04 else if k == 3 then 0x08
    else if k == 4 then 0x10 else if k == 5 then 0x20 else if k == 6 then 0x40 else 0x80
  }

  function Or8(a: bv8, b: bv8): bv8 {
    a | b
  }

  function AndNot8(a: bv8, b: bv8): bv8 {
    a & !b
  }

  predicate Meet(a: bv8, b: bv8) {
    a & b != 0
  }

  predicate Bit(b: bv8, k: nat)
    requires k < 8
  {
    Meet(b, Mask(k))
  }

  lemma MeetLaws(a: bv8, b: bv8, m: bv8)
    ensures Meet(Or8(a, b), m) <==> Meet(a, m) || Meet(b, m)
    ensures b & m == 0 ==> (Meet(AndNot8(a, b), m) <==> Meet(a, m))
    ensures !Meet(AndNot8(a, m), m)
  {}

  lemma MasksMeet(i: nat, k: nat)
    requires i < 8 && k < 8
    ensures Meet(Mask(i), Mask(k)) <==> i == k
  {}

  lemma SetOrCleared(b: bv8, k: nat, i: nat)
    requires k < 8 && i < 8
    ensures Bit(Or8(b, Mask(k)), i) <==> i == k || Bit(b, i)
    ensures Bit(AndNot8(b, Mask(k)), i) <==> i != k && Bit(b, i)
  {
    hide Mask, Or8, AndNot8;
    MasksMeet(k, i);
    MeetLaws(b, Mask(k), Mask(i));
  }

  lemma SomeBit(b: bv8)
    ensures b == 0 <==> forall k :: 0 <= k < 8 ==> !Bit(b, k)
  {
    if forall k :: 0 <= k < 8 ==> !Bit(b, k) {
      assert !Bit(b, 0) && !Bit(b, 1) && !Bit(b, 2) && !Bit(b, 3) && !Bit(b, 4) && !Bit(b, 5) && !Bit(b, 6)
        && !Bit(b, 7);
      NoBits(b);
    }
  }

  lemma NoBits(b: bv8)
    requires b & 0x01 == 0 && b & 0x02 == 0 && b & 0x04 == 0 && b & 0x08 == 0
    requires b & 0x10 == 0 && b & 0x20 == 0 && b & 0x40 == 0 && b & 0x80 == 0
    ensures b == 0
  {}

  // ---- counting ----

  /** The bits of a byte below k. */
  function BitsBelow(b: bv8, k: nat): nat
    requires k <= 8
  {
    if k == 0 then 0 else BitsBelow(b, k - 1) + if Bit(b, k - 1) then 1 else 0
  }

  function Add8(a: bv8, b: bv8): bv8 {
    a + b
  }

  function One(b: bv8, m: bv8): bv8 {
    if Meet(b, m) then 1 else 0
  }

  /** The bits in pairs, and in fours: the first two steps of the weight. */
  function Pairs(x: bv8): bv8 {
    (x & 0x55) + ((x >> 1) & 0x55)
  }

  function Fours(a: bv8): bv8 {
    (a & 0x33) + ((a >> 2) & 0x33)
  }

  /** Two bits of a word, four bits of a word. */
  function Pair(a: bv8, k: nat): bv8
    requires k < 4
  {
    if k == 0 then a & 3 else if k == 1 then (a >> 2) & 3 else if k == 2 then (a >> 4) & 3 else a >> 6
  }

  function Four(a: bv8, k: nat): bv8
    requires k < 2
  {
    if k == 0 then a & 0xf else a >> 4
  }

  lemma PairSum(b: bv8, k: nat)
    requires k < 4
    ensures Pair(Pairs(b), k) == Add8(One(b, Mask(2 * k)), One(b, Mask(2 * k + 1))) <= 2
  {}

  lemma FourSums(a: bv8)
    requires Pair(a, 0) <= 2 && Pair(a, 1) <= 2 && Pair(a, 2) <= 2 && Pair(a, 3) <= 2
    ensures Four(Fours(a), 0) == Add8(Pair(a, 0), Pair(a, 1)) && Four(Fours(a), 1) == Add8(Pair(a, 2), Pair(a, 3))
  {}

  lemma WeightIsFours(b: bv8)
    ensures YaffsEcc.HWeight8(b) == Add8(Four(Fours(Pairs(b)), 0), Four(Fours(Pairs(b)), 1))
  {}

  lemma SmallSum(x: bv8, y: bv8)
    requires x <= 4 && y <= 4
    ensures Add8(x, y) as nat == x as nat + y as nat && Add8(x, y) <= 8 && (x <= 2 && y <= 2 ==> Add8(x, y) <= 4)
    ensures x <= 1 && y <= 1 ==> Add8(x, y) <= 2
  {
    assert x == 0 || x == 1 || x == 2 || x == 3 || x == 4;
    assert y == 0 || y == 1 || y == 2 || y == 3 || y == 4;
  }

  lemma OneOrNone(b: bv8, k: nat)
    requires k < 8
    ensures One(b, Mask(k)) <= 1 && BitsBelow(b, k + 1) == BitsBelow(b, k) + One(b, Mask(k)) as nat
  {
    hide Meet, Mask;
  }

  lemma PairCounts(b: bv8, k: nat)
    requires k < 4
    ensures Pair(Pairs(b), k) as nat + BitsBelow(b, 2 * k) == BitsBelow(b, 2 * k + 2) && Pair(Pairs(b), k) <= 2
  {
    hide Pairs, Pair, One, Add8, Mask, BitsBelow;
    PairSum(b, k);
    OneOrNone(b, 2 * k);
    OneOrNone(b, 2 * k + 1);
    SmallSum(One(b, Mask(2 * k)), One(b, Mask(2 * k + 1)));
  }

  /** The weight of a byte is the number of its bits. */
  lemma WeightCounts(b: bv8)
    ensures YaffsEcc.HWeight8(b) as nat == BitsBelow(b, 8)
  {
    hide YaffsEcc.HWeight8, Pairs, Fours, Pair, Four, Add8;
    PairCounts(b, 0);
    PairCounts(b, 1);
    PairCounts(b, 2);
    PairCounts(b, 3);
    var a := Pairs(b);
    SmallSum(Pair(a, 0), Pair(a, 1));
    SmallSum(Pair(a, 2), Pair(a, 3));
    FourSums(a);
    SmallSum(Four(Fours(a), 0), Four(Fours(a), 1));
    WeightIsFours(b);
  }

  // ---- rows ----

  /** The chunks whose bits are set. */
  ghost predicate InRow(row: seq<bv8>, p: nat) {
    p / 8 < |row| && Bit(row[p / 8], p % 8)
  }

  ghost function Chunks(row: seq<bv8>): set<nat> {
    set p: nat | p < 8 * |row| && InRow(row, p)
  }

  lemma InChunks(row: seq<bv8>, p: nat)
    ensures p in Chunks(row) <==> InRow(row, p)
  {
    if p / 8 < |row| {
      assert p < 8 * |row|;
    }
  }

  /** The place of a bit. */
  lemma SamePlace(p: nat, q: nat)
    ensures p == q <==> p / 8 == q / 8 && p % 8 == q % 8
  {}

  lemma RowChanged(row: seq<bv8>, p: nat, b: bv8, on: bool)
    requires p / 8 < |row|
    requires forall i: nat {:trigger Bit(b, i)} ::
      i < 8 ==> (Bit(b, i) <==> if i == p % 8 then on else Bit(row[p / 8], i))
    ensures Chunks(row[p / 8 := b]) == if on then Chunks(row) + {p} else Chunks(row) - {p}
  {
    hide Bit, Chunks;
    var now := row[p / 8 := b];
    forall q: nat ensures q in Chunks(now) <==> if q == p then on else q in Chunks(row) {
      hide Bit, Chunks;
      InChunks(now, q);
      InChunks(row, q);
      SamePlace(p, q);
      if q / 8 == p / 8 {
        assert Bit(b, q % 8) <==> if q % 8 == p % 8 then on else Bit(row[p / 8], q % 8);
      }
    }
  }

  lemma EmptyRow(row: seq<bv8>)
    ensures Chunks(row) == {} <==> forall i :: 0 <= i < |row| ==> row[i] == 0
  {
    hide Bit, Chunks;
    if forall i :: 0 <= i < |row| ==> row[i] == 0 {
      forall p: nat ensures p !in Chunks(row) {
        InChunks(row, p);
        SomeBit(0);
      }
    } else {
      var i :| 0 <= i < |row| && row[i] != 0;
      SomeBit(row[i]);
      var k :| 0 <= k < 8 && Bit(row[i], k);
      assert (8 * i + k) / 8 == i && (8 * i + k) % 8 == k;
      InChunks(row, 8 * i + k);
    }
  }

  /** The chunks below p. */
  ghost function ChunksBelow(row: seq<bv8>, p: nat): set<nat> {
    set q: nat | q < p && InRow(row, q)
  }

  lemma {:induction false} BelowInByte(row: seq<bv8>, i: nat, k: nat)
    requires i < |row| && k <= 8
    ensures |ChunksBelow(row, 8 * i + k)| == |ChunksBelow(row, 8 * i)| + BitsBelow(row[i], k)
  {
    hide Bit;
    if k > 0 {
      BelowInByte(row, i, k - 1);
      var p := 8 * i + k - 1;
      assert p / 8 == i && p % 8 == k - 1;
      assert ChunksBelow(row, p + 1) == if InRow(row, p) then ChunksBelow(row, p) + {p} else ChunksBelow(row, p);
    }
  }

  lemma AllBelow(row: seq<bv8>)
    ensures ChunksBelow(row, 8 * |row|) == Chunks(row) && ChunksBelow(row, 0) == {}
  {}

  // ---- the rows in one array ----

  function Start(stride: nat, k: nat): nat {
    stride * k
  }

  ghost function RowOf(all: seq<bv8>, stride: nat, k: nat): seq<bv8> {
    if Start(stride, k) + stride <= |all| then all[Start(stride, k)..Start(stride, k) + stride] else []
  }

  lemma InRowOf(all: seq<bv8>, stride: nat, k: nat)
    requires Start(stride, k) + stride <= |all|
    ensures |RowOf(all, stride, k)| == stride
    ensures forall i {:trigger RowOf(all, stride, k)[i]} ::
      0 <= i < stride ==> RowOf(all, stride, k)[i] == all[Start(stride, k) + i]
  {
    hide Start;
  }

  lemma RowsApart(stride: nat, i: nat, j: nat)
    ensures i <= j ==> Start(stride, i) + stride <= stride * (j + 1)
  {
    if i < j {
      RowsApart(stride, i, j - 1);
    }
  }

  lemma Apart(stride: nat, i: nat, j: nat)
    requires i != j
    ensures Start(stride, i) + stride <= Start(stride, j) || Start(stride, j) + stride <= Start(stride, i)
  {
    if i < j {
      RowsApart(stride, i, j - 1);
    } else {
      RowsApart(stride, j, i - 1);
    }
  }

  /** What changes in row k shows in no other. */
  lemma OtherRow(was: seq<bv8>, now: seq<bv8>, stride: nat, k: nat, x: nat)
    requires |was| == |now| && x != k
    requires forall j {:trigger now[j]} ::
      0 <= j < |now| && !(Start(stride, k) <= j < Start(stride, k) + stride) ==> now[j] == was[j]
    ensures RowOf(now, stride, x) == RowOf(was, stride, x)
  {
    hide Start;
    Apart(stride, k, x);
  }

  lemma OneByteChanged(was: seq<bv8>, now: seq<bv8>, stride: nat, k: nat, i: nat)
    requires |was| == |now| && i < stride && Start(stride, k) + stride <= |now|
    requires now == was[Start(stride, k) + i := now[Start(stride, k) + i]]
    ensures i < |RowOf(was, stride, k)|
      && RowOf(now, stride, k) == RowOf(was, stride, k)[i := now[Start(stride, k) + i]]
    ensures forall x: nat {:trigger RowOf(now, stride, x)} :: x != k ==> RowOf(now, stride, x) == RowOf(was, stride, x)
  {
    hide Start;
    forall x: nat | x != k ensures RowOf(now, stride, x) == RowOf(was, stride, x) {
      OtherRow(was, now, stride, k, x);
    }
  }

  /** The bitmap of all blocks from `start` on. */
  class ChunkBits {
    const start: nat
    const nBlocks: nat
    const cpb: nat
    const stride: nat         // bytes per block
    const bits: array<bv8>

    ghost predicate Valid() {
      stride == (cpb + 7) / 8 && bits.Length == stride * nBlocks
    }

    constructor (start: nat, nBlocks: nat, cpb: nat)
      ensures Valid() && this.start == start && this.nBlocks == nBlocks && this.cpb == cpb && fresh(bits)
      ensures forall b {:trigger Row(b)} :: IsBlock(b) ==> Chunks(Row(b)) == {}
    {
      this.start, this.nBlocks, this.cpb, stride := start, nBlocks, cpb, (cpb + 7) / 8;
      bits := new bv8[(cpb + 7) / 8 * nBlocks](_ => 0);
      new;
      forall b | IsBlock(b) ensures Chunks(Row(b)) == {} {
        hide Chunks, Start, RowOf;
        RowFits(b);
        InRowOf(bits[..], stride, b - start);
        EmptyRow(Row(b));
      }
    }

    predicate IsBlock(b: int) {
      start <= b < start + nBlocks
    }

    predicate IsChunk(b: int, p: int) {
      IsBlock(b) && 0 <= p < cpb
    }

    lemma RowFits(b: nat)
      requires Valid() && IsBlock(b)
      ensures Start(stride, b - start) + stride <= bits.Length
      ensures forall p: nat :: p < cpb ==> p / 8 < stride
    {
      RowsApart(stride, b - start, nBlocks - 1);
    }

    /** The bytes of a block. */
    ghost function Row(b: nat): seq<bv8>
      requires IsBlock(b)
      reads bits
    {
      RowOf(bits[..], stride, b - start)
    }

    method SetBit(b: nat, p: nat)
      requires Valid() && IsChunk(b, p)
      modifies bits
      ensures Chunks(Row(b)) == old(Chunks(Row(b))) + {p}
      ensures forall x: nat {:trigger Row(x)} :: IsBlock(x) && x != b ==> Row(x) == old(Row(x))
    {
      hide Chunks, Bit, Mask, Or8, Start, RowOf;
      RowFits(b);
      InRowOf(bits[..], stride, b - start);
      var at := Start(stride, b - start) + p / 8;
      ghost var was, row := bits[..], Row(b);
      bits[at] := Or8(bits[at], Mask(p % 8));
      OneByteChanged(was, bits[..], stride, b - start, p / 8);
      forall i: nat | i < 8 ensures Bit(bits[at], i) <==> if i == p % 8 then true else Bit(row[p / 8], i) {
        SetOrCleared(row[p / 8], p % 8, i);
      }
      RowChanged(row, p, bits[at], true);
    }

    method ClearBit(b: nat, p: nat)
      requires Valid() && IsChunk(b, p)
      modifies bits
      ensures Chunks(Row(b)) == old(Chunks(Row(b))) - {p}
      ensures forall x: nat {:trigger Row(x)} :: IsBlock(x) && x != b ==> Row(x) == old(Row(x))
    {
      hide Chunks, Bit, Mask, AndNot8, Start, RowOf;
      RowFits(b);
      InRowOf(bits[..], stride, b - start);
      var at := Start(stride, b - start) + p / 8;
      ghost var was, row := bits[..], Row(b);
      bits[at] := AndNot8(bits[at], Mask(p % 8));
      OneByteChanged(was, bits[..], stride, b - start, p / 8);
      forall i: nat | i < 8 ensures Bit(bits[at], i) <==> if i == p % 8 then false else Bit(row[p / 8], i) {
        SetOrCleared(row[p / 8], p % 8, i);
      }
      RowChanged(row, p, bits[at], false);
    }

    method ClearBits(b: nat)
      requires Valid() && IsBlock(b)
      modifies bits
      ensures Chunks(Row(b)) == {}
      ensures forall x: nat {:trigger Row(x)} :: IsBlock(x) && x != b ==> Row(x) == old(Row(x))
    {
      hide Chunks, Start, RowOf;
      RowFits(b);
      ghost var was := bits[..];
      var base := Start(stride, b - start);
      forall i | base <= i < base + stride {
        bits[i] := 0;
      }
      InRowOf(bits[..], stride, b - start);
      EmptyRow(Row(b));
      forall x: nat | IsBlock(x) && x != b ensures Row(x) == old(Row(x)) {
        OtherRow(was, bits[..], stride, b - start, x - start);
      }
    }

    method CheckBit(b: nat, p: nat) returns (isSet: bool)
      requires Valid() && IsChunk(b, p)
      ensures isSet <==> p in Chunks(Row(b))
    {
      hide Chunks, Mask, Start, RowOf;
      RowFits(b);
      InRowOf(bits[..], stride, b - start);
      InChunks(Row(b), p);
      isSet := Meet(bits[Start(stride, b - start) + p / 8], Mask(p % 8));
    }

    method StillSome(b: nat) returns (some: bool)
      requires Valid() && IsBlock(b)
      ensures some <==> Chunks(Row(b)) != {}
    {
      hide Chunks, Start, RowOf;
      RowFits(b);
      InRowOf(bits[..], stride, b - start);
      EmptyRow(Row(b));
      var i := 0;
      while i < stride
        invariant i <= stride && forall j :: 0 <= j < i ==> Row(b)[j] == 0
      {
        if bits[Start(stride, b - start) + i] != 0 {
          assert Row(b)[i] != 0;
          return true;
        }
        i := i + 1;
      }
      some := false;
    }

    method Count(b: nat) returns (n: nat)
      requires Valid() && IsBlock(b)
      ensures n == |Chunks(Row(b))|
    {
      hide Chunks, ChunksBelow, YaffsEcc.HWeight8, BitsBelow, Start, RowOf;
      RowFits(b);
      InRowOf(bits[..], stride, b - start);
      AllBelow(Row(b));
      n := 0;
      var i := 0;
      while i < stride
        invariant i <= stride && n == |ChunksBelow(Row(b), 8 * i)|
      {
        BelowInByte(Row(b), i, 8);
        WeightCounts(bits[Start(stride, b - start) + i]);
        n := n + YaffsEcc.HWeight8(bits[Start(stride, b - start) + i]) as nat;
        i := i + 1;
      }
    }
  }
}
