/** The short-operation cache of YAFFS: a few write-back chunk buffers above the files. */
module YaffsCache {
  import opened Arith
  import opened Bytes

  // ---- file positions ----

  function Pow2(n: nat): (p: nat)
    ensures p > 0
  {
    if n == 0 then 1 else 2 * Pow2(n - 1)
  }

  /** An int that is assigned a 32-bit unsigned value. */
  function S32(x: int): int {
    var u := x % 0x1_0000_0000;
    if u < 0x8000_0000 then u else u - 0x1_0000_0000
  }

  /** An unsigned operand makes an int unsigned. */
  function U32(x: int): nat {
    x % 0x1_0000_0000
  }

  /** The number of times a chunk size can be halved. */
  method CalcShifts(x: nat) returns (shifts: nat)
    ensures x > 0 ==> x % Pow2(shifts) == 0 && x / Pow2(shifts) % 2 == 1
    ensures x == 0 ==> shifts == 0
  {
    shifts := 0;
    if x == 0 {
      return;
    }
    var y := x;
    while y % 2 == 0
      invariant y > 0 && x == y * Pow2(shifts)
      decreases y
    {
      assert y * Pow2(shifts) == y / 2 * Pow2(shifts + 1);
      y := y / 2;
      shifts := shifts + 1;
    }
    DivUnique(y, Pow2(shifts), 0);
  }

  /** How a chunk size is split: a power of two times an odd number. */
  datatype Geometry = Geometry(dataBytes: nat, shift: nat, div: nat) {
    ghost predicate Valid() {
      && 0 < dataBytes < 0x8000_0000 && 0 < div < 0x8000_0000 && dataBytes == div * Pow2(shift)
    }

    /** Positions that yaffs_addr_to_chunk deals with: the shifted position is stored in an int, and divided as an
        unsigned number if the chunk size is not a power of two. */
    ghost predicate InRange(addr: nat) {
      addr / Pow2(shift) < if div == 1 then 0x8000_0000 else 0x1_0000_0000
    }

    /** The chunk number that is computed. */
    function ChunkNo(addr: nat): int
      requires div > 0
    {
      var chunk := S32(addr / Pow2(shift));
      if div == 1 then chunk else S32(Quotient(U32(chunk), div))
    }
  }

  function Quotient(u: int, d: nat): int
    requires d > 0
  {
    u / d
  }

  /** The chunk of a file that a position is in, counted from 0, and where in the chunk it is. */
  function ChunkOf(a: nat, size: nat): nat
    requires size > 0
  {
    a / size
  }

  function OffsetIn(a: nat, size: nat): (r: nat)
    requires size > 0
    ensures r < size
  {
    a % size
  }

  lemma Positive(g: Geometry)
    requires g.Valid()
    ensures g.dataBytes > 0
  {}

  lemma DivTwice(a: nat, p: nat, d: nat)
    requires p > 0 && d > 0
    ensures p * d > 0 && a / p / d == a / (p * d)
  {
    var x, r := a / p, a % p;
    var q, m := x / d, x % d;
    assert x == q * d + m;
    assert a == x * p + r;
    calc {
      a;
      (q * d + m) * p + r;
      { Distribute(q * d, m, p); }
      q * d * p + m * p + r;
      { Commute(q, d, p); }
      q * (p * d) + (m * p + r);
    }
    assert m * p + p <= d * p by { MulMono(m + 1, d, p); }
    MulMono(1, p, d);
    DivUnique(q, p * d, m * p + r);
  }

  lemma Distribute(a: int, b: int, c: int)
    ensures (a + b) * c == a * c + b * c
  {}

  lemma Commute(q: int, d: int, p: int)
    ensures q * d * p == q * (p * d)
  {}

  lemma Shifted(g: Geometry, addr: nat)
    requires g.Valid()
    ensures Quotient(addr / Pow2(g.shift), g.div) == ChunkOf(addr, g.dataBytes)
  {
    DivTwice(addr, Pow2(g.shift), g.div);
  }

  lemma S32Cases(x: nat)
    ensures x < 0x8000_0000 ==> S32(x) == x
    ensures x >= 0x8000_0000 ==> S32(x) < 0 || S32(x) + 0x8000_0000 <= x
    ensures U32(S32(x)) == U32(x)
  {}

  lemma U32Cases(x: int)
    ensures 0 <= x < 0x1_0000_0000 ==> U32(x) == x
    ensures x >= 0x1_0000_0000 ==> U32(x) + 0x1_0000_0000 <= x
    ensures U32(x) < 0x1_0000_0000
  {}

  /** A position as chunk number and offset, whether or not the chunk size is a power of two. */
  method AddrToChunk(g: Geometry, addr: nat) returns (chunk: int, offset: nat)
    requires g.Valid()
    ensures chunk == g.ChunkNo(addr)
    ensures g.InRange(addr) ==> chunk == ChunkOf(addr, g.dataBytes) && offset == OffsetIn(addr, g.dataBytes)
  {
    hide S32, U32, Pow2, Quotient;
    ChunkRightIff(g, addr);
    DivSplit(addr, g.dataBytes);
    chunk := S32(addr / Pow2(g.shift));
    if g.div == 1 {
      U32Cases(addr % g.dataBytes);
      offset := U32(addr % Pow2(g.shift));
    } else {
      chunk := S32(Quotient(U32(chunk), g.div));
      var base := chunk * g.dataBytes;
      U32Cases(addr - base);
      offset := U32(addr - base);
    }
  }

  /** The chunk number is right exactly for the positions in range. */
  lemma ChunkRightIff(g: Geometry, addr: nat)
    requires g.Valid()
    ensures g.ChunkNo(addr) == ChunkOf(addr, g.dataBytes) <==> g.InRange(addr)
  {
    hide S32, U32, Pow2, Quotient, ChunkOf;
    Shifted(g, addr);
    ShiftedRightIff(addr / Pow2(g.shift), g.div);
  }

  lemma ShiftedRightIff(x: nat, d: nat)
    requires 0 < d < 0x8000_0000
    ensures (if d == 1 then S32(x) else S32(Quotient(U32(S32(x)), d))) == Quotient(x, d)
            <==> x < if d == 1 then 0x8000_0000 else 0x1_0000_0000
  {
    hide S32, U32, Quotient;
    S32Cases(x);
    U32Cases(x);
    if d == 1 {
      ByOne(x);
    } else {
      HalfAtMost(U32(x), d);
      S32Cases(Quotient(U32(x), d));
      if x >= 0x1_0000_0000 {
        TooSmall(U32(x), x, d);
      }
    }
  }

  lemma ByOne(x: nat)
    ensures Quotient(x, 1) == x
  {}

  lemma HalfAtMost(u: nat, d: nat)
    requires u < 0x1_0000_0000 && 2 <= d
    ensures 0 <= Quotient(u, d) < 0x8000_0000
  {
    var q := u / d;
    DivSplit(u, d);
    MulMono(2, d, q);
  }

  lemma TooSmall(s: nat, x: nat, d: nat)
    requires 0 < d && s + d <= x
    ensures Quotient(s, d) < Quotient(x, d)
  {
    DivMono(s + d, x, d);
    DivNext(s, d);
  }

  /** With 2048-byte chunks the first position that is out of range is at 4 TB: its chunk number is negative. */
  lemma PowerOfTwoTooFar()
    ensures Geometry(2048, 11, 1).Valid() && Geometry(2048, 11, 1).ChunkNo(0x400_0000_0000) == -0x8000_0000
    ensures 0x400_0000_0000 / 2048 == 0x8000_0000
  {
    Pow2Of11();
  }

  /** With 2032-byte chunks, which in-band tags leave, position 2^35 is right and 2^36 comes out as 0. */
  lemma OtherSizeTooFar()
    ensures Geometry(2032, 4, 127).Valid()
    ensures Geometry(2032, 4, 127).ChunkNo(0x8_0000_0000) == 0x8_0000_0000 / 2032 == 16909320
    ensures Geometry(2032, 4, 127).ChunkNo(0x10_0000_0000) == 0 < 0x10_0000_0000 / 2032
  {
    Pow2Of11();
  }

  lemma Pow2Of11()
    ensures Pow2(4) == 16 && Pow2(11) == 2048
  {
    assert Pow2(2) == 4 && Pow2(4) == 4 * Pow2(2) && Pow2(6) == 4 * Pow2(4) && Pow2(8) == 4 * Pow2(6)
      && Pow2(10) == 4 * Pow2(8);
  }

  // ---- cache slots above stored chunks ----

  datatype Key = Key(obj: nat, chunk: nat)

  datatype Slot = Slot(used: bool, key: Key, data: seq<byte>, nBytes: nat, dirty: bool, lastUse: int)

  datatype Kept = Kept(data: seq<byte>, nBytes: nat)

  type Store = map<Key, Kept>

  /** What the flash holds for a chunk; a chunk that was never written reads as zeros. */
  function Get(store: Store, size: nat, k: Key): seq<byte> {
    if k in store then store[k].data else Zeros(size)
  }

  /** What the flash holds after a write of one chunk with result r: a chunk number, 0 without memory for the chunk's
      tnode, -1 without a chunk to write to. */
  function AfterWr(store: Store, k: Key, kept: Kept, r: int): Store {
    if r > 0 then store[k := kept] else store
  }

  predicate Hit(s: Slot, k: Key) {
    s.used && s.key == k
  }

  ghost predicate Cached(slots: seq<Slot>, k: Key) {
    exists i :: 0 <= i < |slots| && Hit(slots[i], k)
  }

  /** What a reader of chunk k gets to see. */
  ghost function View(slots: seq<Slot>, store: Store, size: nat, k: Key): (r: seq<byte>)
    ensures if Cached(slots, k) then exists i ::
      0 <= i < |slots| && Hit(slots[i], k) && r == slots[i].data else r == Get(store, size, k)
  {
    if Cached(slots, k) then (var i :| 0 <= i < |slots| && Hit(slots[i], k); slots[i].data) else Get(store, size, k)
  }

  /** No chunk is in two slots. */
  ghost predicate Unique(slots: seq<Slot>) {
    forall i, j {:trigger slots[i], slots[j]} ::
      0 <= i < j < |slots| && slots[i].used && slots[j].used ==> slots[i].key != slots[j].key
  }

  ghost predicate Sized(slots: seq<Slot>, store: Store, size: nat) {
    && (forall i {:trigger slots[i]} ::
         0 <= i < |slots| ==> |slots[i].data| == size && (slots[i].dirty ==> 1 <= slots[i].nBytes <= size))
    && forall k :: k in store ==> |store[k].data| == size
  }

  /** A slot that is not dirty agrees with the flash. */
  ghost predicate Coherent(slots: seq<Slot>, store: Store, size: nat) {
    forall i {:trigger slots[i]} ::
      0 <= i < |slots| && slots[i].used && !slots[i].dirty ==> slots[i].data == Get(store, size, slots[i].key)
  }

  ghost function DirtySlots(slots: seq<Slot>): set<nat> {
    set i: nat | i < |slots| && slots[i].used && slots[i].dirty
  }

  ghost predicate CoherentBut(slots: seq<Slot>, store: Store, size: nat, k: Key) {
    forall i {:trigger slots[i]} :: 0 <= i < |slots| && slots[i].used && !slots[i].dirty && slots[i].key != k ==>
      slots[i].data == Get(store, size, slots[i].key)
  }

  lemma ViewOfSlot(slots: seq<Slot>, store: Store, size: nat, i: nat)
    requires Unique(slots) && i < |slots| && slots[i].used
    ensures View(slots, store, size, slots[i].key) == slots[i].data
  {
    var k := slots[i].key;
    assert Hit(slots[i], k);
    assert Cached(slots, k);
    var j :| 0 <= j < |slots| && Hit(slots[j], k) && View(slots, store, size, k) == slots[j].data;
    assert slots[i].key == slots[j].key;
  }

  lemma ViewSized(slots: seq<Slot>, store: Store, size: nat, k: Key)
    requires Sized(slots, store, size)
    ensures |View(slots, store, size, k)| == size
  {}

  /** One slot and what the flash holds for one chunk have changed: what can be seen of other chunks has not. */
  lemma ViewElsewhere(slots: seq<Slot>, store: Store, slots': seq<Slot>, store': Store, size: nat, i: nat, k: Key)
    requires Unique(slots) && Unique(slots') && i < |slots| == |slots'| && slots' == slots[i := slots'[i]]
    requires forall x {:trigger x in store'} ::
      x != k ==> (x in store' <==> x in store) && (x in store' ==> store'[x] == store[x])
    requires slots[i].used ==> slots[i].key == k
    requires slots'[i].used ==> slots'[i].key == k
    ensures forall x {:trigger View(slots', store', size, x)} ::
      x != k ==> View(slots', store', size, x) == View(slots, store, size, x)
  {
    forall x | x != k ensures View(slots', store', size, x) == View(slots, store, size, x) {
      if Cached(slots, x) {
        var j :| 0 <= j < |slots| && Hit(slots[j], x);
        assert slots'[j] == slots[j] && Hit(slots'[j], x);
        ViewOfSlot(slots, store, size, j);
        ViewOfSlot(slots', store', size, j);
      } else {
        assert x in store' <==> x in store;
      }
    }
  }

  ghost predicate SameView(slots: seq<Slot>, store: Store, slots': seq<Slot>, store': Store, size: nat) {
    forall x {:trigger View(slots', store', size, x)} :: View(slots', store', size, x) == View(slots, store, size, x)
  }

  /** Chunk k is seen as d, the others as before. */
  ghost predicate Changed(slots: seq<Slot>, store: Store, slots': seq<Slot>, store': Store, size: nat, k: Key,
                          d: seq<byte>) {
    forall x {:trigger View(slots', store', size, x)} ::
      View(slots', store', size, x) == if x == k then d else View(slots, store, size, x)
  }

  /** A slot is given up, after its chunk was written or without that. */
  lemma Dropped(slots: seq<Slot>, store: Store, store': Store, size: nat, i: nat, s: Slot)
    requires !s.used
    requires Unique(slots) && i < |slots| && slots[i].used
    requires forall x {:trigger x in store'} ::
      x != slots[i].key ==> (x in store' <==> x in store) && (x in store' ==> store'[x] == store[x])
    ensures var slots' := slots[i := s];
            Unique(slots') && !Cached(slots', slots[i].key)
              && Changed(slots, store, slots', store', size, slots[i].key, Get(store', size, slots[i].key))
  {
    var slots', k := slots[i := s], slots[i].key;
    ViewElsewhere(slots, store, slots', store', size, i, k);
  }

  /** Slot i now has the only copy of chunk k: nobody had it before, or it was there. */
  lemma Placed(slots: seq<Slot>, store: Store, store': Store, size: nat, i: nat, s: Slot)
    requires Unique(slots) && i < |slots| && s.used
    requires if slots[i].used then slots[i].key == s.key else !Cached(slots, s.key)
    requires forall x {:trigger x in store'} ::
      x != s.key ==> (x in store' <==> x in store) && (x in store' ==> store'[x] == store[x])
    ensures Unique(slots[i := s]) && Changed(slots, store, slots[i := s], store', size, s.key, s.data)
  {
    var slots' := slots[i := s];
    forall a, b | 0 <= a < b < |slots'| && slots'[a].used && slots'[b].used ensures slots'[a].key != slots'[b].key {
      assert slots[a].used && slots[b].used ==> slots[a].key != slots[b].key;
      assert !slots[i].used && a != i ==> !Hit(slots[a], s.key);
      assert !slots[i].used && b != i ==> !Hit(slots[b], s.key);
    }
    ViewElsewhere(slots, store, slots', store', size, i, s.key);
    ViewOfSlot(slots', store', size, i);
  }

  /** A chunk that is in no slot is written to the flash. */
  lemma Bypassed(slots: seq<Slot>, store: Store, store': Store, size: nat, k: Key)
    requires !Cached(slots, k)
    requires forall x {:trigger x in store'} ::
      x != k ==> (x in store' <==> x in store) && (x in store' ==> store'[x] == store[x])
    ensures Changed(slots, store, slots, store', size, k, Get(store', size, k))
  {
    forall x | x != k ensures View(slots, store', size, x) == View(slots, store, size, x) {
      assert x in store' <==> x in store;
    }
  }

  // ---- the bytes of a file ----

  ghost function ByteAt(slots: seq<Slot>, store: Store, size: nat, o: nat, a: nat): byte
    requires size > 0 && Sized(slots, store, size)
  {
    ViewSized(slots, store, size, Key(o, ChunkOf(a, size) + 1));
    View(slots, store, size, Key(o, ChunkOf(a, size) + 1))[OffsetIn(a, size)]
  }

  /** The bytes from `offset` on of file o are those of `data`; every other byte of every file is as it was. */
  ghost predicate Overlaid(slots: seq<Slot>, store: Store, slots': seq<Slot>, store': Store, size: nat, o: nat,
                           offset: nat, data: seq<byte>)
    requires size > 0 && Sized(slots, store, size) && Sized(slots', store', size)
  {
    forall x: nat, a: nat {:trigger ByteAt(slots', store', size, x, a)} ::
      ByteAt(slots', store', size, x, a) == if x == o && offset <= a < offset + |data| then data[a - offset]
        else ByteAt(slots, store, size, x, a)
  }

  lemma OverlaidTrans(s0: seq<Slot>, t0: Store, s1: seq<Slot>, t1: Store, s2: seq<Slot>, t2: Store, size: nat, o: nat,
                      offset: nat, d1: seq<byte>, d2: seq<byte>)
    requires size > 0 && Sized(s0, t0, size) && Sized(s1, t1, size) && Sized(s2, t2, size)
    requires Overlaid(s0, t0, s1, t1, size, o, offset, d1) && Overlaid(s1, t1, s2, t2, size, o, offset + |d1|, d2)
    ensures Overlaid(s0, t0, s2, t2, size, o, offset, d1 + d2)
  {
    hide ByteAt;
  }

  /** A changed part of a chunk is a changed part of its file. */
  lemma PartOverlaid(slots: seq<Slot>, store: Store, slots': seq<Slot>, store': Store, size: nat, o: nat, offset: nat,
                     c: nat, start: nat, d: seq<byte>, piece: seq<byte>)
    requires size > 0 && Sized(slots, store, size) && Sized(slots', store', size)
    requires c == ChunkOf(offset, size) && start == OffsetIn(offset, size) && |piece| > 0 && start + |piece| <= size
      && |d| == size
    requires Changed(slots, store, slots', store', size, Key(o, c + 1), d)
    requires |View(slots, store, size, Key(o, c + 1))| == size
    requires d == Spliced(View(slots, store, size, Key(o, c + 1)), start, piece)
    ensures Overlaid(slots, store, slots', store', size, o, offset, piece)
  {
    hide View, Sized, Changed, Spliced, ByteAt, ChunkOf, OffsetIn;
    forall x: nat, a: nat
      ensures ByteAt(slots', store', size, x, a) == if x == o && offset <= a < offset + |piece| then piece[a - offset]
        else ByteAt(slots, store, size, x, a)
    {
      PartAt(slots, store, slots', store', size, o, offset, d, piece, x, a);
    }
  }

  lemma PartAt(slots: seq<Slot>, store: Store, slots': seq<Slot>, store': Store, size: nat, o: nat, offset: nat,
               d: seq<byte>, piece: seq<byte>, x: nat, a: nat)
    requires size > 0 && Sized(slots, store, size) && Sized(slots', store', size)
    requires |piece| > 0 && OffsetIn(offset, size) + |piece| <= size && |d| == size
    requires Changed(slots, store, slots', store', size, Key(o, ChunkOf(offset, size) + 1), d)
    requires |View(slots, store, size, Key(o, ChunkOf(offset, size) + 1))| == size
    requires d == Spliced(View(slots, store, size, Key(o, ChunkOf(offset, size) + 1)), OffsetIn(offset, size), piece)
    ensures ByteAt(slots', store', size, x, a) == if x == o && offset <= a < offset + |piece| then piece[a - offset]
      else ByteAt(slots, store, size, x, a)
  {
    hide View, Sized, Changed, ChunkOf, OffsetIn;
    var k := Key(o, ChunkOf(offset, size) + 1);
    InChunk(offset, a, size);
    ChangedAt(slots, store, slots', store', size, k, d, Key(x, ChunkOf(a, size) + 1));
    Rest(View(slots, store, size, k), OffsetIn(offset, size), piece, OffsetIn(a, size));
  }

  lemma ChangedAt(slots: seq<Slot>, store: Store, slots': seq<Slot>, store': Store, size: nat, k: Key, d: seq<byte>,
                  x: Key)
    requires Changed(slots, store, slots', store', size, k, d)
    ensures View(slots', store', size, x) == if x == k then d else View(slots, store, size, x)
  {}

  lemma Rest(d: seq<byte>, start: nat, piece: seq<byte>, i: nat)
    requires start + |piece| <= |d|
    ensures i < |d| ==> Spliced(d, start, piece)[i] == if start <= i < start + |piece| then piece[i - start] else d[i]
  {}

  lemma InChunk(offset: nat, a: nat, size: nat)
    requires size > 0
    ensures ChunkOf(a, size) == ChunkOf(offset, size) ==> a - offset == OffsetIn(a, size) - OffsetIn(offset, size)
    ensures ChunkOf(a, size) != ChunkOf(offset, size) ==> a < offset || a - offset >= size - OffsetIn(offset, size)
  {
    DivSplit(a, size);
    DivSplit(offset, size);
    if ChunkOf(a, size) < ChunkOf(offset, size) {
      MulMono(ChunkOf(a, size) + 1, ChunkOf(offset, size), size);
    }
    if ChunkOf(a, size) > ChunkOf(offset, size) {
      MulMono(ChunkOf(offset, size) + 1, ChunkOf(a, size), size);
    }
  }

  /** A chunk with some bytes from `start` on replaced. */
  function Spliced(d: seq<byte>, start: nat, piece: seq<byte>): (r: seq<byte>)
    requires start + |piece| <= |d|
    ensures |r| == |d|
    ensures forall i :: 0 <= i < |d| ==> r[i] == if start <= i < start + |piece| then piece[i - start] else d[i]
  {
    d[..start] + piece + d[start + |piece|..]
  }

  lemma SameTrans(s0: seq<Slot>, t0: Store, s1: seq<Slot>, t1: Store, s2: seq<Slot>, t2: Store, size: nat)
    requires SameView(s0, t0, s1, t1, size) && SameView(s1, t1, s2, t2, size)
    ensures SameView(s0, t0, s2, t2, size)
  {
    hide View;
  }

  lemma ChangedToSame(slots: seq<Slot>, store: Store, slots': seq<Slot>, store': Store, size: nat, k: Key)
    requires Changed(slots, store, slots', store', size, k, View(slots, store, size, k))
    ensures SameView(slots, store, slots', store', size)
  {
    hide View;
  }

  /** With nothing dirty the flash holds what is seen. */
  lemma AllStored(slots: seq<Slot>, store: Store, size: nat, k: Key)
    requires Coherent(slots, store, size) && forall i :: 0 <= i < |slots| && slots[i].used ==> !slots[i].dirty
    ensures Get(store, size, k) == View(slots, store, size, k)
  {}

  /** The cache, the flash below it and the sizes of the files. */
  class Cache {
    const g: Geometry
    const bypassAligned: bool
    const inband: bool
    const faulty: bool          // may chunk writes fail?
    const crowded: bool         // may there be no space for another chunk?
    var slots: seq<Slot>
    var lastUse: int
    var store: Store
    var sizes: map<nat, nat>
    ghost var failures: nat     // chunk writes that failed
    ghost var refused: nat      // times there was no space for another chunk

    ghost predicate Valid()
      reads this
    {
      && g.Valid() && Unique(slots) && Sized(slots, store, g.dataBytes)
      && (failures == 0 ==> Coherent(slots, store, g.dataBytes))
      && (!faulty ==> failures == 0) && (!crowded ==> refused == 0)
    }

    /** An empty cache of n slots over what the flash holds. */
    constructor (dataBytes: nat, n: nat, bypassAligned: bool, inband: bool, store: Store, sizes: map<nat, nat>,
                 faulty: bool, crowded: bool)
      requires 0 < dataBytes < 0x8000_0000 && Sized([], store, dataBytes)
      ensures Valid() && failures == 0 && |slots| == n && g.dataBytes == dataBytes && this.store == store
        && this.sizes == sizes && this.faulty == faulty && this.crowded == crowded
      ensures SameView([], store, slots, store, dataBytes)
    {
      var shift := CalcShifts(dataBytes);
      this.bypassAligned, this.inband, this.store, this.sizes := bypassAligned, inband, store, sizes;
      DivSplit(dataBytes, Pow2(shift));
      g := Geometry(dataBytes, shift, dataBytes / Pow2(shift));
      slots := seq(n, _ => Slot(false, Key(0, 0), Zeros(dataBytes), 0, false, 0));
      lastUse, failures, refused := 0, 0, 0;
      this.faulty, this.crowded := faulty, crowded;
    }

    /** yaffs_wr_data_obj as the cache sees it: a new chunk is written, or the old one stays. */
    method WrDataObj(k: Key, data: seq<byte>, nBytes: nat) returns (r: int)
      requires 1 <= nBytes <= g.dataBytes
      modifies this`store, this`failures
      ensures store == AfterWr(old(store), k, Kept(data, nBytes), r) && r >= -1
      ensures failures == old(failures) + (if r > 0 then 0 else 1) && (!faulty ==> r > 0)
    {
      r := *;
      if r <= 0 && !faulty {
        r := 1;
      }
      if r > 0 {
        store := store[k := Kept(data, nBytes)];
      } else {
        r := if r < -1 then -1 else r;
        failures := failures + 1;
      }
    }

    method RdDataObj(k: Key) returns (data: seq<byte>)
      ensures data == Get(store, g.dataBytes, k)
    {
      if k in store {
        data := store[k].data;
      } else {
        data := Zeros(g.dataBytes);
      }
    }

    /** yaffs_flush_single_cache. The result r of the write, 0 if there is none, is not looked at: what is seen stays
        exactly if the slot is kept, the write succeeds or the flash held the data already. */
    method FlushSingleCache(i: nat, discard: bool) returns (ghost r: int)
      requires Valid() && i < |slots| && slots[i].used
      modifies this`slots, this`store, this`failures
      ensures Valid() && failures == old(failures) + if old(slots)[i].dirty && r <= 0 then 1 else 0
      ensures slots == old(slots)[i := old(slots)[i].(dirty := false, used := !discard)]
      ensures store == AfterWr(old(store), old(slots)[i].key, Kept(old(slots)[i].data, old(slots)[i].nBytes), r)
      ensures r > 0 ==> old(slots)[i].dirty
      ensures Changed(old(slots), old(store), slots, store, g.dataBytes, old(slots)[i].key,
                      if discard then Get(store, g.dataBytes, old(slots)[i].key) else old(slots)[i].data)
      ensures SameView(old(slots), old(store), slots, store, g.dataBytes)
         <==> !discard || r > 0 || Get(old(store), g.dataBytes, old(slots)[i].key) == old(slots)[i].data
      ensures failures == 0 ==> SameView(old(slots), old(store), slots, store, g.dataBytes)
    {
      hide View, Cached, Changed, SameView;
      ghost var s0, t0, k := slots, store, slots[i].key;
      ViewOfSlot(slots, store, g.dataBytes, i);
      r := 0;
      if slots[i].dirty {
        r := WrDataObj(slots[i].key, slots[i].data, slots[i].nBytes);
        slots := slots[i := slots[i].(dirty := false)];
      }
      assert failures == 0 ==> Get(store, g.dataBytes, k) == s0[i].data;
      if discard {
        slots := slots[i := slots[i].(used := false)];
        assert slots == s0[i := slots[i]];
        Dropped(s0, t0, store, g.dataBytes, i, slots[i]);
      } else {
        assert slots == s0[i := slots[i]];
        Placed(s0, t0, store, g.dataBytes, i, slots[i]);
      }
      FlushKeptIff(s0, t0, slots, store, g.dataBytes, i, discard, r);
    }

    /** yaffs_flush_file_cache. */
    method FlushFileCache(o: nat, discard: bool)
      requires Valid()
      modifies this`slots, this`store, this`failures
      ensures Valid() && failures >= old(failures) && |slots| == |old(slots)|
      ensures forall j :: 0 <= j < |slots| ==>
        slots[j] == if old(slots)[j].used && old(slots)[j].key.obj == o then old(slots)[j].(dirty := false,
            used := !discard) else old(slots)[j]
      ensures failures == 0 ==> SameView(old(slots), old(store), slots, store, g.dataBytes)
    {
      hide View, Cached, Changed, SameView, Unique, Sized, Coherent;
      var i := 0;
      SameRefl(slots, store, g.dataBytes);
      while i < |slots|
        invariant Valid() && failures >= old(failures) && i <= |slots| == |old(slots)|
        invariant forall j :: 0 <= j < i ==>
          slots[j] == if old(slots)[j].used && old(slots)[j].key.obj == o then old(slots)[j].(dirty := false,
              used := !discard) else old(slots)[j]
        invariant forall j :: i <= j < |slots| ==> slots[j] == old(slots)[j]
        invariant failures == 0 ==> SameView(old(slots), old(store), slots, store, g.dataBytes)
      {
        if slots[i].used && slots[i].key.obj == o {
          ghost var s1, t1 := slots, store;
          ghost var _ := FlushSingleCache(i, discard);
          if failures == 0 {
            SameTrans(old(slots), old(store), s1, t1, slots, store, g.dataBytes);
          }
        }
        i := i + 1;
      }
    }

    /** yaffs_flush_whole_cache: file after file, as long as something is dirty. If no write fails nothing can be seen
        to have changed, and everything is on the flash. */
    method FlushWholeCache(discard: bool)
      requires Valid()
      modifies this`slots, this`store, this`failures
      ensures Valid() && failures >= old(failures) && |slots| == |old(slots)|
      ensures forall j :: 0 <= j < |slots| && slots[j].used ==> !slots[j].dirty
      ensures failures == 0 ==> SameView(old(slots), old(store), slots, store, g.dataBytes)
      ensures failures == 0 ==> forall k :: Get(store, g.dataBytes, k) == View(old(slots), old(store), g.dataBytes, k)
    {
      hide View, Cached, Changed, SameView, Unique, Sized;
      SameRefl(slots, store, g.dataBytes);
      var more := true;
      while more
        invariant Valid() && failures >= old(failures) && |slots| == |old(slots)|
        invariant !more ==> forall j :: 0 <= j < |slots| && slots[j].used ==> !slots[j].dirty
        invariant failures == 0 ==> SameView(old(slots), old(store), slots, store, g.dataBytes)
        decreases more, DirtySlots(slots)
      {
        var i := 0;
        while i < |slots| && !(slots[i].used && slots[i].dirty)
          invariant i <= |slots|
          invariant forall j :: 0 <= j < i ==> !(slots[j].used && slots[j].dirty)
        {
          i := i + 1;
        }
        more := i < |slots|;
        if more {
          ghost var s1, t1 := slots, store;
          assert i in DirtySlots(s1);
          FlushFileCache(slots[i].key.obj, discard);
          assert i !in DirtySlots(slots) && DirtySlots(slots) <= DirtySlots(s1);
          if failures == 0 {
            SameTrans(old(slots), old(store), s1, t1, slots, store, g.dataBytes);
          }
        }
      }
      if failures == 0 {
        forall k ensures Get(store, g.dataBytes, k) == View(old(slots), old(store), g.dataBytes, k) {
          AllStored(slots, store, g.dataBytes, k);
          SameAt(old(slots), old(store), slots, store, g.dataBytes, k);
        }
      }
    }

    predicate NothingDirty()
      reads this`slots
    {
      forall i :: 0 <= i < |slots| ==> !(slots[i].used && slots[i].dirty)
    }

    /** yaffs_grab_chunk_worker: a slot that is not in use, -1 if all are. */
    method GrabUnused() returns (r: int)
      ensures if r < 0 then forall j :: 0 <= j < |slots| ==> slots[j].used else r < |slots| && !slots[r].used
    {
      var i := 0;
      while i < |slots|
        invariant i <= |slots| && forall j :: 0 <= j < i ==> slots[j].used
      {
        if !slots[i].used {
          return i;
        }
        i := i + 1;
      }
      r := -1;
    }

    /** yaffs_grab_chunk_cache: a slot that is free, or else the least recently used one after flushing it. */
    method GrabChunkCache() returns (r: nat)
      requires Valid() && slots != []
      modifies this`slots, this`store, this`failures
      ensures Valid() && failures >= old(failures) && r < |slots| == |old(slots)| && !slots[r].used
      ensures slots == old(slots)[r := old(slots)[r].(dirty := slots[r].dirty, used := false)]
      ensures old(slots)[r].used ==>
        forall j :: 0 <= j < |slots| ==> old(slots)[j].used && old(slots)[r].lastUse <= old(slots)[j].lastUse
      ensures failures == 0 ==> SameView(old(slots), old(store), slots, store, g.dataBytes)
      ensures old(NothingDirty()) ==> NothingDirty() && store == old(store) && failures == old(failures)
    {
      hide View, Cached, Changed, SameView, Unique, Sized, Coherent;
      var free := GrabUnused();
      if free >= 0 {
        SameRefl(slots, store, g.dataBytes);
        return free;
      }
      var i, lru := 0, -1;
      var usage := -1;
      while i < |slots|
        invariant i <= |slots| && -1 <= lru < |slots| && (i > 0 ==> lru >= 0)
        invariant lru >= 0 ==> usage == slots[lru].lastUse && forall j :: 0 <= j < i ==> usage <= slots[j].lastUse
      {
        if slots[i].lastUse < usage || lru < 0 {
          usage, lru := slots[i].lastUse, i;
        }
        i := i + 1;
      }
      r := lru;
      ghost var _ := FlushSingleCache(r, true);
    }

    /** yaffs_find_chunk_cache. */
    method FindChunkCache(k: Key) returns (r: int)
      ensures if r < 0 then r == -1 && !Cached(slots, k) else r < |slots| && Hit(slots[r], k)
    {
      var i := 0;
      while i < |slots|
        invariant i <= |slots| && forall j :: 0 <= j < i ==> !Hit(slots[j], k)
      {
        if Hit(slots[i], k) {
          return i;
        }
        i := i + 1;
      }
      r := -1;
    }

    /** yaffs_use_cache: mark a slot as used last; the marks start again when they have grown too large. */
    method UseCache(i: nat, isWrite: bool)
      requires i < |slots|
      modifies this`slots, this`lastUse
      ensures |slots| == |old(slots)|
      ensures forall j :: 0 <= j < |slots| ==>
        slots[j] == old(slots)[j].(lastUse := slots[j].lastUse,
            dirty := if isWrite && j == i then true else old(slots)[j].dirty)
      ensures slots[i].lastUse == lastUse
    {
      if lastUse < 0 || lastUse > 100000000 {
        slots := seq(|slots|, j requires 0 <= j < |slots| reads this =>
          if j >= 1 then slots[j].(lastUse := 0) else slots[j]);
        lastUse := 0;
      }
      lastUse := lastUse + 1;
      slots := slots[i := slots[i].(lastUse := lastUse)];
      if isWrite {
        slots := slots[i := slots[i].(dirty := true)];
      }
    }

    /** yaffs_invalidate_chunk_cache: a slot is given up without writing it. */
    method InvalidateChunkCache(k: Key)
      requires Unique(slots) && Sized(slots, store, g.dataBytes)
      modifies this`slots
      ensures Unique(slots) && Sized(slots, store, g.dataBytes) && !Cached(slots, k)
      ensures Changed(old(slots), store, slots, store, g.dataBytes, k, Get(store, g.dataBytes, k))
      ensures CoherentBut(old(slots), store, g.dataBytes, k) ==> Coherent(slots, store, g.dataBytes)
    {
      hide View;
      var i := FindChunkCache(k);
      if i >= 0 {
        ghost var s0 := slots;
        slots := slots[i := slots[i].(used := false)];
        Dropped(s0, store, store, g.dataBytes, i, slots[i]);
      } else {
        Bypassed(slots, store, store, g.dataBytes, k);
      }
    }

    /** Bring a chunk into a slot. */
    method LoadChunk(k: Key) returns (i: nat)
      requires Valid() && slots != [] && !Cached(slots, k)
      modifies this`slots, this`store, this`failures
      ensures Valid() && failures >= old(failures) && i < |slots| && Hit(slots[i], k) && !slots[i].dirty
      ensures old(NothingDirty()) ==> NothingDirty() && store == old(store) && failures == old(failures)
      ensures failures == 0 ==> SameView(old(slots), old(store), slots, store, g.dataBytes)
    {
      hide View, Changed, SameView;
      i := GrabChunkCache();
      ghost var s1 := slots;
      assert !Cached(s1, k) by {
        assert forall j :: 0 <= j < |s1| ==> (Hit(s1[j], k) ==> Hit(old(slots)[j], k));
      }
      var data := RdDataObj(k);
      slots := slots[i := slots[i].(used := true, key := k, dirty := false, data := data, nBytes := 0)];
      Placed(s1, store, store, g.dataBytes, i, slots[i]);
      NotCached(s1, store, g.dataBytes, k);
      if failures == 0 {
        ChangedToSame(s1, store, slots, store, g.dataBytes, k);
        SameTrans(old(slots), old(store), s1, store, slots, store, g.dataBytes);
      }
    }

    /** One turn of yaffs_file_rd: the part of one chunk that is wanted. */
    method ReadPart(k: Key, start: nat, n: nat) returns (piece: seq<byte>)
      requires Valid() && start + n <= g.dataBytes
      modifies this`slots, this`store, this`failures, this`lastUse
      ensures Valid() && failures >= old(failures) && |piece| == n
      ensures old(NothingDirty()) ==> NothingDirty() && store == old(store) && failures == old(failures)
      ensures failures == 0 ==> SameView(old(slots), old(store), slots, store, g.dataBytes)
      ensures failures == 0 ==>
        |View(old(slots), old(store), g.dataBytes, k)| == g.dataBytes
        && piece == View(old(slots), old(store), g.dataBytes, k)[start..start + n]
    {
      hide View, Changed, SameView;
      ViewSized(slots, store, g.dataBytes, k);
      SameRefl(slots, store, g.dataBytes);
      var i := FindChunkCache(k);
      if i >= 0 || n != g.dataBytes || inband {
        if slots != [] {
          if i < 0 {
            i := LoadChunk(k);
          }
          ghost var s1 := slots;
          ViewOfSlot(slots, store, g.dataBytes, i);
          UseCache(i, false);
          Touched(s1, slots, store, g.dataBytes);
          piece := slots[i].data[start..start + n];
          if failures == 0 {
            SameTrans(old(slots), old(store), s1, store, slots, store, g.dataBytes);
            SameAt(old(slots), old(store), s1, store, g.dataBytes, k);
          }
        } else {
          NotCached(slots, store, g.dataBytes, k);
          var local := RdDataObj(k);
          piece := local[start..start + n];
        }
      } else {
        NotCached(slots, store, g.dataBytes, k);
        piece := RdDataObj(k);
      }
    }

    /** yaffs_file_rd: piece by piece, chunk by chunk. */
    method FileRd(o: nat, offset: nat, n: nat) returns (data: seq<byte>)
      requires Valid() && n < 0x8000_0000 && (n > 0 ==> g.InRange(offset + n - 1))
      modifies this`slots, this`store, this`failures, this`lastUse
      ensures Valid() && failures >= old(failures) && |data| == n
      // Reading writes only to make room among dirty slots.
      ensures old(NothingDirty()) ==> NothingDirty() && store == old(store) && failures == old(failures)
      ensures !faulty ==> failures == 0
      ensures failures == 0 ==>
        forall a :: offset <= a < offset + n ==> data[a - offset] == ByteAt(old(slots), old(store), g.dataBytes, o, a)
      ensures failures == 0 ==> SameView(old(slots), old(store), slots, store, g.dataBytes)
    {
      hide View, Changed, SameView, Unique, Sized, Coherent, ByteAt, Geometry.InRange, Geometry.Valid;
      Positive(g);
      ghost var size, s0, t0 := g.dataBytes, slots, store;
      SameRefl(slots, store, size);
      data := [];
      while |data| < n
        invariant Valid() && failures >= old(failures) && |data| <= n
        invariant old(NothingDirty()) ==> NothingDirty() && store == old(store) && failures == old(failures)
        invariant failures == 0 ==>
          forall a :: offset <= a < offset + |data| ==> data[a - offset] == ByteAt(s0, t0, size, o, a)
        invariant failures == 0 ==> SameView(s0, t0, slots, store, size)
      {
        ghost var s1, t1 := slots, store;
        StillInRange(g, offset + |data|, offset + n - 1);
        var piece := ReadNext(o, offset + |data|, n - |data|);
        if failures == 0 {
          BytesSame(s0, t0, s1, t1, size);
          SameTrans(s0, t0, s1, t1, slots, store, size);
        }
        data := data + piece;
      }
    }

    /** What is left to read, or the part of it that is in the next chunk. */
    method ReadNext(o: nat, offset: nat, left: nat) returns (piece: seq<byte>)
      requires Valid() && 0 < left && g.InRange(offset)
      modifies this`slots, this`store, this`failures, this`lastUse
      ensures Valid() && failures >= old(failures) && 0 < |piece| <= left
      ensures old(NothingDirty()) ==> NothingDirty() && store == old(store) && failures == old(failures)
      ensures failures == 0 ==> SameView(old(slots), old(store), slots, store, g.dataBytes)
      ensures failures == 0 ==>
        forall a ::
        offset <= a < offset + |piece| ==> piece[a - offset] == ByteAt(old(slots), old(store), g.dataBytes, o, a)
    {
      hide View, SameView, Unique, Sized, Coherent, ByteAt, Geometry.InRange, Geometry.Valid, Geometry.ChunkNo, ChunkOf,
        OffsetIn;
      Positive(g);
      var chunk, start := AddrToChunk(g, offset);
      assert start < g.dataBytes;
      var nCopy := if start + left < g.dataBytes then left else g.dataBytes - start;
      piece := ReadPart(Key(o, chunk + 1), start, nCopy);
      if failures == 0 {
        PartRead(old(slots), old(store), g.dataBytes, o, offset, chunk, start, piece);
      }
    }

    /** Is there space for another chunk? */
    method CheckAllocAvailable() returns (ok: bool)
      modifies this`refused
      ensures refused == (if ok then old(refused) else old(refused) + 1) && (!crowded ==> ok)
    {
      ok := *;
      ok := ok || !crowded;
      if !ok {
        refused := refused + 1;
      }
    }

    /** A whole chunk is written past the cache. If that fails, what the cache held of it is lost all the same. */
    method WriteWhole(k: Key, data: seq<byte>) returns (r: int)
      requires Valid() && |data| == g.dataBytes
      modifies this`slots, this`store, this`failures
      ensures Valid() && failures >= old(failures) && (r <= 0 ==> failures > old(failures))
      ensures Changed(old(slots), old(store), slots, store, g.dataBytes, k,
          if r > 0 then data else Get(old(store), g.dataBytes, k))
      ensures (r >= 0 ==> View(slots, store, g.dataBytes, k) == data)
         <==> r != 0 || Get(old(store), g.dataBytes, k) == data
      ensures !faulty ==> r > 0
    {
      hide View, Changed;
      r := WrDataObj(k, data, g.dataBytes);
      ghost var s1, t1 := slots, store;
      InvalidateChunkCache(k);
      ChangedTwice(old(slots), old(store), s1, t1, slots, store, g.dataBytes, k);
      AcceptedRightIff(old(slots), old(store), slots, store, g.dataBytes, k, data, r);
    }

    /** Put a piece into the chunk in slot i, and write that through if it is wanted. */
    method WriteCached(i: nat, start: nat, piece: seq<byte>, nWriteback: nat, writeThrough: bool) returns (written: int)
      requires Valid() && i < |slots| && slots[i].used && start + |piece| <= g.dataBytes
        && 1 <= nWriteback <= g.dataBytes
      modifies this`slots, this`store, this`failures, this`lastUse
      ensures Valid() && failures >= old(failures) && (written < 0 ==> failures > old(failures))
      ensures Changed(old(slots), old(store), slots, store, g.dataBytes, old(slots)[i].key,
          Spliced(old(slots)[i].data, start, piece))
      // Written through or not, the piece is seen; on the flash it is if that succeeds or it was there already.
      ensures writeThrough ==> (Get(store, g.dataBytes, old(slots)[i].key) == Spliced(old(slots)[i].data, start, piece)
        <==> written > 0
             || Get(old(store), g.dataBytes, old(slots)[i].key) == Spliced(old(slots)[i].data, start, piece))
    {
      hide View, Changed;
      written := 0;
      ghost var s0, t0 := slots, store;
      UseCache(i, true);
      slots := slots[i := slots[i].(data := Spliced(slots[i].data, start, piece), nBytes := nWriteback)];
      if writeThrough {
        written := WrDataObj(slots[i].key, slots[i].data, slots[i].nBytes);
        slots := slots[i := slots[i].(dirty := false)];
      }
      Marked(s0, t0, slots, store, g.dataBytes, i);
    }

    /** One turn of yaffs_do_file_wr: some bytes of one chunk. */
    method WritePart(k: Key, start: nat, piece: seq<byte>, nWriteback: nat, writeThrough: bool) returns (written: int)
      requires Valid() && piece != [] && start + |piece| <= g.dataBytes && 1 <= nWriteback <= g.dataBytes
      modifies this`slots, this`store, this`failures, this`lastUse, this`refused
      ensures Valid() && failures >= old(failures) && refused >= old(refused)
      ensures written < 0 ==> failures > old(failures) || refused > old(refused)
      ensures failures == 0 && written < 0 ==> SameView(old(slots), old(store), slots, store, g.dataBytes)
      ensures failures == 0 && written >= 0 ==>
        && |View(old(slots), old(store), g.dataBytes, k)| == g.dataBytes
        && Changed(old(slots), old(store), slots, store, g.dataBytes, k,
            Spliced(View(old(slots), old(store), g.dataBytes, k), start, piece))
    {
      hide View, Changed, SameView, Spliced;
      ViewSized(slots, store, g.dataBytes, k);
      SameRefl(slots, store, g.dataBytes);
      if |piece| != g.dataBytes || !bypassAligned || inband {
        if slots != [] {
          written := WriteThroughSlot(k, start, piece, nWriteback, writeThrough);
        } else {
          NotCached(slots, store, g.dataBytes, k);
          var local := RdDataObj(k);
          written := WriteBare(k, Spliced(local, start, piece), nWriteback);
        }
      } else {
        WholeSpliced(View(slots, store, g.dataBytes, k), piece);
        written := WriteWhole(k, piece);
      }
    }

    /** Without slots a chunk goes straight to the flash. */
    method WriteBare(k: Key, data: seq<byte>, nBytes: nat) returns (written: int)
      requires Valid() && slots == [] && |data| == g.dataBytes && 1 <= nBytes <= g.dataBytes
      modifies this`store, this`failures
      ensures Valid() && failures >= old(failures) && (written <= 0 ==> failures > old(failures))
      ensures Changed(old(slots), old(store), slots, store, g.dataBytes, k,
          if written > 0 then data else Get(old(store), g.dataBytes, k))
    {
      hide View, Changed;
      ghost var t0 := store;
      written := WrDataObj(k, data, nBytes);
      Bypassed(slots, t0, store, g.dataBytes, k);
    }

    /** With slots a piece goes into one, if there is space to write it some day. */
    method WriteThroughSlot(k: Key, start: nat, piece: seq<byte>, nWriteback: nat, writeThrough: bool)
      returns (written: int)
      requires Valid() && slots != [] && start + |piece| <= g.dataBytes && 1 <= nWriteback <= g.dataBytes
      modifies this`slots, this`store, this`failures, this`lastUse, this`refused
      ensures Valid() && failures >= old(failures) && refused >= old(refused)
      ensures written < 0 ==> failures > old(failures) || refused > old(refused)
      ensures failures == 0 && written < 0 ==> SameView(old(slots), old(store), slots, store, g.dataBytes)
      ensures failures == 0 && written >= 0 ==>
        && |View(old(slots), old(store), g.dataBytes, k)| == g.dataBytes
        && Changed(old(slots), old(store), slots, store, g.dataBytes, k,
            Spliced(View(old(slots), old(store), g.dataBytes, k), start, piece))
    {
      hide View, Changed, SameView, Spliced, Unique, Coherent;
      ViewSized(slots, store, g.dataBytes, k);
      SameRefl(slots, store, g.dataBytes);
      var i := FindChunkCache(k);
      if i < 0 {
        var ok := CheckAllocAvailable();
        if ok {
          i := LoadChunk(k);
        }
      } else if !slots[i].dirty {
        var ok := CheckAllocAvailable();
        if !ok {
          i := -1;
        }
      }
      if i < 0 {
        return -1;
      }
      ghost var s1, t1 := slots, store;
      ViewOfSlot(slots, store, g.dataBytes, i);
      written := WriteCached(i, start, piece, nWriteback, writeThrough);
      if failures == 0 {
        SameAt(old(slots), old(store), s1, t1, g.dataBytes, k);
        SameChanged(old(slots), old(store), s1, t1, slots, store, g.dataBytes, k);
      }
    }

    /** What is left to write, or the part of it that goes into the next chunk. */
    method WriteNext(o: nat, data: seq<byte>, offset: nat, writeThrough: bool) returns (written: int, n: nat)
      requires Valid() && o in sizes && data != [] && |data| < 0x8000_0000 && g.InRange(offset)
      modifies this`slots, this`store, this`failures, this`lastUse, this`refused
      ensures Valid() && failures >= old(failures) && refused >= old(refused) && 0 < n <= |data|
      ensures written < 0 ==> failures > old(failures) || refused > old(refused)
      ensures failures == 0 && written < 0 ==> SameView(old(slots), old(store), slots, store, g.dataBytes)
      ensures failures == 0 && written >= 0 ==>
        Overlaid(old(slots), old(store), slots, store, g.dataBytes, o, offset, data[..n])
    {
      hide View, SameView, Changed, Overlaid, Unique, Sized, Coherent, Spliced, Geometry.InRange, Geometry.Valid,
        Geometry.ChunkNo, ChunkOf, OffsetIn;
      Positive(g);
      var chunk, start := AddrToChunk(g, offset);
      assert start < g.dataBytes;
      n := |data|;
      var nWriteback := g.dataBytes;
      if start + n < g.dataBytes {
        nWriteback := Writeback(g.dataBytes, sizes[o], chunk * g.dataBytes, start + n);
      } else {
        n := g.dataBytes - start;
      }
      written := WritePart(Key(o, chunk + 1), start, data[..n], nWriteback, writeThrough);
      if failures == 0 && written >= 0 {
        PartOverlaid(old(slots), old(store), slots, store, g.dataBytes, o, offset, chunk, start,
                     Spliced(View(old(slots), old(store), g.dataBytes, Key(o, chunk + 1)), start,
                         data[..n]), data[..n]);
      }
    }

    /** yaffs_do_file_wr. As long as no chunk write fails the file then holds the bytes written and is otherwise as it
        was, and only lack of space stops the write. */
    method DoFileWr(o: nat, data: seq<byte>, offset: nat, writeThrough: bool) returns (done: nat)
      requires Valid() && o in sizes && |data| < 0x8000_0000 && (data != [] ==> g.InRange(offset + |data| - 1))
      modifies this`slots, this`store, this`failures, this`lastUse, this`refused, this`sizes
      ensures Valid() && failures >= old(failures) && done <= |data|
      ensures sizes == old(sizes)[o := if offset + done > old(sizes)[o] then offset + done else old(sizes)[o]]
      ensures done < |data| ==> failures > old(failures) || refused > old(refused)
      ensures (!faulty ==> failures == 0) && (!faulty && !crowded ==> done == |data|)
      ensures failures == 0 ==> Overlaid(old(slots), old(store), slots, store, g.dataBytes, o, offset, data[..done])
    {
      hide View, SameView, Overlaid, Unique, Sized, Coherent, Geometry.InRange, Geometry.Valid;
      Positive(g);
      ghost var size, s0, t0 := g.dataBytes, slots, store;
      done := 0;
      var written := 0;
      NothingOverlaid(s0, t0, size, o, offset);
      assert data[..0] == [];
      while done < |data| && written >= 0
        invariant Valid() && failures >= old(failures) && refused >= old(refused) && done <= |data|
          && sizes == old(sizes)
        invariant written < 0 ==> failures > old(failures) || refused > old(refused)
        invariant failures == 0 ==> Overlaid(s0, t0, slots, store, size, o, offset, data[..done])
        decreases |data| - done, written >= 0
      {
        ghost var s1, t1 := slots, store;
        StillInRange(g, offset + done, offset + |data| - 1);
        var w, n := WriteNext(o, data[done..], offset + done, writeThrough);
        written := w;
        if failures == 0 && written < 0 {
          SameOverlaid(s0, t0, s1, t1, slots, store, size, o, offset, data[..done]);
        }
        if written >= 0 {
          assert data[..done + n] == data[..done] + data[done..][..n];
          if failures == 0 {
            OverlaidTrans(s0, t0, s1, t1, slots, store, size, o, offset, data[..done], data[done..][..n]);
          }
          done := done + n;
        }
      }
      if offset + done > sizes[o] {
        sizes := sizes[o := offset + done];
      }
    }
  }

  /** Marks of use cannot be seen. */
  lemma Touched(s0: seq<Slot>, s1: seq<Slot>, store: Store, size: nat)
    requires |s0| == |s1| && Unique(s0)
    requires forall j :: 0 <= j < |s1| ==> s1[j] == s0[j].(lastUse := s1[j].lastUse)
    ensures Unique(s1) && (Sized(s0, store, size) ==> Sized(s1, store, size))
      && (Coherent(s0, store, size) ==> Coherent(s1, store, size))
    ensures SameView(s0, store, s1, store, size)
  {
    forall x ensures View(s1, store, size, x) == View(s0, store, size, x) {
      if Cached(s1, x) {
        var j: nat :| j < |s1| && Hit(s1[j], x);
        assert Hit(s0[j], x);
        ViewOfSlot(s1, store, size, j);
        ViewOfSlot(s0, store, size, j);
      } else {
        assert forall j :: 0 <= j < |s0| ==> !Hit(s1[j], x);
      }
    }
  }

  /** Marks of use, and what slot i holds, have changed. */
  lemma Marked(s0: seq<Slot>, t0: Store, s2: seq<Slot>, t2: Store, size: nat, i: nat)
    requires |s0| == |s2| && Unique(s0) && i < |s0| && s0[i].used && s2[i].used && s2[i].key == s0[i].key
    requires forall j :: 0 <= j < |s2| && j != i ==> s2[j] == s0[j].(lastUse := s2[j].lastUse)
    requires forall x {:trigger x in t2} :: x != s0[i].key ==> (x in t2 <==> x in t0) && (x in t2 ==> t2[x] == t0[x])
    ensures Unique(s2) && Changed(s0, t0, s2, t2, size, s0[i].key, s2[i].data)
  {
    hide View;
    var s1 := s2[i := s0[i]];
    Touched(s0, s1, t0, size);
    assert s2 == s1[i := s2[i]];
    Placed(s1, t0, t2, size, i, s2[i]);
    assert forall x :: View(s1, t0, size, x) == View(s0, t0, size, x);
  }

  lemma NothingOverlaid(slots: seq<Slot>, store: Store, size: nat, o: nat, offset: nat)
    requires size > 0 && Sized(slots, store, size)
    ensures Overlaid(slots, store, slots, store, size, o, offset, [])
  {
    hide ByteAt;
  }

  lemma SameOverlaid(s0: seq<Slot>, t0: Store, s1: seq<Slot>, t1: Store, s2: seq<Slot>, t2: Store, size: nat, o: nat,
                     offset: nat, d: seq<byte>)
    requires size > 0 && Sized(s0, t0, size) && Sized(s1, t1, size) && Sized(s2, t2, size)
    requires Overlaid(s0, t0, s1, t1, size, o, offset, d) && SameView(s1, t1, s2, t2, size)
    ensures Overlaid(s0, t0, s2, t2, size, o, offset, d)
  {
    BytesSame(s1, t1, s2, t2, size);
    hide ByteAt;
  }

  /** The bytes of a chunk that are recorded as written, up to `end` or as many as the file had there. */
  function Writeback(size: nat, fileSize: nat, chunkStart: nat, end: nat): (r: nat)
    requires 0 < end < size
    ensures end <= r <= size
  {
    var there := if chunkStart > fileSize then 0 else U32(fileSize - chunkStart);
    var read := if there > size then size else there;
    if read > end then read else end
  }

  /** That is what the file has in the chunk afterwards, unless four gigabytes follow and the count is cut to too
      little. */
  lemma WritebackRightIff(size: nat, fileSize: nat, chunkStart: nat, end: nat)
    requires 0 < end < size < 0x8000_0000
    ensures var last := if chunkStart + end > fileSize then chunkStart + end else fileSize;
            Writeback(size, fileSize, chunkStart, end) == (if last - chunkStart > size then size else last - chunkStart)
            <==> fileSize - chunkStart < 0x1_0000_0000 || U32(fileSize - chunkStart) >= size
  {
    U32Cases(fileSize - chunkStart);
  }

  /** Overwriting the first byte of a file of exactly four gigabytes: the count says 1 instead of the whole chunk. */
  lemma WritebackTooSmall()
    ensures Writeback(2048, 0x1_0000_0000, 0, 1) == 1 && 0x1_0000_0000 - 0 > 2048
  {
    U32Cases(0x1_0000_0000);
    assert U32(0x1_0000_0000) == 0;
  }

  lemma BytesSame(s0: seq<Slot>, t0: Store, s1: seq<Slot>, t1: Store, size: nat)
    requires size > 0 && Sized(s0, t0, size) && Sized(s1, t1, size) && SameView(s0, t0, s1, t1, size)
    ensures forall o: nat, a: nat :: ByteAt(s1, t1, size, o, a) == ByteAt(s0, t0, size, o, a)
  {
    hide View, Sized;
  }

  lemma StillInRange(g: Geometry, a: nat, b: nat)
    requires a <= b && g.InRange(b)
    ensures g.InRange(a)
  {
    DivMono(a, b, Pow2(g.shift));
  }

  /** A part of a chunk is a part of its file. */
  lemma PartRead(slots: seq<Slot>, store: Store, size: nat, o: nat, offset: nat, c: nat, start: nat, piece: seq<byte>)
    requires size > 0 && Sized(slots, store, size) && c == ChunkOf(offset, size) && start == OffsetIn(offset, size)
      && start + |piece| <= size
    requires |View(slots, store, size, Key(o, c + 1))| == size
    requires piece == View(slots, store, size, Key(o, c + 1))[start..start + |piece|]
    ensures forall a :: offset <= a < offset + |piece| ==> piece[a - offset] == ByteAt(slots, store, size, o, a)
  {
    hide View, Sized, ChunkOf, OffsetIn;
    forall a | offset <= a < offset + |piece| ensures piece[a - offset] == ByteAt(slots, store, size, o, a) {
      InChunk(offset, a, size);
    }
  }

  lemma ChangedTwice(s0: seq<Slot>, t0: Store, s1: seq<Slot>, t1: Store, s2: seq<Slot>, t2: Store, size: nat, k: Key)
    requires s0 == s1 && Unique(s0)
      && forall x {:trigger x in t1} :: x != k ==> (x in t1 <==> x in t0) && (x in t1 ==> t1[x] == t0[x])
    requires Changed(s1, t1, s2, t2, size, k, Get(t2, size, k))
    ensures Changed(s0, t0, s2, t2, size, k, Get(t2, size, k))
  {
    forall x | x != k ensures View(s1, t1, size, x) == View(s0, t0, size, x) {
      assert x in t1 <==> x in t0;
      if Cached(s0, x) {
        var i: nat :| i < |s0| && Hit(s0[i], x);
        ViewOfSlot(s0, t0, size, i);
        ViewOfSlot(s1, t1, size, i);
      }
    }
  }

  lemma SameChanged(s0: seq<Slot>, t0: Store, s1: seq<Slot>, t1: Store, s2: seq<Slot>, t2: Store, size: nat, k: Key)
    requires SameView(s0, t0, s1, t1, size)
    ensures forall d {:trigger Changed(s1, t1, s2, t2, size, k, d)} ::
      Changed(s1, t1, s2, t2, size, k, d) ==> Changed(s0, t0, s2, t2, size, k, d)
  {
    hide View;
  }

  lemma WholeSpliced(d: seq<byte>, piece: seq<byte>)
    requires |d| == |piece|
    ensures Spliced(d, 0, piece) == piece
  {}

  /** A failed write past the cache leaves the file as it was exactly if the cache held nothing newer of the chunk. */
  lemma FailedWholeKeptIff(slots: seq<Slot>, store: Store, slots': seq<Slot>, store': Store, size: nat, k: Key)
    requires Unique(slots) && Coherent(slots, store, size)
    requires Changed(slots, store, slots', store', size, k, Get(store, size, k))
    ensures SameView(slots, store, slots', store', size) <==>
            forall i :: 0 <= i < |slots| && Hit(slots[i], k) && slots[i].dirty ==> slots[i].data == Get(store, size, k)
  {
    if i: nat :| i < |slots| && Hit(slots[i], k) {
      ViewOfSlot(slots, store, size, i);
      SameAtIf(slots, store, slots', store', size, k);
    }
    if View(slots, store, size, k) == Get(store, size, k) {
      ChangedToSame(slots, store, slots', store', size, k);
    } else {
      assert View(slots', store', size, k) != View(slots, store, size, k);
    }
  }

  /** The simplest case: one slot with a byte that was never written, the write past it fails. */
  lemma FailedWholeLoses()
    ensures var slots, slots' := [Slot(true, Key(1, 1), [7], 1, true, 1)], [Slot(false, Key(1, 1), [7], 1, true, 1)];
            Changed(slots, map[], slots', map[], 1, Key(1, 1), Get(map[], 1, Key(1, 1)))
              && !SameView(slots, map[], slots', map[], 1)
  {
    var slots, slots' := [Slot(true, Key(1, 1), [7], 1, true, 1)], [Slot(false, Key(1, 1), [7], 1, true, 1)];
    Dropped(slots, map[], map[], 1, 0, slots'[0]);
    assert slots[0 := slots'[0]] == slots';
    ViewOfSlot(slots, map[], 1, 0);
    assert View(slots', map[], 1, Key(1, 1)) == Zeros(1) && Zeros(1)[0] == 0;
  }

  /** Flushing a slot leaves what is seen as it was exactly if the slot is kept, the write succeeds or the flash held
      the data already. */
  lemma FlushKeptIff(slots: seq<Slot>, store: Store, slots': seq<Slot>, store': Store, size: nat, i: nat,
                     discard: bool, r: int)
    requires Unique(slots) && i < |slots| && slots[i].used
    requires store' == AfterWr(store, slots[i].key, Kept(slots[i].data, slots[i].nBytes), r)
    requires Changed(slots, store, slots', store', size, slots[i].key,
        if discard then Get(store', size, slots[i].key) else slots[i].data)
    ensures SameView(slots, store, slots', store', size)
       <==> !discard || r > 0 || Get(store, size, slots[i].key) == slots[i].data
  {
    var k := slots[i].key;
    ViewOfSlot(slots, store, size, i);
    SameAtIf(slots, store, slots', store', size, k);
    if !discard || Get(store', size, k) == slots[i].data {
      ChangedToSame(slots, store, slots', store', size, k);
    }
  }

  /** A result that is not negative is taken for a success. Of what is seen of the chunk that is right exactly if the
      result is not 0, which means that there was no memory for the chunk's tnode, or the flash held the data
      already. */
  lemma AcceptedRightIff(slots: seq<Slot>, store: Store, slots': seq<Slot>, store': Store, size: nat, k: Key,
                         data: seq<byte>, r: int)
    requires Changed(slots, store, slots', store', size, k, if r > 0 then data else Get(store, size, k))
    ensures (r >= 0 ==> View(slots', store', size, k) == data) <==> r != 0 || Get(store, size, k) == data
  {
    hide View;
  }

  /** A byte written to a new file without memory for its tnode: the write counts as done and the file reads as zero. */
  lemma AcceptedButLost()
    ensures Changed([], map[], [], map[], 1, Key(1, 1), Get(map[], 1, Key(1, 1)))
      && View([], map[], 1, Key(1, 1)) != [7]
  {
    assert Zeros(1)[0] == 0;
  }

  /** A discarding flush whose write fails is such a case: the error of the write is not looked at. */
  lemma FailedFlushLoses()
    ensures var slots, slots' := [Slot(true, Key(1, 1), [7], 1, true, 1)], [Slot(false, Key(1, 1), [7], 1, false, 1)];
            var store' := AfterWr(map[], Key(1, 1), Kept([7], 1), -1);
            Changed(slots, map[], slots', store', 1, Key(1, 1), Get(store', 1, Key(1, 1)))
              && !SameView(slots, map[], slots', store', 1)
  {
    var slots, slots' := [Slot(true, Key(1, 1), [7], 1, true, 1)], [Slot(false, Key(1, 1), [7], 1, false, 1)];
    Dropped(slots, map[], map[], 1, 0, slots'[0]);
    assert slots[0 := slots'[0]] == slots';
    ViewOfSlot(slots, map[], 1, 0);
    assert View(slots', map[], 1, Key(1, 1)) == Zeros(1) && Zeros(1)[0] == 0;
  }

  lemma SameAtIf(slots: seq<Slot>, store: Store, slots': seq<Slot>, store': Store, size: nat, k: Key)
    ensures SameView(slots, store, slots', store', size) ==>
      View(slots', store', size, k) == View(slots, store, size, k)
  {}

  lemma NotCached(slots: seq<Slot>, store: Store, size: nat, k: Key)
    requires !Cached(slots, k)
    ensures View(slots, store, size, k) == Get(store, size, k)
  {}

  lemma SameRefl(slots: seq<Slot>, store: Store, size: nat)
    ensures SameView(slots, store, slots, store, size)
  {}

  lemma SameAt(slots: seq<Slot>, store: Store, slots': seq<Slot>, store': Store, size: nat, k: Key)
    requires SameView(slots, store, slots', store', size)
    ensures View(slots', store', size, k) == View(slots, store, size, k)
  {}
}
