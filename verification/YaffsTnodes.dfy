/** The tnode allocator and the chunk map of a file, which is a tree of its tnodes. */
module YaffsTnodes {
  import opened YaffsLeaf
  import opened YaffsTree

  const ALLOCATION_NTNODES: nat := 100
  const MAX_CHUNK_ID: nat := 0x0FFF_FFFF

  /** The free tnodes in list order are threaded through their first pointers. */
  ghost predicate FreeList(mem: Mem, head: nat, free: seq<nat>) {
    && head == (if free == [] then 0 else free[0])
    && (forall i {:trigger free[i]} :: 0 <= i < |free| ==>
         free[i] in mem && |mem[free[i]].internal| == KIDS
           && mem[free[i]].internal[0] == (if i + 1 < |free| then free[i + 1] else 0))
    && (forall i, j :: 0 <= i < j < |free| ==> free[i] != free[j])
  }

  ghost predicate Extends(mem: Mem, mem': Mem) {
    forall p {:trigger p in mem} {:trigger p in mem'} :: p in mem ==> p in mem' && mem'[p] == mem[p]
  }

  class Tnodes {
    const width: nat
    const scarce: bool    // may memory run out?
    var mem: Mem
    var nextAddr: nat     // where the next batch of tnodes will be
    var freeTnodes: nat   // head of the free list
    var nFree: int
    var nCreated: int
    var nTnodes: int
    ghost var free: seq<nat>
    ghost var live: set<nat>

    constructor (width: nat, scarce: bool)
      requires IsWidth(width)
      ensures Valid() && this.width == width && this.scarce == scarce && live == {} && nCreated == 0
    {
      this.scarce := scarce;
      this.width, mem, nextAddr, freeTnodes := width, map[], 1, 0;
      nFree, nCreated, nTnodes, free, live := 0, 0, 0, [], {};
    }

    /** Every tnode created is either free, and then once on the list, or one of `used`. */
    ghost predicate Pool(used: set<nat>)
      reads this`mem, this`nextAddr, this`freeTnodes, this`nFree, this`nCreated, this`free
    {
      && IsWidth(width) && 0 < nextAddr && AllShaped(mem, nextAddr, width) && FreeList(mem, freeTnodes, free)
      && Partition(mem, used, free) && nFree == |free| && nCreated == |free| + |used|
    }

    ghost predicate Valid()
      reads this
    {
      Pool(live) && nTnodes == |live|
    }

    /** Make n more tnodes and thread them before the free list, unless there is no memory. */
    method CreateTnodes(n: nat)
      requires Pool(live) && 0 < n
      modifies this`mem, this`nextAddr, this`freeTnodes, this`nFree, this`nCreated, this`free
      ensures Pool(live) && Extends(old(mem), mem)
      ensures nFree == old(nFree) + n || (scarce && nFree == old(nFree))
    {
      hide Shaped, First, BlankTnode, FreeList, AllShaped, Partition;
      if scarce {
        var haveMemory: bool := *;
        if !haveMemory {
          return;
        }
      }
      var base := nextAddr;
      ghost var mem0, free0 := mem, free;
      Addresses(mem0, base, width);
      var i := 0;
      while i < n
        invariant 0 <= i <= n && base == old(nextAddr)
        invariant forall p {:trigger p in mem} :: p in mem <==> p in mem0 || base <= p < base + i
        invariant Extends(mem0, mem) && Batch(mem, base, i, n, freeTnodes, width)
        modifies this`mem
      {
        ThreadOne(mem0, mem, base, i, n, freeTnodes, width);
        mem := mem[base + i := First(width, if i + 1 < n then base + i + 1 else freeTnodes)];
        i := i + 1;
      }
      free := Run(base, n) + free;
      nextAddr := base + n;
      nFree := nFree + n;
      nCreated := nCreated + n;
      Threaded(mem0, mem, freeTnodes, free0, base, n, width);
      Created(mem0, mem, live, free0, base, n, freeTnodes, width);
      freeTnodes := base;
    }

    /** The first free tnode; 0 if there is none and no memory for more. */
    method AllocRawTnode() returns (tn: nat)
      requires Valid()
      modifies this
      ensures tn == 0 ==> scarce && old(nFree) == 0
      ensures Extends(old(mem), mem) && live == old(live) && nTnodes == old(nTnodes)
      ensures tn == 0 ==> Pool(live)
      ensures tn != 0 ==> tn !in live && Pool(live + {tn})
    {
      hide Shaped, FreeList, AllShaped, Partition;
      NoneFree();
      if freeTnodes == 0 {
        CreateTnodes(ALLOCATION_NTNODES);
      }
      NoneFree();
      tn := 0;
      if freeTnodes != 0 {
        tn := freeTnodes;
        Taken(mem, live, free, freeTnodes, nextAddr, width);
        freeTnodes := mem[freeTnodes].internal[0];
        nFree := nFree - 1;
        free := free[1..];
      }
    }

    /** The list is empty exactly when its head is 0. */
    lemma NoneFree()
      requires Pool(live)
      ensures freeTnodes == 0 <==> nFree == 0
    {
      assert free != [] ==> free[0] in mem;
    }

    /** A zeroed tnode, or 0 when there is none free and no memory. */
    method GetTnode() returns (tn: nat)
      requires Valid()
      modifies this
      ensures tn == 0 ==> scarce && old(nFree) == 0
      ensures Valid() && AgreeOn(old(mem), mem, old(live))
      ensures tn == 0 ==> live == old(live)
      ensures tn != 0 ==> tn !in old(live) && live == old(live) + {tn} && tn in mem && mem[tn] == BlankTnode(width)
    {
      hide Shaped, FreeList, AllShaped, Partition, BlankTnode;
      LiveInMem(mem, live, free);
      tn := AllocRawTnode();
      if tn != 0 {
        BlankShaped(width);
        UsedChanged(mem, live + {tn}, free, freeTnodes, nextAddr, width, tn, BlankTnode(width));
        mem := mem[tn := BlankTnode(width)];
        live := live + {tn};
        nTnodes := nTnodes + 1;
      }
    }

    method FreeTnode(tn: nat)
      requires Valid() && tn in live
      modifies this
      ensures Valid() && live == old(live) - {tn} && AgreeOn(old(mem), mem, live)
    {
      hide Shaped, FreeList, AllShaped, Partition;
      LiveInMem(mem, live, free);
      Freed(mem, live, free, freeTnodes, nextAddr, width, tn);
      mem := mem[tn := mem[tn].(internal := mem[tn].internal[0 := freeTnodes])];
      freeTnodes := tn;
      nFree := nFree + 1;
      nTnodes := nTnodes - 1;
      free := [tn] + free;
      live := live - {tn};
    }

    /** Change a tnode in use. */
    method SetTnode(tn: nat, node: Tnode)
      requires Valid() && tn in live && Shaped(node, width)
      modifies this`mem
      ensures Valid() && mem == old(mem)[tn := node]
    {
      hide Shaped, FreeList, AllShaped, Partition;
      UsedChanged(mem, live, free, freeTnodes, nextAddr, width, tn, node);
      mem := mem[tn := node];
    }

    lemma LiveShaped()
      requires Valid()
      ensures IsWidth(width)
        && forall p {:trigger p in live} :: p in live ==> p in mem && p > 0 && Shaped(mem[p], width)
    {}
  }

  /** The two memories agree on these tnodes. */
  ghost predicate AgreeOn(mem: Mem, mem': Mem, s: set<nat>) {
    forall p {:trigger p in mem'} {:trigger p in mem} {:trigger p in s} ::
      p in s ==> p in mem && p in mem' && mem'[p] == mem[p]
  }

  ghost predicate AllShaped(mem: Mem, nextAddr: nat, width: nat) {
    forall p {:trigger p in mem} :: p in mem ==> 0 < p < nextAddr && Shaped(mem[p], width)
  }

  ghost predicate Partition(mem: Mem, used: set<nat>, free: seq<nat>) {
    && (forall p {:trigger p in mem} {:trigger p in used} {:trigger p in free} :: p in mem <==> p in used || p in free)
    && (forall p {:trigger p in used} {:trigger p in free} :: p in used ==> p !in free)
  }

  lemma LiveInMem(mem: Mem, used: set<nat>, free: seq<nat>)
    requires Partition(mem, used, free)
    ensures forall p :: p in used ==> p in mem
  {}

  lemma Addresses(mem: Mem, nextAddr: nat, width: nat)
    requires AllShaped(mem, nextAddr, width)
    ensures forall p :: p in mem ==> p < nextAddr
  {}

  lemma ThreadOne(mem0: Mem, mem: Mem, base: nat, i: nat, n: nat, head: nat, width: nat)
    requires IsWidth(width) && i < n && Extends(mem0, mem) && Batch(mem, base, i, n, head, width)
    requires forall p :: p in mem0 ==> p < base
    ensures var mem' := mem[base + i := First(width, if i + 1 < n then base + i + 1 else head)];
            Extends(mem0, mem') && Batch(mem', base, i + 1, n, head, width)
  {
    hide Shaped, First;
    ShapedFirst(width, if i + 1 < n then base + i + 1 else head);
    HasKids(First(width, if i + 1 < n then base + i + 1 else head), width);
  }

  lemma Created(mem0: Mem, mem: Mem, used: set<nat>, free0: seq<nat>, base: nat, n: nat, head: nat, width: nat)
    requires AllShaped(mem0, base, width) && 0 < base && Partition(mem0, used, free0) && Extends(mem0, mem)
      && Batch(mem, base, n, n, head, width)
    requires forall p {:trigger p in mem} :: p in mem <==> p in mem0 || base <= p < base + n
    requires forall p {:trigger p in free0} :: p in Run(base, n) + free0 <==> p in free0 || base <= p < base + n
    ensures AllShaped(mem, base + n, width) && Partition(mem, used, Run(base, n) + free0)
  {
    hide Shaped, Run;
    forall p | p in mem ensures 0 < p < base + n && Shaped(mem[p], width) {
      if p in mem0 {
        assert mem[p] == mem0[p];
      }
    }
  }

  lemma Taken(mem: Mem, used: set<nat>, free: seq<nat>, head: nat, nextAddr: nat, width: nat)
    requires FreeList(mem, head, free) && Partition(mem, used, free) && head != 0 && AllShaped(mem, nextAddr, width)
    ensures free != [] && head in mem && |mem[head].internal| == KIDS && head !in used
    ensures FreeList(mem, mem[head].internal[0], free[1..]) && Partition(mem, used + {head}, free[1..])
      && |used + {head}| == |used| + 1
  {
    hide Shaped, AllShaped, Partition, FreeList;
    TakenList(mem, head, free);
    TakenPartition(mem, used, free);
  }

  lemma TakenList(mem: Mem, head: nat, free: seq<nat>)
    requires FreeList(mem, head, free) && head != 0
    ensures free != [] && free[0] == head && head in mem && |mem[head].internal| == KIDS && head !in free[1..]
    ensures FreeList(mem, mem[head].internal[0], free[1..])
  {
    var rest := free[1..];
    assert forall i :: 0 <= i < |rest| ==> rest[i] == free[i + 1];
  }

  lemma Tail(s: seq<nat>)
    requires s != []
    ensures forall p {:trigger p in s} {:trigger p in s[1..]} :: p in s <==> p == s[0] || p in s[1..]
  {
    assert s == [s[0]] + s[1..];
  }

  lemma TakenPartition(mem: Mem, used: set<nat>, free: seq<nat>)
    requires Partition(mem, used, free) && free != [] && free[0] !in free[1..]
    ensures free[0] !in used && Partition(mem, used + {free[0]}, free[1..])
  {
    Tail(free);
    var rest, head := free[1..], free[0];
    assert head in free;
    forall p ensures p in mem <==> p in used + {head} || p in rest {
      assert p in mem <==> p in used || p in free;
    }
    forall p | p in used + {head} ensures p !in rest {
      assert p in used ==> p !in free;
    }
  }

  lemma UsedChanged(mem: Mem, used: set<nat>, free: seq<nat>, head: nat, nextAddr: nat, width: nat, tn: nat,
                    node: Tnode)
    requires FreeList(mem, head, free) && Partition(mem, used, free) && AllShaped(mem, nextAddr, width) && tn in used
      && Shaped(node, width)
    ensures tn in mem && FreeList(mem[tn := node], head, free) && Partition(mem[tn := node], used, free)
      && AllShaped(mem[tn := node], nextAddr, width)
  {
    hide *;
    PartitionSame(mem, used, free, tn, node);
    FreeListSame(mem, free, head, tn, node);
    ShapedSame(mem, nextAddr, width, tn, node);
  }

  lemma PartitionSame(mem: Mem, used: set<nat>, free: seq<nat>, tn: nat, node: Tnode)
    requires Partition(mem, used, free) && tn in used
    ensures tn in mem && tn !in free && Partition(mem[tn := node], used, free)
  {}

  lemma FreeListSame(mem: Mem, free: seq<nat>, head: nat, tn: nat, node: Tnode)
    requires FreeList(mem, head, free) && tn !in free
    ensures FreeList(mem[tn := node], head, free)
  {
    forall i | 0 <= i < |free| ensures free[i] != tn {
      assert free[i] in free;
    }
  }

  lemma ShapedSame(mem: Mem, nextAddr: nat, width: nat, tn: nat, node: Tnode)
    requires AllShaped(mem, nextAddr, width) && tn in mem && Shaped(node, width)
    ensures AllShaped(mem[tn := node], nextAddr, width)
  {
    hide Shaped;
  }

  lemma Freed(mem: Mem, used: set<nat>, free: seq<nat>, head: nat, nextAddr: nat, width: nat, tn: nat)
    requires FreeList(mem, head, free) && Partition(mem, used, free) && AllShaped(mem, nextAddr, width) && tn in used
    ensures tn in mem && |mem[tn].internal| == KIDS && tn != 0
    ensures var mem' := mem[tn := mem[tn].(internal := mem[tn].internal[0 := head])];
            FreeList(mem', tn, [tn] + free) && Partition(mem', used - {tn}, [tn] + free)
              && AllShaped(mem', nextAddr, width)
  {
    assert tn in mem;
    HasKids(mem[tn], width);
    var node := mem[tn].(internal := mem[tn].internal[0 := head]);
    assert Shaped(node, width);
    UsedChanged(mem, used, free, head, nextAddr, width, tn, node);
    var mem', free' := mem[tn := node], [tn] + free;
    hide Shaped, AllShaped;
    forall i | 0 <= i < |free'|
      ensures free'[i] in mem' && |mem'[free'[i]].internal| == KIDS
        && mem'[free'[i]].internal[0] == (if i + 1 < |free'| then free'[i + 1] else 0)
    {
      if i > 0 {
        assert free'[i] == free[i - 1] && free[i - 1] in free;
      }
    }
    forall i, j | 0 <= i < j < |free'| ensures free'[i] != free'[j] {
      assert free'[j] in free;
    }
  }

  lemma BlankShaped(width: nat)
    requires IsWidth(width)
    ensures Shaped(BlankTnode(width), width)
  {}

  /** A tnode on its way to the free list: only its first pointer matters. */
  function First(width: nat, q: nat): Tnode {
    BlankTnode(width).(internal := BlankTnode(width).internal[0 := q])
  }

  lemma ShapedFirst(width: nat, q: nat)
    requires IsWidth(width)
    ensures Shaped(First(width, q), width) && First(width, q).internal[0] == q
  {}

  function Run(base: nat, n: nat): (r: seq<nat>)
    ensures |r| == n && forall j :: 0 <= j < n ==> r[j] == base + j
  {
    seq(n, j requires 0 <= j < n => base + j)
  }

  /** The first i tnodes of a batch of n are threaded; the last of the batch points to head. */
  ghost predicate Batch(mem: Mem, base: nat, i: nat, n: nat, head: nat, width: nat) {
    forall p {:trigger mem[p]} :: base <= p < base + i ==>
      p in mem && Shaped(mem[p], width) && mem[p].internal[0] == if p + 1 < base + n then p + 1 else head
  }

  lemma Threaded(mem0: Mem, mem: Mem, head: nat, free0: seq<nat>, base: nat, n: nat, width: nat)
    requires FreeList(mem0, head, free0) && 0 < n && Batch(mem, base, n, n, head, width) && Extends(mem0, mem)
    requires forall p :: p in mem0 ==> p < base
    ensures FreeList(mem, base, Run(base, n) + free0)
    ensures forall p :: p in Run(base, n) + free0 <==> p in free0 || base <= p < base + n
  {
    hide Shaped;
    var run := Run(base, n);
    var free := run + free0;
    forall i | 0 <= i < |free|
      ensures free[i] in mem && |mem[free[i]].internal| == KIDS
        && mem[free[i]].internal[0] == (if i + 1 < |free| then free[i + 1] else 0)
    {
      if i < n {
        assert free[i] == base + i;
        HasKids(mem[base + i], width);
        assert i + 1 < n ==> free[i + 1] == base + i + 1;
        assert i + 1 == n && free0 != [] ==> free[i + 1] == free0[0];
      } else {
        assert free[i] == free0[i - n];
        assert free0[i - n] in mem0;
        assert i + 1 < |free| ==> free[i + 1] == free0[i + 1 - n];
      }
    }
    forall i, j | 0 <= i < j < |free| ensures free[i] != free[j] {
      if i < n <= j {
        assert free0[j - n] in mem0;
      }
    }
    forall p ensures p in free <==> p in free0 || base <= p < base + n {
      if base <= p < base + n {
        assert run[p - base] == p;
      }
    }
  }

  lemma HasKids(tn: Tnode, width: nat)
    requires Shaped(tn, width)
    ensures |tn.internal| == KIDS
  {}
}
