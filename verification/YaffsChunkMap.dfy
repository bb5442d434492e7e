/** The chunk map of a file: lookups, insertions and pruning against a map from chunk numbers to flash chunks. */
module YaffsChunkMap {
  import opened YaffsLeaf
  import opened YaffsTree
  import opened YaffsTnodes

  lemma {:induction false} AboveMono(id: nat, l: nat, m: nat)
    requires l <= m && Above(id, l) == 0
    ensures Above(id, m) == 0
    decreases m
  {
    if l < m {
      AboveMono(id, l, m - 1);
    }
  }

  lemma AboveMax(id: nat)
    ensures id <= MAX_CHUNK_ID <==> Above(id, MAX_LEVEL) == 0
  {
    var a0 := Above(id, 0);
    var a1 := Above(id, 1);
    assert a1 == a0 / 8 && a1 == id / 0x80;
    var a2 := Above(id, 2);
    assert a2 == a1 / 8 && a2 == id / 0x400;
    var a3 := Above(id, 3);
    assert a3 == a2 / 8 && a3 == id / 0x2000;
    var a4 := Above(id, 4);
    assert a4 == a3 / 8 && a4 == id / 0x1_0000;
    var a5 := Above(id, 5);
    assert a5 == a4 / 8 && a5 == id / 0x8_0000;
    var a6 := Above(id, 6);
    assert a6 == a5 / 8 && a6 == id / 0x40_0000;
    var a7 := Above(id, 7);
    assert a7 == a6 / 8 && a7 == id / 0x200_0000;
    assert Above(id, 8) == a7 / 8 && a7 / 8 == id / 0x1000_0000;
  }

  /** One level further down the path of a chunk number. */
  lemma {:induction false} AtStep(mem: Mem, p: nat, level: nat, id: nat, l: nat)
    requires 0 < l <= level
    ensures At(mem, p, level, id, l) == 0 ==> At(mem, p, level, id, l - 1) == 0
    ensures At(mem, p, level, id, l) != 0 ==>
      At(mem, p, level, id, l - 1) == Kid(mem, At(mem, p, level, id, l), Digit(id, l))
    decreases level
  {
    hide Above;
    if level > l && p != 0 {
      AtStep(mem, Kid(mem, p, Digit(id, level)), level - 1, id, l);
    }
  }

  lemma {:induction false} AtZero(mem: Mem, p: nat, level: nat, id: nat, l: nat)
    requires l <= level && At(mem, p, level, id, l) == 0
    ensures At(mem, p, level, id, 0) == 0
    decreases l
  {
    hide Above;
    if l > 0 {
      AtStep(mem, p, level, id, l);
      AtZero(mem, p, level, id, l - 1);
    }
  }

  /** What a chunk number is mapped to is in the leaf it leads to. */
  lemma {:induction false} LookupAt(mem: Mem, p: nat, level: nat, width: nat, id: nat)
    requires Tree(mem, p, level, width)
    ensures var q := At(mem, p, level, id, 0);
            if q == 0 then Lookup(mem, p, level, width, id) == 0
            else && q in mem && IsLeaf(mem[q].words, width)
                 && Lookup(mem, p, level, width, id) == Entry(mem[q].words, width, id % 16)
    decreases level
  {
    hide Above, Nodes;
    if p != 0 && level > 0 {
      KidTree(mem, p, level, width, Digit(id, level));
      LookupAt(mem, Kid(mem, p, Digit(id, level)), level - 1, width, id);
    }
  }

  /** What a tree of this height maps a chunk number to: numbers beyond its reach to nothing. */
  ghost function MapOf(mem: Mem, top: nat, level: nat, width: nat, id: nat): nat {
    if Above(id, level) != 0 then 0 else Lookup(mem, top, level, width, id)
  }

  class ChunkMap {
    const dev: Tnodes
    var top: nat
    var topLevel: nat
    var nDataChunks: int

    /** A new file starts with one empty leaf. */
    constructor (dev: Tnodes, top: nat)
      requires dev.Valid() && top in dev.live && top != 0 && top in dev.mem && dev.mem[top] == BlankTnode(dev.width)
      ensures Valid() && this.dev == dev && Own() == {top} && forall id: nat :: Map(id) == 0
    {
      this.dev, this.top, topLevel, nDataChunks := dev, top, 0, 0;
      new;
      forall id: nat ensures Map(id) == 0 {
        BlankTree(dev.mem, top, 0, dev.width, id);
      }
      assert Mapped() == {};
    }

    /** The tnodes of the file. */
    ghost function Own(): set<nat>
      reads this`top, this`topLevel, dev`mem
    {
      Nodes(dev.mem, top, topLevel)
    }

    /** The flash chunk a chunk of the file is in, 0 if it has none. */
    ghost function Map(id: nat): nat
      reads this`top, this`topLevel, dev`mem
    {
      MapOf(dev.mem, top, topLevel, dev.width, id)
    }

    ghost function Mapped(): set<nat>
      reads this`top, this`topLevel, dev`mem
    {
      set id: nat | id <= MAX_CHUNK_ID && Map(id) != 0
    }

    ghost predicate Sound()
      reads this`top, this`topLevel, dev
    {
      && dev.Valid() && topLevel <= MAX_LEVEL && Own() <= dev.live
      && Tree(dev.mem, top, topLevel, dev.width) && Spine(dev.mem, top, topLevel)
    }

    ghost predicate Valid()
      reads this, dev
    {
      Sound() && nDataChunks == |Mapped()|
    }

    /** Only the file's own tnodes have changed, and every tnode it has given up is free again. */
    ghost predicate Confined(was: Mem, wasLive: set<nat>, wasOwn: set<nat>)
      reads this`top, this`topLevel, dev`mem, dev`live
    {
      && dev.live == (wasLive - wasOwn) + Own() && Own() !! (wasLive - wasOwn)
      && AgreeOn(was, dev.mem, wasLive - wasOwn)
    }

    /** How tall a tree must be to reach a chunk number. */
    method RequiredDepth(id: nat) returns (depth: nat)
      ensures Above(id, depth) == 0 && (depth > 0 ==> Above(id, depth - 1) != 0)
    {
      var x := id / 16;
      depth := 0;
      while x != 0
        invariant x == Above(id, depth) && (depth > 0 ==> Above(id, depth - 1) != 0)
        decreases x
      {
        x := x / 8;
        depth := depth + 1;
      }
    }

    lemma Reach(id: nat, depth: nat)
      requires Above(id, depth) == 0 && (depth > 0 ==> Above(id, depth - 1) != 0)
      ensures depth <= topLevel <==> Above(id, topLevel) == 0
    {
      if depth <= topLevel {
        AboveMono(id, depth, topLevel);
      } else if Above(id, topLevel) == 0 {
        AboveMono(id, topLevel, depth - 1);
      }
    }

    /** yaffs_find_tnode_0: the leaf of a chunk number, 0 if there is none. */
    method FindTnode0(id: nat) returns (tn: nat)
      requires Sound()
      ensures tn == if Above(id, topLevel) != 0 then 0 else At(dev.mem, top, topLevel, id, 0)
    {
      hide Above, Digit, Spine, Nodes, Tree, Tnodes.Valid, Shaped;
      tn := top;
      var level: nat := topLevel;
      AboveMax(id);
      if id > MAX_CHUNK_ID {
        TooHigh(id);
        return 0;
      }
      var requiredDepth := RequiredDepth(id);
      Reach(id, requiredDepth);
      if requiredDepth > topLevel {
        return 0;
      }
      while level > 0 && tn != 0
        invariant level <= topLevel && tn == At(dev.mem, top, topLevel, id, level)
      {
        AtStep(dev.mem, top, topLevel, id, level);
        AtInside(dev.mem, top, topLevel, dev.width, id, level);
        HasKids(dev.mem[tn], dev.width);
        tn := dev.mem[tn].internal[Digit(id, level)];
        level := level - 1;
      }
      if level > 0 {
        AtZero(dev.mem, top, topLevel, id, level);
      }
    }

    lemma TooHigh(id: nat)
      requires Above(id, MAX_LEVEL) != 0 && topLevel <= MAX_LEVEL
      ensures Above(id, topLevel) != 0
    {
      if Above(id, topLevel) == 0 {
        AboveMono(id, topLevel, MAX_LEVEL);
      }
    }

    /** yaffs_find_chunk_in_file, for chunk groups of one chunk: the chunk, unless its bit says that it is not in
        use. */
    method FindChunk(id: nat, inUse: set<nat>) returns (chunk: int)
      requires Sound()
      ensures chunk == if Map(id) != 0 && Map(id) in inUse then Map(id) else -1
    {
      hide Above, Spine, Nodes, Tree;
      LookupAt(dev.mem, top, topLevel, dev.width, id);
      var tn := FindTnode0(id);
      if tn == 0 {
        return -1;
      }
      chunk := GetGroupBase(dev.mem[tn].words, dev.width, id);
      chunk := if chunk != 0 && chunk in inUse then chunk else -1;
    }

    /** Nothing of the file's has changed. */
    lemma Carried(mem0: Mem, live0: set<nat>)
      requires dev.Valid() && topLevel <= MAX_LEVEL && Tree(mem0, top, topLevel, dev.width)
        && Spine(mem0, top, topLevel)
      requires Nodes(mem0, top, topLevel) <= live0 && AgreeOn(mem0, dev.mem, live0) && dev.live == live0
      ensures Sound() && Own() == Nodes(mem0, top, topLevel)
        && forall id: nat :: Map(id) == MapOf(mem0, top, topLevel, dev.width, id)
    {
      hide Above, Nodes, Tree, Lookup, Spine;
      AgreesOnOwn(mem0, dev.mem, live0, Nodes(mem0, top, topLevel));
      Frame(mem0, dev.mem, top, topLevel, dev.width);
      SpineAgrees(mem0, dev.mem, top, topLevel);
      forall id: nat ensures Map(id) == MapOf(mem0, top, topLevel, dev.width, id) {
        FrameLookup(mem0, dev.mem, top, topLevel, dev.width, id);
      }
    }

    /** Make the tree one level taller. */
    method GrowOnce() returns (ok: bool)
      requires Sound() && topLevel < MAX_LEVEL
      modifies this`top, this`topLevel, dev
      ensures !ok ==> dev.scarce
      ensures Sound() && topLevel == old(topLevel) + (if ok then 1 else 0)
      ensures Confined(old(dev.mem), old(dev.live), old(Own())) && forall id: nat :: Map(id) == old(Map(id))
    {
      hide Above, Digit, Nodes, Tree, Lookup, Spine, Tnodes.Valid, BlankTnode, MapOf, Shaped;
      ghost var mem0, live0, own0, top0, level0 := dev.mem, dev.live, Own(), top, topLevel;
      var tn := dev.GetTnode();
      ok := tn != 0;
      if tn == 0 {
        Carried(mem0, live0);
        return;
      }
      AgreesOnOwn(mem0, dev.mem, live0, own0);
      dev.LiveShaped();
      BlankKids(dev.width);
      FirstShaped(dev.width, top);
      dev.SetTnode(tn, dev.mem[tn].(internal := dev.mem[tn].internal[0 := top]));
      top := tn;
      topLevel := topLevel + 1;
      Grow(mem0, dev.mem, top0, level0, dev.width, tn);
      GrowSpine(mem0, dev.mem, top0, level0, tn);
      forall id: nat ensures Map(id) == MapOf(mem0, top0, level0, dev.width, id) {
        GrowMap(mem0, dev.mem, top0, level0, dev.width, tn, id);
      }
    }

    /** Under an internal tnode on the path of a chunk number, have the next one. */
    method DescendOnce(id: nat, tn: nat, l: nat) returns (ok: bool)
      requires Sound() && 0 < l <= topLevel && tn == At(dev.mem, top, topLevel, id, l) != 0
      modifies dev
      ensures !ok ==> dev.scarce
      ensures Sound() && Confined(old(dev.mem), old(dev.live), old(Own())) && forall j: nat :: Map(j) == old(Map(j))
      ensures ok ==>
        tn in dev.mem && At(dev.mem, top, topLevel, id, l) == tn
        && At(dev.mem, top, topLevel, id, l - 1) == Kid(dev.mem, tn, Digit(id, l)) != 0
    {
      hide Above, Digit, Nodes, Tree, Lookup, Spine, Tnodes.Valid, BlankTnode, MapOf, Shaped;
      ghost var mem0, live0, own0 := dev.mem, dev.live, Own();
      AtInside(dev.mem, top, topLevel, dev.width, id, l);
      dev.LiveShaped();
      HasKids(dev.mem[tn], dev.width);
      var x := Digit(id, l);
      ok := true;
      AtStep(dev.mem, top, topLevel, id, l);
      if dev.mem[tn].internal[x] == 0 {
        var n := dev.GetTnode();
        if n == 0 {
          Carried(mem0, live0);
          return false;
        }
        AgreesOnOwn(mem0, dev.mem, live0, own0);
        assert tn in own0;
        dev.LiveShaped();
        KidShaped(dev.mem[tn], dev.width, x, n);
        dev.SetTnode(tn, dev.mem[tn].(internal := dev.mem[tn].internal[x := n]));
        HookedAgrees(mem0, dev.mem, own0, tn);
        AddKid(mem0, dev.mem, top, topLevel, dev.width, id, l, n);
        HookedSpine(mem0, dev.mem, top, topLevel, tn, x, n);
        forall j: nat ensures Map(j) == MapOf(mem0, top, topLevel, dev.width, j) {
          SameMap(mem0, dev.mem, top, topLevel, dev.width, j);
        }
        AtStep(dev.mem, top, topLevel, id, l);
      } else {
        Carried(mem0, live0);
      }
    }

    /** yaffs_add_find_tnode_0: the leaf of a chunk number, made if need be; 0 if there is no memory for it. No entry
        changes, even if it fails half-way. */
    method AddFindTnode0(id: nat) returns (tn: nat)
      requires Sound()
      modifies this`top, this`topLevel, dev
      ensures Sound() && Confined(old(dev.mem), old(dev.live), old(Own())) && forall j: nat :: Map(j) == old(Map(j))
      ensures tn != 0 ==> id <= MAX_CHUNK_ID && Above(id, topLevel) == 0 && tn == At(dev.mem, top, topLevel, id, 0)
      ensures tn == 0 ==> id > MAX_CHUNK_ID || dev.scarce
    {
      hide Above, Digit, Nodes, Tree, Lookup, Spine, Tnodes.Valid, BlankTnode, MapOf, AgreeOn;
      ghost var mem0, live0, own0 := dev.mem, dev.live, Own();
      ConfinedRefl();
      AboveMax(id);
      if id > MAX_CHUNK_ID {
        return 0;
      }
      var requiredDepth := RequiredDepth(id);
      if requiredDepth > MAX_LEVEL {
        DepthFits(id, requiredDepth);
      }
      while topLevel < requiredDepth
        invariant Sound() && Confined(mem0, live0, own0) && forall j: nat :: Map(j) == old(Map(j))
        decreases requiredDepth - topLevel
      {
        ghost var mem1, live1, own1 := dev.mem, dev.live, Own();
        var ok := GrowOnce();
        ConfinedTrans(mem0, live0, own0, mem1, live1, own1);
        if !ok {
          return 0;
        }
      }
      Reach(id, requiredDepth);
      var l: nat := topLevel;
      tn := top;
      SpineTop();
      while l > 0
        invariant Sound() && Confined(mem0, live0, own0) && forall j: nat :: Map(j) == old(Map(j))
        invariant l <= topLevel && Above(id, topLevel) == 0 && tn == At(dev.mem, top, topLevel, id, l) != 0
      {
        ghost var mem1, live1, own1 := dev.mem, dev.live, Own();
        var ok := DescendOnce(id, tn, l);
        ConfinedTrans(mem0, live0, own0, mem1, live1, own1);
        if !ok {
          return 0;
        }
        AtInside(dev.mem, top, topLevel, dev.width, id, l);
        tn := dev.mem[tn].internal[Digit(id, l)];
        l := l - 1;
      }
    }

    lemma DepthFits(id: nat, depth: nat)
      requires Above(id, MAX_LEVEL) == 0 && depth > 0 && Above(id, depth - 1) != 0
      ensures depth <= MAX_LEVEL
    {
      if depth > MAX_LEVEL {
        AboveMono(id, MAX_LEVEL, depth - 1);
      }
    }

    lemma SpineTop()
      requires Sound()
      ensures top != 0
    {}

    lemma ConfinedRefl()
      requires Sound()
      ensures Confined(dev.mem, dev.live, Own())
    {
      dev.LiveShaped();
    }

    lemma ConfinedTrans(mem0: Mem, live0: set<nat>, own0: set<nat>, mem1: Mem, live1: set<nat>, own1: set<nat>)
      requires live1 == (live0 - own0) + own1 && own1 !! (live0 - own0) && AgreeOn(mem0, mem1, live0 - own0)
      requires Confined(mem1, live1, own1)
      ensures Confined(mem0, live0, own0)
    {
      assert live1 - own1 == live0 - own0;
    }

    /** Store an entry in the leaf a chunk number leads to. */
    method StoreEntry(id: nat, tn: nat, val: nat)
      requires Sound() && Above(id, topLevel) == 0 && tn == At(dev.mem, top, topLevel, id, 0) != 0
        && val < Pow2(dev.width)
      modifies dev`mem
      ensures Sound() && Own() == old(Own()) && AgreeOn(old(dev.mem), dev.mem, dev.live - Own())
      ensures forall j: nat :: Map(j) == if j == id then val else old(Map(j))
    {
      hide Above, Digit, Nodes, Tree, Lookup, Spine, Tnodes.Valid, MapOf, Shaped, IsLeaf;
      ghost var mem0, own0 := dev.mem, Own();
      AtInside(dev.mem, top, topLevel, dev.width, id, 0);
      dev.LiveShaped();
      LeafOf(dev.mem[tn], dev.width);
      var w := LoadTnode0(dev.mem[tn].words, dev.width, id, val);
      WordsShaped(dev.mem[tn], dev.width, w);
      dev.SetTnode(tn, dev.mem[tn].(words := w));
      StoredEntry(mem0[tn].words, w, dev.width, id % ENTRIES, val);
      HookedAgrees(mem0, dev.mem, own0, tn);
      SetLeaf(mem0, dev.mem, top, topLevel, dev.width, id, w);
      StoredSpine(mem0, dev.mem, top, topLevel, tn);
      forall j: nat ensures Map(j) == if j == id then val else MapOf(mem0, top, topLevel, dev.width, j) {
        StoredMap(mem0, dev.mem, top, topLevel, dev.width, id, w, val, j);
      }
    }

    /** yaffs_put_chunk_in_file outside scanning. The new value is found afterwards, everything else is as before, and
        n_data_chunks still counts the chunks mapped. */
    method PutChunk(id: nat, chunk: nat) returns (ok: bool)
      requires Valid() && chunk < Pow2(dev.width)
      modifies this, dev
      ensures Valid() && Confined(old(dev.mem), old(dev.live), old(Own()))
      ensures forall j: nat :: Map(j) == if ok && chunk != 0 && j == id then chunk else old(Map(j))
      ensures (ok ==> id <= MAX_CHUNK_ID) && (!ok ==> id > MAX_CHUNK_ID || dev.scarce)
    {
      hide Above, Digit, Nodes, Tree, Lookup, Spine, Tnodes.Valid, MapOf, AgreeOn;
      ghost var mem0, live0, own0, mapped0 := dev.mem, dev.live, Own(), Mapped();
      ok := true;
      var tn := AddFindTnode0(id);
      if tn == 0 || chunk == 0 {
        assert Mapped() == mapped0;
        return tn != 0;
      }
      AboveMax(id);
      LowEnough(id);
      AtInside(dev.mem, top, topLevel, dev.width, id, 0);
      LookupAt(dev.mem, top, topLevel, dev.width, id);
      var existing := GetGroupBase(dev.mem[tn].words, dev.width, id);
      assert existing == Map(id) by {
        EntryIsMap(id, tn);
      }
      if existing == 0 {
        nDataChunks := nDataChunks + 1;
      }
      ghost var mem1, live1, own1 := dev.mem, dev.live, Own();
      StoreEntry(id, tn, chunk);
      StoredConfined(mem1);
      ConfinedTrans(mem0, live0, own0, mem1, live1, own1);
      assert Mapped() == mapped0 + {id};
    }

    lemma LowEnough(id: nat)
      requires Sound() && Above(id, topLevel) == 0
      ensures Above(id, MAX_LEVEL) == 0
    {
      AboveMono(id, topLevel, MAX_LEVEL);
    }

    lemma EntryIsMap(id: nat, tn: nat)
      requires Sound() && Above(id, topLevel) == 0 && tn == At(dev.mem, top, topLevel, id, 0) != 0
      ensures tn in dev.mem && IsLeaf(dev.mem[tn].words, dev.width)
        && Map(id) == Entry(dev.mem[tn].words, dev.width, id % ENTRIES)
    {
      LookupAt(dev.mem, top, topLevel, dev.width, id);
    }

    lemma StoredConfined(mem1: Mem)
      requires AgreeOn(mem1, dev.mem, dev.live - Own()) && Own() <= dev.live
      ensures Confined(mem1, dev.live, Own())
    {
      assert (dev.live - Own()) + Own() == dev.live;
    }

    /** yaffs_find_del_file_chunk: take an entry out; the caller deletes the chunk and counts it. */
    method FindDelChunk(id: nat, inUse: set<nat>) returns (chunk: int)
      requires Valid()
      modifies this`nDataChunks, dev`mem
      ensures Valid() && Own() == old(Own()) && dev.live == old(dev.live)
        && AgreeOn(old(dev.mem), dev.mem, dev.live - Own())
      ensures chunk == if old(Map(id)) != 0 && old(Map(id)) in inUse then old(Map(id)) else -1
      ensures forall j: nat :: Map(j) == if j == id && chunk != -1 then 0 else old(Map(j))
    {
      hide Above, Digit, Nodes, Tree, Lookup, Spine, Tnodes.Valid, MapOf;
      ghost var mapped0 := Mapped();
      dev.LiveShaped();
      var tn := FindTnode0(id);
      chunk := FindChunk(id, inUse);
      if chunk != -1 {
        MapReached(id);
        PowPositive(dev.width);
        AboveMax(id);
        LowEnough(id);
        StoreEntry(id, tn, 0);
        nDataChunks := nDataChunks - 1;
        assert Mapped() == mapped0 - {id};
      }
    }

    lemma MapReached(id: nat)
      requires Sound() && Map(id) != 0
      ensures Above(id, topLevel) == 0 && At(dev.mem, top, topLevel, id, 0) != 0
    {
      LookupAt(dev.mem, top, topLevel, dev.width, id);
    }
  }

  lemma {:induction false} PowPositive(n: nat)
    ensures Pow2(n) > 0
  {
    if n > 0 {
      PowPositive(n - 1);
    }
  }

  lemma LeafOf(tn: Tnode, width: nat)
    requires Shaped(tn, width)
    ensures IsLeaf(tn.words, width)
  {}

  lemma WordsShaped(tn: Tnode, width: nat, w: seq<Word>)
    requires Shaped(tn, width) && IsLeaf(w, width)
    ensures Shaped(tn.(words := w), width)
  {}

  lemma StoredSpine(mem0: Mem, mem: Mem, p: nat, level: nat, q: nat)
    requires Spine(mem0, p, level) && Agree(mem0, mem, Nodes(mem0, p, level) - {q}) && q in mem0 && q in mem
      && mem[q].internal == mem0[q].internal
    ensures Spine(mem, p, level)
  {
    hide Nodes;
    forall r | r in Nodes(mem0, p, level) && Kid(mem0, r, 0) != 0 ensures Kid(mem, r, 0) == Kid(mem0, r, 0) {
      if r != q {
        assert r in Nodes(mem0, p, level) - {q};
      }
    }
    SpineKept(mem0, mem, p, level);
  }

  lemma StoredMap(mem0: Mem, mem: Mem, top: nat, level: nat, width: nat, id: nat, w: seq<Word>, val: nat, j: nat)
    requires Tree(mem0, top, level, width) && Above(id, level) == 0 && IsLeaf(w, width)
    requires var q := At(mem0, top, level, id, 0);
             && q != 0 && q in mem0 && IsLeaf(mem0[q].words, width)
             && forall e: nat ::
               e < ENTRIES ==> Entry(w, width, e) == if e == id % 16 then val else Entry(mem0[q].words, width, e)
    requires Above(j, level) == Above(id, level) ==>
      Lookup(mem, top, level, width, j) == if j / 16 == id / 16 then Entry(w, width, j % 16)
        else Lookup(mem0, top, level, width, j)
    ensures MapOf(mem, top, level, width, j) == if j == id then val else MapOf(mem0, top, level, width, j)
  {
    hide Above, Lookup, Tree, Nodes;
    if Above(j, level) == 0 && j / 16 == id / 16 {
      SameAt(mem0, top, level, id, j);
      LookupAt(mem0, top, level, width, j);
    }
  }

  /** Chunk numbers of the same sixteen lead to the same leaf. */
  lemma {:induction false} SameAt(mem: Mem, p: nat, level: nat, i: nat, j: nat)
    requires i / 16 == j / 16
    ensures At(mem, p, level, i, 0) == At(mem, p, level, j, 0)
    decreases level
  {
    hide Above;
    if level > 0 && p != 0 {
      SameLeafAbove(i, j, level - 1);
      SameAt(mem, Kid(mem, p, Digit(i, level)), level - 1, i, j);
    }
  }

  lemma KidShaped(tn: Tnode, width: nat, x: nat, n: nat)
    requires Shaped(tn, width) && x < KIDS
    ensures Shaped(tn.(internal := tn.internal[x := n]), width)
  {}

  lemma HookedAgrees(mem0: Mem, mem: Mem, own: set<nat>, q: nat)
    requires forall p {:trigger p in own} :: p in own && p != q ==> p in mem0 && p in mem && mem[p] == mem0[p]
    ensures Agree(mem0, mem, own - {q})
  {}

  /** Filling an empty place leaves the spine alone. */
  lemma HookedSpine(mem0: Mem, mem: Mem, p: nat, level: nat, q: nat, x: nat, n: nat)
    requires Spine(mem0, p, level) && Agree(mem0, mem, Nodes(mem0, p, level) - {q}) && q in mem0 && q in mem
    requires x < |mem0[q].internal| && mem0[q].internal[x] == 0 && mem[q].internal == mem0[q].internal[x := n]
    ensures Spine(mem, p, level)
  {
    hide Nodes;
    forall r | r in Nodes(mem0, p, level) && Kid(mem0, r, 0) != 0 ensures Kid(mem, r, 0) == Kid(mem0, r, 0) {
      if r != q {
        assert r in Nodes(mem0, p, level) - {q};
      }
    }
    SpineKept(mem0, mem, p, level);
  }

  lemma SameMap(mem0: Mem, mem: Mem, top: nat, level: nat, width: nat, id: nat)
    requires Lookup(mem, top, level, width, id) == Lookup(mem0, top, level, width, id)
    ensures MapOf(mem, top, level, width, id) == MapOf(mem0, top, level, width, id)
  {}

  /** A file whose tnodes are none of those an operation was confined to keeps its whole map. */
  lemma OtherFileKept(was: Mem, now: Mem, rest: set<nat>, top: nat, level: nat, width: nat)
    requires AgreeOn(was, now, rest) && Tree(was, top, level, width) && Nodes(was, top, level) <= rest
    ensures Tree(now, top, level, width) && Nodes(now, top, level) == Nodes(was, top, level)
    ensures forall id: nat :: MapOf(now, top, level, width, id) == MapOf(was, top, level, width, id)
  {
    hide Nodes, Tree, Lookup, Above;
    AgreesOnOwn(was, now, rest, Nodes(was, top, level));
    Frame(was, now, top, level, width);
    forall id: nat ensures MapOf(now, top, level, width, id) == MapOf(was, top, level, width, id) {
      FrameLookup(was, now, top, level, width, id);
    }
  }

  lemma AgreesOnOwn(mem0: Mem, mem: Mem, live: set<nat>, own: set<nat>)
    requires AgreeOn(mem0, mem, live) && own <= live
    ensures Agree(mem0, mem, own)
  {
    forall q | q in own ensures q in live {}
  }

  lemma BlankKids(width: nat)
    requires IsWidth(width)
    ensures |BlankTnode(width).internal| == KIDS && Shaped(BlankTnode(width), width)
  {}

  lemma FirstShaped(width: nat, p: nat)
    requires IsWidth(width)
    ensures Shaped(BlankTnode(width).(internal := BlankTnode(width).internal[0 := p]), width)
  {}

  lemma {:induction false} SpineAgrees(mem0: Mem, mem: Mem, p: nat, level: nat)
    requires Spine(mem0, p, level) && Agree(mem0, mem, Nodes(mem0, p, level))
    ensures Spine(mem, p, level)
    decreases level
  {
    hide Nodes;
    if level > 0 {
      KidsAgree(mem0, mem, p, level, 0);
      SpineAgrees(mem0, mem, Kid(mem0, p, 0), level - 1);
    }
  }

  lemma GrowSpine(mem0: Mem, mem: Mem, p: nat, level: nat, n: nat)
    requires Spine(mem0, p, level) && Agree(mem0, mem, Nodes(mem0, p, level)) && n != 0 && Kid(mem, n, 0) == p
    ensures Spine(mem, n, level + 1)
  {
    SpineAgrees(mem0, mem, p, level);
  }

  lemma GrowMap(mem0: Mem, mem: Mem, p: nat, level: nat, width: nat, n: nat, id: nat)
    requires Agree(mem0, mem, Nodes(mem0, p, level)) && n != 0 && n in mem
    requires mem[n] == BlankTnode(width).(internal := BlankTnode(width).internal[0 := p])
    ensures MapOf(mem, n, level + 1, width, id) == MapOf(mem0, p, level, width, id)
  {
    GrowLookup(mem0, mem, p, level, width, n, id);
    hide Lookup, Nodes;
    assert Above(id, level + 1) == Above(id, level) / 8 && Digit(id, level + 1) == Above(id, level) % 8;
  }
}
