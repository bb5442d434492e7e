/** Pruning the chunk map of a file that has been cut short. */
module YaffsPrune {
  import opened YaffsLeaf
  import opened YaffsTree
  import opened YaffsTnodes
  import opened YaffsChunkMap

  /** The tree at p has become the one at p': every entry is kept, and exactly the tnodes that are gone have been
      freed. */
  ghost predicate Pruned(mem0: Mem, live0: set<nat>, p: nat, mem: Mem, live: set<nat>, p': nat, level: nat,
                         width: nat) {
    && Tree(mem, p', level, width) && Nodes(mem, p', level) <= Nodes(mem0, p, level)
    && live == live0 - (Nodes(mem0, p, level) - Nodes(mem, p', level))
    && AgreeOn(mem0, mem, live0 - Nodes(mem0, p, level))
    && forall id: nat {:trigger Lookup(mem, p', level, width, id)} ::
      Lookup(mem, p', level, width, id) == Lookup(mem0, p, level, width, id)
  }

  /** yaffs_prune_worker: free every subtree without entries, but never the leftmost tnode of a level if del0 is
      false. */
  method PruneWorker(dev: Tnodes, p: nat, level: nat, del0: bool) returns (p': nat)
    requires dev.Valid() && Tree(dev.mem, p, level, dev.width) && Nodes(dev.mem, p, level) <= dev.live
    requires !del0 ==> Spine(dev.mem, p, level)
    modifies dev
    ensures dev.Valid() && (p' == p || (p' == 0 && del0))
    ensures Pruned(old(dev.mem), old(dev.live), p, dev.mem, dev.live, p', level, dev.width)
    ensures del0 && p' != 0 ==> HasData(dev.mem, p', level, dev.width)
    ensures !del0 ==> Spine(dev.mem, p', level) && Lean(dev.mem, p', level, dev.width)
    decreases level, 2
  {
    if p == 0 {
      dev.LiveShaped();
      return 0;
    }
    if level > 0 {
      p' := PruneInternal(dev, p, level, del0);
    } else {
      p' := PruneLeaf(dev, p, del0);
    }
  }

  method PruneLeaf(dev: Tnodes, p: nat, del0: bool) returns (p': nat)
    requires dev.Valid() && p != 0 && Tree(dev.mem, p, 0, dev.width) && Nodes(dev.mem, p, 0) <= dev.live
    modifies dev
    ensures dev.Valid() && (p' == p || (p' == 0 && del0))
    ensures Pruned(old(dev.mem), old(dev.live), p, dev.mem, dev.live, p', 0, dev.width)
    ensures del0 && p' != 0 ==> HasData(dev.mem, p', 0, dev.width)
    ensures !del0 ==> Spine(dev.mem, p', 0) && Lean(dev.mem, p', 0, dev.width)
  {
    hide Tnodes.Valid, Entry, IsLeaf;
    dev.LiveShaped();
    RootIn(dev.mem, p, 0);
    LeafOf(dev.mem[p], dev.width);
    ghost var words := dev.mem[p].words;
    var hasData, i := false, 0;
    while !hasData && i < |dev.mem[p].words|
      invariant 0 <= i <= |words| && (hasData <==> exists k :: 0 <= k < i && words[k] != ZERO)
    {
      if dev.mem[p].words[i] != ZERO {
        hasData := true;
      }
      i := i + 1;
    }
    ZeroLeaf(words, dev.width);
    p' := p;
    if !hasData && del0 {
      dev.FreeTnode(p);
      p' := 0;
    }
  }

  method PruneInternal(dev: Tnodes, p: nat, level: nat, del0: bool) returns (p': nat)
    requires dev.Valid() && p != 0 && level > 0 && Tree(dev.mem, p, level, dev.width)
      && Nodes(dev.mem, p, level) <= dev.live
    requires !del0 ==> Spine(dev.mem, p, level)
    modifies dev
    ensures dev.Valid() && (p' == p || (p' == 0 && del0))
    ensures Pruned(old(dev.mem), old(dev.live), p, dev.mem, dev.live, p', level, dev.width)
    ensures del0 && p' != 0 ==> HasData(dev.mem, p', level, dev.width)
    ensures !del0 ==> Spine(dev.mem, p', level) && Lean(dev.mem, p', level, dev.width)
    decreases level, 1
  {
    hide Tnodes.Valid, Tree, Nodes, Lookup, HasData, Pruned, Shaped;
    ghost var mem0, live0 := dev.mem, dev.live;
    PrunedRefl(dev, p, level);
    RootIn(dev.mem, p, level);
    var hasData, i := false, 0;
    while i < KIDS
      invariant 0 <= i <= KIDS && dev.Valid() && Pruned(mem0, live0, p, dev.mem, dev.live, p, level, dev.width)
      invariant hasData <==> exists k: nat {:trigger Kid(dev.mem, p, k)} :: k < i && Kid(dev.mem, p, k) != 0
      invariant forall k: nat {:trigger Kid(dev.mem, p, k)} ::
        k < i && (k > 0 || del0) && Kid(dev.mem, p, k) != 0 ==>
        HasData(dev.mem, Kid(dev.mem, p, k), level - 1, dev.width)
      invariant !del0 ==>
        Spine(dev.mem, Kid(dev.mem, p, 0), level - 1)
        && (i > 0 ==> Lean(dev.mem, Kid(dev.mem, p, 0), level - 1, dev.width))
    {
      PrunedTree(mem0, live0, p, dev.mem, dev.live, p, level, dev.width);
      dev.LiveShaped();
      HasKids(dev.mem[p], dev.width);
      if dev.mem[p].internal[i] != 0 {
        ghost var mem1, live1 := dev.mem, dev.live;
        PruneKid(dev, p, level, i, if i == 0 then del0 else true);
        PrunedTrans(mem0, live0, p, mem1, live1, p, dev.mem, dev.live, p, level, dev.width);
        KeptKids(mem1, dev.mem, p, level, dev.width, i, del0);
        PrunedTree(mem0, live0, p, dev.mem, dev.live, p, level, dev.width);
        dev.LiveShaped();
        HasKids(dev.mem[p], dev.width);
      }
      if dev.mem[p].internal[i] != 0 {
        hasData := true;
        assert Kid(dev.mem, p, i) != 0;
      }
      i := i + 1;
    }
    p' := p;
    if !hasData && del0 {
      PrunedTree(mem0, live0, p, dev.mem, dev.live, p, level, dev.width);
      Childless(dev.mem, p, level, dev.width);
      ghost var mem1, live1 := dev.mem, dev.live;
      dev.FreeTnode(p);
      PrunedAway(mem0, live0, p, mem1, live1, dev.mem, dev.live, level, dev.width);
      p' := 0;
    } else if hasData && del0 {
      DataBelow(dev.mem, p, level, dev.width);
    }
  }

  /** All children of p but number i are as they were, with everything below them. */
  ghost predicate KidsKept(mem0: Mem, mem: Mem, p: nat, level: nat, i: nat)
    requires level > 0
  {
    forall k: nat {:trigger Kid(mem, p, k)} {:trigger Kid(mem0, p, k)} :: k < KIDS && k != i ==>
      Kid(mem, p, k) == Kid(mem0, p, k) && Agree(mem0, mem, Nodes(mem0, Kid(mem0, p, k), level - 1))
  }

  /** Prune one subtree. */
  method PruneKid(dev: Tnodes, p: nat, level: nat, i: nat, del: bool)
    requires dev.Valid() && p != 0 && level > 0 && i < KIDS && Tree(dev.mem, p, level, dev.width)
      && Nodes(dev.mem, p, level) <= dev.live
    requires Kid(dev.mem, p, i) != 0 && (!del ==> Spine(dev.mem, Kid(dev.mem, p, i), level - 1))
    modifies dev
    ensures dev.Valid() && Pruned(old(dev.mem), old(dev.live), p, dev.mem, dev.live, p, level, dev.width)
    ensures KidsKept(old(dev.mem), dev.mem, p, level, i)
    ensures del && Kid(dev.mem, p, i) != 0 ==> HasData(dev.mem, Kid(dev.mem, p, i), level - 1, dev.width)
    ensures !del ==>
      Spine(dev.mem, Kid(dev.mem, p, i), level - 1) && Lean(dev.mem, Kid(dev.mem, p, i), level - 1, dev.width)
    decreases level, 0
  {
    hide Tnodes.Valid, Tree, Nodes, Lookup, HasData, Spine, Lean, Shaped, Pruned;
    ghost var mem0, live0 := dev.mem, dev.live;
    KidTree(dev.mem, p, level, dev.width, i);
    RootIn(dev.mem, p, level);
    dev.LiveShaped();
    HasKids(dev.mem[p], dev.width);
    ghost var c := Kid(dev.mem, p, i);
    var c' := PruneWorker(dev, dev.mem[p].internal[i], level - 1, del);
    ghost var mem1, live1 := dev.mem, dev.live;
    ParentKept(mem0, live0, p, level, dev.width, i, mem1, live1, c');
    dev.LiveShaped();
    KidShaped(dev.mem[p], dev.width, i, c');
    dev.SetTnode(p, dev.mem[p].(internal := dev.mem[p].internal[i := c']));
    KidReplaced(mem0, live0, p, level, dev.width, i, c, mem1, live1, c', dev.mem);
    if c' != 0 && del {
      FrameData(mem1, dev.mem, c', level - 1, dev.width);
    }
    if !del {
      FrameLean(mem1, dev.mem, c', level - 1, dev.width);
    }
  }

  /** Pruning a subtree leaves its parent alone. */
  lemma ParentKept(mem0: Mem, live0: set<nat>, p: nat, level: nat, width: nat, i: nat, mem1: Mem, live1: set<nat>,
                   c': nat)
    requires level > 0 && p != 0 && i < KIDS && Tree(mem0, p, level, width) && Nodes(mem0, p, level) <= live0
    requires Pruned(mem0, live0, Kid(mem0, p, i), mem1, live1, c', level - 1, width)
    ensures p in live1 && p in mem0 && p in mem1 && mem1[p] == mem0[p] && p !in Nodes(mem1, c', level - 1)
  {
    hide Nodes, Tree, Lookup;
    KidTree(mem0, p, level, width, i);
    RootIn(mem0, p, level);
    assert p in live0 - Nodes(mem0, Kid(mem0, p, i), level - 1);
  }

  lemma KidReplaced(mem0: Mem, live0: set<nat>, p: nat, level: nat, width: nat, i: nat, c: nat, mem1: Mem,
                    live1: set<nat>, c': nat, mem: Mem)
    requires level > 0 && p != 0 && i < KIDS && Tree(mem0, p, level, width) && Nodes(mem0, p, level) <= live0
      && c == Kid(mem0, p, i)
    requires Pruned(mem0, live0, c, mem1, live1, c', level - 1, width)
    requires p in mem1 && Shaped(mem1[p], width) && mem == mem1[p := mem1[p].(internal := mem1[p].internal[i := c'])]
      && Shaped(mem[p], width)
    ensures Pruned(mem0, live0, p, mem, live1, p, level, width) && KidsKept(mem0, mem, p, level, i)
      && Kid(mem, p, i) == c'
    ensures Agree(mem1, mem, Nodes(mem1, c', level - 1))
  {
    hide Nodes, Tree, Lookup, Shaped;
    ParentKept(mem0, live0, p, level, width, i, mem1, live1, c');
    HasKids(mem1[p], width);
    forall q | q in Nodes(mem1, c', level - 1) ensures q in mem && q in mem1 && mem[q] == mem1[q] {
      TreeIn(mem1, c', level - 1, width, q);
    }
    Frame(mem1, mem, c', level - 1, width);
    OtherKids(mem0, live0, p, level, width, i, c, mem1, live1, c', mem);
    ReplaceKid(mem0, mem, p, level, width, i, c');
    ReplaceNodes(mem0, mem, p, level, width, i, c');
    KidTree(mem0, p, level, width, i);
    PrunedSets(live0, live1, Nodes(mem0, p, level), Nodes(mem, p, level), Nodes(mem0, c, level - 1),
        Nodes(mem, c', level - 1));
    RootIn(mem0, p, level);
    assert AgreeOn(mem0, mem, live0 - Nodes(mem0, p, level));
    forall id: nat ensures Lookup(mem, p, level, width, id) == Lookup(mem0, p, level, width, id) {
      ReplaceLookup(mem0, mem, p, level, width, i, c', id);
      LookupKid(mem0, p, level, width, id);
      FrameLookup(mem1, mem, c', level - 1, width, id);
    }
  }

  lemma PrunedSets(live0: set<nat>, live1: set<nat>, n0: set<nat>, n1: set<nat>, k0: set<nat>, k1: set<nat>)
    requires live1 == live0 - (k0 - k1) && n1 == (n0 - k0) + k1 && k0 <= n0 && k1 <= k0
    ensures n1 <= n0 && live1 == live0 - (n0 - n1)
  {}

  lemma {:induction false} TreeIn(mem: Mem, p: nat, level: nat, width: nat, q: nat)
    requires Tree(mem, p, level, width) && q in Nodes(mem, p, level)
    ensures q in mem
    decreases level
  {
    hide Nodes;
    NoNodes(mem, level);
    if q != p {
      if level == 0 {
        RootIn(mem, p, level);
      } else {
        InNodes(mem, p, level);
        var i: nat :| i < KIDS && q in Nodes(mem, Kid(mem, p, i), level - 1);
        TreeIn(mem, Kid(mem, p, i), level - 1, width, q);
      }
    }
  }

  lemma OtherKids(mem0: Mem, live0: set<nat>, p: nat, level: nat, width: nat, i: nat, c: nat, mem1: Mem,
                  live1: set<nat>, c': nat, mem: Mem)
    requires level > 0 && p != 0 && i < KIDS && Tree(mem0, p, level, width) && Nodes(mem0, p, level) <= live0
      && c == Kid(mem0, p, i)
    requires Pruned(mem0, live0, c, mem1, live1, c', level - 1, width)
      && Nodes(mem, c', level - 1) == Nodes(mem1, c', level - 1) && Tree(mem, c', level - 1, width)
    requires p in mem1 && Shaped(mem1[p], width) && mem == mem1[p := mem1[p].(internal := mem1[p].internal[i := c'])]
      && Shaped(mem[p], width)
    ensures KidsKept(mem0, mem, p, level, i) && YaffsTree.Replaced(mem0, mem, p, level, width, i, c')
  {
    hide Nodes, Tree, Lookup, Shaped;
    ParentKept(mem0, live0, p, level, width, i, mem1, live1, c');
    HasKids(mem1[p], width);
    forall k: nat | k < KIDS && k != i
      ensures Kid(mem, p, k) == Kid(mem0, p, k) && Agree(mem0, mem, Nodes(mem0, Kid(mem0, p, k), level - 1))
      ensures Nodes(mem, c', level - 1) !! Nodes(mem0, Kid(mem0, p, k), level - 1)
    {
      KidsApart(mem0, p, level, width, k, i);
      KidTree(mem0, p, level, width, k);
      forall q | q in Nodes(mem0, Kid(mem0, p, k), level - 1) ensures q in mem0 && q in mem && mem[q] == mem0[q] {
        assert q in live0 - Nodes(mem0, c, level - 1);
      }
    }
  }

  lemma PrunedRefl(dev: Tnodes, p: nat, level: nat)
    requires dev.Valid() && Tree(dev.mem, p, level, dev.width) && Nodes(dev.mem, p, level) <= dev.live
    ensures Pruned(dev.mem, dev.live, p, dev.mem, dev.live, p, level, dev.width)
  {
    hide Nodes, Tree, Lookup, Tnodes.Valid;
    dev.LiveShaped();
  }

  lemma PrunedTree(mem0: Mem, live0: set<nat>, p: nat, mem: Mem, live: set<nat>, p': nat, level: nat, width: nat)
    requires Pruned(mem0, live0, p, mem, live, p', level, width) && Nodes(mem0, p, level) <= live0
    ensures Tree(mem, p', level, width) && Nodes(mem, p', level) <= live
    ensures p' != 0 ==> p' in live
  {
    hide Nodes, Tree, Lookup;
    if p' != 0 {
      RootIn(mem, p', level);
    }
  }

  lemma PrunedTrans(mem0: Mem, live0: set<nat>, p: nat, mem1: Mem, live1: set<nat>, q: nat, mem: Mem, live: set<nat>,
                    p': nat, level: nat, width: nat)
    requires Pruned(mem0, live0, p, mem1, live1, q, level, width) && Pruned(mem1, live1, q, mem, live, p', level, width)
    requires Nodes(mem0, p, level) <= live0
    ensures Pruned(mem0, live0, p, mem, live, p', level, width)
  {
    hide Nodes, Tree, Lookup;
    forall q' | q' in live0 - Nodes(mem0, p, level) ensures q' in live1 - Nodes(mem1, q, level) {}
    assert AgreeOn(mem0, mem, live0 - Nodes(mem0, p, level));
  }

  /** What is known of the other subtrees stays true. */
  lemma KeptKids(mem0: Mem, mem: Mem, p: nat, level: nat, width: nat, i: nat, del0: bool)
    requires level > 0 && i < KIDS && KidsKept(mem0, mem, p, level, i)
    requires !del0 && i > 0 ==> Spine(mem0, Kid(mem0, p, 0), level - 1) && Lean(mem0, Kid(mem0, p, 0), level - 1, width)
    ensures forall k: nat {:trigger Kid(mem, p, k)} :: k < i ==> Kid(mem, p, k) == Kid(mem0, p, k)
    ensures forall k: nat {:trigger Kid(mem, p, k)} ::
      k < i && HasData(mem0, Kid(mem0, p, k), level - 1, width) ==> HasData(mem, Kid(mem, p, k), level - 1, width)
    ensures !del0 && i > 0 ==> Spine(mem, Kid(mem, p, 0), level - 1) && Lean(mem, Kid(mem, p, 0), level - 1, width)
  {
    hide Nodes, HasData, Spine, Lean;
    forall k: nat | k < i
      && HasData(mem0, Kid(mem0, p, k), level - 1, width) ensures HasData(mem, Kid(mem, p, k), level - 1, width) {
      FrameData(mem0, mem, Kid(mem0, p, k), level - 1, width);
    }
    if !del0 && i > 0 {
      FrameLean(mem0, mem, Kid(mem0, p, 0), level - 1, width);
    }
  }

  lemma PrunedAway(mem0: Mem, live0: set<nat>, p: nat, mem1: Mem, live1: set<nat>, mem: Mem, live: set<nat>, level: nat,
                   width: nat)
    requires Pruned(mem0, live0, p, mem1, live1, p, level, width) && Nodes(mem0, p, level) <= live0
    requires Nodes(mem1, p, level) == {p} && (forall id: nat :: Lookup(mem1, p, level, width, id) == 0)
    requires live == live1 - {p} && AgreeOn(mem1, mem, live1 - {p})
    ensures Pruned(mem0, live0, p, mem, live, 0, level, width)
  {
    NoNodes(mem, level);
    hide Nodes;
    forall id: nat ensures Lookup(mem, 0, level, width, id) == Lookup(mem0, p, level, width, id) {
      NoLookup(mem, level, width, id);
      assert Lookup(mem1, p, level, width, id) == 0;
    }
    assert AgreeOn(mem0, mem, live0 - Nodes(mem0, p, level));
  }

  lemma DataBelow(mem: Mem, p: nat, level: nat, width: nat)
    requires level > 0 && p != 0 && p in mem
    requires exists k: nat {:trigger Kid(mem, p, k)} :: k < KIDS && Kid(mem, p, k) != 0
    requires forall k: nat {:trigger Kid(mem, p, k)} ::
      k < KIDS && Kid(mem, p, k) != 0 ==> HasData(mem, Kid(mem, p, k), level - 1, width)
    ensures HasData(mem, p, level, width)
  {}

  /** Has a tnode a child besides the first? */
  method MoreKids(dev: Tnodes, tn: nat) returns (hasData: bool)
    requires tn in dev.mem && |dev.mem[tn].internal| == KIDS
    ensures hasData <==> exists k: nat {:trigger Kid(dev.mem, tn, k)} :: 1 <= k < KIDS && Kid(dev.mem, tn, k) != 0
  {
    hasData := false;
    var i := 1;
    while i < KIDS
      invariant 1 <= i <= KIDS
        && (hasData <==> exists k: nat {:trigger Kid(dev.mem, tn, k)} :: 1 <= k < i && Kid(dev.mem, tn, k) != 0)
    {
      if dev.mem[tn].internal[i] != 0 {
        hasData := true;
        assert Kid(dev.mem, tn, i) != 0;
      }
      i := i + 1;
    }
  }

  /** yaffs_prune_tree: after it every entry is as before, every tnode it could do without is free again, and the tree
      is just as tall as its largest chunk number needs. */
  method PruneTree(f: ChunkMap)
    requires f.Valid()
    modifies f`top, f`topLevel, f.dev
    ensures f.Valid() && f.Confined(old(f.dev.mem), old(f.dev.live), old(f.Own())) && f.Own() <= old(f.Own())
    ensures forall id: nat :: f.Map(id) == old(f.Map(id))
    ensures f.topLevel > 0 ==> exists id: nat :: f.Map(id) != 0 && Above(id, f.topLevel - 1) != 0
  {
    hide Tnodes.Valid, Tree, Nodes, Lookup, HasData, Spine, Lean, Shaped, Above, MapOf, Pruned;
    ghost var mem0, live0, own0, mapped0 := f.dev.mem, f.dev.live, f.Own(), f.Mapped();
    f.ConfinedRefl();
    if f.topLevel < 1 {
      return;
    }
    f.top := PruneWorker(f.dev, f.top, f.topLevel, false);
    PrunedMap(mem0, live0, f.top, f.dev.mem, f.dev.live, f.top, f.topLevel, f.dev.width);
    assert f.Mapped() == mapped0;
    var done := false;
    while f.topLevel > 0 && !done
      invariant f.Valid() && Lean(f.dev.mem, f.top, f.topLevel, f.dev.width)
      invariant f.Confined(mem0, live0, own0) && f.Own() <= own0 && forall id: nat :: f.Map(id) == old(f.Map(id))
      invariant done ==>
        f.topLevel > 0
        && exists i: nat {:trigger Kid(f.dev.mem, f.top, i)} :: 1 <= i < KIDS && Kid(f.dev.mem, f.top, i) != 0
      decreases f.topLevel, !done
    {
      f.SpineTop();
      RootIn(f.dev.mem, f.top, f.topLevel);
      f.dev.LiveShaped();
      HasKids(f.dev.mem[f.top], f.dev.width);
      var tn := f.top;
      var hasData := MoreKids(f.dev, tn);
      if !hasData {
        Shorten(f, mem0, live0, own0);
      } else {
        done := true;
      }
    }
    if f.topLevel > 0 {
      TallEnough(f);
    }
  }

  lemma PrunedMap(mem0: Mem, live0: set<nat>, p: nat, mem: Mem, live: set<nat>, p': nat, level: nat, width: nat)
    requires Pruned(mem0, live0, p, mem, live, p', level, width) && Nodes(mem0, p, level) <= live0
    ensures Tree(mem, p', level, width) && Nodes(mem, p', level) <= live
      && Nodes(mem, p', level) <= Nodes(mem0, p, level)
    ensures live == (live0 - Nodes(mem0, p, level)) + Nodes(mem, p', level)
      && Nodes(mem, p', level) !! (live0 - Nodes(mem0, p, level))
    ensures AgreeOn(mem0, mem, live0 - Nodes(mem0, p, level))
    ensures forall id: nat {:trigger MapOf(mem, p', level, width, id)} ::
      MapOf(mem, p', level, width, id) == MapOf(mem0, p, level, width, id)
  {
    hide Nodes, Tree, Lookup;
    forall id: nat ensures MapOf(mem, p', level, width, id) == MapOf(mem0, p, level, width, id) {
      assert Lookup(mem, p', level, width, id) == Lookup(mem0, p, level, width, id);
    }
  }

  /** Take off a root that has only its first child. */
  method Shorten(f: ChunkMap, ghost mem0: Mem, ghost live0: set<nat>, ghost own0: set<nat>)
    requires f.Valid() && f.topLevel > 0 && Lean(f.dev.mem, f.top, f.topLevel, f.dev.width)
    requires f.Confined(mem0, live0, own0) && f.Own() <= own0
    requires !exists k: nat {:trigger Kid(f.dev.mem, f.top, k)} :: 1 <= k < KIDS && Kid(f.dev.mem, f.top, k) != 0
    modifies f`top, f`topLevel, f.dev
    ensures f.Valid() && f.topLevel == old(f.topLevel) - 1 && Lean(f.dev.mem, f.top, f.topLevel, f.dev.width)
    ensures f.Confined(mem0, live0, own0) && f.Own() <= own0 && forall id: nat :: f.Map(id) == old(f.Map(id))
  {
    hide Tnodes.Valid, Tree, Nodes, Lookup, HasData, Shaped, Above, MapOf;
    ghost var mem1, live1, own1, top1, level1, mapped1 := f.dev.mem, f.dev.live, f.Own(), f.top, f.topLevel, f.Mapped();
    RootIn(f.dev.mem, f.top, f.topLevel);
    f.dev.LiveShaped();
    HasKids(f.dev.mem[f.top], f.dev.width);
    var tn := f.top;
    OnlyChild(mem1, top1, level1, f.dev.width);
    f.top := f.dev.mem[tn].internal[0];
    f.topLevel := f.topLevel - 1;
    f.dev.FreeTnode(tn);
    AgreesOnOwn(mem1, f.dev.mem, f.dev.live, own1 - {tn});
    Frame(mem1, f.dev.mem, f.top, f.topLevel, f.dev.width);
    FrameLean(mem1, f.dev.mem, f.top, f.topLevel, f.dev.width);
    forall id: nat ensures f.Map(id) == MapOf(mem1, top1, level1, f.dev.width, id) {
      ShorterMap(mem1, f.dev.mem, top1, level1, f.dev.width, id);
    }
    assert f.Mapped() == mapped1;
    assert f.dev.live == (live0 - own0) + f.Own();
    assert AgreeOn(mem0, f.dev.mem, live0 - own0);
  }

  lemma OnlyChild(mem: Mem, p: nat, level: nat, width: nat)
    requires level > 0 && p != 0 && Tree(mem, p, level, width)
    requires !exists k: nat {:trigger Kid(mem, p, k)} :: 1 <= k < KIDS && Kid(mem, p, k) != 0
    ensures Tree(mem, Kid(mem, p, 0), level - 1, width)
      && Nodes(mem, Kid(mem, p, 0), level - 1) == Nodes(mem, p, level) - {p}
  {
    KidTree(mem, p, level, width, 0);
    InNodes(mem, p, level);
    NoNodes(mem, level - 1);
    hide Nodes;
    forall q | q in Nodes(mem, p, level) && q != p ensures q in Nodes(mem, Kid(mem, p, 0), level - 1) {
      var i: nat :| i < KIDS && q in Nodes(mem, Kid(mem, p, i), level - 1);
      assert 1 <= i ==> Kid(mem, p, i) == 0;
    }
  }

  lemma ShorterMap(mem1: Mem, mem: Mem, p: nat, level: nat, width: nat, id: nat)
    requires level > 0 && p != 0 && Tree(mem1, p, level, width)
      && Agree(mem1, mem, Nodes(mem1, Kid(mem1, p, 0), level - 1))
    requires !exists k: nat {:trigger Kid(mem1, p, k)} :: 1 <= k < KIDS && Kid(mem1, p, k) != 0
    ensures MapOf(mem, Kid(mem1, p, 0), level - 1, width, id) == MapOf(mem1, p, level, width, id)
  {
    hide Nodes, Tree, Lookup;
    LookupKid(mem1, p, level, width, id);
    FrameLookup(mem1, mem, Kid(mem1, p, 0), level - 1, width, id);
    NoLookup(mem1, level - 1, width, id);
    assert Above(id, level) == Above(id, level - 1) / 8 && Digit(id, level) == Above(id, level - 1) % 8;
    var d := Digit(id, level);
    if d != 0 {
      assert Kid(mem1, p, d) == 0;
    }
  }

  /** A root with a second child is there for a chunk number. */
  lemma TallEnough(f: ChunkMap)
    requires f.Sound() && f.topLevel > 0 && Lean(f.dev.mem, f.top, f.topLevel, f.dev.width)
    requires exists i: nat {:trigger Kid(f.dev.mem, f.top, i)} :: 1 <= i < KIDS && Kid(f.dev.mem, f.top, i) != 0
    ensures exists id: nat :: f.Map(id) != 0 && Above(id, f.topLevel - 1) != 0
  {
    hide Nodes, HasData, Tnodes.Valid, Lookup, Tree, Spine, Lean, Above, Digit;
    RootOfTree(f);
    var i: nat :| 1 <= i < KIDS && Kid(f.dev.mem, f.top, i) != 0;
    var id := SomeEntry(f.dev.mem, Kid(f.dev.mem, f.top, i), f.topLevel - 1, f.dev.width, i);
    RootDigit(id, f.topLevel, i);
    LookupKid(f.dev.mem, f.top, f.topLevel, f.dev.width, id);
    assert f.Map(id) != 0;
  }

  lemma RootDigit(id: nat, level: nat, i: nat)
    requires level > 0 && Above(id, level - 1) == i < KIDS
    ensures Digit(id, level) == i && Above(id, level) == 0
  {}

  lemma RootOfTree(f: ChunkMap)
    requires f.Sound() && f.topLevel > 0
    ensures f.top != 0
    ensures Lean(f.dev.mem, f.top, f.topLevel, f.dev.width) ==> forall i: nat {:trigger Kid(f.dev.mem, f.top, i)} ::
      1 <= i < KIDS && Kid(f.dev.mem, f.top, i) != 0 ==>
        HasData(f.dev.mem, Kid(f.dev.mem, f.top, i), f.topLevel - 1, f.dev.width)
  {}
}
