/** Trees of tnodes in a pool: the theory behind growing, changing and pruning a file's chunk map. */
module YaffsTree {
  import opened YaffsLeaf

  /** A tnode. In C the two parts are a union: at level 0 the words count, above it the pointers, 0 being NULL. */
  datatype Tnode = Tnode(internal: seq<nat>, words: seq<Word>)

  type Mem = map<nat, Tnode>

  const KIDS: nat := 8
  const MAX_LEVEL: nat := 8

  /** Where a chunk number leads at each level: chunk_id >> (4 + 3 * level). */
  function Above(id: nat, level: nat): nat {
    if level == 0 then id / 16 else Above(id, level - 1) / 8
  }

  /** Which child to take from a tnode at this level. */
  function Digit(id: nat, level: nat): (d: nat)
    requires level > 0
    ensures d < KIDS
  {
    Above(id, level - 1) % 8
  }

  ghost predicate Shaped(tn: Tnode, width: nat) {
    |tn.internal| == KIDS && IsLeaf(tn.words, width)
  }

  /** A zeroed tnode. */
  function BlankTnode(width: nat): Tnode {
    Tnode(seq(KIDS, _ => 0), seq(width / 2, _ => ZERO))
  }

  ghost function Kid(mem: Mem, p: nat, i: nat): nat {
    if p in mem && i < |mem[p].internal| then mem[p].internal[i] else 0
  }

  /** The tnodes of the tree with root p. */
  ghost function Nodes(mem: Mem, p: nat, level: nat): set<nat>
    decreases level
  {
    if p == 0 then {}
    else if level == 0 then {p}
    else
      {p} + Nodes(mem, Kid(mem, p, 0), level - 1) + Nodes(mem, Kid(mem, p, 1), level - 1)
      + Nodes(mem, Kid(mem, p, 2), level - 1) + Nodes(mem, Kid(mem, p, 3), level - 1)
      + Nodes(mem, Kid(mem, p, 4), level - 1) + Nodes(mem, Kid(mem, p, 5), level - 1)
      + Nodes(mem, Kid(mem, p, 6), level - 1) + Nodes(mem, Kid(mem, p, 7), level - 1)
  }

  lemma InNodes(mem: Mem, p: nat, level: nat)
    requires p != 0 && level > 0
    ensures p in Nodes(mem, p, level)
    ensures forall q, i {:trigger q in Nodes(mem, Kid(mem, p, i), level - 1)} ::
      0 <= i < KIDS && q in Nodes(mem, Kid(mem, p, i), level - 1) ==> q in Nodes(mem, p, level)
    ensures forall q {:trigger q in Nodes(mem, p, level)} ::
      q in Nodes(mem, p, level) && q != p ==> exists i :: 0 <= i < KIDS && q in Nodes(mem, Kid(mem, p, i), level - 1)
  {
    forall q, i | 0 <= i < KIDS && q in Nodes(mem, Kid(mem, p, i), level - 1) ensures q in Nodes(mem, p, level) {
      assert i == 0 || i == 1 || i == 2 || i == 3 || i == 4 || i == 5 || i == 6 || i == 7;
    }
  }

  /** p is NULL or the root of a tree of this height in which no tnode occurs twice. */
  ghost predicate Tree(mem: Mem, p: nat, level: nat, width: nat)
    decreases level
  {
    p != 0 ==>
      && p in mem && Shaped(mem[p], width)
      && (level > 0 ==>
           && (forall i {:trigger Kid(mem, p, i)} :: 0 <= i < KIDS ==>
                Tree(mem, Kid(mem, p, i), level - 1, width) && p !in Nodes(mem, Kid(mem, p, i), level - 1))
           && (forall i, j {:trigger Kid(mem, p, i), Kid(mem, p, j)} :: 0 <= i < j < KIDS ==>
                Nodes(mem, Kid(mem, p, i), level - 1) !! Nodes(mem, Kid(mem, p, j), level - 1)))
  }

  /** What the tree maps a chunk number to, 0 if to nothing. */
  ghost function Lookup(mem: Mem, p: nat, level: nat, width: nat, id: nat): nat
    decreases level
  {
    if p == 0 || p !in mem then 0
    else if level == 0 then
      if IsLeaf(mem[p].words, width) then Entry(mem[p].words, width, id % 16) else 0
    else Lookup(mem, Kid(mem, p, Digit(id, level)), level - 1, width, id)
  }

  /** The tnode at a lower level that a chunk number leads to. */
  ghost function At(mem: Mem, p: nat, level: nat, id: nat, l: nat): nat
    requires l <= level
    decreases level
  {
    if level == l || p == 0 then p else At(mem, Kid(mem, p, Digit(id, level)), level - 1, id, l)
  }

  ghost predicate HasData(mem: Mem, p: nat, level: nat, width: nat)
    decreases level
  {
    && p != 0 && p in mem
    && if level == 0 then IsLeaf(mem[p].words, width)
      && exists e: nat :: e < ENTRIES && Entry(mem[p].words, width, e) != 0
       else exists i {:trigger Kid(mem, p, i)} :: 0 <= i < KIDS && HasData(mem, Kid(mem, p, i), level - 1, width)
  }

  /** The leftmost spine is there down to level 0. */
  ghost predicate Spine(mem: Mem, p: nat, level: nat)
    decreases level
  {
    p != 0 && (level > 0 ==> Spine(mem, Kid(mem, p, 0), level - 1))
  }

  /** Beside the spine only subtrees with data are left. */
  ghost predicate Lean(mem: Mem, p: nat, level: nat, width: nat)
    decreases level
  {
    level > 0 ==>
      && (forall i {:trigger Kid(mem, p, i)} ::
           1 <= i < KIDS && Kid(mem, p, i) != 0 ==> HasData(mem, Kid(mem, p, i), level - 1, width))
      && Lean(mem, Kid(mem, p, 0), level - 1, width)
  }

  /** The two memories agree on a set of tnodes. */
  ghost predicate Agree(mem: Mem, mem': Mem, s: set<nat>) {
    forall q {:trigger q in s} :: q in s ==> q in mem && q in mem' && mem'[q] == mem[q]
  }

  lemma RootIn(mem: Mem, p: nat, level: nat)
    requires p != 0
    ensures p in Nodes(mem, p, level) && (level == 0 ==> Nodes(mem, p, level) == {p})
  {}

  lemma NoNodes(mem: Mem, level: nat)
    ensures Nodes(mem, 0, level) == {}
  {}

  lemma AgreeLess(mem: Mem, mem': Mem, s: set<nat>, t: set<nat>)
    requires Agree(mem, mem', s) && t <= s
    ensures Agree(mem, mem', t)
  {
    forall q | q in t ensures q in s {}
  }

  lemma KidsAgree(mem: Mem, mem': Mem, p: nat, level: nat, i: nat)
    requires p != 0 && level > 0 && i < KIDS && Agree(mem, mem', Nodes(mem, p, level))
    ensures Kid(mem', p, i) == Kid(mem, p, i) && Agree(mem, mem', Nodes(mem, Kid(mem, p, i), level - 1))
  {
    InNodes(mem, p, level);
  }

  lemma SameNodes(mem: Mem, mem': Mem, p: nat, level: nat)
    requires p != 0 && level > 0
    requires forall i: nat {:trigger Kid(mem, p, i)} :: i < KIDS ==>
      Kid(mem', p, i) == Kid(mem, p, i)
        && Nodes(mem', Kid(mem, p, i), level - 1) == Nodes(mem, Kid(mem, p, i), level - 1)
    ensures Nodes(mem', p, level) == Nodes(mem, p, level)
  {}

  /** A tree depends on its own tnodes only. */
  lemma {:induction false} Frame(mem: Mem, mem': Mem, p: nat, level: nat, width: nat)
    requires Tree(mem, p, level, width) && Agree(mem, mem', Nodes(mem, p, level))
    ensures Tree(mem', p, level, width) && Nodes(mem', p, level) == Nodes(mem, p, level)
    decreases level
  {
    hide Nodes;
    NoNodes(mem, level);
    NoNodes(mem', level);
    if p != 0 {
      RootIn(mem, p, level);
      RootIn(mem', p, level);
      if level > 0 {
        forall i: nat | i < KIDS
          ensures Kid(mem', p, i) == Kid(mem, p, i)
          ensures Tree(mem', Kid(mem, p, i), level - 1, width)
            && Nodes(mem', Kid(mem, p, i), level - 1) == Nodes(mem, Kid(mem, p, i), level - 1)
        {
          KidsAgree(mem, mem', p, level, i);
          Frame(mem, mem', Kid(mem, p, i), level - 1, width);
        }
        SameNodes(mem, mem', p, level);
      }
    }
  }

  lemma {:induction false} FrameLookup(mem: Mem, mem': Mem, p: nat, level: nat, width: nat, id: nat)
    requires Agree(mem, mem', Nodes(mem, p, level))
    ensures Lookup(mem', p, level, width, id) == Lookup(mem, p, level, width, id)
    decreases level
  {
    hide Nodes, Digit, Above;
    if p != 0 {
      RootIn(mem, p, level);
      if level > 0 {
        KidsAgree(mem, mem', p, level, Digit(id, level));
        FrameLookup(mem, mem', Kid(mem, p, Digit(id, level)), level - 1, width, id);
      }
    }
  }

  lemma {:induction false} FrameData(mem: Mem, mem': Mem, p: nat, level: nat, width: nat)
    requires Agree(mem, mem', Nodes(mem, p, level)) && HasData(mem, p, level, width)
    ensures HasData(mem', p, level, width)
    decreases level
  {
    hide Nodes, Entry;
    RootIn(mem, p, level);
    if level > 0 {
      var i: nat :| i < KIDS && HasData(mem, Kid(mem, p, i), level - 1, width);
      KidsAgree(mem, mem', p, level, i);
      FrameData(mem, mem', Kid(mem, p, i), level - 1, width);
      assert HasData(mem', Kid(mem', p, i), level - 1, width);
    }
  }

  /** mem' differs from mem in the d-th subtree of p: c is there now. */
  ghost predicate Replaced(mem: Mem, mem': Mem, p: nat, level: nat, width: nat, d: nat, c: nat)
    requires level > 0
  {
    && p != 0 && d < KIDS && p in mem' && Shaped(mem'[p], width) && Kid(mem', p, d) == c
    && (forall i: nat {:trigger Kid(mem, p, i)} {:trigger Kid(mem', p, i)} :: i < KIDS && i != d ==>
         && Kid(mem', p, i) == Kid(mem, p, i)
         && Agree(mem, mem', Nodes(mem, Kid(mem, p, i), level - 1))
         && Nodes(mem', c, level - 1) !! Nodes(mem, Kid(mem, p, i), level - 1))
    && Tree(mem', c, level - 1, width) && p !in Nodes(mem', c, level - 1)
  }

  lemma ReplaceKid(mem: Mem, mem': Mem, p: nat, level: nat, width: nat, d: nat, c: nat)
    requires level > 0 && Tree(mem, p, level, width) && Replaced(mem, mem', p, level, width, d, c)
    ensures Tree(mem', p, level, width)
  {
    hide Nodes;
    forall i: nat | i < KIDS && i != d
      ensures Tree(mem', Kid(mem, p, i), level - 1, width)
        && Nodes(mem', Kid(mem, p, i), level - 1) == Nodes(mem, Kid(mem, p, i), level - 1)
    {
      Frame(mem, mem', Kid(mem, p, i), level - 1, width);
    }
  }

  lemma ReplaceNodes(mem: Mem, mem': Mem, p: nat, level: nat, width: nat, d: nat, c: nat)
    requires level > 0 && Tree(mem, p, level, width) && Replaced(mem, mem', p, level, width, d, c)
    ensures Nodes(mem', p, level)
         == (Nodes(mem, p, level) - Nodes(mem, Kid(mem, p, d), level - 1)) + Nodes(mem', c, level - 1)
  {
    hide Nodes;
    InNodes(mem, p, level);
    InNodes(mem', p, level);
    forall i: nat | i < KIDS
      && i != d ensures Nodes(mem', Kid(mem, p, i), level - 1) == Nodes(mem, Kid(mem, p, i), level - 1) {
      Frame(mem, mem', Kid(mem, p, i), level - 1, width);
    }
    forall q: nat
      ensures q in Nodes(mem', p, level)
         <==> q in (Nodes(mem, p, level) - Nodes(mem, Kid(mem, p, d), level - 1)) + Nodes(mem', c, level - 1)
    {
      if q in Nodes(mem', p, level) && q != p {
        var i: nat :| i < KIDS && q in Nodes(mem', Kid(mem', p, i), level - 1);
        KidsApart(mem, p, level, width, i, d);
      }
      if q in Nodes(mem, p, level) && q != p && q !in Nodes(mem, Kid(mem, p, d), level - 1) {
        var i: nat :| i < KIDS && q in Nodes(mem, Kid(mem, p, i), level - 1);
        assert q in Nodes(mem', Kid(mem', p, i), level - 1);
      }
      if q in Nodes(mem', c, level - 1) {
        assert q in Nodes(mem', Kid(mem', p, d), level - 1);
      }
    }
  }

  lemma KidsApart(mem: Mem, p: nat, level: nat, width: nat, i: nat, j: nat)
    requires level > 0 && p != 0 && Tree(mem, p, level, width) && i < KIDS && j < KIDS
    ensures i != j ==> Nodes(mem, Kid(mem, p, i), level - 1) !! Nodes(mem, Kid(mem, p, j), level - 1)
    ensures p !in Nodes(mem, Kid(mem, p, i), level - 1)
  {
    hide Nodes;
    if i < j {
      assert Nodes(mem, Kid(mem, p, i), level - 1) !! Nodes(mem, Kid(mem, p, j), level - 1);
    } else if j < i {
      assert Nodes(mem, Kid(mem, p, j), level - 1) !! Nodes(mem, Kid(mem, p, i), level - 1);
    }
  }

  lemma ReplaceLookup(mem: Mem, mem': Mem, p: nat, level: nat, width: nat, d: nat, c: nat, id: nat)
    requires level > 0 && Tree(mem, p, level, width) && Replaced(mem, mem', p, level, width, d, c)
    ensures Lookup(mem', p, level, width, id) == if Digit(id, level) == d then Lookup(mem', c, level - 1, width, id)
      else Lookup(mem, p, level, width, id)
  {
    hide Nodes, Digit, Above;
    var i := Digit(id, level);
    if i != d {
      FrameLookup(mem, mem', Kid(mem, p, i), level - 1, width, id);
    }
  }

  // ---- making trees taller and adding tnodes ----

  lemma {:induction false} BlankTree(mem: Mem, p: nat, level: nat, width: nat, id: nat)
    requires IsWidth(width) && p != 0 && p in mem && mem[p] == BlankTnode(width)
    ensures Tree(mem, p, level, width) && Nodes(mem, p, level) == {p} && Lookup(mem, p, level, width, id) == 0
  {
    if level == 0 {
      ZeroLeaf(mem[p].words, width);
    } else {
      forall i: nat ensures Kid(mem, p, i) == 0 {}
      InNodes(mem, p, level);
    }
  }

  /** The tnode q has got an empty tnode n as its child number d. */
  ghost predicate Hooked(mem: Mem, mem': Mem, q: nat, d: nat, n: nat, width: nat) {
    && q in mem && q in mem' && Shaped(mem[q], width) && d < KIDS
      && mem'[q] == mem[q].(internal := mem[q].internal[d := n])
    && n != 0 && n in mem' && mem'[n] == BlankTnode(width)
  }

  /** Adding an empty tnode where there was none changes no entry. */
  lemma {:induction false} AddKid(mem: Mem, mem': Mem, p: nat, level: nat, width: nat, id: nat, l: nat, n: nat)
    requires IsWidth(width) && Tree(mem, p, level, width) && 0 < l <= level && n !in Nodes(mem, p, level)
    requires At(mem, p, level, id, l) != 0 && Kid(mem, At(mem, p, level, id, l), Digit(id, l)) == 0
    requires Hooked(mem, mem', At(mem, p, level, id, l), Digit(id, l), n, width)
    requires Agree(mem, mem', Nodes(mem, p, level) - {At(mem, p, level, id, l)})
    ensures Tree(mem', p, level, width) && Nodes(mem', p, level) == Nodes(mem, p, level) + {n}
    ensures forall j: nat :: Lookup(mem', p, level, width, j) == Lookup(mem, p, level, width, j)
    ensures At(mem', p, level, id, l) == At(mem, p, level, id, l) && At(mem', p, level, id, l - 1) == n
    decreases level
  {
    hide Nodes, Above, Digit, BlankTnode, Lookup, Tree;
    var d := Digit(id, level);
    if level == l {
      AddHere(mem, mem', p, level, width, d, n);
    } else {
      var c, q := Kid(mem, p, d), At(mem, p, level, id, l);
      AtInside(mem, p, level, width, id, level);
      KidTree(mem, p, level, width, d);
      AtInside(mem, c, level - 1, width, id, l);
      AgreeLess(mem, mem', Nodes(mem, p, level) - {q}, Nodes(mem, c, level - 1) - {q});
      AddKid(mem, mem', c, level - 1, width, id, l, n);
      ReplacedBelow(mem, mem', p, level, width, d, q, Nodes(mem, c, level - 1) + {n});
      ReplaceKid(mem, mem', p, level, width, d, c);
      ReplaceNodes(mem, mem', p, level, width, d, c);
      forall j: nat ensures Lookup(mem', p, level, width, j) == Lookup(mem, p, level, width, j) {
        ReplaceLookup(mem, mem', p, level, width, d, c, j);
        LookupKid(mem, p, level, width, j);
      }
      RootKept(mem, mem', p, level, width, d, q);
    }
  }

  lemma KidTree(mem: Mem, p: nat, level: nat, width: nat, i: nat)
    requires level > 0 && p != 0 && Tree(mem, p, level, width) && i < KIDS
    ensures Tree(mem, Kid(mem, p, i), level - 1, width) && Nodes(mem, Kid(mem, p, i), level - 1) <= Nodes(mem, p, level)
    ensures p !in Nodes(mem, Kid(mem, p, i), level - 1) && p in mem && Shaped(mem[p], width)
  {
    hide Nodes;
    InNodes(mem, p, level);
    assert Tree(mem, Kid(mem, p, i), level - 1, width);
  }

  lemma LookupKid(mem: Mem, p: nat, level: nat, width: nat, id: nat)
    requires level > 0 && p != 0 && Tree(mem, p, level, width)
    ensures Lookup(mem, p, level, width, id) == Lookup(mem, Kid(mem, p, Digit(id, level)), level - 1, width, id)
  {
    hide Nodes, Digit;
  }

  lemma RootKept(mem: Mem, mem': Mem, p: nat, level: nat, width: nat, d: nat, q: nat)
    requires level > 0 && p != 0 && Tree(mem, p, level, width) && d < KIDS && q in Nodes(mem, Kid(mem, p, d), level - 1)
    requires Agree(mem, mem', Nodes(mem, p, level) - {q})
    ensures Kid(mem', p, d) == Kid(mem, p, d)
  {
    hide Nodes;
    RootIn(mem, p, level);
    KidsApart(mem, p, level, width, d, d);
    assert p in Nodes(mem, p, level) - {q};
  }

  lemma AddHere(mem: Mem, mem': Mem, p: nat, level: nat, width: nat, d: nat, n: nat)
    requires IsWidth(width) && level > 0 && p != 0 && Tree(mem, p, level, width) && n !in Nodes(mem, p, level)
    requires Hooked(mem, mem', p, d, n, width) && Kid(mem, p, d) == 0 && Agree(mem, mem', Nodes(mem, p, level) - {p})
    ensures Tree(mem', p, level, width) && Nodes(mem', p, level) == Nodes(mem, p, level) + {n} && Kid(mem', p, d) == n
    ensures forall j: nat :: Lookup(mem', p, level, width, j) == Lookup(mem, p, level, width, j)
  {
    hide Nodes, Lookup, Digit;
    InNodes(mem, p, level);
    RootIn(mem, p, level);
    BlankTree(mem', n, level - 1, width, 0);
    NoNodes(mem, level - 1);
    forall i: nat | i < KIDS && i != d ensures Kid(mem', p, i) == Kid(mem, p, i)
      && Agree(mem, mem', Nodes(mem, Kid(mem, p, i), level - 1)) {
      KidTree(mem, p, level, width, i);
      AgreeLess(mem, mem', Nodes(mem, p, level) - {p}, Nodes(mem, Kid(mem, p, i), level - 1));
    }
    assert Replaced(mem, mem', p, level, width, d, n) by {
      hide Tree;
      assert Shaped(mem'[p], width);
    }
    ReplaceKid(mem, mem', p, level, width, d, n);
    ReplaceNodes(mem, mem', p, level, width, d, n);
    forall j: nat ensures Lookup(mem', p, level, width, j) == Lookup(mem, p, level, width, j) {
      BlankTree(mem', n, level - 1, width, j);
      ReplaceLookup(mem, mem', p, level, width, d, n, j);
      LookupKid(mem, p, level, width, j);
      NoLookup(mem, level - 1, width, j);
    }
  }

  lemma NoLookup(mem: Mem, level: nat, width: nat, id: nat)
    ensures Lookup(mem, 0, level, width, id) == 0
  {}

  lemma {:induction false} AtInside(mem: Mem, p: nat, level: nat, width: nat, id: nat, l: nat)
    requires Tree(mem, p, level, width) && l <= level && At(mem, p, level, id, l) != 0
    ensures p != 0 && At(mem, p, level, id, l) in Nodes(mem, p, level) && At(mem, p, level, id, l) in mem
      && Shaped(mem[At(mem, p, level, id, l)], width)
    decreases level
  {
    hide Nodes, Above;
    if level > l {
      AtInside(mem, Kid(mem, p, Digit(id, level)), level - 1, width, id, l);
      InNodes(mem, p, level);
    } else {
      RootIn(mem, p, level);
    }
  }

  /** A change inside the d-th subtree, seen from its parent. */
  lemma ReplacedBelow(mem: Mem, mem': Mem, p: nat, level: nat, width: nat, d: nat, q: nat, s: set<nat>)
    requires level > 0 && p != 0 && Tree(mem, p, level, width) && d < KIDS
    requires q in Nodes(mem, Kid(mem, p, d), level - 1) && Agree(mem, mem', Nodes(mem, p, level) - {q})
    requires Tree(mem', Kid(mem, p, d), level - 1, width) && Nodes(mem', Kid(mem, p, d), level - 1) == s
    requires forall x :: x in s ==> x in Nodes(mem, Kid(mem, p, d), level - 1) || x !in Nodes(mem, p, level)
    ensures Replaced(mem, mem', p, level, width, d, Kid(mem, p, d))
  {
    hide Nodes;
    RootIn(mem, p, level);
    InNodes(mem, p, level);
    KidsApart(mem, p, level, width, d, d);
    assert p in Nodes(mem, p, level) - {q};
    forall i: nat | i < KIDS && i != d
      ensures Agree(mem, mem', Nodes(mem, Kid(mem, p, i), level - 1)) && s !! Nodes(mem, Kid(mem, p, i), level - 1)
    {
      KidsApart(mem, p, level, width, i, d);
      forall x | x in Nodes(mem, Kid(mem, p, i), level - 1) ensures x in mem && x in mem' && mem'[x] == mem[x]
        && x !in s {
        assert x in Nodes(mem, p, level) - {q};
      }
    }
  }

  /** A new root above the old one changes no entry: higher chunk numbers lead nowhere yet. */
  lemma Grow(mem: Mem, mem': Mem, p: nat, level: nat, width: nat, n: nat)
    requires IsWidth(width) && Tree(mem, p, level, width) && n != 0 && n !in Nodes(mem, p, level)
    requires Agree(mem, mem', Nodes(mem, p, level)) && n in mem'
      && mem'[n] == BlankTnode(width).(internal := BlankTnode(width).internal[0 := p])
    ensures Tree(mem', n, level + 1, width) && Nodes(mem', n, level + 1) == Nodes(mem, p, level) + {n}
  {
    Frame(mem, mem', p, level, width);
    forall i: nat ensures Kid(mem', n, i) == if i == 0 then p else 0 {}
    NoNodes(mem', level);
    GrownNodes(mem', n, level + 1, p);
  }

  lemma GrowLookup(mem: Mem, mem': Mem, p: nat, level: nat, width: nat, n: nat, id: nat)
    requires Agree(mem, mem', Nodes(mem, p, level)) && n != 0 && n in mem'
    requires mem'[n] == BlankTnode(width).(internal := BlankTnode(width).internal[0 := p])
    ensures Lookup(mem', n, level + 1, width, id) == if Digit(id, level + 1) == 0 then Lookup(mem, p, level, width, id)
      else 0
  {
    hide Above, Digit, Nodes;
    var i := Digit(id, level + 1);
    assert Kid(mem', n, i) == if i == 0 then p else 0;
    FrameLookup(mem, mem', p, level, width, id);
    NoLookup(mem', level, width, id);
  }

  lemma GrownNodes(mem: Mem, n: nat, level: nat, p: nat)
    requires level > 0 && n != 0 && forall i: nat {:trigger Kid(mem, n, i)} :: Kid(mem, n, i) == if i == 0 then p else 0
    ensures Nodes(mem, n, level) == Nodes(mem, p, level - 1) + {n}
  {
    NoNodes(mem, level - 1);
  }

  /** Chunk numbers with the same digits from some level down and the same part above it are in the same leaf. */
  lemma SameDigit(i: nat, j: nat, level: nat)
    requires level > 0 && Above(i, level) == Above(j, level)
    ensures Digit(i, level) == Digit(j, level) <==> Above(i, level - 1) == Above(j, level - 1)
  {}

  lemma {:induction false} SameLeafAbove(i: nat, j: nat, level: nat)
    requires i / 16 == j / 16
    ensures Above(i, level) == Above(j, level)
  {
    if level > 0 {
      SameLeafAbove(i, j, level - 1);
    }
  }

  /** The words of the leaf q have changed to those of w. */
  ghost predicate Rewritten(mem: Mem, mem': Mem, q: nat, w: seq<Word>, width: nat) {
    q in mem && q in mem' && Shaped(mem[q], width) && IsLeaf(w, width) && mem'[q] == mem[q].(words := w)
  }

  /** Changing a leaf changes the entries of that leaf only. */
  lemma {:induction false} SetLeaf(mem: Mem, mem': Mem, p: nat, level: nat, width: nat, id: nat, w: seq<Word>)
    requires Tree(mem, p, level, width) && At(mem, p, level, id, 0) != 0
    requires Rewritten(mem, mem', At(mem, p, level, id, 0), w, width)
      && Agree(mem, mem', Nodes(mem, p, level) - {At(mem, p, level, id, 0)})
    ensures Tree(mem', p, level, width) && Nodes(mem', p, level) == Nodes(mem, p, level)
    ensures forall j: nat :: Above(j, level) == Above(id, level) ==>
      Lookup(mem', p, level, width, j) == if j / 16 == id / 16 then Entry(w, width, j % 16)
        else Lookup(mem, p, level, width, j)
    decreases level
  {
    hide Nodes, Digit, Lookup, Tree;
    var q := At(mem, p, level, id, 0);
    if level == 0 {
      LeafChanged(mem, mem', p, width, w);
    } else {
      var d := Digit(id, level);
      var c := Kid(mem, p, d);
      AtInside(mem, p, level, width, id, level);
      KidTree(mem, p, level, width, d);
      AtInside(mem, c, level - 1, width, id, 0);
      AgreeLess(mem, mem', Nodes(mem, p, level) - {q}, Nodes(mem, c, level - 1) - {q});
      SetLeaf(mem, mem', c, level - 1, width, id, w);
      ReplacedBelow(mem, mem', p, level, width, d, q, Nodes(mem, c, level - 1));
      ReplaceKid(mem, mem', p, level, width, d, c);
      ReplaceNodes(mem, mem', p, level, width, d, c);
      InNodes(mem, p, level);
      assert Nodes(mem', p, level) == Nodes(mem, p, level);
      forall j: nat | Above(j, level) == Above(id, level)
        ensures Lookup(mem', p, level, width, j) == if j / 16 == id / 16 then Entry(w, width, j % 16)
          else Lookup(mem, p, level, width, j)
      {
        ReplaceLookup(mem, mem', p, level, width, d, c, j);
        LookupKid(mem, p, level, width, j);
        SameDigit(j, id, level);
        if j / 16 == id / 16 {
          SameLeafAbove(j, id, level - 1);
        }
      }
    }
  }

  lemma LeafChanged(mem: Mem, mem': Mem, p: nat, width: nat, w: seq<Word>)
    requires p != 0 && Tree(mem, p, 0, width) && Rewritten(mem, mem', p, w, width)
    ensures Tree(mem', p, 0, width) && Nodes(mem', p, 0) == Nodes(mem, p, 0)
    ensures forall j: nat :: Lookup(mem', p, 0, width, j) == Entry(w, width, j % 16)
  {}

  // ---- pruning ----

  /** An internal tnode keeps the spine and its other children while one child changes. */
  lemma {:induction false} SpineKept(mem: Mem, mem': Mem, p: nat, level: nat)
    requires Spine(mem, p, level)
    requires forall q {:trigger Kid(mem, q, 0)} {:trigger Kid(mem', q, 0)} ::
      q in Nodes(mem, p, level) && Kid(mem, q, 0) != 0 ==> Kid(mem', q, 0) == Kid(mem, q, 0)
    ensures Spine(mem', p, level)
    decreases level
  {
    hide Nodes;
    RootIn(mem, p, level);
    if level > 0 {
      var c := Kid(mem, p, 0);
      assert c != 0;
      InNodes(mem, p, level);
      forall q | q in Nodes(mem, c, level - 1) ensures q in Nodes(mem, p, level) {
        assert q in Nodes(mem, Kid(mem, p, 0), level - 1);
      }
      SpineKept(mem, mem', c, level - 1);
    }
  }

  lemma {:induction false} FrameLean(mem: Mem, mem': Mem, p: nat, level: nat, width: nat)
    requires Lean(mem, p, level, width) && Agree(mem, mem', Nodes(mem, p, level)) && Spine(mem, p, level)
    ensures Lean(mem', p, level, width) && Spine(mem', p, level)
    decreases level
  {
    hide Nodes, HasData;
    if level > 0 {
      forall i: nat | i < KIDS ensures Kid(mem', p, i) == Kid(mem, p, i) {
        KidsAgree(mem, mem', p, level, i);
      }
      forall i: nat | 1 <= i < KIDS && Kid(mem, p, i) != 0 ensures HasData(mem', Kid(mem, p, i), level - 1, width) {
        KidsAgree(mem, mem', p, level, i);
        FrameData(mem, mem', Kid(mem, p, i), level - 1, width);
      }
      KidsAgree(mem, mem', p, level, 0);
      FrameLean(mem, mem', Kid(mem, p, 0), level - 1, width);
    }
  }

  /** A tree with data maps some chunk number, wherever it hangs. */
  lemma {:induction false} SomeEntry(mem: Mem, p: nat, level: nat, width: nat, above: nat) returns (id: nat)
    requires HasData(mem, p, level, width)
    ensures Above(id, level) == above && Lookup(mem, p, level, width, id) != 0
    decreases level
  {
    hide Entry;
    if level == 0 {
      var e: nat :| e < ENTRIES && Entry(mem[p].words, width, e) != 0;
      id := 16 * above + e;
    } else {
      var i: nat :| i < KIDS && HasData(mem, Kid(mem, p, i), level - 1, width);
      id := SomeEntry(mem, Kid(mem, p, i), level - 1, width, 8 * above + i);
    }
  }

  /** A tnode without children maps nothing. */
  lemma Childless(mem: Mem, p: nat, level: nat, width: nat)
    requires level > 0 && p != 0 && forall i: nat {:trigger Kid(mem, p, i)} :: i < KIDS ==> Kid(mem, p, i) == 0
    ensures Nodes(mem, p, level) == {p} && forall id: nat :: Lookup(mem, p, level, width, id) == 0
  {
    NoNodes(mem, level - 1);
    hide Digit;
    forall id: nat ensures Lookup(mem, p, level, width, id) == 0 {
      NoLookup(mem, level - 1, width, id);
      assert Kid(mem, p, Digit(id, level)) == 0;
    }
  }
}
