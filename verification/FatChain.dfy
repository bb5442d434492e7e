/** Cluster chains in an allocation table: the theory behind extending and removing them. */
module FatChain {

  type FatTable = seq<nat>

  function Last(s: seq<nat>): nat
    requires s != []
  {
    s[|s| - 1]
  }

  /** s follows the links of the table from its first cluster to an end mark. */
  ghost predicate IsChain(fat: FatTable, s: seq<nat>) {
    && s != []
    && (forall i :: 0 <= i < |s| ==> 2 <= s[i] < |fat|)
    && (forall i {:trigger fat[s[i]]} :: 0 <= i < |s| - 1 ==> fat[s[i]] == s[i + 1])
    && fat[Last(s)] >= |fat|
  }

  lemma Suffix(fat: FatTable, s: seq<nat>, k: nat)
    requires IsChain(fat, s) && k < |s|
    ensures IsChain(fat, s[k..])
  {}

  /** A cluster determines the rest of its chain. */
  lemma {:induction false} ChainUnique(fat: FatTable, s: seq<nat>, t: seq<nat>)
    requires IsChain(fat, s) && IsChain(fat, t) && s[0] == t[0]
    ensures s == t
  {
    if |s| > 1 && |t| > 1 {
      assert s[1] == fat[s[0]] == t[1];
      Suffix(fat, s, 1);
      Suffix(fat, t, 1);
      ChainUnique(fat, s[1..], t[1..]);
      assert s == [s[0]] + s[1..] && t == [t[0]] + t[1..];
    }
  }

  /** Chains that share a cluster share everything after it. */
  lemma SharedTail(fat: FatTable, s: seq<nat>, t: seq<nat>, i: nat, j: nat)
    requires IsChain(fat, s) && IsChain(fat, t) && i < |s| && j < |t|
    ensures s[i] == t[j] ==> s[i..] == t[j..] && |s| - i == |t| - j && Last(s) == Last(t)
  {
    if s[i] == t[j] {
      Suffix(fat, s, i);
      Suffix(fat, t, j);
      ChainUnique(fat, s[i..], t[j..]);
      assert |s[i..]| == |t[j..]|;
      assert Last(s) == Last(s[i..]) && Last(t) == Last(t[j..]);
    }
  }

  /** A chain that reaches an end mark visits no cluster twice. */
  lemma ChainInjective(fat: FatTable, s: seq<nat>)
    requires IsChain(fat, s)
    ensures forall i, j :: 0 <= i < j < |s| ==> s[i] != s[j]
  {
    forall i, j | 0 <= i < j < |s| ensures s[i] != s[j] {
      SharedTail(fat, s, s, i, j);
    }
  }

  /** Chains with different ends are disjoint. */
  lemma DifferentEnds(fat: FatTable, s: seq<nat>, t: seq<nat>)
    requires IsChain(fat, s) && IsChain(fat, t) && Last(s) != Last(t)
    ensures forall i, j :: 0 <= i < |s| && 0 <= j < |t| ==> s[i] != t[j]
  {
    forall i, j | 0 <= i < |s| && 0 <= j < |t| ensures s[i] != t[j] {
      SharedTail(fat, s, t, i, j);
    }
  }

  /** Linking a free cluster behind a chain lengthens that chain by it and keeps every chain with another end. */
  lemma Extended(fat: FatTable, s: seq<nat>, ncl: nat, mark: nat)
    requires IsChain(fat, s) && 2 <= ncl < |fat| && fat[ncl] == 0 && mark >= |fat|
    ensures IsChain(fat[ncl := mark][Last(s) := ncl], s + [ncl])
    ensures forall t :: IsChain(fat, t) && Last(t) != Last(s) ==> IsChain(fat[ncl := mark][Last(s) := ncl], t)
    ensures ncl !in s
  {
    ChainInjective(fat, s);
    NotFree(fat, s, ncl);
    forall t | IsChain(fat, t) && Last(t) != Last(s) ensures IsChain(fat[ncl := mark][Last(s) := ncl], t) {
      NotFree(fat, t, ncl);
      DifferentEnds(fat, s, t);
    }
  }

  /** Starting a chain of one cluster keeps every other chain. */
  lemma Started(fat: FatTable, ncl: nat, mark: nat)
    requires 2 <= ncl < |fat| && fat[ncl] == 0 && mark >= |fat|
    ensures IsChain(fat[ncl := mark], [ncl])
    ensures forall t :: IsChain(fat, t) ==> IsChain(fat[ncl := mark], t)
  {
    forall t | IsChain(fat, t) ensures IsChain(fat[ncl := mark], t) {
      NotFree(fat, t, ncl);
    }
  }

  lemma NotFree(fat: FatTable, s: seq<nat>, c: nat)
    requires IsChain(fat, s) && c < |fat| && fat[c] == 0
    ensures c !in s
  {}

  // ---- removal ----

  ghost function Used(fat: FatTable): set<nat> {
    set c | 0 <= c < |fat| && fat[c] != 0
  }

  ghost function Free(fat: FatTable): set<nat> {
    set c | 2 <= c < |fat| && fat[c] == 0
  }

  ghost function Elements(s: seq<nat>): set<nat> {
    set c | c in s
  }

  lemma {:induction false} DistinctCount(s: seq<nat>)
    requires forall i, j :: 0 <= i < j < |s| ==> s[i] != s[j]
    ensures |Elements(s)| == |s|
  {
    if s == [] {
      assert Elements(s) == {};
    } else {
      var k := |s| - 1;
      DistinctCount(s[..k]);
      OneMoreElement(s, k);
    }
  }

  lemma OneMoreElement(s: seq<nat>, k: nat)
    requires |s| == k + 1 && forall i :: 0 <= i < k ==> s[i] != s[k]
    ensures Elements(s) == Elements(s[..k]) + {s[k]} && s[k] !in Elements(s[..k])
  {
    assert s == s[..k] + [s[k]];
  }

  /** A chain gets longer by free clusters only, and every other entry stays: the chain and the free clusters together
      are as many as before. */
  lemma RoomKept(fat: FatTable, s: seq<nat>, fat': FatTable, t: seq<nat>)
    requires s == [] || IsChain(fat, s)
    requires t == [] || IsChain(fat', t)
    requires |fat| == |fat'| && s <= t && forall i :: |s| <= i < |t| ==> fat[t[i]] == 0
    requires forall c :: 0 <= c < |fat| && c !in t ==> fat'[c] == fat[c]
    ensures |t| + |Free(fat')| == |s| + |Free(fat)|
  {
    if t != [] {
      ChainInjective(fat', t);
    }
    DistinctCount(t[|s|..]);
    TakenFromFree(fat, s, fat', t);
  }

  lemma TakenFromFree(fat: FatTable, s: seq<nat>, fat': FatTable, t: seq<nat>)
    requires s == [] || IsChain(fat, s)
    requires t == [] || IsChain(fat', t)
    requires |fat| == |fat'| && s <= t && forall i :: |s| <= i < |t| ==> fat[t[i]] == 0
    requires forall c :: 0 <= c < |fat| && c !in t ==> fat'[c] == fat[c]
    ensures Free(fat) == Free(fat') + Elements(t[|s|..]) && Free(fat') !! Elements(t[|s|..])
  {
    forall c | 2 <= c < |fat| ensures fat[c] == 0 <==> fat'[c] == 0 || c in t[|s|..] {
      TakenOrKept(fat, s, fat', t, c);
    }
    forall c | c in t ensures 2 <= c < |fat| && fat'[c] != 0 {
      if fat'[c] == 0 {
        NotFree(fat', t, c);
      }
    }
    assert forall c :: c in t[|s|..] ==> c in t;
  }

  lemma TakenOrKept(fat: FatTable, s: seq<nat>, fat': FatTable, t: seq<nat>, c: nat)
    requires s == [] || IsChain(fat, s)
    requires t == [] || IsChain(fat', t)
    requires |fat| == |fat'| && s <= t && forall i :: |s| <= i < |t| ==> fat[t[i]] == 0
    requires 2 <= c < |fat| && (c !in t ==> fat'[c] == fat[c])
    ensures fat[c] == 0 <==> fat'[c] == 0 || c in t[|s|..]
  {
    assert t == s + t[|s|..];
    if s != [] && fat[c] == 0 {
      NotFree(fat, s, c);
    }
    if c in t && fat'[c] == 0 {
      NotFree(fat', t, c);
    }
    if c in s {
      var i :| 0 <= i < |s| && s[i] == c;
      assert fat[s[i]] != 0;
    } else if c in t {
      var i :| 0 <= i < |t| && t[i] == c;
      assert i >= |s|;
    }
  }

  lemma Zeroing(fat: FatTable, c: nat)
    requires 2 <= c < |fat| && fat[c] != 0
    ensures Used(fat[c := 0]) == Used(fat) - {c} && |Used(fat[c := 0])| == |Used(fat)| - 1
    ensures Free(fat[c := 0]) == Free(fat) + {c} && |Free(fat[c := 0])| == |Free(fat)| + 1
  {
    assert Used(fat[c := 0]) == Used(fat) - {c};
    assert Free(fat[c := 0]) == Free(fat) + {c};
  }

  lemma Filling(fat: FatTable, c: nat, v: nat)
    requires 2 <= c < |fat| && fat[c] == 0 && v != 0
    ensures |Free(fat[c := v])| == |Free(fat)| - 1
  {
    assert Free(fat[c := v]) == Free(fat) - {c};
  }

  lemma Relinking(fat: FatTable, c: nat, v: nat)
    requires 2 <= c < |fat| && fat[c] != 0 && v != 0
    ensures Free(fat[c := v]) == Free(fat)
  {}

  /** The clusters removal frees when it starts from c, and whether it meets an entry that is 1. The table may hold
      anything: on a cycle the walk comes back to an entry it has already cleared. */
  ghost function Walk(fat: FatTable, c: nat): (w: (seq<nat>, bool))
    decreases |Used(fat)|
  {
    if c < 2 || c >= |fat| || fat[c] == 0 then ([], true)
    else if fat[c] == 1 then ([], false)
    else
      Zeroing(fat, c);
      var rest := Walk(fat[c := 0], fat[c]);
      ([c] + rest.0, rest.1)
  }

  ghost function Zeroed(fat: FatTable, s: seq<nat>): (r: FatTable)
    requires forall i :: 0 <= i < |s| ==> s[i] < |fat|
    ensures |r| == |fat|
    decreases |s|
  {
    if s == [] then fat else Zeroed(fat[s[0] := 0], s[1..])
  }

  lemma {:induction false} ZeroedAt(fat: FatTable, s: seq<nat>, c: nat)
    requires forall i :: 0 <= i < |s| ==> s[i] < |fat|
    requires c < |fat|
    ensures Zeroed(fat, s)[c] == if c in s then 0 else fat[c]
    decreases |s|
  {
    if s != [] {
      ZeroedAt(fat[s[0] := 0], s[1..], c);
      assert s == [s[0]] + s[1..];
    }
  }

  /** From the first cluster of a chain, removal frees exactly the chain. */
  lemma {:induction false} WalkOfChain(fat: FatTable, s: seq<nat>)
    requires IsChain(fat, s)
    ensures Walk(fat, s[0]) == (s, true)
    decreases |s|
  {
    var c := s[0];
    assert fat[c] >= 2;
    Zeroing(fat, c);
    if |s| > 1 {
      ChainInjective(fat, s);
      ChainCut(fat, s);
      WalkOfChain(fat[c := 0], s[1..]);
      assert fat[c] == s[1] == s[1..][0];
    }
    assert s == [c] + s[1..];
  }

  lemma ChainCut(fat: FatTable, s: seq<nat>)
    requires IsChain(fat, s) && |s| > 1
    ensures IsChain(fat[s[0] := 0], s[1..])
  {
    ChainInjective(fat, s);
    Suffix(fat, s, 1);
  }

  /** Removing a chain keeps every chain that ends elsewhere, and frees exactly its own clusters. */
  lemma Removed(fat: FatTable, s: seq<nat>)
    requires IsChain(fat, s)
    ensures forall t :: IsChain(fat, t) && Last(t) != Last(s) ==> IsChain(Zeroed(fat, s), t)
    ensures Free(Zeroed(fat, s)) == Free(fat) + (set c | c in s)
  {
    var fat' := Zeroed(fat, s);
    forall c: nat | c < |fat| ensures fat'[c] == if c in s then 0 else fat[c] {
      ZeroedAt(fat, s, c);
    }
    forall t | IsChain(fat, t) && Last(t) != Last(s) ensures IsChain(fat', t) {
      DifferentEnds(fat, s, t);
    }
  }
}
