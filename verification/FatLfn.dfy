/** Long file names: cut into directory entries of thirteen characters, read back and compared. */
module FatLfn {
  import opened Bytes

  const MAX_LFN: nat := 255
  const PER_ENTRY: nat := 13
  const LLE: nat := 0x40        // marks the last part of a name
  const AM_LFN: nat := 0x0F
  const FILLER: nat := 0xFFFF

  const LDIR_ORD: nat := 0
  const LDIR_ATTR: nat := 11
  const LDIR_TYPE: nat := 12
  const LDIR_CHKSUM: nat := 13
  const LDIR_FST_CLUS_LO: nat := 26
  const ENTRY_SIZE: nat := 32

  /** Where character s of an entry is. */
  function LfnOfs(s: nat): (o: nat)
    requires s < PER_ENTRY
    ensures 1 <= o <= 30
  {
    [1, 3, 5, 7, 9, 14, 16, 18, 20, 22, 24, 28, 30][s]
  }

  /** Two bytes as a character, lowest byte first. */
  function LdWord(e: seq<nat>, o: nat): nat
    requires o + 1 < |e|
  {
    e[o] + 0x100 * e[o + 1]
  }

  type Wchar = w: nat | w < 0x1_0000

  /** A name that can be stored: no zero and no filler inside. */
  ghost predicate IsName(name: seq<Wchar>) {
    forall i :: 0 <= i < |name| ==> name[i] != 0 && name[i] != FILLER
  }

  /** A buffer that holds a name and its terminator. */
  ghost predicate HoldsName(lfnbuf: seq<Wchar>, name: seq<Wchar>) {
    && |lfnbuf| == MAX_LFN + 1 && |name| <= MAX_LFN
    && lfnbuf[..|name|] == name && lfnbuf[|name|] == 0
  }

  /** Character k of a name as it is stored: the name, its terminator, filler. */
  function Unit(name: seq<Wchar>, k: nat): Wchar {
    if k < |name| then name[k] else if k == |name| then 0 else FILLER
  }

  /** Entry number ord of a name, counting from one. */
  ghost predicate IsEntry(e: seq<byte>, name: seq<Wchar>, ord: nat) {
    && |e| == ENTRY_SIZE && 1 <= ord <= 20
    && (forall s :: 0 <= s < PER_ENTRY ==> LdWord(e, LfnOfs(s)) == Unit(name, (ord - 1) * PER_ENTRY + s))
    && e[LDIR_ORD] == ord + (if |name| <= ord * PER_ENTRY then LLE else 0)
    && e[LDIR_ATTR] == AM_LFN && e[LDIR_TYPE] == 0
  }

  /** The entries a name takes. */
  function Entries(len: nat): nat {
    (len + PER_ENTRY - 1) / PER_ENTRY
  }

  method StWord(dir: array<byte>, o: nat, w: Wchar)
    requires o + 1 < dir.Length
    modifies dir
    ensures dir[..] == old(dir[..])[o := w % 0x100][o + 1 := w / 0x100]
    ensures LdWord(dir[..], o) == w
  {
    dir[o] := w % 0x100;
    dir[o + 1] := w / 0x100;
  }

  lemma OffsetsApart(s: nat, t: nat)
    requires s < t < PER_ENTRY
    ensures LfnOfs(s) + 2 <= LfnOfs(t)
  {}

  /** Characters do not overlap each other or the other fields. */
  lemma FieldsApart(s: nat)
    requires s < PER_ENTRY
    ensures LfnOfs(s) + 1 < LDIR_ATTR || LDIR_CHKSUM < LfnOfs(s)
    ensures LfnOfs(s) + 1 < LDIR_FST_CLUS_LO || LDIR_FST_CLUS_LO + 1 < LfnOfs(s)
  {}

  /** fit_lfn: write entry number ord of the name in the buffer. */
  method FitLfn(lfnbuf: seq<Wchar>, dir: array<byte>, ord: nat, sum: byte, ghost name: seq<Wchar>)
    requires HoldsName(lfnbuf, name) && IsName(name) && dir.Length == ENTRY_SIZE
    requires 1 <= ord && (ord - 1) * PER_ENTRY < |name|
    modifies dir
    ensures IsEntry(dir[..], name, ord) && dir[LDIR_CHKSUM] == sum
  {
    dir[LDIR_CHKSUM] := sum;
    dir[LDIR_ATTR] := AM_LFN;
    dir[LDIR_TYPE] := 0;
    StWord(dir, LDIR_FST_CLUS_LO, 0);
    var i := (ord - 1) * PER_ENTRY;
    var s, wc: Wchar := 0, 0;
    while s < PER_ENTRY
      invariant s <= PER_ENTRY
      invariant (ord - 1) * PER_ENTRY + s <= |name| ==> i == (ord - 1) * PER_ENTRY + s && wc != FILLER
      invariant (ord - 1) * PER_ENTRY + s > |name| ==> wc == FILLER
      invariant (ord - 1) * PER_ENTRY <= i <= |name| + 1
      invariant forall t :: 0 <= t < s ==> LdWord(dir[..], LfnOfs(t)) == Unit(name, (ord - 1) * PER_ENTRY + t)
      invariant dir[LDIR_ATTR] == AM_LFN && dir[LDIR_TYPE] == 0 && dir[LDIR_CHKSUM] == sum
    {
      ghost var was := dir[..];
      if wc != FILLER {
        assert i < |name| ==> lfnbuf[i] == lfnbuf[..|name|][i];
        wc := lfnbuf[i];
        i := i + 1;
      }
      assert wc == Unit(name, (ord - 1) * PER_ENTRY + s);
      FieldsApart(s);
      StWord(dir, LfnOfs(s), wc);
      forall t | 0 <= t < s ensures LdWord(dir[..], LfnOfs(t)) == LdWord(was, LfnOfs(t)) {
        OffsetsApart(t, s);
      }
      if wc == 0 {
        wc := FILLER;
      }
      s := s + 1;
    }
    assert wc != FILLER && i < |name| ==> lfnbuf[i] == lfnbuf[..|name|][i];
    var o := ord;
    if wc == FILLER || lfnbuf[i] == 0 {
      o := ord + LLE;
    }
    ghost var was := dir[..];
    dir[LDIR_ORD] := o;
    assert forall s :: 0 <= s < PER_ENTRY ==> LdWord(dir[..], LfnOfs(s)) == LdWord(was, LfnOfs(s));
  }

  /** pick_lfn: read an entry back into the buffer. The last one is refused if the name has more than 253 characters. */
  method PickLfn(lfnbuf: array<Wchar>, e: seq<byte>, ghost name: seq<Wchar>, ghost ord: nat) returns (ok: bool)
    requires lfnbuf.Length == MAX_LFN + 1 && IsName(name) && |name| <= MAX_LFN
    requires IsEntry(e, name, ord) && (ord - 1) * PER_ENTRY < |name|
    modifies lfnbuf
    ensures ok <==> ord * PER_ENTRY < |name| || |name| <= 253
    ensures forall j :: 0 <= j < (ord - 1) * PER_ENTRY ==> lfnbuf[j] == old(lfnbuf[j])
    ensures ok && ord * PER_ENTRY < |name| ==>
      forall j :: ord * PER_ENTRY <= j <= MAX_LFN ==> lfnbuf[j] == old(lfnbuf[j])
    ensures ok ==> forall j :: (ord - 1) * PER_ENTRY <= j < ord * PER_ENTRY && j < |name| ==> lfnbuf[j] == name[j]
    ensures ok && ord * PER_ENTRY >= |name| ==> lfnbuf[|name|] == 0
  {
    var i := (e[LDIR_ORD] % 0x40 - 1) * PER_ENTRY;
    ghost var first := i;
    assert first == (ord - 1) * PER_ENTRY;
    var s := 0;
    var wc: Wchar := 1;
    while s < PER_ENTRY
      invariant s <= PER_ENTRY && first <= i <= MAX_LFN
      invariant first + s <= |name| ==> i == first + s && wc != 0
      invariant first + s > |name| ==> i == |name| + 1 && wc == 0
      invariant forall j :: 0 <= j < first ==> lfnbuf[j] == old(lfnbuf[j])
      invariant forall j :: i <= j <= MAX_LFN ==> lfnbuf[j] == old(lfnbuf[j])
      invariant forall j :: first <= j < i ==> lfnbuf[j] == Unit(name, j)
    {
      var uc := LdWord(e, LfnOfs(s));
      assert uc == Unit(name, first + s);
      if wc != 0 {
        if i >= MAX_LFN {
          return false;
        }
        wc := uc;
        lfnbuf[i] := wc;
        i := i + 1;
      } else if uc != FILLER {
        return false;
      }
      s := s + 1;
    }
    if e[LDIR_ORD] >= LLE {
      if i >= MAX_LFN {
        return false;
      }
      lfnbuf[i] := 0;
    }
    ok := true;
  }

  /** All the entries of a name. */
  ghost predicate AreEntries(entries: seq<seq<byte>>, name: seq<Wchar>) {
    && |entries| == Entries(|name|)
    && forall o :: 0 <= o < |entries| ==> IsEntry(entries[o], name, o + 1)
  }

  lemma EntriesCover(len: nat)
    ensures len <= Entries(len) * PER_ENTRY && (len > 0 ==> (Entries(len) - 1) * PER_ENTRY < len)
    ensures len == 0 ==> Entries(len) == 0
  {}

  /** Store a name. */
  method StoreName(lfnbuf: seq<Wchar>, sum: byte, ghost name: seq<Wchar>, len: nat) returns (entries: seq<seq<byte>>)
    requires HoldsName(lfnbuf, name) && IsName(name) && len == |name| && 1 <= len
    ensures AreEntries(entries, name)
  {
    entries := [];
    EntriesCover(len);
    while |entries| < Entries(len)
      invariant |entries| <= Entries(len)
      invariant forall o :: 0 <= o < |entries| ==> IsEntry(entries[o], name, o + 1)
    {
      var dir := new byte[ENTRY_SIZE](_ => 0);
      FitLfn(lfnbuf, dir, |entries| + 1, sum, name);
      entries := entries + [dir[..]];
    }
  }

  /** Read a name back, last part first. It comes back exactly if it has no more than 253 characters. */
  method ReadName(entries: seq<seq<byte>>, lfnbuf: array<Wchar>, ghost name: seq<Wchar>) returns (ok: bool)
    requires AreEntries(entries, name) && IsName(name) && 1 <= |name| <= MAX_LFN && lfnbuf.Length == MAX_LFN + 1
    modifies lfnbuf
    ensures ok <==> |name| <= 253
    ensures ok ==> HoldsName(lfnbuf[..], name)
  {
    EntriesCover(|name|);
    var o := |entries|;
    ok := true;
    while o > 0 && ok
      invariant 0 <= o <= |entries|
      invariant ok && o < |entries| ==> lfnbuf[|name|] == 0 && |name| <= 253
      invariant !ok ==> |name| > 253
      invariant ok ==> forall j :: o * PER_ENTRY <= j < |name| ==> lfnbuf[j] == name[j]
      decreases o, ok
    {
      ok := PickLfn(lfnbuf, entries[o - 1], name, o);
      o := o - 1;
    }
    assert ok ==> lfnbuf[..][..|name|] == name;
  }

  /** What is assumed of ff_wtoupper: only the terminator is folded into the terminator. */
  ghost predicate Folds(up: Wchar -> Wchar) {
    up(0) == 0 && forall c: Wchar :: c != 0 ==> up(c) != 0
  }

  ghost predicate SameFolded(up: Wchar -> Wchar, a: seq<Wchar>, b: seq<Wchar>) {
    |a| == |b| && forall i :: 0 <= i < |a| ==> up(a[i]) == up(b[i])
  }

  /** Does the part of the stored name in entry ord, with its terminator, match what the buffer has in its place? */
  ghost predicate PartMatches(up: Wchar -> Wchar, lfnbuf: seq<Wchar>, name: seq<Wchar>, ord: nat)
    requires |lfnbuf| == MAX_LFN + 1
  {
    && (forall p {:trigger Unit(name, p)} :: (ord - 1) * PER_ENTRY <= p < ord * PER_ENTRY && p <= |name| ==>
         0 <= p < MAX_LFN && up(Unit(name, p)) == up(lfnbuf[p]))
    && (0 <= ord * PER_ENTRY == |name| <= MAX_LFN ==> lfnbuf[|name|] == 0)
  }

  /** cmp_lfn. */
  method CmpLfn(up: Wchar -> Wchar, lfnbuf: seq<Wchar>, e: seq<byte>, ghost name: seq<Wchar>, ghost ord: nat)
    returns (same: bool)
    requires Folds(up) && |lfnbuf| == MAX_LFN + 1 && IsName(name) && |name| <= MAX_LFN
    requires IsEntry(e, name, ord) && (ord - 1) * PER_ENTRY < |name|
    ensures same <==> PartMatches(up, lfnbuf, name, ord)
  {
    var i := (e[LDIR_ORD] % 0x40 - 1) * PER_ENTRY;
    ghost var first := i;
    assert first == (ord - 1) * PER_ENTRY;
    var s := 0;
    var wc: Wchar := 1;
    while s < PER_ENTRY
      invariant s <= PER_ENTRY && first <= i <= MAX_LFN
      invariant first + s <= |name| ==> i == first + s && wc != 0
      invariant first + s > |name| ==> i == |name| + 1 && wc == 0
      invariant forall p :: first <= p < i ==> p < MAX_LFN && up(Unit(name, p)) == up(lfnbuf[p])
    {
      var uc := LdWord(e, LfnOfs(s));
      assert uc == Unit(name, first + s);
      if wc != 0 {
        wc := up(uc);
        if i >= MAX_LFN || wc != up(lfnbuf[i]) {
          return false;
        }
        i := i + 1;
      } else if uc != FILLER {
        return false;
      }
      s := s + 1;
    }
    same := !(e[LDIR_ORD] >= LLE && wc != 0 && lfnbuf[i] != 0);
  }

  /** If every part matches, the names are equal up to case. */
  lemma AllMatch(up: Wchar -> Wchar, lfnbuf: seq<Wchar>, name: seq<Wchar>, key: seq<Wchar>)
    requires Folds(up) && IsName(name) && IsName(key) && 1 <= |name| <= MAX_LFN && HoldsName(lfnbuf, key)
    requires forall o :: 1 <= o <= Entries(|name|) ==> PartMatches(up, lfnbuf, name, o)
    ensures SameFolded(up, name, key) && |name| < MAX_LFN
  {
    EntriesCover(|name|);
    forall p | 0 <= p < |name| ensures up(name[p]) == up(lfnbuf[p]) && lfnbuf[p] != 0 && p < MAX_LFN {
      assert PartMatches(up, lfnbuf, name, p / PER_ENTRY + 1);
      assert Unit(name, p) == name[p];
    }
    assert PartMatches(up, lfnbuf, name, Entries(|name|));
    assert Unit(name, |name|) == 0;
    assert lfnbuf[|name|] == 0;
    assert forall p :: 0 <= p < |key| ==> lfnbuf[p] == lfnbuf[..|key|][p] == key[p] != 0;
    forall p | 0 <= p < |name| ensures up(name[p]) == up(key[p]) {
      assert lfnbuf[p] == key[p];
    }
  }

  /** Names that are equal up to case match in every part. */
  lemma MatchesAll(up: Wchar -> Wchar, lfnbuf: seq<Wchar>, name: seq<Wchar>, key: seq<Wchar>, o: nat)
    requires Folds(up) && HoldsName(lfnbuf, key) && SameFolded(up, name, key) && |name| < MAX_LFN && 1 <= o
    ensures PartMatches(up, lfnbuf, name, o)
  {
    forall p {:trigger Unit(name, p)} | (o - 1) * PER_ENTRY <= p < o * PER_ENTRY
      && p <= |name| ensures up(Unit(name, p)) == up(lfnbuf[p]) {
      assert p < |key| ==> lfnbuf[p] == lfnbuf[..|key|][p] == key[p];
    }
  }

  /** Look a name up among the entries of another, last part first: it is found exactly if they are equal up to case and
      the stored one has no more than 254 characters. */
  method CompareName(up: Wchar -> Wchar, lfnbuf: seq<Wchar>, entries: seq<seq<byte>>, ghost name: seq<Wchar>,
                     ghost key: seq<Wchar>)
    returns (same: bool)
    requires Folds(up) && IsName(name) && IsName(key) && 1 <= |name| <= MAX_LFN && HoldsName(lfnbuf, key)
      && AreEntries(entries, name)
    ensures same <==> SameFolded(up, name, key) && |name| <= 254
  {
    EntriesCover(|name|);
    var o := |entries|;
    same := true;
    while o > 0 && same
      invariant 0 <= o <= |entries|
      invariant same ==> forall x :: o < x <= |entries| ==> PartMatches(up, lfnbuf, name, x)
      invariant !same ==> exists x :: 1 <= x <= |entries| && !PartMatches(up, lfnbuf, name, x)
      decreases o, same
    {
      same := CmpLfn(up, lfnbuf, entries[o - 1], name, o);
      o := o - 1;
    }
    if same {
      AllMatch(up, lfnbuf, name, key);
    } else if SameFolded(up, name, key) && |name| <= 254 {
      var x :| 1 <= x <= |entries| && !PartMatches(up, lfnbuf, name, x);
      MatchesAll(up, lfnbuf, name, key, x);
    }
  }

  /** Store a name, read it back and look it up. */
  method StoreReadFind(up: Wchar -> Wchar, name: seq<Wchar>, sum: byte) returns (read: bool, found: bool)
    requires Folds(up) && IsName(name) && 1 <= |name| <= MAX_LFN
    ensures (read <==> |name| <= 253) && (found <==> |name| <= 254)
  {
    var lfnbuf := new Wchar[MAX_LFN + 1](i requires i >= 0 => if i < |name| then name[i] else 0);
    assert lfnbuf[..][..|name|] == name;
    var stored := lfnbuf[..];
    var entries := StoreName(stored, sum, name, |name|);
    read := ReadName(entries, lfnbuf, name);
    found := CompareName(up, stored, entries, name, name);
  }

  /** A name of 254 letters: it is found, but cannot be read. */
  method LongName(up: Wchar -> Wchar) returns (read: bool, found: bool)
    requires Folds(up)
    ensures !read && found
  {
    read, found := StoreReadFind(up, seq(254, _ => 97), 0);
  }
}
