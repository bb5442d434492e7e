/** The leaves of a file's chunk map: sixteen entries of `width` bits packed into 32-bit words. */
module YaffsLeaf {
  import Arith

  /** A 32-bit word, least significant bit first. */
  type Word = w: seq<bool> | |w| == 32 witness seq(32, _ => false)

  const ZERO: Word := seq(32, _ => false)

  /** The number of entries in a leaf. */
  const ENTRIES: nat := 16

  function And(a: Word, b: Word): Word {
    seq(32, i requires 0 <= i < 32 => a[i] && b[i])
  }

  function Or(a: Word, b: Word): Word {
    seq(32, i requires 0 <= i < 32 => a[i] || b[i])
  }

  function Not(a: Word): Word {
    seq(32, i requires 0 <= i < 32 => !a[i])
  }

  function Shl(a: Word, n: nat): Word
    requires n <= 32
  {
    seq(32, i requires 0 <= i < 32 => i >= n && a[i - n])
  }

  function Shr(a: Word, n: nat): Word
    requires n <= 32
  {
    seq(32, i requires 0 <= i < 32 => i + n < 32 && a[i + n])
  }

  /** The n lowest bits of a number. */
  function Bits(v: nat, n: nat): (b: seq<bool>)
    ensures |b| == n
  {
    if n == 0 then [] else [v % 2 == 1] + Bits(v / 2, n - 1)
  }

  function Value(b: seq<bool>): nat {
    if b == [] then 0 else (if b[0] then 1 else 0) + 2 * Value(b[1..])
  }

  function Pow2(n: nat): nat {
    if n == 0 then 1 else 2 * Pow2(n - 1)
  }

  lemma {:induction false} ValueOfBits(v: nat, n: nat)
    requires v < Pow2(n)
    ensures Value(Bits(v, n)) == v
  {
    if n > 0 {
      ValueOfBits(v / 2, n - 1);
      assert Bits(v, n)[1..] == Bits(v / 2, n - 1);
    }
  }

  lemma {:induction false} LowBits(v: nat, m: nat, n: nat)
    requires m <= n
    ensures Bits(v, n)[..m] == Bits(v, m)
  {
    if m > 0 {
      LowBits(v / 2, m - 1, n - 1);
      assert Bits(v, n)[..m] == [v % 2 == 1] + Bits(v / 2, n - 1)[..m - 1];
    }
  }

  lemma {:induction false} ZeroValue(b: seq<bool>)
    ensures Value(b) == 0 <==> forall i :: 0 <= i < |b| ==> !b[i]
  {
    if b != [] {
      ZeroValue(b[1..]);
      assert forall i :: 1 <= i < |b| ==> b[i] == b[1..][i - 1];
    }
  }

  /** The word as which a number is stored: its low 32 bits. */
  function ToWord(v: nat): Word {
    Bits(v, 32)
  }

  /** (1 << width) - 1. */
  function Mask(width: nat): Word {
    seq(32, i => i < width)
  }

  predicate IsWidth(width: nat) {
    16 <= width <= 30 && width % 2 == 0
  }

  /** The words of one leaf. */
  ghost predicate IsLeaf(words: seq<Word>, width: nat) {
    IsWidth(width) && |words| == width / 2
  }

  /** Bit i of the leaf. */
  ghost function BitAt(words: seq<Word>, i: nat): bool
    requires i < 32 * |words|
  {
    words[i / 32][i % 32]
  }

  lemma EntryFits(width: nat, pos: nat)
    requires IsWidth(width) && pos < ENTRIES
    ensures pos * width + width <= 32 * (width / 2)
  {
    Arith.MulMono(pos + 1, 16, width);
  }

  /** Entry pos as the bits it takes up. */
  ghost function EntryBits(words: seq<Word>, width: nat, pos: nat): (b: seq<bool>)
    requires IsLeaf(words, width) && pos < ENTRIES
    ensures |b| == width
    ensures pos * width + width <= 32 * |words|
    ensures forall k :: 0 <= k < width ==> b[k] == BitAt(words, pos * width + k)
  {
    EntryFits(width, pos);
    seq(width, k requires 0 <= k < width => BitAt(words, pos * width + k))
  }

  ghost function Entry(words: seq<Word>, width: nat, pos: nat): nat
    requires IsLeaf(words, width) && pos < ENTRIES
  {
    Value(EntryBits(words, width, pos))
  }

  /** yaffs_load_tnode_0: store an entry, which may straddle two words. */
  method LoadTnode0(words: seq<Word>, width: nat, pos: nat, val: nat) returns (map': seq<Word>)
    requires IsLeaf(words, width)
    ensures IsLeaf(map', width)
    ensures EntryBits(map', width, pos % ENTRIES) == Bits(val, width)
    ensures forall p: nat ::
      p < ENTRIES && p != pos % ENTRIES ==> EntryBits(map', width, p) == EntryBits(words, width, p)
  {
    var pos := pos % ENTRIES;
    EntryFits(width, pos);
    var bitInMap := pos * width;
    var wordInMap, bitInWord := bitInMap / 32, bitInMap % 32;
    var v := ToWord(val);
    var mask := Shl(Mask(width), bitInWord);
    map' := Store(words, wordInMap, Or(And(words[wordInMap], Not(mask)), And(mask, Shl(v, bitInWord))));
    if width > 32 - bitInWord {
      bitInWord := 32 - bitInWord;
      wordInMap := wordInMap + 1;
      mask := Shr(Mask(width), bitInWord);
      map' := Store(map', wordInMap, Or(And(map'[wordInMap], Not(mask)), And(mask, Shr(v, bitInWord))));
    }
    LowBits(val, width, 32);
    BitsStored(words, map', width, pos, bitInMap, v);
    EntriesStored(words, map', width, pos, v);
  }

  function Store(words: seq<Word>, i: nat, w: Word): (r: seq<Word>)
    requires i < |words|
    ensures |r| == |words| && r[i] == w && forall j :: 0 <= j < |words| && j != i ==> r[j] == words[j]
  {
    words[i := w]
  }

  /** Bit i of the leaf after an entry at bit lo has been stored. */
  ghost predicate Stored(words: seq<Word>, words': seq<Word>, width: nat, lo: nat, v: Word)
    requires width <= 32
  {
    |words'| == |words| && forall i: nat {:trigger BitAt(words', i)} :: i < 32 * |words| ==>
      BitAt(words', i) == if lo <= i < lo + width then v[i - lo] else BitAt(words, i)
  }

  lemma BitsStored(words: seq<Word>, words': seq<Word>, width: nat, pos: nat, lo: nat, v: Word)
    requires IsLeaf(words, width) && IsLeaf(words', width) && pos < ENTRIES && lo == pos * width
      && lo + width <= 32 * |words|
    requires lo / 32 < |words|
    requires words'[lo / 32] == Or(And(words[lo / 32], Not(Shl(Mask(width), lo % 32))),
        And(Shl(Mask(width), lo % 32), Shl(v, lo % 32)))
    requires width > 32 - lo % 32 ==>
      (lo / 32 + 1 < |words| && words'[lo / 32 + 1]
       == Or(And(words[lo / 32 + 1], Not(Shr(Mask(width), 32 - lo % 32))),
           And(Shr(Mask(width), 32 - lo % 32), Shr(v, 32 - lo % 32))))
    requires forall j ::
      0 <= j < |words| && j != lo / 32 && !(width > 32 - lo % 32 && j == lo / 32 + 1) ==> words'[j] == words[j]
    ensures Stored(words, words', width, lo, v)
  {
    forall i: nat | i < 32 * |words|
      ensures BitAt(words', i) == if lo <= i < lo + width then v[i - lo] else BitAt(words, i)
    {
      var w, b0 := i / 32, lo % 32;
      if w == lo / 32 {
        FirstWord(words[w], width, b0, v);
      } else if width > 32 - b0 && w == lo / 32 + 1 {
        SecondWord(words[w], width, 32 - b0, v);
      }
    }
  }

  lemma FirstWord(x: Word, width: nat, b0: nat, v: Word)
    requires b0 < 32
    ensures forall b :: 0 <= b < 32 ==> Or(And(x, Not(Shl(Mask(width), b0))), And(Shl(Mask(width), b0), Shl(v, b0)))[b]
                                        == if b0 <= b < b0 + width then v[b - b0] else x[b]
  {}

  lemma SecondWord(x: Word, width: nat, n: nat, v: Word)
    requires n <= 32 && width <= 32
    ensures forall b :: 0 <= b < 32 ==> Or(And(x, Not(Shr(Mask(width), n))), And(Shr(Mask(width), n), Shr(v, n)))[b]
                                        == if b + n < width then v[b + n] else x[b]
  {}

  lemma EntriesStored(words: seq<Word>, words': seq<Word>, width: nat, pos: nat, v: Word)
    requires IsLeaf(words, width) && IsLeaf(words', width) && pos < ENTRIES
      && Stored(words, words', width, pos * width, v)
    ensures EntryBits(words', width, pos) == v[..width]
    ensures forall p: nat :: p < ENTRIES && p != pos ==> EntryBits(words', width, p) == EntryBits(words, width, p)
  {
    hide BitAt;
    EntryFits(width, pos);
    var e := EntryBits(words', width, pos);
    forall k | 0 <= k < width ensures e[k] == v[k] {
      StoredBit(words, words', width, pos * width, v, pos * width + k);
    }
    forall p: nat | p < ENTRIES && p != pos ensures EntryBits(words', width, p) == EntryBits(words, width, p) {
      OtherEntry(words, words', width, pos, v, p);
    }
  }

  lemma StoredBit(words: seq<Word>, words': seq<Word>, width: nat, lo: nat, v: Word, i: nat)
    requires width <= 32 && Stored(words, words', width, lo, v) && i < 32 * |words|
    ensures i < 32 * |words'| && BitAt(words', i) == if lo <= i < lo + width then v[i - lo] else BitAt(words, i)
  {}

  lemma OtherEntry(words: seq<Word>, words': seq<Word>, width: nat, pos: nat, v: Word, p: nat)
    requires IsLeaf(words, width) && IsLeaf(words', width) && pos < ENTRIES
      && Stored(words, words', width, pos * width, v)
    requires p < ENTRIES && p != pos
    ensures EntryBits(words', width, p) == EntryBits(words, width, p)
  {
    hide BitAt, Stored;
    EntryFits(width, p);
    if p < pos {
      Arith.MulMono(p + 1, pos, width);
    } else {
      Arith.MulMono(pos + 1, p, width);
    }
    OtherBits(words, words', width, pos * width, v, p * width, EntryBits(words, width, p), EntryBits(words', width, p));
  }

  lemma OtherBits(words: seq<Word>, words': seq<Word>, width: nat, lo: nat, v: Word, lo': nat, e: seq<bool>,
                  e': seq<bool>)
    requires width <= 32 && Stored(words, words', width, lo, v) && (lo + width <= lo' || lo' + width <= lo)
    requires |e| == |e'| == width && lo' + width <= 32 * |words| && |words'| == |words|
    requires forall k :: 0 <= k < width ==> e[k] == BitAt(words, lo' + k)
    requires forall k :: 0 <= k < width ==> e'[k] == BitAt(words', lo' + k)
    ensures e' == e
  {
    hide BitAt;
    forall k | 0 <= k < width ensures e'[k] == e[k] {
      StoredBit(words, words', width, lo, v, lo' + k);
    }
  }

  /** yaffs_get_group_base: read an entry. */
  method GetGroupBase(words: seq<Word>, width: nat, pos: nat) returns (val: nat)
    requires IsLeaf(words, width)
    ensures val == Entry(words, width, pos % ENTRIES)
  {
    hide And, Or, Shl, Shr, Mask, BitAt;
    var pos := pos % ENTRIES;
    EntryFits(width, pos);
    var bitInMap := pos * width;
    var wordInMap, bitInWord := bitInMap / 32, bitInMap % 32;
    var w := Shr(words[wordInMap], bitInWord);
    if width > 32 - bitInWord {
      bitInWord := 32 - bitInWord;
      wordInMap := wordInMap + 1;
      w := Or(w, Shl(words[wordInMap], bitInWord));
    }
    w := And(w, Mask(width));
    GroupBits(words, width, bitInMap, w);
    Padded(EntryBits(words, width, pos), w);
    val := Value(w);
  }

  lemma GroupBits(words: seq<Word>, width: nat, lo: nat, w: Word)
    requires IsLeaf(words, width) && lo + width <= 32 * |words| && lo / 32 < |words|
    requires width > 32 - lo % 32 ==> lo / 32 + 1 < |words|
    requires w == And(if width > 32 - lo % 32
                      then Or(Shr(words[lo / 32], lo % 32), Shl(words[lo / 32 + 1], 32 - lo % 32))
                      else Shr(words[lo / 32], lo % 32), Mask(width))
    ensures forall k: nat :: k < 32 ==> w[k] == (k < width && BitAt(words, lo + k))
  {
    var b0 := lo % 32;
    forall k: nat | k < 32 ensures w[k] == (k < width && BitAt(words, lo + k)) {
      BitPlace(lo, k);
    }
  }

  lemma BitPlace(lo: nat, k: nat)
    requires k < 32
    ensures if lo % 32 + k < 32 then (lo + k) / 32 == lo / 32 && (lo + k) % 32 == lo % 32 + k
            else (lo + k) / 32 == lo / 32 + 1 && (lo + k) % 32 == lo % 32 + k - 32
  {}

  lemma {:induction false} Padded(e: seq<bool>, w: seq<bool>)
    requires |e| <= |w| && forall k :: 0 <= k < |w| ==> w[k] == (k < |e| && e[k])
    ensures Value(w) == Value(e)
    decreases |w|
  {
    if e == [] {
      ZeroValue(w);
    } else {
      Padded(e[1..], w[1..]);
    }
  }

  /** What was stored is read back, and no other entry is touched. */
  lemma StoredEntry(words: seq<Word>, words': seq<Word>, width: nat, pos: nat, val: nat)
    requires IsLeaf(words, width) && IsLeaf(words', width) && pos < ENTRIES && val < Pow2(width)
    requires EntryBits(words', width, pos) == Bits(val, width)
    requires forall p: nat :: p < ENTRIES && p != pos ==> EntryBits(words', width, p) == EntryBits(words, width, p)
    ensures forall p: nat :: p < ENTRIES ==> Entry(words', width, p) == if p == pos then val else Entry(words, width, p)
  {
    ValueOfBits(val, width);
  }

  /** The words are all zero exactly if the entries are. */
  lemma ZeroLeaf(words: seq<Word>, width: nat)
    requires IsLeaf(words, width)
    ensures (forall i :: 0 <= i < |words| ==> words[i] == ZERO)
       <==> (forall p: nat :: p < ENTRIES ==> Entry(words, width, p) == 0)
  {
    hide Entry;
    if forall p: nat :: p < ENTRIES ==> Entry(words, width, p) == 0 {
      forall i: nat | i < |words| ensures words[i] == ZERO {
        ZeroWord(words, width, i);
      }
    }
    if forall i :: 0 <= i < |words| ==> words[i] == ZERO {
      ZeroBits(words);
      forall p: nat | p < ENTRIES ensures Entry(words, width, p) == 0 {
        ZeroEntry(words, width, p);
      }
    }
  }

  lemma ZeroBits(words: seq<Word>)
    requires forall i :: 0 <= i < |words| ==> words[i] == ZERO
    ensures forall i: nat {:trigger BitAt(words, i)} :: i < 32 * |words| ==> !BitAt(words, i)
  {}

  lemma ZeroWord(words: seq<Word>, width: nat, i: nat)
    requires IsLeaf(words, width) && i < |words| && forall p: nat :: p < ENTRIES ==> Entry(words, width, p) == 0
    ensures words[i] == ZERO
  {
    hide Entry;
    var w := words[i];
    forall b | 0 <= b < 32 ensures !w[b] {
      ZeroBit(words, width, 32 * i + b);
    }
  }

  lemma ZeroEntry(words: seq<Word>, width: nat, p: nat)
    requires IsLeaf(words, width) && p < ENTRIES && forall i: nat :: i < 32 * |words| ==> !BitAt(words, i)
    ensures Entry(words, width, p) == 0
  {
    hide BitAt;
    var e := EntryBits(words, width, p);
    ZeroValue(e);
    forall k | 0 <= k < width ensures !e[k] {}
  }

  lemma ZeroBit(words: seq<Word>, width: nat, i: nat)
    requires IsLeaf(words, width) && i < 32 * |words|
    requires forall p: nat :: p < ENTRIES ==> Entry(words, width, p) == 0
    ensures !BitAt(words, i)
  {
    hide BitAt;
    Arith.MulMono(width, width, 16);
    var p, k := EntryOfBit(width, i, 16);
    var e := EntryBits(words, width, p);
    ZeroValue(e);
    assert Entry(words, width, p) == 0;
    assert !e[k];
  }

  /** The entry that bit i belongs to. */
  lemma {:induction false} EntryOfBit(width: nat, i: nat, n: nat) returns (p: nat, k: nat)
    requires 0 < n && 0 < width && i < n * width
    ensures p < n && k < width && i == p * width + k
  {
    if i >= (n - 1) * width {
      p, k := n - 1, i - (n - 1) * width;
      assert n * width == (n - 1) * width + width;
    } else {
      p, k := EntryOfBit(width, i, n - 1);
    }
  }
}
