/** The error-correcting code of YAFFS: single errors are corrected, double errors detected. */
module YaffsEcc {

  /** The column parity table, eight entries to a row. */
  function Row(r: bv8): bv64 {
    match r
    case 0 => 0x00_55_59_0c_65_30_3c_69
    case 1 => 0x69_3c_30_65_0c_59_55_00
    case 2 => 0x95_c0_cc_99_f0_a5_a9_fc
    case 3 => 0xfc_a9_a5_f0_99_cc_c0_95
    case 4 => 0x99_cc_c0_95_fc_a9_a5_f0
    case 5 => 0xf0_a5_a9_fc_95_c0_cc_99
    case 6 => 0x0c_59_55_00_69_3c_30_65
    case 7 => 0x65_30_3c_69_00_55_59_0c
    case 8 => 0xa5_f0_fc_a9_c0_95_99_cc
    case 9 => 0xcc_99_95_c0_a9_fc_f0_a5
    case 10 => 0x30_65_69_3c_55_00_0c_59
    case 11 => 0x59_0c_00_55_3c_69_65_30
    case 12 => 0x3c_69_65_30_59_0c_00_55
    case 13 => 0x55_00_0c_59_30_65_69_3c
    case 14 => 0xa9_fc_f0_a5_cc_99_95_c0
    case 15 => 0xc0_95_99_cc_a5_f0_fc_a9
    case 16 => 0xa9_fc_f0_a5_cc_99_95_c0
    case 17 => 0xc0_95_99_cc_a5_f0_fc_a9
    case 18 => 0x3c_69_65_30_59_0c_00_55
    case 19 => 0x55_00_0c_59_30_65_69_3c
    case 20 => 0x30_65_69_3c_55_00_0c_59
    case 21 => 0x59_0c_00_55_3c_69_65_30
    case 22 => 0xa5_f0_fc_a9_c0_95_99_cc
    case 23 => 0xcc_99_95_c0_a9_fc_f0_a5
    case 24 => 0x0c_59_55_00_69_3c_30_65
    case 25 => 0x65_30_3c_69_00_55_59_0c
    case 26 => 0x99_cc_c0_95_fc_a9_a5_f0
    case 27 => 0xf0_a5_a9_fc_95_c0_cc_99
    case 28 => 0x95_c0_cc_99_f0_a5_a9_fc
    case 29 => 0xfc_a9_a5_f0_99_cc_c0_95
    case 30 => 0x00_55_59_0c_65_30_3c_69
    case _ => 0x69_3c_30_65_0c_59_55_00
  }

  // Exclusive or, as a function whose laws are lemmas.

  function X8(a: bv8, b: bv8): bv8 {
    a ^ b
  }

  function X32(a: bv32, b: bv32): bv32 {
    a ^ b
  }

  lemma X8Laws(a: bv8, b: bv8, c: bv8)
    ensures X8(X8(a, b), c) == X8(a, X8(b, c)) == X8(X8(a, c), b)
    ensures X8(a, a) == 0 && X8(a, 0) == a == X8(0, a) && X8(a, X8(a, b)) == b && X8(X8(a, b), a) == b
  {}

  lemma X32Laws(a: bv32, b: bv32, c: bv32)
    ensures X32(X32(a, b), c) == X32(a, X32(b, c)) == X32(X32(a, c), b)
    ensures X32(a, a) == 0 && X32(a, 0) == a == X32(0, a) && X32(a, X32(a, b)) == b && X32(X32(a, b), a) == b
  {}

  /** The entry for a byte: column parities in bits 7 to 2, the parity of the byte in bit 0. */
  function ColumnParity(b: bv8): bv8 {
    Entry(Row(b >> 3), b & 7)
  }

  function Entry(row: bv64, c: bv8): bv8 {
    ((row >> (56 - ((c & 7) as bv64 << 3))) & 0xff) as bv8
  }

  function Odd(b: bv8): bv8 {
    (b ^ (b >> 1) ^ (b >> 2) ^ (b >> 3) ^ (b >> 4) ^ (b >> 5) ^ (b >> 6) ^ (b >> 7)) & 1
  }

  /** What the table stands for. */
  function Parities(b: bv8): bv8 {
    (Odd(b & 0xf0) << 7) | (Odd(b & 0x0f) << 6) | (Odd(b & 0xcc) << 5) | (Odd(b & 0x33) << 4)
    | (Odd(b & 0xaa) << 3) | (Odd(b & 0x55) << 2) | Odd(b)
  }

  lemma RowRight(r: bv8, c: bv8)
    requires r < 32 && c < 8
    ensures Entry(Row(r), c) == Parities((r << 3) | c)
  {
    match r
    case 0 =>
    case 1 =>
    case 2 =>
    case 3 =>
    case 4 =>
    case 5 =>
    case 6 =>
    case 7 =>
    case 8 =>
    case 9 =>
    case 10 =>
    case 11 =>
    case 12 =>
    case 13 =>
    case 14 =>
    case 15 =>
    case 16 =>
    case 17 =>
    case 18 =>
    case 19 =>
    case 20 =>
    case 21 =>
    case 22 =>
    case 23 =>
    case 24 =>
    case 25 =>
    case 26 =>
    case 27 =>
    case 28 =>
    case 29 =>
    case 30 =>
    case _ =>
  }

  /** Every entry of the table is right. */
  lemma TableRight(b: bv8)
    ensures ColumnParity(b) == Parities(b)
  {
    hide Parities, Entry, Row;
    assert b >> 3 < 32 && b & 7 < 8 && ((b >> 3) << 3) | (b & 7) == b;
    RowRight(b >> 3, b & 7);
  }

  predicate Single(m: bv8) {
    m == 1 || m == 2 || m == 4 || m == 8 || m == 0x10 || m == 0x20 || m == 0x40 || m == 0x80
  }

  predicate Single32(m: bv32) {
    m != 0 && m & (m - 1) == 0
  }

  lemma FlipParities(b: bv8, m: bv8)
    requires Single(m)
    ensures Parities(b ^ m) == Parities(b) ^ Parities(m)
  {
    match m
    case 1 =>
    case 2 =>
    case 4 =>
    case 8 =>
    case 0x10 =>
    case 0x20 =>
    case 0x40 =>
    case _ =>
  }

  lemma SingleIsOdd(m: bv8)
    requires Single(m)
    ensures Parities(m) & 1 == 1
  {}

  /** Flipping a bit changes an entry by the entry of that bit. */
  lemma FlipColumn(b: bv8, m: bv8)
    requires Single(m)
    ensures ColumnParity(X8(b, m)) == X8(ColumnParity(b), ColumnParity(m)) && IsOdd(ColumnParity(m))
  {
    hide Parities, ColumnParity;
    TableRight(b);
    TableRight(m);
    TableRight(b ^ m);
    FlipParities(b, m);
    SingleIsOdd(m);
  }

  // ---- the code of a block ----

  /** Column and line parities, 32 bits wide. */
  datatype Sums = Sums(col: bv8, line: bv32, prime: bv32)

  function Plus(a: Sums, b: Sums): Sums {
    Sums(X8(a.col, b.col), X32(a.line, b.line), X32(a.prime, b.prime))
  }

  predicate IsOdd(t: bv8) {
    t & 1 == 1
  }

  /** What byte b at position i contributes. */
  function Part(i: bv32, b: bv8): Sums {
    var t := ColumnParity(b);
    if IsOdd(t) then Sums(t, i, !i) else Sums(t, 0, 0)
  }

  /** A byte number as a word, and a word as a byte number. */
  function Line(i: nat): bv32
    requires i <= 0xFFFF_FFFF
  {
    i as bv32
  }

  function Index(p: bv32): (i: nat)
    ensures i <= 0xFFFF_FFFF
  {
    p as nat
  }

  function Fold(data: seq<bv8>, n: nat): Sums
    requires n <= |data| <= 0xFFFF_FFFF
  {
    if n == 0 then Sums(0, 0, 0) else Plus(Fold(data, n - 1), Part(Line(n - 1), data[n - 1]))
  }

  function Flipped(data: seq<bv8>, p: bv32, m: bv8): seq<bv8>
    requires Index(p) < |data|
  {
    data[Index(p) := X8(data[Index(p)], m)]
  }

  lemma OddSum(t: bv8, u: bv8)
    requires IsOdd(u)
    ensures IsOdd(X8(t, u)) <==> !IsOdd(t)
  {}

  lemma FlippedBack(data: seq<bv8>, p: bv32, m: bv8)
    requires Index(p) < |data|
    ensures Flipped(Flipped(data, p, m), p, m) == data
  {
    hide X8, Index;
    X8Laws(data[Index(p)], m, m);
    X8Laws(m, m, m);
  }

  lemma FlipPart(p: bv32, b: bv8, m: bv8)
    requires Single(m)
    ensures Part(p, X8(b, m)) == Plus(Part(p, b), Part(p, m))
  {
    hide ColumnParity, Single, IsOdd, X8, X32;
    FlipColumn(b, m);
    OddSum(ColumnParity(b), ColumnParity(m));
    X32Laws(p, p, p);
    X32Laws(!p, !p, !p);
  }

  lemma Shuffle(a: Sums, b: Sums, c: Sums)
    ensures Plus(Plus(a, b), c) == Plus(a, Plus(b, c)) == Plus(Plus(a, c), b)
  {
    hide X8, X32;
    X8Laws(a.col, b.col, c.col);
    X32Laws(a.line, b.line, c.line);
    X32Laws(a.prime, b.prime, c.prime);
  }

  lemma Positions(p: bv32)
    ensures Line(Index(p)) == p
  {}

  /** Flipping a bit changes the sums by what that bit contributes. */
  lemma {:induction false} FlipSums(data: seq<bv8>, n: nat, p: bv32, m: bv8)
    requires n <= |data| <= 0xFFFF_FFFF && Index(p) < |data| && Single(m)
    ensures Fold(Flipped(data, p, m), n) == if Index(p) < n then Plus(Fold(data, n), Part(p, m)) else Fold(data, n)
  {
    hide Part, Single, Plus, X8, Line, Index;
    if n > 0 {
      FlipSums(data, n - 1, p, m);
      Positions(p);
      FlipPart(p, data[Index(p)], m);
      Shuffle(Fold(data, n - 1), Part(Line(n - 1), data[n - 1]), Part(p, m));
    }
  }

  // ---- weights ----

  function HWeight8(x: bv8): bv8 {
    var a := (x & 0x55) + ((x >> 1) & 0x55);
    var b := (a & 0x33) + ((a >> 2) & 0x33);
    (b & 0x0f) + (b >> 4)
  }

  function HWeight32(x: bv32): bv32 {
    var a := (x & 0x5555_5555) + ((x >> 1) & 0x5555_5555);
    var b := (a & 0x3333_3333) + ((a >> 2) & 0x3333_3333);
    var c := (b & 0x0f0f_0f0f) + ((b >> 4) & 0x0f0f_0f0f);
    var d := (c & 0x00ff_00ff) + ((c >> 8) & 0x00ff_00ff);
    (d & 0xffff) + (d >> 16)
  }

  lemma Weights32(x: bv32)
    ensures (HWeight32(x) == 1 <==> Single32(x)) && (HWeight32(x) == 0 <==> x == 0) && HWeight32(x) <= 63
  {
    hide HWeight32, Single32;
    WeightsExact(x);
    WeightsBound(x);
  }

  lemma WeightsExact(x: bv32)
    ensures (HWeight32(x) == 1 <==> Single32(x)) && (HWeight32(x) == 0 <==> x == 0)
  {}

  lemma WeightsBound(x: bv32)
    ensures HWeight32(x) <= 63
  {}

  lemma Weights8(x: bv8)
    ensures (HWeight8(x) == 1 <==> Single(x)) && (HWeight8(x) == 0 <==> x == 0) && HWeight8(x) <= 63
  {}

  /** Do three words together have exactly one bit? */
  predicate OneBit(a: bv32, b: bv32, c: bv8) {
    HWeight32(a) + HWeight32(b) + (HWeight8(c) as bv32) == 1
  }

  lemma OneBitIff(a: bv32, b: bv32, c: bv8)
    ensures OneBit(a, b, c) <==>
      (Single32(a) && b == 0 && c == 0) || (a == 0 && Single32(b) && c == 0) || (a == 0 && b == 0 && Single(c))
  {
    hide HWeight32, HWeight8, Single32, Single;
    Weights32(a);
    Weights32(b);
    Weights8(c);
    SmallSum(HWeight32(a), HWeight32(b), HWeight8(c));
    NotNone(c);
    NotNone32(a);
    NotNone32(b);
  }

  lemma SmallSum(x: bv32, y: bv32, z: bv8)
    requires x <= 63 && y <= 63 && z <= 63
    ensures x + y + (z as bv32) == 1
       <==> (x == 1 && y == 0 && z == 0) || (x == 0 && y == 1 && z == 0) || (x == 0 && y == 0 && z == 1)
  {}

  // ---- any number of bytes ----

  /** The stored code of a block of any length: six bits of column parity and two words of line parity. */
  function CodeOf(data: seq<bv8>): Sums
    requires |data| <= 0xFFFF_FFFF
  {
    Coded(Fold(data, |data|))
  }

  function Six(col: bv8): bv8 {
    (col >> 2) & 0x3f
  }

  function Coded(s: Sums): Sums {
    Sums(Six(s.col), s.line, s.prime)
  }

  /** What a difference between the stored code and the code of the data means. */
  datatype Verdict = Clean | FixData(p: bv32, m: bv8) | FixCode | Hopeless

  function BitAt(col: bv8): bv8 {
    (if col & 0x20 != 0 then 4 else 0) | (if col & 0x08 != 0 then 2 else 0) | (if col & 0x02 != 0 then 1 else 0)
  }

  predicate Pairs(col: bv8) {
    (col ^ (col >> 1)) & 0x15 == 0x15
  }

  function Mask(bit: bv8): bv8 {
    1 << (bit & 7)
  }

  predicate Nothing(col: bv8, line: bv32, prime: bv32) {
    (col as bv32) | line | prime == 0
  }

  predicate Opposite(line: bv32, prime: bv32) {
    line == !prime
  }

  function Decide(d: Sums): Verdict {
    if Nothing(d.col, d.line, d.prime) then Clean
    else if Opposite(d.line, d.prime) && Pairs(d.col) then FixData(d.line, Mask(BitAt(d.col)))
    else if OneBit(d.line, d.prime, d.col) then FixCode
    else Hopeless
  }

  /** A flipped bit, in the data or in the stored code. */
  datatype Flip = InData(p: bv32, m: bv8) | InCol(c: bv8) | InLine(l: bv32) | InPrime(l: bv32) {
    predicate Valid() {
      match this
      case InData(_, m) => Single(m)
      case InCol(c) => Single(c) && c <= 0x20
      case InLine(l) => Single32(l)
      case InPrime(l) => Single32(l)
    }

    /** How it shows in the difference. */
    function Trace(): Sums {
      match this
      case InData(p, m) => Coded(Part(p, m))
      case InCol(c) => Sums(c, 0, 0)
      case InLine(l) => Sums(0, l, 0)
      case InPrime(l) => Sums(0, 0, l)
    }
  }

  /** The column code of a single bit names the bit. */
  lemma ColumnCode(m: bv8)
    requires Single(m)
    ensures var c := Six(ColumnParity(m));
            IsOdd(ColumnParity(m)) && Pairs(c) && Mask(BitAt(c)) == m && c <= 0x3f && c != 0 && !Single(c)
  {
    match m
    case 1 =>
    case 2 =>
    case 4 =>
    case 8 =>
    case 0x10 =>
    case 0x20 =>
    case 0x40 =>
    case _ =>
  }

  lemma OneFlip(f: Flip)
    requires f.Valid()
    ensures Decide(f.Trace()) == if f.InData? then FixData(f.p, f.m) else FixCode
  {
    hide OneBit, Pairs, Single, Single32, BitAt, ColumnParity, IsOdd, Mask, Six, X8, X32, Nothing, Opposite;
    match f
    case InData(p, m) => { ColumnCode(m); DecideData(Six(ColumnParity(m)), p); }
    case InCol(c) => { OneBitIff(0, 0, c); NotBoth(c, 0, 0); }
    case InLine(l) => { OneBitIff(l, 0, 0); NotBoth(0, l, 0); }
    case InPrime(l) => { OneBitIff(0, l, 0); NotBoth(0, 0, l); }
  }

  lemma OppositeOfNot(p: bv32)
    ensures Opposite(p, !p)
  {}

  lemma DecideData(c: bv8, p: bv32)
    requires c != 0 && Pairs(c)
    ensures Decide(Sums(c, p, !p)) == FixData(p, Mask(BitAt(c)))
  {
    hide OneBit, Pairs, BitAt, Mask, Nothing, Opposite;
    NotClean(c, p, !p);
    OppositeOfNot(p);
  }

  /** One bit of the code alone is not taken for a bit of the data. */
  lemma NotBoth(c: bv8, l: bv32, q: bv32)
    requires (Single(c) && l == q == 0) || (c == 0 && Single32(l) && q == 0) || (c == 0 && l == 0 && Single32(q))
    ensures !(Opposite(l, q) && Pairs(c)) && !Nothing(c, l, q)
  {}

  lemma TwoColumns(a: bv8, b: bv8)
    requires a <= 0x3f && b <= 0x3f
    ensures Pairs(a) && Pairs(b) && a != b ==> X8(a, b) != 0 && !Single(X8(a, b))
    ensures Pairs(a) && Single(b) ==> !Pairs(X8(a, b))
    ensures Single(a) && Single(b) && a != b ==> X8(a, b) != 0 && !Single(X8(a, b))
  {}

  lemma WordsDiffer(a: bv32, b: bv32)
    ensures X32(a, b) == 0 <==> a == b
  {}

  lemma Complements(a: bv32, b: bv32)
    ensures X32(!a, !b) == X32(a, b)
  {
    var ones: bv32 := 0xFFFF_FFFF;
    hide X32;
    AsXor(a);
    AsXor(b);
    X32Laws(a, ones, X32(b, ones));
    X32Laws(ones, b, ones);
    X32Laws(b, b, b);
  }

  lemma AsXor(a: bv32)
    ensures !a == X32(a, 0xFFFF_FFFF)
  {}

  lemma NotOwnComplement(a: bv32)
    ensures !Opposite(a, a)
  {}

  lemma TwoSingles(a: bv32, b: bv32)
    requires Single32(a) && Single32(b)
    ensures !Single32(X32(a, b))
  {}

  lemma NotAll(a: bv32, b: bv32)
    requires Single32(a) && Single32(b)
    ensures !Opposite(X32(a, b), 0) && !Opposite(0, X32(a, b)) && !Opposite(a, b) && !Opposite(a, 0) && !Opposite(0, a)
      && a != 0
  {}

  lemma Unbalanced(p: bv32, l: bv32)
    requires l != 0
    ensures !Opposite(X32(p, l), !p)
  {}

  lemma Unbalanced'(p: bv32, l: bv32)
    requires l != 0
    ensures !Opposite(p, X32(!p, l))
  {}

  lemma NotSingle32(p: bv32)
    ensures !(p == 0 && Single32(!p)) && !(Single32(p) && !p == 0) && !(p == 0 && !p == 0)
  {}

  lemma NotClean(c: bv8, l: bv32, q: bv32)
    ensures Nothing(c, l, q) <==> c == 0 && l == 0 && q == 0
  {}

  lemma HopelessIf(c: bv8, l: bv32, q: bv32)
    requires c != 0 || l != 0 || q != 0
    requires !(Opposite(l, q) && Pairs(c))
    requires !(Single32(l) && q == 0 && c == 0) && !(l == 0 && Single32(q) && c == 0)
      && !(l == 0 && q == 0 && Single(c))
    ensures Decide(Sums(c, l, q)) == Hopeless
  {
    hide OneBit, Pairs, Single, Single32, Nothing, Opposite;
    NotClean(c, l, q);
    OneBitIff(l, q, c);
  }

  /** Two flipped bits of the data are not corrected. */
  lemma TwoInData(p: bv32, m: bv8, q: bv32, n: bv8)
    requires Single(m) && Single(n) && (p != q || m != n)
    ensures Decide(Plus(Coded(Part(p, m)), Coded(Part(q, n)))) == Hopeless
  {
    hide OneBit, Pairs, Single, Single32, BitAt, ColumnParity, IsOdd, Mask, Six, X8, X32, Decide, Opposite;
    ColumnCode(m);
    ColumnCode(n);
    var a, b := Six(ColumnParity(m)), Six(ColumnParity(n));
    TwoColumns(a, b);
    WordsDiffer(p, q);
    Complements(p, q);
    NotOwnComplement(X32(p, q));
    X8Laws(a, a, a);
    HopelessIf(X8(a, b), X32(p, q), X32(!p, !q));
  }

  /** Neither are one of the data and one of the code. */
  lemma DataAndCode(p: bv32, m: bv8, g: Flip)
    requires Single(m) && g.Valid() && !g.InData?
    ensures Decide(Plus(Coded(Part(p, m)), g.Trace())) == Hopeless
  {
    hide Pairs, Single, Single32, BitAt, ColumnParity, IsOdd, Mask, Six, X8, X32, Decide, Opposite;
    ColumnCode(m);
    var a := Six(ColumnParity(m));
    match g
    case InCol(c) => DataAndCol(a, p, c);
    case InLine(l) => DataAndLine(a, p, l);
    case InPrime(l) => DataAndPrime(a, p, l);
  }

  lemma DataAndCol(a: bv8, p: bv32, c: bv8)
    requires Pairs(a) && a <= 0x3f && Single(c) && c <= 0x20
    ensures Decide(Plus(Sums(a, p, !p), Sums(c, 0, 0))) == Hopeless
  {
    hide OneBit, Pairs, Single, Single32, X8, X32, Decide, Opposite;
    TwoColumns(a, c);
    X32Laws(p, p, p);
    X32Laws(!p, !p, !p);
    NotSingle32(p);
    HopelessIf(X8(a, c), p, !p);
  }

  lemma DataAndLine(a: bv8, p: bv32, l: bv32)
    requires a != 0 && !Single(a) && Single32(l)
    ensures Decide(Plus(Sums(a, p, !p), Sums(0, l, 0))) == Hopeless
  {
    hide OneBit, Pairs, Single, Single32, X8, X32, Decide, Opposite;
    NotAll(l, l);
    Unbalanced(p, l);
    X8Laws(a, a, a);
    X32Laws(!p, !p, !p);
    HopelessIf(a, X32(p, l), !p);
  }

  lemma DataAndPrime(a: bv8, p: bv32, l: bv32)
    requires a != 0 && !Single(a) && Single32(l)
    ensures Decide(Plus(Sums(a, p, !p), Sums(0, 0, l))) == Hopeless
  {
    hide OneBit, Pairs, Single, Single32, X8, X32, Decide, Opposite;
    NotAll(l, l);
    Unbalanced'(p, l);
    X8Laws(a, a, a);
    X32Laws(p, p, p);
    HopelessIf(a, p, X32(!p, l));
  }

  /** Neither are two of the code. */
  lemma TwoInCode(f: Flip, g: Flip)
    requires f.Valid() && g.Valid() && !f.InData? && !g.InData? && f != g
    ensures Decide(Plus(f.Trace(), g.Trace())) == Hopeless
  {
    match f
    case InCol(c) => {
      match g
      case InCol(d) => ColAndCol(c, d);
      case InLine(l) => ColAndLine(c, l);
      case InPrime(l) => ColAndPrime(c, l);
    }
    case InLine(l) => {
      match g
      case InCol(c) => { ColAndLine(c, l); Swap(f.Trace(), g.Trace()); }
      case InLine(k) => LineAndLine(l, k);
      case InPrime(k) => LineAndPrime(l, k);
    }
    case InPrime(l) => {
      match g
      case InCol(c) => { ColAndPrime(c, l); Swap(f.Trace(), g.Trace()); }
      case InLine(k) => { LineAndPrime(k, l); Swap(f.Trace(), g.Trace()); }
      case InPrime(k) => PrimeAndPrime(l, k);
    }
  }

  lemma Swap(a: Sums, b: Sums)
    ensures Plus(a, b) == Plus(b, a)
  {
    hide X8, X32;
    Commutes(a.col, b.col, a.line, b.line);
    Commutes(a.col, b.col, a.prime, b.prime);
  }

  lemma Commutes(a: bv8, b: bv8, c: bv32, d: bv32)
    ensures X8(a, b) == X8(b, a) && X32(c, d) == X32(d, c)
  {}

  lemma ColAndCol(c: bv8, d: bv8)
    requires Single(c) && Single(d) && c <= 0x20 && d <= 0x20 && c != d
    ensures Decide(Plus(Sums(c, 0, 0), Sums(d, 0, 0))) == Hopeless
  {
    hide OneBit, Pairs, Single, Single32, X8, X32, Decide, Opposite;
    TwoColumns(c, d);
    X32Laws(0, 0, 0);
    NotOwnComplement(0);
    HopelessIf(X8(c, d), 0, 0);
  }

  lemma ColAndLine(c: bv8, l: bv32)
    requires Single(c) && Single32(l)
    ensures Decide(Plus(Sums(c, 0, 0), Sums(0, l, 0))) == Hopeless
  {
    hide OneBit, Pairs, Single, Single32, X8, X32, Decide, Opposite;
    NotAll(l, l);
    NotNone(c);
    X8Laws(c, c, c);
    X32Laws(l, l, l);
    X32Laws(0, 0, 0);
    HopelessIf(c, l, 0);
  }

  lemma ColAndPrime(c: bv8, l: bv32)
    requires Single(c) && Single32(l)
    ensures Decide(Plus(Sums(c, 0, 0), Sums(0, 0, l))) == Hopeless
  {
    hide OneBit, Pairs, Single, Single32, X8, X32, Decide, Opposite;
    NotAll(l, l);
    NotNone(c);
    X8Laws(c, c, c);
    X32Laws(l, l, l);
    X32Laws(0, 0, 0);
    HopelessIf(c, 0, l);
  }

  lemma LineAndLine(l: bv32, k: bv32)
    requires Single32(l) && Single32(k) && l != k
    ensures Decide(Plus(Sums(0, l, 0), Sums(0, k, 0))) == Hopeless
  {
    hide OneBit, Pairs, Single, Single32, X8, X32, Decide, Opposite;
    NotAll(l, k);
    TwoSingles(l, k);
    WordsDiffer(l, k);
    X8Laws(0, 0, 0);
    X32Laws(0, 0, 0);
    HopelessIf(0, X32(l, k), 0);
  }

  lemma LineAndPrime(l: bv32, k: bv32)
    requires Single32(l) && Single32(k)
    ensures Decide(Plus(Sums(0, l, 0), Sums(0, 0, k))) == Hopeless
  {
    hide OneBit, Pairs, Single, Single32, X8, X32, Decide, Opposite;
    NotAll(l, k);
    NotAll(k, l);
    X8Laws(0, 0, 0);
    X32Laws(l, 0, 0);
    X32Laws(k, 0, 0);
    HopelessIf(0, l, k);
  }

  lemma PrimeAndPrime(l: bv32, k: bv32)
    requires Single32(l) && Single32(k) && l != k
    ensures Decide(Plus(Sums(0, 0, l), Sums(0, 0, k))) == Hopeless
  {
    hide OneBit, Pairs, Single, Single32, X8, X32, Decide, Opposite;
    NotAll(l, k);
    TwoSingles(l, k);
    WordsDiffer(l, k);
    X8Laws(0, 0, 0);
    X32Laws(0, 0, 0);
    HopelessIf(0, 0, X32(l, k));
  }

  lemma NotNone(c: bv8)
    ensures Single(c) ==> c != 0
  {}

  lemma NotNone32(x: bv32)
    ensures Single32(x) ==> x != 0
  {}

  lemma TwoFlips(f: Flip, g: Flip)
    requires f.Valid() && g.Valid() && f != g
    ensures Decide(Plus(f.Trace(), g.Trace())) == Hopeless
  {
    hide Decide, Single, Single32, Coded, Part, Plus;
    if f.InData? && g.InData? {
      TwoInData(f.p, f.m, g.p, g.m);
    } else if f.InData? {
      DataAndCode(f.p, f.m, g);
    } else if g.InData? {
      DataAndCode(g.p, g.m, f);
      Swap(f.Trace(), g.Trace());
    } else {
      TwoInCode(f, g);
    }
  }

  // ---- stored data and code, damaged ----

  datatype Stored = Stored(data: seq<bv8>, code: Sums) {
    predicate Valid() {
      |data| <= 0xFFFF_FFFF
    }

    /** The difference between the code that was stored and that of the data as it is read. */
    function Delta(): Sums
      requires Valid()
    {
      Plus(code, CodeOf(data))
    }

    function Damaged(f: Flip): (d: Stored)
      requires Valid() && (f.InData? ==> Index(f.p) < |data|)
      ensures d.Valid() && |d.data| == |data|
    {
      match f
      case InData(p, m) => Stored(Flipped(data, p, m), code)
      case _ => Stored(data, Plus(code, f.Trace()))
    }
  }

  lemma CodedPlus(a: Sums, b: Sums)
    ensures Coded(Plus(a, b)) == Plus(Coded(a), Coded(b))
  {
    hide X8, X32, Six;
    ColumnsApart(a.col, b.col);
  }

  lemma ColumnsApart(a: bv8, b: bv8)
    ensures Six(X8(a, b)) == X8(Six(a), Six(b))
  {}

  /** Damage adds up. */
  lemma DamageTrace(s: Stored, f: Flip)
    requires s.Valid() && f.Valid() && (f.InData? ==> Index(f.p) < |s.data|)
    ensures s.Damaged(f).Delta() == Plus(s.Delta(), f.Trace())
  {
    hide Single, Single32, Coded, Part, Plus, Fold;
    var n := |s.data|;
    Shuffle(s.code, CodeOf(s.data), f.Trace());
    if f.InData? {
      FlipSums(s.data, n, f.p, f.m);
      CodedPlus(Fold(s.data, n), Part(f.p, f.m));
      Shuffle(s.code, f.Trace(), CodeOf(s.data));
    }
  }

  lemma NoDelta(data: seq<bv8>)
    requires |data| <= 0xFFFF_FFFF
    ensures Stored(data, CodeOf(data)).Delta() == Sums(0, 0, 0)
    ensures forall s: Sums :: Plus(Sums(0, 0, 0), s) == s
  {
    hide X8, X32, Coded, Fold;
    var c := CodeOf(data);
    X8Laws(c.col, c.col, c.col);
    X32Laws(c.line, c.line, c.line);
    X32Laws(c.prime, c.prime, c.prime);
    forall s: Sums ensures Plus(Sums(0, 0, 0), s) == s {
      X8Laws(s.col, s.col, s.col);
      X32Laws(s.line, s.line, s.line);
      X32Laws(s.prime, s.prime, s.prime);
    }
  }

  lemma NothingIsClean()
    ensures Decide(Sums(0, 0, 0)) == Clean && Decide256(Code(0, 0, 0)) == Clean
  {}

  /** A single flipped bit is found out exactly, wherever it is; without one there is nothing to correct. */
  lemma CorrectsOne(data: seq<bv8>, f: Flip)
    requires |data| <= 0xFFFF_FFFF && f.Valid() && (f.InData? ==> Index(f.p) < |data|)
    ensures Decide(Stored(data, CodeOf(data)).Delta()) == Clean
    ensures var d := Stored(data, CodeOf(data)).Damaged(f);
            if f.InData? then Decide(d.Delta()) == FixData(f.p, f.m) && Flipped(d.data, f.p, f.m) == data
            else Decide(d.Delta()) == FixCode && d.data == data
  {
    hide Decide, Single, Single32, Coded, Part, Plus, Fold, X8, Index, Flipped;
    NoDelta(data);
    DamageTrace(Stored(data, CodeOf(data)), f);
    OneFlip(f);
    NothingIsClean();
    if f.InData? {
      FlippedBack(data, f.p, f.m);
    }
  }

  /** Any two flipped bits, of the data or the code, are noticed and nothing is corrected. */
  lemma DetectsTwo(data: seq<bv8>, f: Flip, g: Flip)
    requires |data| <= 0xFFFF_FFFF && f.Valid() && g.Valid() && f != g
    requires (f.InData? ==> Index(f.p) < |data|) && (g.InData? ==> Index(g.p) < |data|)
    ensures Decide(Stored(data, CodeOf(data)).Damaged(f).Damaged(g).Delta()) == Hopeless
  {
    hide Decide, Single, Single32, Coded, Part, Plus, Fold, X8;
    var s := Stored(data, CodeOf(data));
    NoDelta(data);
    DamageTrace(s, f);
    DamageTrace(s.Damaged(f), g);
    TwoFlips(f, g);
  }

  lemma NothingFolded(data: seq<bv8>)
    requires |data| <= 0xFFFF_FFFF
    ensures Fold(data, 0) == Sums(0, 0, 0)
  {}

  lemma FoldNext(data: seq<bv8>, i: nat)
    requires i < |data| <= 0xFFFF_FFFF
    ensures Fold(data, i + 1) == Plus(Fold(data, i), Part(Line(i), data[i]))
  {
    hide Plus, Part, Line;
  }

  lemma CodeFolds(data: seq<bv8>)
    requires |data| <= 0xFFFF_FFFF
    ensures CodeOf(data) == Coded(Fold(data, |data|))
  {
    hide Fold, Coded;
  }

  /** yaffs_ecc_calc_other. */
  method CalcOther(data: array<bv8>, n: nat) returns (code: Sums)
    requires n <= data.Length && n <= 0xFFFF_FFFF
    ensures code == CodeOf(data[..n])
  {
    hide *;
    NothingFolded(data[..n]);
    var col: bv8, line: bv32, prime: bv32 := 0, 0, 0;
    var i := 0;
    while i < n
      invariant i <= n && Fold(data[..n], i) == Sums(col, line, prime)
    {
      var b := ColumnParity(data[i]);
      ghost var was := Sums(col, line, prime);
      col := X8(col, b);
      if IsOdd(b) {
        line := X32(line, Line(i));
        prime := X32(prime, !Line(i));
      }
      AddPart(was, Line(i), data[i]);
      FoldNext(data[..n], i);
      i := i + 1;
    }
    code := Coded(Sums(col, line, prime));
    CodeFolds(data[..n]);
  }

  lemma AddPart(s: Sums, i: bv32, b: bv8)
    ensures var t := ColumnParity(b);
            Plus(s, Part(i, b)) == if IsOdd(t) then Sums(X8(s.col, t), X32(s.line, i), X32(s.prime, !i))
              else Sums(X8(s.col, t), s.line, s.prime)
  {
    hide ColumnParity, IsOdd, X8, X32;
    X32Laws(s.line, s.line, s.line);
    X32Laws(s.prime, s.prime, s.prime);
  }

  /** yaffs_ecc_correct_other: at most one bit of the data is changed, and only if the code says which. */
  method CorrectOther(data: array<bv8>, n: nat, readCode: Sums, testCode: Sums) returns (r: int, code: Sums)
    requires n <= data.Length && n <= 0xFFFF_FFFF
    modifies data
    ensures match Decide(Plus(readCode, testCode))
      case Clean => r == 0 && data[..] == old(data[..]) && code == readCode
      case FixData(p, m) =>
        (if Index(p) < n then r == 1 && data[..] == Flipped(old(data[..]), p,
            m) else r == -1 && data[..] == old(data[..])) && code == readCode
      case FixCode => r == 1 && data[..] == old(data[..]) && code == testCode
      case Hopeless => r == -1 && data[..] == old(data[..]) && code == readCode
  {
    hide X8, X32, OneBit, Pairs, BitAt, Mask, Nothing, Opposite, Index;
    code := readCode;
    var d := Plus(readCode, testCode);
    if Nothing(d.col, d.line, d.prime) {
      return 0, code;
    }
    if Opposite(d.line, d.prime) && Pairs(d.col) {
      if Index(d.line) >= n {
        return -1, code;
      }
      var at := Index(d.line);
      data[at] := X8(data[at], Mask(BitAt(d.col)));
      return 1, code;
    }
    if OneBit(d.line, d.prime, d.col) {
      return 1, testCode;
    }
    r := -1;
  }

  // ---- blocks of 256 bytes ----

  /** The code as three bytes. */
  datatype Code = Code(e0: bv8, e1: bv8, e2: bv8)

  function Diff(a: Code, b: Code): Code {
    Code(X8(a.e0, b.e0), X8(a.e1, b.e1), X8(a.e2, b.e2))
  }

  function Low(x: bv32): bv8 {
    (x & 0xff) as bv8
  }

  /** The high halves of a line parity and its counterpart, bit by bit in turn. */
  function Spread(l: bv8, q: bv8): bv8 {
    (l & 0x80) | ((q & 0x80) >> 1) | ((l & 0x40) >> 1) | ((q & 0x40) >> 2)
    | ((l & 0x20) >> 2) | ((q & 0x20) >> 3) | ((l & 0x10) >> 3) | ((q & 0x10) >> 4)
  }

  function Not8(x: bv8): bv8 {
    !x
  }

  function Packed(col: bv8, line: bv8, prime: bv8): Code {
    Code(Not8(Spread(line << 4, prime << 4)), Not8(Spread(line, prime)), Not8(col) | 0x03)
  }

  function CodeOf256(data: seq<bv8>): Code
    requires 256 <= |data| <= 0xFFFF_FFFF
  {
    var s := Fold(data, 256);
    Packed(s.col, Low(s.line), Low(s.prime))
  }

  /** What shows of sums in the difference of two codes. */
  function Shown(s: Sums): Code {
    Code(Spread(Low(s.line) << 4, Low(s.prime) << 4), Spread(Low(s.line), Low(s.prime)), s.col & 0xfc)
  }

  lemma SpreadPlus(l: bv8, q: bv8, l': bv8, q': bv8)
    ensures X8(Not8(Spread(l, q)), Not8(Spread(l', q'))) == Spread(X8(l, l'), X8(q, q'))
    ensures X8(l, l') << 4 == X8(l << 4, l' << 4)
  {
    hide Spread, Not8, X8;
    SpreadAdds(l, q, l', q');
    NotsPlus(Spread(l, q), Spread(l', q'));
  }

  lemma NotsPlus(a: bv8, b: bv8)
    ensures X8(Not8(a), Not8(b)) == X8(a, b)
  {}

  lemma LowPlus(a: bv32, b: bv32)
    ensures Low(X32(a, b)) == X8(Low(a), Low(b)) && Low(!a) == Not8(Low(a))
  {}

  lemma ColPlus(a: bv8, b: bv8)
    ensures X8(Not8(a) | 0x03, Not8(b) | 0x03) == X8(a, b) & 0xfc
    ensures X8(a, b) & 0xfc == X8(a & 0xfc, b & 0xfc)
  {}

  lemma PackedDiff(s: Sums, t: Sums)
    ensures Diff(Packed(s.col, Low(s.line), Low(s.prime)),
        Packed(t.col, Low(t.line), Low(t.prime))) == Shown(Plus(s, t))
  {
    hide X8, X32, Spread, Not8, Low;
    var a, b, c, d := Low(s.line), Low(s.prime), Low(t.line), Low(t.prime);
    LowPlus(s.line, t.line);
    LowPlus(s.prime, t.prime);
    SpreadPlus(a, b, c, d);
    SpreadPlus(b, a, d, c);
    SpreadPlus(a << 4, b << 4, c << 4, d << 4);
    ColPlus(s.col, t.col);
  }

  lemma SpreadAdds(l: bv8, q: bv8, l': bv8, q': bv8)
    ensures Spread(X8(l, l'), X8(q, q')) == X8(Spread(l, q), Spread(l', q'))
    ensures X8(l, l') << 4 == X8(l << 4, l' << 4)
  {}

  // The test for a difference that one bit of the data makes, and which bit that is.

  predicate AllPairs(d: bv8) {
    (d ^ (d >> 1)) & 0x55 == 0x55
  }

  predicate ColPairs(d: bv8) {
    (d ^ (d >> 1)) & 0x54 == 0x54
  }

  function Gather(d1: bv8, d0: bv8): bv8 {
    (if d1 & 0x80 != 0 then 0x80 else 0) | (if d1 & 0x20 != 0 then 0x40 else 0)
    | (if d1 & 0x08 != 0 then 0x20 else 0) | (if d1 & 0x02 != 0 then 0x10 else 0)
    | (if d0 & 0x80 != 0 then 0x08 else 0) | (if d0 & 0x20 != 0 then 0x04 else 0)
    | (if d0 & 0x08 != 0 then 0x02 else 0) | (if d0 & 0x02 != 0 then 0x01 else 0)
  }

  function BitAt256(d2: bv8): bv8 {
    (if d2 & 0x80 != 0 then 4 else 0) | (if d2 & 0x20 != 0 then 2 else 0) | (if d2 & 0x08 != 0 then 1 else 0)
  }

  predicate NoBits(d: Code) {
    d.e0 | d.e1 | d.e2 == 0
  }

  predicate OneBit256(a: bv8, b: bv8, c: bv8) {
    HWeight8(a) + HWeight8(b) + HWeight8(c) == 1
  }

  function Wide(x: bv8): bv32 {
    x as bv32
  }

  function Decide256(d: Code): Verdict {
    if NoBits(d) then Clean
    else if AllPairs(d.e0) && AllPairs(d.e1) && ColPairs(d.e2) then FixData(Wide(Gather(d.e1, d.e0)),
        Mask(BitAt256(d.e2)))
    else if OneBit256(d.e0, d.e1, d.e2) then FixCode
    else Hopeless
  }

  lemma OneBit256Iff(a: bv8, b: bv8, c: bv8)
    ensures OneBit256(a, b, c)
       <==> (Single(a) && b == 0 && c == 0) || (a == 0 && Single(b) && c == 0) || (a == 0 && b == 0 && Single(c))
  {
    hide HWeight8, Single;
    Weights8(a);
    Weights8(b);
    Weights8(c);
    SmallWeight(a);
    SmallWeight(b);
    SmallWeight(c);
    SmallSum8(HWeight8(a), HWeight8(b), HWeight8(c));
    NotNone(a);
    NotNone(b);
    NotNone(c);
  }

  lemma SmallWeight(x: bv8)
    ensures HWeight8(x) <= 8
  {}

  lemma SmallSum8(x: bv8, y: bv8, z: bv8)
    requires x <= 8 && y <= 8 && z <= 8
    ensures x + y + z == 1
       <==> (x == 1 && y == 0 && z == 0) || (x == 0 && y == 1 && z == 0) || (x == 0 && y == 0 && z == 1)
  {}

  /** A flipped bit of a block or of the 22 bits of its code that mean something. */
  datatype Flip256 = InBlock(p: bv32, m: bv8) | In0(m: bv8) | In1(m: bv8) | In2(m: bv8) {
    predicate Valid() {
      Single(m) && (InBlock? ==> p <= 0xff) && (In2? ==> m >= 4)
    }

    function Trace(): Code {
      match this
      case InBlock(p, m) => Shown(Part(p, m))
      case In0(m) => Code(m, 0, 0)
      case In1(m) => Code(0, m, 0)
      case In2(m) => Code(0, 0, m)
    }
  }

  /** The three bytes for one bit of the data: all pairs differ, and name the byte and the bit. */
  lemma BlockTrace(p: bv32, m: bv8)
    requires Single(m) && p <= 0xff
    ensures var d := Shown(Part(p, m));
            AllPairs(d.e0) && AllPairs(d.e1) && ColPairs(d.e2) && d.e2 & 0x03 == 0 && Wide(Gather(d.e1, d.e0)) == p
              && Mask(BitAt256(d.e2)) == m
  {
    hide ColumnParity, Single, Spread, Gather, Mask, BitAt256, AllPairs, ColPairs, Low, X8, X32;
    LowPlus(p, p);
    LowWide(p);
    SpreadPairs(Low(p));
    ColumnPairs(m);
  }

  lemma LowWide(p: bv32)
    requires p <= 0xff
    ensures Wide(Low(p)) == p
  {}

  lemma SpreadPairs(l: bv8)
    ensures var a, b := Spread(l << 4, Not8(l) << 4), Spread(l, Not8(l));
            AllPairs(a) && AllPairs(b) && Gather(b, a) == l
  {}

  lemma ColumnPairs(m: bv8)
    requires Single(m)
    ensures var c := ColumnParity(m) & 0xfc;
            IsOdd(ColumnParity(m)) && ColPairs(c) && c & 0x03 == 0 && Mask(BitAt256(c)) == m
  {
    match m
    case 1 =>
    case 2 =>
    case 4 =>
    case 8 =>
    case 0x10 =>
    case 0x20 =>
    case 0x40 =>
    case _ =>
  }

  lemma PairsFacts(a: bv8, b: bv8)
    ensures (AllPairs(a) ==> a != 0 && !Single(a)) && !AllPairs(0) && !ColPairs(0)
    ensures AllPairs(a) && AllPairs(b) && a != b ==> X8(a, b) != 0 && !Single(X8(a, b)) && !AllPairs(X8(a, b))
    ensures ColPairs(a) && ColPairs(b) && a & 0x03 == 0 && b & 0x03 == 0 && a != b ==>
      X8(a, b) != 0 && !Single(X8(a, b))
    ensures ColPairs(a) && ColPairs(b) ==> !ColPairs(X8(a, b))
    ensures (AllPairs(a) && Single(b) ==> !AllPairs(X8(a, b)) && X8(a, b) != 0)
      && (ColPairs(a) && Single(b) && b >= 4 ==> !ColPairs(X8(a, b)))
    ensures Single(a) && Single(b) && a != b ==> X8(a, b) != 0 && !Single(X8(a, b))
    ensures Single(a) ==> a != 0 && !AllPairs(a)
    ensures X8(a, 0) == a == X8(0, a) && X8(a, a) == 0
  {}

  lemma Hopeless256(d: Code)
    requires d.e0 != 0 || d.e1 != 0 || d.e2 != 0
    requires !(AllPairs(d.e0) && AllPairs(d.e1) && ColPairs(d.e2))
    requires !(Single(d.e0) && d.e1 == 0 && d.e2 == 0) && !(d.e0 == 0 && Single(d.e1) && d.e2 == 0)
      && !(d.e0 == 0 && d.e1 == 0 && Single(d.e2))
    ensures Decide256(d) == Hopeless
  {
    hide OneBit256, AllPairs, ColPairs, Single;
    OneBit256Iff(d.e0, d.e1, d.e2);
    NoneSet(d.e0, d.e1, d.e2);
  }

  lemma NoneSet(a: bv8, b: bv8, c: bv8)
    ensures a | b | c == 0 <==> a == 0 && b == 0 && c == 0
  {}

  lemma OneFlip256(f: Flip256)
    requires f.Valid()
    ensures Decide256(f.Trace()) == if f.InBlock? then FixData(f.p, f.m) else FixCode
  {
    hide OneBit256, AllPairs, ColPairs, Single, Gather, Mask, BitAt256, Shown, Part, Wide;
    var d := f.Trace();
    NoneSet(d.e0, d.e1, d.e2);
    PairsFacts(d.e0, d.e0);
    PairsFacts(d.e1, d.e1);
    NotNone(d.e2);
    OneBit256Iff(d.e0, d.e1, d.e2);
    if f.InBlock? {
      BlockTrace(f.p, f.m);
    }
  }

  lemma TwoFlips256(f: Flip256, g: Flip256)
    requires f.Valid() && g.Valid() && f != g
    ensures Decide256(Diff(f.Trace(), g.Trace())) == Hopeless
  {
    hide Decide256, Diff, Single, Shown, Part;
    if f.InBlock? && g.InBlock? {
      TwoInBlock(f.p, f.m, g.p, g.m);
    } else if f.InBlock? {
      BlockAndCode(f.p, f.m, g);
    } else if g.InBlock? {
      BlockAndCode(g.p, g.m, f);
      SwapDiff(f.Trace(), g.Trace());
    } else {
      TwoInCode256(f, g);
    }
  }

  lemma TwoInBlock(p: bv32, m: bv8, q: bv32, n: bv8)
    requires Single(m) && Single(n) && p <= 0xff && q <= 0xff && (p != q || m != n)
    ensures Decide256(Diff(Shown(Part(p, m)), Shown(Part(q, n)))) == Hopeless
  {
    hide AllPairs, ColPairs, Single, Gather, Mask, BitAt256, Shown, Part, Wide, X8, Decide256;
    var a, b := Shown(Part(p, m)), Shown(Part(q, n));
    BlockTrace(p, m);
    BlockTrace(q, n);
    PairsFacts(a.e0, b.e0);
    PairsFacts(a.e1, b.e1);
    PairsFacts(a.e2, b.e2);
    Hopeless256(Diff(a, b));
  }

  lemma BlockAndCode(p: bv32, m: bv8, g: Flip256)
    requires Single(m) && p <= 0xff && g.Valid() && !g.InBlock?
    ensures Decide256(Diff(Shown(Part(p, m)), g.Trace())) == Hopeless
  {
    hide AllPairs, ColPairs, Single, Gather, Mask, BitAt256, Shown, Part, Wide, X8, Decide256;
    var a, b := Shown(Part(p, m)), g.Trace();
    BlockTrace(p, m);
    PairsFacts(a.e0, b.e0);
    PairsFacts(a.e1, b.e1);
    PairsFacts(a.e2, b.e2);
    Hopeless256(Diff(a, b));
  }

  lemma TwoInCode256(f: Flip256, g: Flip256)
    requires f.Valid() && g.Valid() && !f.InBlock? && !g.InBlock? && f != g
    ensures Decide256(Diff(f.Trace(), g.Trace())) == Hopeless
  {
    hide AllPairs, ColPairs, Single, X8, Decide256;
    var a, b := f.Trace(), g.Trace();
    PairsFacts(a.e0, b.e0);
    PairsFacts(a.e1, b.e1);
    PairsFacts(a.e2, b.e2);
    PairsFacts(b.e0, a.e0);
    PairsFacts(b.e1, a.e1);
    PairsFacts(b.e2, a.e2);
    Hopeless256(Diff(a, b));
  }

  lemma SwapDiff(a: Code, b: Code)
    ensures Diff(a, b) == Diff(b, a)
  {
    hide X8;
    Commutes(a.e0, b.e0, 0, 0);
    Commutes(a.e1, b.e1, 0, 0);
    Commutes(a.e2, b.e2, 0, 0);
  }

  datatype Block = Block(data: seq<bv8>, code: Code) {
    predicate Valid() {
      256 <= |data| <= 0xFFFF_FFFF
    }

    function Delta(): Code
      requires Valid()
    {
      Diff(code, CodeOf256(data))
    }

    function Damaged(f: Flip256): (d: Block)
      requires Valid() && (f.InBlock? ==> Index(f.p) < 256)
      ensures d.Valid() && |d.data| == |data|
    {
      match f
      case InBlock(p, m) => Block(Flipped(data, p, m), code)
      case _ => Block(data, Diff(code, f.Trace()))
    }
  }

  lemma ShuffleDiff(a: Code, b: Code, c: Code)
    ensures Diff(Diff(a, b), c) == Diff(a, Diff(b, c)) == Diff(Diff(a, c), b)
    ensures Diff(a, a) == Code(0, 0, 0) && Diff(Code(0, 0, 0), a) == a && Diff(Diff(a, b), a) == b
      && Diff(a, Diff(a, b)) == b
  {
    hide X8;
    X8Laws(a.e0, b.e0, c.e0);
    X8Laws(a.e1, b.e1, c.e1);
    X8Laws(a.e2, b.e2, c.e2);
  }

  lemma DamageTrace256(s: Block, f: Flip256)
    requires s.Valid() && f.Valid() && (f.InBlock? ==> Index(f.p) < 256)
    ensures s.Damaged(f).Delta() == Diff(s.Delta(), f.Trace())
  {
    hide Single, Shown, Part, Plus, Fold, Diff, Packed, Low, X8, X32;
    var old', c := Fold(s.data, 256), CodeOf256(s.data);
    ShuffleDiff(s.code, c, f.Trace());
    if f.InBlock? {
      var part := Part(f.p, f.m);
      FlipSums(s.data, 256, f.p, f.m);
      var new' := Fold(Flipped(s.data, f.p, f.m), 256);
      var c' := CodeOf256(Flipped(s.data, f.p, f.m));
      PackedDiff(old', new');
      Shuffle(old', old', part);
      CancelSums(old', part);
      assert Diff(c, c') == Shown(part);
      ShuffleDiff(c, c', c');
      ShuffleDiff(s.code, c, Shown(part));
    }
  }

  lemma CancelSums(a: Sums, b: Sums)
    ensures Plus(a, Plus(a, b)) == b
  {
    hide X8, X32;
    X8Laws(a.col, b.col, b.col);
    X32Laws(a.line, b.line, b.line);
    X32Laws(a.prime, b.prime, b.prime);
  }

  /** For a block of 256 bytes: one flipped bit is found out exactly. */
  lemma CorrectsOne256(data: seq<bv8>, f: Flip256)
    requires 256 <= |data| <= 0xFFFF_FFFF && f.Valid() && (f.InBlock? ==> Index(f.p) < 256)
    ensures Decide256(Block(data, CodeOf256(data)).Delta()) == Clean
    ensures var d := Block(data, CodeOf256(data)).Damaged(f);
            if f.InBlock? then Decide256(d.Delta()) == FixData(f.p, f.m) && Flipped(d.data, f.p, f.m) == data
            else Decide256(d.Delta()) == FixCode && d.data == data
  {
    hide Decide256, Single, Shown, Part, Fold, X8, Diff, Index, Flipped, Packed;
    var c := CodeOf256(data);
    DamageTrace256(Block(data, c), f);
    ShuffleDiff(c, c, f.Trace());
    ShuffleDiff(f.Trace(), c, c);
    OneFlip256(f);
    NothingIsClean();
    if f.InBlock? {
      FlippedBack(data, f.p, f.m);
    }
  }

  /** And any two are noticed. */
  lemma DetectsTwo256(data: seq<bv8>, f: Flip256, g: Flip256)
    requires 256 <= |data| <= 0xFFFF_FFFF && f.Valid() && g.Valid() && f != g
    requires (f.InBlock? ==> Index(f.p) < 256) && (g.InBlock? ==> Index(g.p) < 256)
    ensures Decide256(Block(data, CodeOf256(data)).Damaged(f).Damaged(g).Delta()) == Hopeless
  {
    hide Decide256, Single, Shown, Part, Fold, X8, Diff;
    var c := CodeOf256(data);
    var s := Block(data, c);
    DamageTrace256(s, f);
    DamageTrace256(s.Damaged(f), g);
    ShuffleDiff(c, c, c);
    ShuffleDiff(f.Trace(), c, c);
    TwoFlips256(f, g);
  }

  lemma LowOfZero()
    ensures Low(0) == 0
  {}

  /** yaffs_ecc_calc. */
  method Calc(data: array<bv8>) returns (code: Code)
    requires 256 <= data.Length <= 0xFFFF_FFFF
    ensures code == CodeOf256(data[..])
  {
    hide Single, Part, Plus, X8, X32, Line, Low, Packed;
    var col: bv8, line: bv8, prime: bv8 := 0, 0, 0;
    LowOfZero();
    var i := 0;
    while i < 256
      invariant i <= 256 && col == Fold(data[..], i).col && line == Low(Fold(data[..], i).line)
        && prime == Low(Fold(data[..], i).prime)
    {
      var b := ColumnParity(data[i]);
      ghost var was := Fold(data[..], i);
      col := X8(col, b);
      if IsOdd(b) {
        line := X8(line, Low(Line(i)));
        prime := X8(prime, Low(!Line(i)));
      }
      AddPart(was, Line(i), data[i]);
      LowPlus(was.line, Line(i));
      LowPlus(was.prime, !Line(i));
      i := i + 1;
    }
    code := Packed(col, line, prime);
  }

  /** yaffs_ecc_correct. */
  method Correct(data: array<bv8>, readCode: Code, testCode: Code) returns (r: int, code: Code)
    requires 256 <= data.Length <= 0xFFFF_FFFF
    modifies data
    ensures match Decide256(Diff(readCode, testCode))
      case Clean => r == 0 && data[..] == old(data[..]) && code == readCode
      case FixData(p, m) => r == 1 && Index(p) < 256 && data[..] == Flipped(old(data[..]), p, m) && code == readCode
      case FixCode => r == 1 && data[..] == old(data[..]) && code == testCode
      case Hopeless => r == -1 && data[..] == old(data[..]) && code == readCode
  {
    hide X8, OneBit256, AllPairs, ColPairs, Gather, BitAt256, Mask, NoBits, Index, Wide;
    code := readCode;
    var d := Diff(readCode, testCode);
    if NoBits(d) {
      return 0, code;
    }
    if AllPairs(d.e0) && AllPairs(d.e1) && ColPairs(d.e2) {
      var at := Index(Wide(Gather(d.e1, d.e0)));
      WideIndex(Gather(d.e1, d.e0));
      data[at] := X8(data[at], Mask(BitAt256(d.e2)));
      return 1, code;
    }
    if OneBit256(d.e0, d.e1, d.e2) {
      return 1, testCode;
    }
    r := -1;
  }

  lemma WideIndex(x: bv8)
    ensures Index(Wide(x)) < 256
  {}
}
