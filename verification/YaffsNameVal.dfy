/** The name and value store that YAFFS keeps extended attributes in: records in one byte buffer. */
module YaffsNameVal {
  import opened Bytes

  const EEXIST: int := 17
  const ENODATA: int := 61
  const ENOSPC: int := 28
  const ERANGE: int := 34

  const INT_SIZE: nat := 4

  datatype Rec = Rec(name: seq<byte>, value: seq<byte>) {
    function Length(): nat {
      INT_SIZE + |name| + 1 + |value|
    }
  }

  /** A name as C has it: no zero inside. */
  predicate IsName(name: seq<byte>) {
    forall i :: 0 <= i < |name| ==> name[i] != 0
  }

  /** The record size, the name and its terminator, the value. */
  function Encoded(r: Rec): (s: seq<byte>)
    ensures |s| == r.Length()
  {
    Le32(r.Length()) + r.name + [0] + r.value
  }

  function Image(recs: seq<Rec>): seq<byte> {
    if recs == [] then [] else Image(recs[..|recs| - 1]) + Encoded(recs[|recs| - 1])
  }

  ghost predicate Distinct(recs: seq<Rec>) {
    && (forall i :: 0 <= i < |recs| ==> IsName(recs[i].name))
    && forall i, j :: 0 <= i < j < |recs| ==> recs[i].name != recs[j].name
  }

  /** The test every loop over the records makes. */
  predicate Continues(size: int, pos: nat, xbSize: nat) {
    size > 0 && size < xbSize && pos + size < xbSize
  }

  /** The record size that is read at `pos`: none is where it would not fit, but for the first. */
  function SizeSeen(xb: seq<byte>, pos: nat): nat
    requires INT_SIZE <= |xb|
  {
    if pos == 0 || pos + INT_SIZE < |xb| then Val32(xb[pos..pos + INT_SIZE]) else 0
  }

  /** A reader of the buffer meets these records and then stops. */
  ghost predicate Holds(xb: seq<byte>, recs: seq<Rec>) {
    && INT_SIZE <= |xb| < 0x8000_0000 && |Image(recs)| < |xb| && xb[..|Image(recs)|] == Image(recs)
    && !Continues(SizeSeen(xb, |Image(recs)|), |Image(recs)|, |xb|)
  }

  /** No record size stands here. */
  ghost predicate StartsEmpty(t: seq<byte>) {
    forall j :: 0 <= j < |t| && j < INT_SIZE ==> t[j] == 0
  }

  /** The records, and behind them either a record that ends with the buffer, which no reader meets, or zeros: four
      bytes of them, unless the buffer ends before. */
  ghost predicate Tidy(xb: seq<byte>, recs: seq<Rec>, lost: seq<Rec>) {
    && INT_SIZE <= |xb| < 0x8000_0000 && |lost| <= 1 && |Image(recs)| < |xb| && Image(recs + lost) <= xb
    && (lost != [] ==> |Image(recs + lost)| == |xb|)
    && StartsEmpty(xb[|Image(recs + lost)|..])
  }

  lemma ImageSnoc(recs: seq<Rec>, r: Rec)
    ensures Image(recs + [r]) == Image(recs) + Encoded(r)
  {
    assert (recs + [r])[..|recs|] == recs;
  }

  lemma Regroup<T>(a: seq<T>, b: seq<T>, c: seq<T>)
    ensures (a + b) + c == a + (b + c)
  {}

  lemma {:induction false} ImageAppend(a: seq<Rec>, b: seq<Rec>)
    ensures Image(a + b) == Image(a) + Image(b)
  {
    if b == [] {
      assert a + b == a;
    } else {
      hide Image, Encoded;
      var c, r := b[..|b| - 1], b[|b| - 1];
      ImageAppend(a, c);
      assert a + b == (a + c) + [r] && b == c + [r];
      ImageSnoc(a + c, r);
      ImageSnoc(c, r);
      Regroup(Image(a), Image(c), Encoded(r));
    }
  }

  /** Where record k is. */
  lemma ImageAt(recs: seq<Rec>, k: nat)
    requires k < |recs|
    ensures Image(recs) == Image(recs[..k]) + Encoded(recs[k]) + Image(recs[k + 1..])
    ensures Image(recs[..k + 1]) == Image(recs[..k]) + Encoded(recs[k])
  {
    hide Image, Encoded;
    SplitAt(recs, k);
    ImageSnoc(recs[..k], recs[k]);
    ImageAppend(recs[..k + 1], recs[k + 1..]);
  }

  lemma PartsAt(a: seq<byte>, e: seq<byte>, b: seq<byte>, s: seq<byte>)
    requires s == a + e + b
    ensures |a| + |e| <= |s| && s[|a|..|a| + |e|] == e && s[..|a|] == a && s[|a| + |e|..] == b
  {}

  /** The bytes of record k in the buffer. */
  lemma RecordAt(xb: seq<byte>, recs: seq<Rec>, k: nat)
    requires Holds(xb, recs) && k < |recs|
    ensures var pos, len := |Image(recs[..k])|, recs[k].Length();
            && pos + len == |Image(recs[..k + 1])| <= |Image(recs)|
            && xb[pos..pos + len] == Encoded(recs[k])
  {
    hide Image, Encoded, SizeSeen, Continues;
    ImageAt(recs, k);
    var a, e, b := Image(recs[..k]), Encoded(recs[k]), Image(recs[k + 1..]);
    PartsAt(a, e, b, Image(recs));
    SliceOfSlice(xb, 0, |Image(recs)|, |a|, |a| + |e|);
  }

  lemma EncodedFields(r: Rec, s: seq<byte>)
    requires s == Encoded(r)
    ensures s[0..INT_SIZE] == Le32(r.Length()) && s[INT_SIZE..INT_SIZE + |r.name|] == r.name
      && s[INT_SIZE + |r.name|] == 0
    ensures s[INT_SIZE + |r.name| + 1..r.Length()] == r.value
  {
    hide Le32;
  }

  /** The fields of a record. */
  lemma FieldsAt(xb: seq<byte>, recs: seq<Rec>, k: nat)
    requires Holds(xb, recs) && k < |recs|
    ensures var pos, r := |Image(recs[..k])|, recs[k];
            && pos + r.Length() < |xb|
            && Val32(xb[pos..pos + INT_SIZE]) == r.Length()
            && xb[pos + INT_SIZE..pos + INT_SIZE + |r.name|] == r.name && xb[pos + INT_SIZE + |r.name|] == 0
            && xb[pos + INT_SIZE + |r.name| + 1..pos + r.Length()] == r.value
  {
    hide Le32, Val32, Image, SizeSeen, Continues;
    RecordAt(xb, recs, k);
    var pos, r := |Image(recs[..k])|, recs[k];
    var end := pos + r.Length();
    Le32Value(r.Length());
    EncodedFields(r, xb[pos..end]);
    SliceOfSlice(xb, pos, end, 0, INT_SIZE);
    SliceOfSlice(xb, pos, end, INT_SIZE, INT_SIZE + |r.name|);
    SliceOfSlice(xb, pos, end, INT_SIZE + |r.name| + 1, r.Length());
  }

  lemma TidyHolds(xb: seq<byte>, recs: seq<Rec>, lost: seq<Rec>)
    requires Tidy(xb, recs, lost)
    ensures Holds(xb, recs)
  {
    hide Image, Le32, Val32, Encoded;
    var n := |Image(recs)|;
    if lost == [] {
      assert recs + lost == recs;
      if n == 0 || n + INT_SIZE < |xb| {
        EmptySeen(xb, n);
      }
    } else {
      assert lost == [lost[0]];
      ImageSnoc(recs, lost[0]);
      CutNotFound(xb, recs, lost[0]);
    }
  }

  lemma EmptySeen(xb: seq<byte>, n: nat)
    requires n + INT_SIZE <= |xb| && StartsEmpty(xb[n..])
    ensures Val32(xb[n..n + INT_SIZE]) == 0
  {
    assert xb[n..n + INT_SIZE] == xb[n..][..INT_SIZE];
  }

  /** Behind the last record stands one that does not end before the buffer does. */
  lemma CutNotFound(xb: seq<byte>, recs: seq<Rec>, r: Rec)
    requires INT_SIZE <= |xb| < 0x8000_0000 && xb <= Image(recs) + Encoded(r) && r.Length() < 0x1_0000_0000
    requires |Image(recs)| + INT_SIZE < |xb|
    ensures Holds(xb, recs)
  {
    hide Image, Le32, Val32, Encoded;
    var pos, all := |Image(recs)|, Image(recs) + Encoded(r);
    EncodedFields(r, Encoded(r));
    Le32Value(r.Length());
    assert xb == all[..|xb|];
    SliceOfSlice(all, 0, |xb|, pos, pos + INT_SIZE);
    SliceOfSlice(all, pos, |all|, 0, INT_SIZE);
    assert all[pos..|all|] == Encoded(r);
    assert xb[pos..pos + INT_SIZE] == Le32(r.Length());
    assert xb[..pos] == all[..pos] == Image(recs);
  }

  // ---- the records as a map ----

  ghost function Values(recs: seq<Rec>): map<seq<byte>, seq<byte>> {
    if recs == [] then map[] else Values(recs[..|recs| - 1])[recs[|recs| - 1].name := recs[|recs| - 1].value]
  }

  lemma {:induction false} ValueOf(recs: seq<Rec>, name: seq<byte>)
    requires Distinct(recs)
    ensures name in Values(recs) <==> exists k :: 0 <= k < |recs| && recs[k].name == name
    ensures forall k ::
      0 <= k < |recs| && recs[k].name == name ==> name in Values(recs) && Values(recs)[name] == recs[k].value
  {
    if recs != [] {
      var n := |recs| - 1;
      ValueOf(recs[..n], name);
      if name in Values(recs[..n]) {
        var k :| 0 <= k < n && recs[..n][k].name == name;
        assert recs[k].name == name;
      }
    }
  }

  lemma ValuesSnoc(recs: seq<Rec>, r: Rec)
    ensures Values(recs + [r]) == Values(recs)[r.name := r.value]
  {
    assert (recs + [r])[..|recs|] == recs;
  }

  function Without(recs: seq<Rec>, k: nat): seq<Rec>
    requires k < |recs|
  {
    recs[..k] + recs[k + 1..]
  }

  /** Where entry j comes from when entry k is dropped. */
  function Skip(j: nat, k: nat): nat {
    if j < k then j else j + 1
  }

  lemma WithoutAt(recs: seq<Rec>, k: nat, j: nat)
    requires k < |recs| && j < |recs| - 1
    ensures |Without(recs, k)| == |recs| - 1 && Without(recs, k)[j] == recs[Skip(j, k)]
  {}

  lemma WithoutDistinct(recs: seq<Rec>, k: nat)
    requires Distinct(recs) && k < |recs|
    ensures Distinct(Without(recs, k))
    ensures forall j :: 0 <= j < |Without(recs, k)| ==> Without(recs, k)[j].name != recs[k].name
  {
    hide Without;
    var rest := Without(recs, k);
    forall j | 0 <= j < |recs| - 1 ensures |rest| == |recs| - 1 && rest[j] == recs[Skip(j, k)] {
      WithoutAt(recs, k, j);
    }
    WithoutLength(recs, k);
  }

  lemma WithoutLength(recs: seq<Rec>, k: nat)
    requires k < |recs|
    ensures |Without(recs, k)| == |recs| - 1
  {}

  lemma NameIn(recs: seq<Rec>, k: nat)
    requires Distinct(recs) && k < |recs|
    ensures recs[k].name in Values(recs) && Values(recs)[recs[k].name] == recs[k].value
  {
    hide Values;
    ValueOf(recs, recs[k].name);
  }

  lemma Holder(recs: seq<Rec>, x: seq<byte>) returns (k: nat)
    requires Distinct(recs) && x in Values(recs)
    ensures k < |recs| && recs[k].name == x && Values(recs)[x] == recs[k].value
  {
    hide Values;
    ValueOf(recs, x);
    k :| 0 <= k < |recs| && recs[k].name == x;
  }

  /** Dropping record k drops its name, */
  lemma OtherNames(recs: seq<Rec>, k: nat, x: seq<byte>)
    requires Distinct(recs) && k < |recs| && x in Values(Without(recs, k))
    ensures Distinct(Without(recs, k))
    ensures x != recs[k].name && x in Values(recs) && Values(Without(recs, k))[x] == Values(recs)[x]
  {
    hide Values, Without, Distinct;
    WithoutDistinct(recs, k);
    WithoutLength(recs, k);
    var j := Holder(Without(recs, k), x);
    WithoutAt(recs, k, j);
    NameIn(recs, Skip(j, k));
  }

  /** and no other. */
  lemma OtherNamesKept(recs: seq<Rec>, k: nat, x: seq<byte>)
    requires Distinct(recs) && k < |recs| && x in Values(recs) && x != recs[k].name
    ensures x in Values(Without(recs, k))
  {
    hide Values, Without, Distinct;
    WithoutDistinct(recs, k);
    WithoutLength(recs, k);
    var j := Holder(recs, x);
    var i := if j < k then j else j - 1;
    WithoutAt(recs, k, i);
    NameIn(Without(recs, k), i);
  }

  lemma ValuesWithout(recs: seq<Rec>, k: nat)
    requires Distinct(recs) && k < |recs|
    ensures Distinct(Without(recs, k)) && Values(Without(recs, k)) == Values(recs) - {recs[k].name}
    ensures forall j :: 0 <= j < |Without(recs, k)| ==> Without(recs, k)[j].name != recs[k].name
  {
    hide Values, Without;
    WithoutDistinct(recs, k);
    var old', new' := Values(recs), Values(Without(recs, k));
    forall x | x in new' ensures x != recs[k].name && x in old' && new'[x] == old'[x] {
      OtherNames(recs, k, x);
    }
    forall x | x in old' && x != recs[k].name ensures x in new' {
      OtherNamesKept(recs, k, x);
    }
  }

  /** With record k dropped and the lost one met again. */
  lemma ValuesRevealed(recs: seq<Rec>, lost: seq<Rec>, k: nat)
    requires Distinct(recs + lost) && k < |recs| && |lost| <= 1
    ensures var now := Without(recs, k) + lost;
            Distinct(now) && Values(now) == Values(recs) - {recs[k].name} + Values(lost)
              && forall j :: 0 <= j < |now| ==> now[j].name != recs[k].name
    ensures recs[k].name !in Values(Without(recs, k) + lost)
  {
    hide Distinct, Values;
    var all := recs + lost;
    ValuesWithout(all, k);
    assert Without(all, k) == Without(recs, k) + lost && all[k] == recs[k];
    if lost == [] {
      assert all == recs;
      NoValues();
    } else {
      ValuesSnoc(recs, lost[0]);
      assert lost == [lost[0]] && all == recs + [lost[0]];
      OneValue(lost[0]);
      LastName(recs, lost[0], k);
    }
  }

  lemma NoValues()
    ensures Values([]) == map[]
  {}

  lemma OneValue(r: Rec)
    ensures Values([r]) == map[r.name := r.value]
  {
    ValuesSnoc([], r);
  }

  lemma LastName(recs: seq<Rec>, r: Rec, k: nat)
    requires Distinct(recs + [r]) && k < |recs|
    ensures r.name != recs[k].name
  {
    assert (recs + [r])[k] == recs[k] && (recs + [r])[|recs|] == r;
  }

  lemma FewerDistinct(recs: seq<Rec>, more: seq<Rec>)
    requires Distinct(recs + more)
    ensures Distinct(recs)
  {
    forall i | 0 <= i < |recs| ensures (recs + more)[i] == recs[i] {}
  }

  /** Without record k the buffer holds the others, and one that ended with the buffer comes to light. */
  lemma TidyWithout(xb: seq<byte>, recs: seq<Rec>, lost: seq<Rec>, k: nat)
    requires Tidy(xb, recs, lost) && k < |recs|
    ensures var pos, len := |Image(recs[..k])|, recs[k].Length();
            pos + len <= |xb| && Tidy(xb[..pos] + xb[pos + len..] + Zeros(len), Without(recs, k) + lost, [])
    ensures |Image(Without(recs, k) + lost)| + recs[k].Length() == |Image(recs + lost)|
  {
    hide Image, Encoded;
    var all := recs + lost;
    assert all[..k] == recs[..k] && all[k] == recs[k] && Without(all, k) == Without(recs, k) + lost;
    ImageAt(all, k);
    ImageAppend(all[..k], all[k + 1..]);
    var a, e, b := Image(all[..k]), Encoded(all[k]), Image(all[k + 1..]);
    var len, rest := recs[k].Length(), xb[|Image(all)|..];
    assert xb == Image(all) + rest;
    Regroup(a + e, b, rest);
    PartsAt(a, e, b + rest, xb);
    Assoc(a, b, rest, Zeros(len));
    Leading(a + b, rest + Zeros(len));
    assert Without(all, k) + [] == Without(all, k);
  }

  lemma Leading(a: seq<byte>, b: seq<byte>)
    ensures a <= a + b && (a + b)[|a|..] == b
  {}

  lemma Assoc(a: seq<byte>, b: seq<byte>, c: seq<byte>, d: seq<byte>)
    ensures a + (b + c) + d == (a + b) + (c + d)
  {}

  /** With a record written behind the others the buffer holds it as well if something follows it. One that fills the
      buffer to its end is not found. */
  lemma LastFoundIff(xb: seq<byte>, recs: seq<Rec>, r: Rec, rest: seq<byte>)
    requires xb == Image(recs) + Encoded(r) + rest && StartsEmpty(rest) && INT_SIZE <= |xb| < 0x8000_0000
    ensures Holds(xb, recs + [r]) <==> rest != []
    ensures rest != [] ==> Tidy(xb, recs + [r], [])
    ensures rest == [] ==> Tidy(xb, recs, [r]) && Holds(xb, recs)
  {
    hide Image, Le32, Val32, Encoded;
    ImageSnoc(recs, r);
    Leading(Image(recs + [r]), rest);
    assert recs + [r] + [] == recs + [r];
    if rest != [] {
      TidyHolds(xb, recs + [r], []);
    } else {
      assert xb == Image(recs + [r]);
      TidyHolds(xb, recs, [r]);
    }
  }

  /** A buffer of eight bytes with one record of eight, named "a", with two bytes of value: it reads as empty. */
  lemma FullBufferReadsEmpty()
    ensures Holds(Encoded(Rec([97], [1, 2])), []) && |Encoded(Rec([97], [1, 2]))| == 8
  {
    var r := Rec([97], [1, 2]);
    assert Image([]) == [];
    LastFoundIff(Encoded(r), [], r, []);
  }

  class NameVal {
    const size: nat           // of the buffer
    const xb: array<byte>     // the buffer, and the memory that follows it
    ghost var recs: seq<Rec>  // what a reader meets
    ghost var lost: seq<Rec>  // a record that ends with the buffer

    ghost predicate Readable()
      reads this, xb
    {
      size + INT_SIZE + size <= xb.Length && Holds(xb[..size], recs) && Distinct(recs)
    }

    ghost predicate Valid()
      reads this, xb
    {
      size + INT_SIZE + size <= xb.Length && Tidy(xb[..size], recs, lost) && Distinct(recs + lost)
    }

    lemma ValidReads()
      requires Valid()
      ensures Readable() && |lost| <= 1
    {
      TidyHolds(xb[..size], recs, lost);
      FewerDistinct(recs, lost);
    }

    constructor (size: nat, more: nat)
      requires INT_SIZE <= size < 0x8000_0000 && INT_SIZE + size <= more
      ensures Valid() && recs == lost == [] && this.size == size && xb.Length == size + more && fresh(xb)
    {
      this.size := size;
      xb := new byte[size + more](_ => 0);
      recs, lost := [], [];
      new;
      assert recs + lost == [];
    }

    /** The size of the record at `pos`, zero where none can be. */
    method SizeAt(pos: nat) returns (s: nat)
      requires 0 < pos && INT_SIZE <= size <= xb.Length
      ensures s == SizeSeen(xb[..size], pos)
    {
      if pos + INT_SIZE < size {
        SubAgain(pos, pos + INT_SIZE);
        s := Val32(xb[pos..pos + INT_SIZE]);
      } else {
        s := 0;
      }
    }

    /** strncmp of the name at `at`, of at most `limit` characters, with a name. */
    method SameName(at: nat, name: seq<byte>, limit: nat, ghost there: seq<byte>) returns (same: bool)
      requires IsName(name) && IsName(there) && |there| < limit && at + |there| < size <= xb.Length
      requires xb[at..at + |there|] == there && xb[at + |there|] == 0
      ensures same == (there == name)
    {
      var j := 0;
      while j < limit
        invariant j <= |there| && j <= |name| && there[..j] == name[..j]
        decreases limit - j
      {
        assert j < |there| ==> there[j] == xb[at..at + |there|][j] == xb[at + j];
        var c := if j < |name| then name[j] else 0;
        if xb[at + j] != c {
          return false;
        }
        if c == 0 {
          assert there[..j] == there && name[..j] == name;
          return true;
        }
        j := j + 1;
      }
      same := true;
    }

    /** nval_find: the position and size of the record of a name. */
    method Find(name: seq<byte>) returns (pos: int, len: nat, ghost k: nat)
      requires Readable() && IsName(name)
      ensures k <= |recs|
        && if k < |recs| then recs[k].name == name && pos == |Image(recs[..k])| && len == recs[k].Length()
              else pos == -ENODATA && len == 0 && forall j :: 0 <= j < |recs| ==> recs[j].name != name
      ensures (pos >= 0 <==> name in Values(recs)) && (pos < 0 ==> pos == -ENODATA && len == 0)
    {
      hide Image, Encoded, Holds, Val32, SizeSeen, Values;
      ValueOf(recs, name);
      k := 0;
      pos := 0;
      SizesAt(0);
      assert recs[..0] == [];
      len := SizeFirst();
      while Continues(len, pos, size)
        invariant k <= |recs| && pos == |Image(recs[..k])| && len == SizeSeen(xb[..size], pos)
        invariant forall j :: 0 <= j < k ==> recs[j].name != name
        decreases |recs| - k
      {
        SizesAt(k);
        SizesAt(k + 1);
        var same := Matches(pos, name, len, k);
        if same {
          return;
        }
        pos := pos + len;
        k := k + 1;
        len := SizeAt(pos);
      }
      SizesAt(k);
      pos, len := -ENODATA, 0;
    }

    /** Is the record at `pos` that of the name? */
    method Matches(pos: nat, name: seq<byte>, len: nat, ghost k: nat) returns (same: bool)
      requires Readable() && IsName(name) && k < |recs| && pos == |Image(recs[..k])| && len == recs[k].Length()
      ensures same == (recs[k].name == name)
    {
      hide Image, Encoded, Val32, SizeSeen;
      FieldsAt(xb[..size], recs, k);
      SubAgain(pos + INT_SIZE, pos + INT_SIZE + |recs[k].name|);
      same := SameName(pos + INT_SIZE, name, len, recs[k].name);
    }

    lemma SubAgain(i: nat, j: nat)
      requires i <= j <= size <= xb.Length
      ensures xb[..size][i..j] == xb[i..j]
    {
      SliceOfSlice(xb[..], 0, size, i, j);
    }

    lemma ByteOf(i: nat, j: nat, k: nat)
      requires i <= k && j <= xb.Length
      ensures k < j ==> xb[i..j][k - i] == xb[k]
    {}

    /** What the loops over the records see at record k, or behind the last one. */
    lemma SizesAt(k: nat)
      requires Readable() && k <= |recs|
      ensures INT_SIZE <= size
      ensures var pos := |Image(recs[..k])|;
              && (k < |recs| ==>
                   SizeSeen(xb[..size], pos) == recs[k].Length() > 0 && Continues(recs[k].Length(), pos, size)
                                 && |Image(recs[..k + 1])| == pos + recs[k].Length())
              && (k == |recs| ==> recs[..k] == recs && !Continues(SizeSeen(xb[..size], pos), pos, size))
      ensures Image([]) == []
    {
      hide Encoded, Val32, Le32;
      if k < |recs| {
        FieldsAt(xb[..size], recs, k);
        RecordAt(xb[..size], recs, k);
      } else {
        assert recs[..k] == recs;
      }
    }

    /** The size of the first record, which is read without a test. */
    method SizeFirst() returns (s: nat)
      requires INT_SIZE <= size <= xb.Length
      ensures s == SizeSeen(xb[..size], 0)
    {
      assert xb[..size][0..INT_SIZE] == xb[..INT_SIZE];
      s := Val32(xb[..INT_SIZE]);
    }

    /** nval_used: the bytes taken by the records. */
    method Used() returns (pos: nat)
      requires Readable()
      ensures pos == |Image(recs)|
    {
      hide Image, Encoded, Holds, Val32, SizeSeen;
      pos := 0;
      SizesAt(0);
      assert recs[..0] == [];
      var len := SizeFirst();
      ghost var k: nat := 0;
      while Continues(len, pos, size)
        invariant k <= |recs| && pos == |Image(recs[..k])| && len == SizeSeen(xb[..size], pos)
        decreases |recs| - k
      {
        SizesAt(k);
        SizesAt(k + 1);
        pos := pos + len;
        k := k + 1;
        len := SizeAt(pos);
      }
      SizesAt(k);
    }

    /** nval_del: the rest is shifted over the record, zeros come in at the end. A record that ended with the buffer is
        met again. */
    method Del(name: seq<byte>) returns (r: int)
      requires Valid() && IsName(name)
      modifies this`recs, this`lost, xb
      ensures Valid() && xb[size..] == old(xb[size..])
      ensures if name in Values(old(recs))
              then r == 0 && Values(recs) == Values(old(recs)) - {name} + Values(old(lost)) && lost == []
                   && name !in Values(recs)
              else r == -ENODATA && recs == old(recs) && lost == old(lost) && xb[..] == old(xb[..])
    {
      hide Image, Encoded, Val32, Values, Holds, Tidy, SizeSeen;
      ValidReads();
      var pos, len;
      ghost var k;
      pos, len, k := Find(name);
      ValueOf(recs, name);
      if pos < 0 {
        return -ENODATA;
      }
      SizesAt(k);
      RecordSize(k);
      ValuesRevealed(recs, lost, k);
      DelAt(pos, Val32(xb[pos..pos + INT_SIZE]), k);
      r := 0;
    }

    lemma RecordSize(k: nat)
      requires Readable() && k < |recs|
      ensures var pos := |Image(recs[..k])|;
              pos + INT_SIZE <= size && Val32(xb[pos..pos + INT_SIZE]) == recs[k].Length()
    {
      hide Image, Encoded, Val32, SizeSeen;
      FieldsAt(xb[..size], recs, k);
      SubAgain(|Image(recs[..k])|, |Image(recs[..k])| + INT_SIZE);
    }

    method DelAt(pos: nat, len: nat, ghost k: nat)
      requires Valid() && k < |recs| && pos == |Image(recs[..k])| && len == recs[k].Length()
      modifies this`recs, this`lost, xb
      ensures Valid() && recs == Without(old(recs), k) + old(lost) && lost == []
      ensures |Image(recs)| + len == |Image(old(recs + lost))| && xb[size..] == old(xb[size..])
    {
      hide Image, Encoded, Tidy, Holds;
      ValidReads();
      TidyWithout(xb[..size], recs, lost, k);
      ValuesRevealed(recs, lost, k);
      ShiftOut(pos, len);
      recs, lost := Without(recs, k) + lost, [];
      assert recs + lost == recs;
    }

    /** The rest of the buffer moves down and zeros come in. The bytes overlap; they are copied upwards. */
    method ShiftOut(pos: nat, len: nat)
      requires pos + len <= size <= xb.Length
      modifies xb
      ensures xb[..size] == old(xb[..size])[..pos] + old(xb[..size])[pos + len..] + Zeros(len)
      ensures xb[size..] == old(xb[size..])
    {
      ghost var was := xb[..];
      MoveDown(pos, len);
      Clear(size - len, len);
      ShiftedOut(was, xb[..], size, pos, len);
    }

    method MoveDown(pos: nat, len: nat)
      requires pos + len <= size <= xb.Length
      modifies xb
      ensures forall j {:trigger xb[j]} ::
        0 <= j < xb.Length ==> xb[j] == if pos <= j < size - len then old(xb[..])[j + len] else old(xb[..])[j]
    {
      ghost var was := xb[..];
      var i := pos;
      while i + len < size
        invariant pos <= i && i + len <= size
        invariant forall j {:trigger xb[j]} ::
          0 <= j < xb.Length ==> xb[j] == if pos <= j < i then was[j + len] else was[j]
      {
        xb[i] := xb[i + len];
        i := i + 1;
      }
    }

    method Clear(at: nat, n: nat)
      requires at + n <= xb.Length
      modifies xb
      ensures forall j :: 0 <= j < xb.Length ==> xb[j] == if at <= j < at + n then 0 else old(xb[j])
    {
      var i := 0;
      while i < n
        invariant i <= n
        invariant forall j :: 0 <= j < xb.Length ==> xb[j] == if at <= j < at + i then 0 else old(xb[j])
      {
        xb[at + i] := 0;
        i := i + 1;
      }
    }

    /** nval_get: the value, its length alone if no room is offered, or why there is none. */
    method Get(name: seq<byte>, bsize: nat) returns (r: int, out: seq<byte>)
      requires Readable() && IsName(name)
      ensures var m := Values(recs);
              if name !in m then r == -ENODATA && out == []
              else if bsize == 0 then r == |m[name]| && out == []
              else if |m[name]| <= bsize then r == |m[name]| && out == m[name]
              else r == -ERANGE && out == []
    {
      hide Image, Encoded, Val32, Values, SizeSeen, Holds;
      out := [];
      var pos, len;
      ghost var k;
      pos, len, k := Find(name);
      ValueOf(recs, name);
      if pos < 0 {
        return -ENODATA, out;
      }
      FieldsOf(k);
      ghost var rec, at := recs[k], pos;
      len := Val32(xb[pos..pos + INT_SIZE]);
      pos := pos + INT_SIZE;
      len := len - INT_SIZE;
      while pos < size && xb[pos] != 0 && len > 0
        invariant at + INT_SIZE <= pos <= at + INT_SIZE + |rec.name| && len == at + rec.Length() - pos
        decreases len
      {
        ByteOf(at + INT_SIZE, at + INT_SIZE + |rec.name|, pos);
        pos := pos + 1;
        len := len - 1;
      }
      pos := pos + 1;
      len := len - 1;
      if bsize == 0 {
        return len, out;
      }
      if len <= bsize {
        return len, xb[pos..pos + len];
      }
      r := -ERANGE;
    }

    /** The fields of record k, in the buffer itself. */
    lemma FieldsOf(k: nat)
      requires Readable() && k < |recs|
      ensures var pos, r := |Image(recs[..k])|, recs[k];
              && pos + r.Length() < size
              && Val32(xb[pos..pos + INT_SIZE]) == r.Length()
              && xb[pos + INT_SIZE..pos + INT_SIZE + |r.name|] == r.name && xb[pos + INT_SIZE + |r.name|] == 0
              && xb[pos + INT_SIZE + |r.name| + 1..pos + r.Length()] == r.value
    {
      hide Image, Encoded, Val32, SizeSeen;
      FieldsAt(xb[..size], recs, k);
      var pos, r := |Image(recs[..k])|, recs[k];
      SubAgain(pos, pos + INT_SIZE);
      SubAgain(pos + INT_SIZE, pos + INT_SIZE + |r.name|);
      SubAgain(pos + INT_SIZE + |r.name| + 1, pos + r.Length());
    }

    /** The bytes that a record of this name could take, as nval_set counts them. */
    ghost function Space(name: seq<byte>): int
      reads this, xb
    {
      size - |Image(recs)| + if name in Values(recs) then Rec(name, Values(recs)[name]).Length() else 0
    }

    /** The bytes there are for it in the end: with an old record of the name gone, one that had ended with the buffer
        is met again and stays. */
    ghost function Room(name: seq<byte>): int
      reads this, xb
    {
      if lost != [] && name in Values(recs) then Rec(name, Values(recs)[name]).Length() else Space(name)
    }

    /** The values of the other names, then. */
    ghost function Others(name: seq<byte>): map<seq<byte>, seq<byte>>
      reads this
    {
      if name in Values(recs) then Values(recs) - {name} + Values(lost) else Values(recs)
    }

    /** nval_set. A record that leaves not one byte of the buffer free is written but cannot be found; it comes to light
        when another is deleted, or written over by a longer one, which then leaves the buffer. And copying the name
        clears as many bytes as the record has, from behind its size on: the copy leaves the buffer exactly if fewer
        than four bytes are left free. */
    method Set(name: seq<byte>, value: seq<byte>, create: bool, replace: bool) returns (r: int)
      requires Valid() && IsName(name)
      modifies this`recs, this`lost, xb
      ensures Readable() && (r != 0 || Rec(name, value).Length() <= old(Room(name)) ==> Valid())
      ensures var m, len := Values(old(recs)), Rec(name, value).Length();
              if create && name in m then r == -EEXIST
              else if replace && name !in m then r == -ENODATA
              else if len > old(Space(name)) then r == -ENOSPC
              else r == 0 && Values(recs) == if len < old(Room(name)) then old(Others(name))[name := value]
                                             else old(Others(name))
      ensures r == 0 ==> lost == if Rec(name, value).Length() == old(Room(name)) then [Rec(name, value)] else []
      ensures r != 0 ==> recs == old(recs) && lost == old(lost) && xb[..] == old(xb[..])
      ensures var at, rec := size - old(Room(name)), Rec(name, value);
              forall j :: size <= j < xb.Length ==>
                xb[j] == if r == 0 && at <= j < at + rec.Length() then Encoded(rec)[j - at]
                         else if r == 0 && j < at + rec.Length() + INT_SIZE then 0 else old(xb[j])
    {
      hide Image, Encoded, Val32, Values, Holds, Tidy, SizeSeen;
      ValidReads();
      ghost var space0, room0, others := Space(name), Room(name), Others(name);
      var pos, sizeExist;
      ghost var k;
      pos, sizeExist, k := Find(name);
      ValueOf(recs, name);
      if create && pos >= 0 {
        return -EEXIST;
      }
      if replace && pos < 0 {
        return -ENODATA;
      }
      var start := Used();
      var space := size - start + sizeExist;
      var reclen := INT_SIZE + |name| + 1 + |value|;
      if reclen > space {
        return -ENOSPC;
      }
      if pos >= 0 {
        RecordAt(xb[..size], recs, k);
      }
      start := DropOld(name, pos, sizeExist, start, k);
      assert size - start == room0;
      Append(start, name, value);
      r := 0;
    }

    /** The old record of the name makes room. */
    method DropOld(name: seq<byte>, pos: int, len: nat, used: nat, ghost k: nat) returns (start: nat)
      requires Valid() && IsName(name) && used == |Image(recs)|
      requires if pos >= 0
               then k < |recs| && pos == |Image(recs[..k])| && len == recs[k].Length() && recs[k].name == name
               else len == 0 && forall j :: 0 <= j < |recs| ==> recs[j].name != name
      modifies this`recs, this`lost, xb
      ensures Readable() && Valid() && start == |Image(recs)| && size - start == old(Room(name))
      ensures xb[size..] == old(xb[size..])
      ensures Values(recs) == old(Others(name)) && forall j :: 0 <= j < |recs| ==> recs[j].name != name
    {
      hide Image, Encoded, Val32, Values, Holds, Tidy, SizeSeen;
      ValidReads();
      ValueOf(recs, name);
      start := used;
      if pos >= 0 {
        ValuesRevealed(recs, lost, k);
        LostLength();
        DelAt(pos, len, k);
        ValidReads();
        start := Used();
      }
    }

    lemma LostLength()
      requires Valid()
      ensures if lost == [] then recs + lost == recs else |Image(recs + lost)| == size
    {
      hide Image, Encoded;
    }

    /** Write a record behind the others. */
    method Append(start: nat, name: seq<byte>, value: seq<byte>)
      requires Readable() && IsName(name) && start == |Image(recs)| && Rec(name, value).Length() <= size
      requires start + Rec(name, value).Length() > size ==> start + INT_SIZE < size
      requires forall j :: 0 <= j < |recs| ==> recs[j].name != name
      modifies this`recs, this`lost, xb
      ensures Readable() && (start + Rec(name, value).Length() <= size ==> Valid())
      ensures Values(recs) == if start + Rec(name, value).Length() < size then Values(old(recs))[name := value]
                              else Values(old(recs))
      ensures lost == if start + Rec(name, value).Length() == size then [Rec(name, value)] else []
      ensures var rec := Rec(name, value);
              forall j :: size <= j < xb.Length ==>
                xb[j] == if start <= j < start + rec.Length() then Encoded(rec)[j - start]
                         else if j < start + rec.Length() + INT_SIZE then 0 else old(xb[j])
    {
      hide Image, Val32, Values, Le32, SizeSeen;
      ghost var was, rec := xb[..], Rec(name, value);
      var reclen := INT_SIZE + |name| + 1 + |value|;
      var pos := start;
      Copy(pos, Le32(reclen));
      pos := pos + INT_SIZE;
      StrNCpy(pos, name, reclen);
      pos := pos + |name| + 1;
      Copy(pos, value);
      RecordWritten(was, xb[..], start, rec);
      Written(was, xb[..], size, recs, rec);
      ValuesSnoc(recs, rec);
      DistinctSnoc(recs, rec);
      lost := if start + reclen == size then [rec] else [];
      if start + reclen < size {
        recs := recs + [rec];
      }
      assert recs + [] == recs;
    }

    method Copy(at: nat, s: seq<byte>)
      requires at + |s| <= xb.Length
      modifies xb
      ensures forall j :: 0 <= j < xb.Length ==> xb[j] == if at <= j < at + |s| then s[j - at] else old(xb[j])
    {
      var i := 0;
      while i < |s|
        invariant i <= |s|
        invariant forall j :: 0 <= j < xb.Length ==> xb[j] == if at <= j < at + i then s[j - at] else old(xb[j])
      {
        xb[at + i] := s[i];
        i := i + 1;
      }
    }

    /** strncpy: the string, and zeros up to n bytes in all. */
    method StrNCpy(at: nat, s: seq<byte>, n: nat)
      requires |s| <= n && at + n <= xb.Length
      modifies xb
      ensures forall j ::
        0 <= j < xb.Length ==>
        xb[j] == if at <= j < at + |s| then s[j - at] else if at <= j < at + n then 0 else old(xb[j])
    {
      Copy(at, s + Zeros(n - |s|));
    }

    /** The name at `at` is as long as its first zero is far. */
    method StrNLen(at: nat, limit: nat, ghost name: seq<byte>) returns (n: nat)
      requires IsName(name) && |name| < limit && at + |name| < xb.Length && xb[at..at + |name|] == name
        && xb[at + |name|] == 0
      ensures n == |name|
    {
      n := 0;
      while n < limit && xb[at + n] != 0
        invariant n <= |name|
        decreases |name| - n
      {
        assert n < |name| ==> name[n] == xb[at..at + |name|][n] == xb[at + n];
        n := n + 1;
      }
    }

    /** nval_list: the names in order, each with its terminator, as many as there is room for. */
    method List(bsize: nat) returns (out: seq<byte>, ghost k: nat)
      requires Readable()
      ensures k <= |recs| && out == Names(recs[..k])
      ensures k < |recs| ==> |out| + |recs[k].name| + 1 >= bsize
      ensures forall j :: 0 <= j < k ==> |Names(recs[..j])| + |recs[j].name| + 1 < bsize
      ensures out <= Names(recs) && (|Names(recs)| < bsize ==> out == Names(recs))
    {
      hide Image, Encoded, Holds, Val32, Names, SizeSeen;
      out := [];
      k := 0;
      var pos, filled := 0, false;
      SizesAt(0);
      assert recs[..0] == [];
      NamesNext(recs, 0);
      var len := SizeFirst();
      while len > INT_SIZE && len <= size && pos + len < size && !filled
        invariant k <= |recs| && out == Names(recs[..k])
          && (filled ==> k < |recs| && |out| + |recs[k].name| + 1 >= bsize)
        invariant !filled ==> pos == |Image(recs[..k])| && len == SizeSeen(xb[..size], pos)
        invariant forall j :: 0 <= j < k ==> |Names(recs[..j])| + |recs[j].name| + 1 < bsize
        decreases !filled, |recs| - k
      {
        SizesAt(k);
        SizesAt(k + 1);
        var name := NameAt(pos, len, k);
        if |out| + |name| + 1 < bsize {
          NamesNext(recs, k);
          out := out + name + [0];
          k := k + 1;
        } else {
          filled := true;
        }
        pos := pos + len;
        len := SizeAt(pos);
      }
      if k < |recs| {
        SizesAt(k);
        NamesNext(recs, k);
        NamesPrefix(recs, k + 1);
      }
      NamesPrefix(recs, k);
      assert recs[..|recs|] == recs;
    }

    method NameAt(pos: nat, len: nat, ghost k: nat) returns (name: seq<byte>)
      requires Readable() && k < |recs| && pos == |Image(recs[..k])| && len == recs[k].Length()
      ensures name == recs[k].name
    {
      hide Image, Encoded, Val32, SizeSeen;
      FieldsOf(k);
      var n := StrNLen(pos + INT_SIZE, len - INT_SIZE, recs[k].name);
      name := xb[pos + INT_SIZE..pos + INT_SIZE + n];
    }
  }

  /** The names, each with its terminator. */
  function Names(recs: seq<Rec>): seq<byte> {
    if recs == [] then [] else Names(recs[..|recs| - 1]) + recs[|recs| - 1].name + [0]
  }

  lemma NamesNext(recs: seq<Rec>, k: nat)
    requires k <= |recs|
    ensures Names([]) == [] && (k < |recs| ==> Names(recs[..k + 1]) == Names(recs[..k]) + recs[k].name + [0])
  {
    if k < |recs| {
      assert recs[..k + 1][..k] == recs[..k];
    }
  }

  lemma ShiftedOut(was: seq<byte>, now: seq<byte>, size: nat, pos: nat, len: nat)
    requires pos + len <= size <= |was| == |now|
    requires forall j {:trigger now[j]} :: 0 <= j < |now| ==> (now[j] ==
      if pos <= j < size - len then was[j + len] else if size - len <= j < size then 0 else was[j])
    ensures now[..size] == was[..size][..pos] + was[..size][pos + len..] + Zeros(len)
    ensures now[size..] == was[size..]
  {
    SliceOfSlice(was, 0, size, pos + len, size);
  }

  lemma {:induction false} NamesPrefix(recs: seq<Rec>, k: nat)
    requires k <= |recs|
    ensures Names(recs[..k]) <= Names(recs)
    decreases |recs| - k
  {
    if k < |recs| {
      NamesNext(recs, k);
      NamesPrefix(recs, k + 1);
    } else {
      assert recs[..k] == recs;
    }
  }

  /** Size, name and value, each written over zeros, make up the record. */
  lemma RecordWritten(was: seq<byte>, now: seq<byte>, start: nat, r: Rec)
    requires start + r.Length() + INT_SIZE <= |was| == |now|
    requires forall j :: 0 <= j < |now| ==> (now[j] ==
      if j < start then was[j]
      else if j < start + INT_SIZE then Le32(r.Length())[j - start]
      else if j < start + INT_SIZE + |r.name| then r.name[j - start - INT_SIZE]
      else if start + INT_SIZE + |r.name| + 1 <= j < start + r.Length()
      then r.value[j - start - INT_SIZE - |r.name| - 1]
      else if j < start + INT_SIZE + r.Length() then 0 else was[j])
    ensures Behind(was, now, start, r)
  {
    hide Le32;
  }

  /** A record stands at `start`, four zeros follow it, and nothing else has changed. */
  ghost predicate Behind(was: seq<byte>, now: seq<byte>, start: nat, r: Rec)
    requires start + r.Length() + INT_SIZE <= |was| == |now|
  {
    forall j :: 0 <= j < |now| ==>
      now[j] == if start <= j < start + r.Length() then Encoded(r)[j - start]
                else if start <= j < start + r.Length() + INT_SIZE then 0 else was[j]
  }

  lemma PartsBehind(was: seq<byte>, now: seq<byte>, start: nat, r: Rec)
    requires start + r.Length() + INT_SIZE <= |was| == |now| && Behind(was, now, start, r)
    ensures now == was[..start] + Encoded(r) + now[start + r.Length()..] && StartsEmpty(now[start + r.Length()..])
  {
    hide Encoded;
    assert now[..start] == was[..start];
    assert now[start..start + r.Length()] == Encoded(r);
  }

  lemma Shorter(a: seq<byte>, t: seq<byte>, n: nat)
    requires |a| <= n <= |a| + |t|
    ensures (a + t)[..n] == a + t[..n - |a|]
    ensures StartsEmpty(t) ==> StartsEmpty(t[..n - |a|])
  {}

  lemma Cut(a: seq<byte>, t: seq<byte>, n: nat)
    requires n <= |a|
    ensures (a + t)[..n] <= a && |(a + t)[..n]| == n
  {}

  /** What the buffer, the first `size` bytes, holds then. */
  lemma Written(was: seq<byte>, now: seq<byte>, size: nat, recs: seq<Rec>, r: Rec)
    requires size <= |was| && Holds(was[..size], recs) && r.Length() <= size
    requires |Image(recs)| + r.Length() + INT_SIZE <= |was| == |now| && Behind(was, now, |Image(recs)|, r)
    requires |Image(recs)| + r.Length() > size ==> |Image(recs)| + INT_SIZE < size
    ensures var end := |Image(recs)| + r.Length();
            if end < size then Tidy(now[..size], recs + [r], []) && Holds(now[..size], recs + [r])
            else Holds(now[..size], recs) && (end == size ==> Tidy(now[..size], recs, [r]))
  {
    hide Image, Encoded, Behind, Tidy, StartsEmpty;
    var start := |Image(recs)|;
    var head, rest := Image(recs) + Encoded(r), now[start + r.Length()..];
    SliceOfSlice(was, 0, size, 0, start);
    PartsBehind(was, now, start, r);
    if start + r.Length() <= size {
      Shorter(head, rest, size);
      LastFoundIff(now[..size], recs, r, rest[..size - |head|]);
    } else {
      Cut(head, rest, size);
      CutNotFound(now[..size], recs, r);
    }
  }

  lemma DistinctSnoc(recs: seq<Rec>, r: Rec)
    requires Distinct(recs) && IsName(r.name) && forall j :: 0 <= j < |recs| ==> recs[j].name != r.name
    ensures Distinct(recs + [r])
  {}
}
