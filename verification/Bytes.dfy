/** Bytes, and words stored as bytes. */
module Bytes {

  type byte = b: nat | b < 256

  function Zeros(n: nat): seq<byte> {
    seq(n, _ => 0)
  }

  /** A 32-bit word, lowest byte first. */
  function Le32(x: nat): (s: seq<byte>)
    ensures |s| == 4
  {
    [x % 256, x / 0x100 % 256, x / 0x1_0000 % 256, x / 0x100_0000 % 256]
  }

  function Val32(s: seq<nat>): nat
    requires |s| == 4
  {
    s[0] + 0x100 * s[1] + 0x1_0000 * s[2] + 0x100_0000 * s[3]
  }

  lemma Le32Value(x: nat)
    requires x < 0x1_0000_0000
    ensures Val32(Le32(x)) == x
  {
    var x1 := x / 0x100;
    var x2 := x1 / 0x100;
    assert x2 == x / 0x1_0000 && x2 / 0x100 == x / 0x100_0000;
  }

  lemma SliceOfSlice<T>(s: seq<T>, a: nat, b: nat, i: nat, j: nat)
    requires i <= j && a + j <= b <= |s|
    ensures s[a..b][i..j] == s[a + i..a + j]
  {
    var t := s[a..b];
    assert forall k :: i <= k < j ==> t[k] == s[a + k];
    assert t[i..j] == s[a + i..a + j];
  }

  lemma SplitAt<T>(s: seq<T>, k: nat)
    requires k < |s|
    ensures s[..k + 1] == s[..k] + [s[k]] && s == s[..k + 1] + s[k + 1..]
  {}
}
