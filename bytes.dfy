/** Bytes as integers in [0, 256) and Python's big-endian int <-> bytes conversions. */
module Bytes {

  type Byte = b: int | 0 <= b < 256

  /** 256 to the power k. */
  function Pow256(k: nat): (r: nat)
    ensures r >= 1
  {
    if k == 0 then 1 else 256 * Pow256(k - 1)
  }

  /** int.from_bytes(b, byteorder='big'); the empty byte string gives 0. */
  function BigEndian(b: seq<Byte>): (r: nat)
    ensures r < Pow256(|b|)
  {
    if b == [] then 0 else BigEndian(b[..|b| - 1]) * 256 + b[|b| - 1]
  }

  /** n.to_bytes(k, byteorder='big'), defined where Python does not raise OverflowError. */
  function ToBytes(n: nat, k: nat): (r: seq<Byte>)
    requires n < Pow256(k)
    ensures |r| == k
  {
    if k == 0 then [] else ToBytes(n / 256, k - 1) + [n % 256]
  }

  /** from_bytes undoes to_bytes. */
  lemma {:induction false} BigEndianToBytes(n: nat, k: nat)
    requires n < Pow256(k)
    ensures BigEndian(ToBytes(n, k)) == n
  {
    if k > 0 {
      var r := ToBytes(n, k);
      assert r[..k - 1] == ToBytes(n / 256, k - 1);
      BigEndianToBytes(n / 256, k - 1);
    }
  }

  /** The leading byte of a to_bytes of width 1 to 4 is the value divided by 256^(k-1). */
  lemma ToBytesHead(n: nat, k: nat)
    requires 1 <= k <= 4 && n < Pow256(k)
    ensures ToBytes(n, k)[0] == n / Pow256(k - 1)
  {
    assert Pow256(1) == 256 && Pow256(2) == 65536 && Pow256(3) == 16777216;
    if k >= 2 {
      assert ToBytes(n, k)[0] == ToBytes(n / 256, k - 1)[0];
      ToBytesHead(n / 256, k - 1);
      if k >= 3 {
        DivDiv(n);
      }
    }
  }

  lemma DivDiv(n: nat)
    ensures n / 256 / 256 == n / 65536
    ensures n / 256 / 65536 == n / 16777216
  {
    var a := n / 256;
    assert n == a * 256 + n % 256;
    var b := a / 256;
    assert a == b * 256 + a % 256;
    assert n == b * 65536 + (a % 256) * 256 + n % 256;
    var c := a / 65536;
    assert a == c * 65536 + a % 65536;
    assert n == c * 16777216 + (a % 65536) * 256 + n % 256;
  }

  /** Python's bytes comparison `r < b'\xNN'` for a string of at most one byte. */
  predicate ByteLess(r: seq<Byte>, bound: Byte)
    requires |r| <= 1
  {
    r == [] || r[0] < bound
  }
}
