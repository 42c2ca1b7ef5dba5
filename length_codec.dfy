/**
 * The RouterOS API word-length prefix as ros_api/api.py writes and reads it
 * (send_length and receive_length): 1 to 4 big-endian bytes whose leading bits
 * select the width, plus a 5-byte form introduced by 0xF0.
 */
module LengthCodec {
  import opened Wrappers
  import opened Bytes

  /** Lengths from here on raise WordTooLong. */
  const MaxWordLength: nat := 0x1_0000_0000

  /**
   * send_length: the prefix bytes for a word of n characters, or None where the
   * source raises WordTooLong (before writing any prefix byte).
   */
  function EncodeLength(n: nat): (r: Option<seq<Byte>>)
    ensures r.None? <==> n >= MaxWordLength
  {
    if n < 0x80 then Some([n])
    else if n < 0x4000 then Some(ToBytes(n + 0x8000, 2))
    else if n < 0x20_0000 then Some(ToBytes(n + 0xC0_0000, 3))
    else if n < 0x1000_0000 then Some(ToBytes(n + 0xE000_0000, 4))
    else if n < MaxWordLength then Some([0xF0] + ToBytes(n, 4))
    else None
  }

  /** The five forms of the prefix: its width, the range of its first byte, and the value it carries. */
  lemma EncodeLengthForms(n: nat)
    requires n < MaxWordLength
    ensures n < 0x80 ==> EncodeLength(n).value == [n]
    ensures 0x80 <= n < 0x4000 ==> var r := EncodeLength(n).value;
      |r| == 2 && 0x80 <= r[0] < 0xC0 && BigEndian(r) == n + 0x8000
    ensures 0x4000 <= n < 0x20_0000 ==> var r := EncodeLength(n).value;
      |r| == 3 && 0xC0 <= r[0] < 0xE0 && BigEndian(r) == n + 0xC0_0000
    ensures 0x20_0000 <= n < 0x1000_0000 ==> var r := EncodeLength(n).value;
      |r| == 4 && 0xE0 <= r[0] < 0xF0 && BigEndian(r) == n + 0xE000_0000
    ensures 0x1000_0000 <= n ==> var r := EncodeLength(n).value;
      |r| == 5 && r[0] == 0xF0 && BigEndian(r[1..]) == n
  {
    assert Pow256(1) == 256 && Pow256(2) == 0x1_0000 && Pow256(3) == 0x100_0000 && Pow256(4) == 0x1_0000_0000;
    if 0x80 <= n < 0x4000 {
      BigEndianToBytes(n + 0x8000, 2);
      ToBytesHead(n + 0x8000, 2);
    } else if 0x4000 <= n < 0x20_0000 {
      BigEndianToBytes(n + 0xC0_0000, 3);
      ToBytesHead(n + 0xC0_0000, 3);
    } else if 0x20_0000 <= n < 0x1000_0000 {
      BigEndianToBytes(n + 0xE000_0000, 4);
      ToBytesHead(n + 0xE000_0000, 4);
    } else if 0x1000_0000 <= n {
      BigEndianToBytes(n, 4);
      assert ([0xF0] + ToBytes(n, 4))[1..] == ToBytes(n, 4);
    }
  }

  /**
   * What receive_length leaves in `r`: an integer, or, for a first byte in
   * 0xF1..0xFF that no branch matches, the one-byte bytes object itself.
   */
  datatype LengthValue = Num(n: int) | Unmatched(b: Byte)

  datatype LengthRead = LengthRead(value: LengthValue, rest: seq<Byte>)

  function Take(s: seq<Byte>, k: nat): (r: seq<Byte>)
    ensures |r| == (if k < |s| then k else |s|) && r == s[..|r|]
  {
    if k < |s| then s[..k] else s
  }

  /**
   * receive_length on a stream whose remaining bytes are `inp`: recv(k) hands
   * over min(k, |inp|) bytes, so an exhausted stream reads as length 0 and a
   * prefix cut short by the end of the stream yields a negative length.
   */
  function ReceiveLength(inp: seq<Byte>): (r: LengthRead)
    ensures |r.rest| <= |inp| <= |r.rest| + 5
    ensures r.value != Num(0) ==> |r.rest| < |inp|
    ensures r.value.Num? && r.value.n < 0 ==> r.rest == []
    ensures inp == [] ==> r == LengthRead(Num(0), [])
  {
    var r := Take(inp, 1);
    if ByteLess(r, 0x80) then
      LengthRead(Num(BigEndian(r)), inp[|r|..])
    else
      var tail := inp[1..];
      assert r == [inp[0]];
      if inp[0] < 0xC0 then
        var t := Take(tail, 1);
        ShortPrefix(r, t, 1);
        LengthRead(Num(BigEndian(r + t) - Offset(1)), tail[|t|..])
      else if inp[0] < 0xE0 then
        var t := Take(tail, 2);
        ShortPrefix(r, t, 2);
        LengthRead(Num(BigEndian(r + t) - Offset(2)), tail[|t|..])
      else if inp[0] < 0xF0 then
        var t := Take(tail, 3);
        ShortPrefix(r, t, 3);
        LengthRead(Num(BigEndian(r + t) - Offset(3)), tail[|t|..])
      else if inp[0] == 0xF0 then
        var t := Take(tail, 4);
        LengthRead(Num(BigEndian(t)), tail[|t|..])
      else
        LengthRead(Unmatched(inp[0]), tail)
  }

  /** A multi-byte prefix read in full is at least its form's offset; one cut short is below it. */
  lemma ShortPrefix(r: seq<Byte>, t: seq<Byte>, k: nat)
    requires |r| == 1 && 1 <= k <= 3 && |t| <= k
    requires r[0] >= Marker(k)
    ensures |t| < k ==> BigEndian(r + t) < Offset(k)
    ensures |t| == k ==> BigEndian(r + t) >= Offset(k)
  {
    var b := r + t;
    if |t| == k {
      BigEndianLead(b);
      assert b[0] == r[0];
      MulMonotone(Marker(k), b[0], Pow256(k));
    } else {
      PowMonotone(|b|, k);
    }
  }

  /** The lowest leading byte of the (k+1)-byte form. */
  function Marker(k: nat): nat
    requires 1 <= k <= 3
  {
    if k == 1 then 0x80 else if k == 2 then 0xC0 else 0xE0
  }

  /** The value added to a length in the (k+1)-byte form; it is Marker(k) * 256^k. */
  function Offset(k: nat): (r: nat)
    requires 1 <= k <= 3
    ensures r == Marker(k) * Pow256(k)
  {
    assert Pow256(1) == 256 && Pow256(2) == 0x1_0000 && Pow256(3) == 0x100_0000;
    if k == 1 then 0x8000 else if k == 2 then 0xC0_0000 else 0xE000_0000
  }

  lemma MulMonotone(a: nat, b: nat, c: nat)
    requires a <= b
    ensures a * c <= b * c
  {
  }

  lemma {:induction false} PowMonotone(i: nat, j: nat)
    requires i <= j
    ensures Pow256(i) <= Pow256(j)
  {
    if i < j {
      PowMonotone(i, j - 1);
    }
  }

  /** A byte string is worth at least its leading byte times 256^(length-1). */
  lemma {:induction false} BigEndianLead(b: seq<Byte>)
    requires |b| >= 1
    ensures BigEndian(b) >= b[0] * Pow256(|b| - 1)
  {
    if |b| > 1 {
      var init := b[..|b| - 1];
      BigEndianLead(init);
      assert init[0] == b[0];
      assert BigEndian(b) >= BigEndian(init) * 256;
      assert b[0] * Pow256(|b| - 1) == b[0] * Pow256(|init| - 1) * 256;
    }
  }

  /** Round trip: receive_length reads back every length send_length accepts, and stops right after it. */
  lemma LengthRoundTrip(n: nat, rest: seq<Byte>)
    requires n < MaxWordLength
    ensures ReceiveLength(EncodeLength(n).value + rest) == LengthRead(Num(n), rest)
  {
    var p := EncodeLength(n).value;
    EncodeLengthForms(n);
    var inp := p + rest;
    assert inp[..|p|] == p && inp[|p|..] == rest;
    assert Take(inp, 1) == [p[0]];
    if 0x80 <= n < 0x1000_0000 {
      var k := |p| - 1;
      var t := Take(inp[1..], k);
      assert t == p[1..];
      assert [inp[0]] + t == p;
      assert inp[1..][|t|..] == rest;
      assert BigEndian(p) - Offset(k) == n;
    } else if 0x1000_0000 <= n {
      var t := Take(inp[1..], 4);
      assert t == p[1..];
      assert inp[1..][|t|..] == rest;
    }
  }
}
