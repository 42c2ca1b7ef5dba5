/** binascii.hexlify (lower-case digits) and binascii.unhexlify on text. */
module Hex {
  import opened Wrappers
  import opened Bytes

  predicate IsLowerHexDigit(c: char) {
    '0' <= c <= '9' || 'a' <= c <= 'f'
  }

  /** The lower-case hexadecimal digit for a nibble. */
  function HexDigit(v: nat): (c: char)
    requires v < 16
    ensures IsLowerHexDigit(c)
  {
    if v < 10 then ('0' as int + v) as char else ('a' as int + v - 10) as char
  }

  /** hexlify(b).decode(): two lower-case hexadecimal digits per byte, high nibble first. */
  function Hexlify(b: seq<Byte>): (r: string)
    ensures |r| == 2 * |b|
    ensures forall i :: 0 <= i < |r| ==> IsLowerHexDigit(r[i])
  {
    if b == [] then "" else [HexDigit(b[0] / 16), HexDigit(b[0] % 16)] + Hexlify(b[1..])
  }

  /** The value of one hexadecimal digit; unhexlify accepts both cases. */
  function DigitValue(c: char): (r: Option<nat>)
    ensures r.Some? ==> r.value < 16
    ensures r.Some? <==> IsLowerHexDigit(c) || 'A' <= c <= 'F'
  {
    if '0' <= c <= '9' then Some(c as int - '0' as int)
    else if 'a' <= c <= 'f' then Some(c as int - 'a' as int + 10)
    else if 'A' <= c <= 'F' then Some(c as int - 'A' as int + 10)
    else None
  }

  /** Text unhexlify accepts: an even number of hexadecimal digits of either case. */
  predicate HexText(s: string) {
    |s| % 2 == 0 && forall i :: 0 <= i < |s| ==> DigitValue(s[i]).Some?
  }

  /**
   * unhexlify(s): None where Python raises binascii.Error (odd length,
   * a non-hexadecimal digit) or ValueError (a non-ASCII character).
   */
  function Unhexlify(s: string): (r: Option<seq<Byte>>)
    ensures r.Some? <==> HexText(s)
    ensures r.Some? ==> 2 * |r.value| == |s|
  {
    if s == "" then Some([])
    else if |s| == 1 then None
    else
      var hi, lo, t := DigitValue(s[0]), DigitValue(s[1]), Unhexlify(s[2..]);
      if hi.None? || lo.None? then None
      else if t.None? then
        assert !HexText(s) by {
          if |s| % 2 == 0 {
            var j :| 0 <= j < |s[2..]| && DigitValue(s[2..][j]).None?;
            assert s[j + 2] == s[2..][j];
          }
        }
        None
      else
        assert HexText(s) by {
          forall i | 2 <= i < |s| ensures DigitValue(s[i]).Some? {
            assert s[i] == s[2..][i - 2];
          }
        }
        Some([hi.value * 16 + lo.value] + t.value)
  }

  /** The byte the digit pair at 2i and 2i+1 stands for. */
  function PairValue(s: string, i: nat): nat
    requires HexText(s) && i < |s| / 2
  {
    16 * DigitValue(s[2 * i]).value + DigitValue(s[2 * i + 1]).value
  }

  /** Byte i of unhexlify's result is the value of the digit pair at 2i and 2i+1, in either case. */
  lemma {:induction false} UnhexlifyDigits(s: string)
    requires HexText(s)
    ensures forall i :: 0 <= i < |s| / 2 ==> Unhexlify(s).value[i] == PairValue(s, i)
    decreases |s|
  {
    if s != "" {
      var t := s[2..];
      assert HexText(t) by {
        forall i | 0 <= i < |t| ensures DigitValue(t[i]).Some? {
          assert t[i] == s[i + 2];
        }
      }
      UnhexlifyDigits(t);
      forall i | 1 <= i < |s| / 2 ensures Unhexlify(s).value[i] == PairValue(s, i) {
        assert s[2 * i] == t[2 * (i - 1)] && s[2 * i + 1] == t[2 * (i - 1) + 1];
        assert PairValue(s, i) == PairValue(t, i - 1);
      }
    }
  }

  /** unhexlify undoes hexlify. */
  lemma {:induction false} UnhexlifyHexlify(b: seq<Byte>)
    ensures Unhexlify(Hexlify(b)) == Some(b)
  {
    if b != [] {
      var s := Hexlify(b);
      var hi, lo := b[0] / 16, b[0] % 16;
      assert s[0] == HexDigit(hi) && s[1] == HexDigit(lo);
      assert s[2..] == Hexlify(b[1..]);
      UnhexlifyHexlify(b[1..]);
      assert DigitValue(HexDigit(hi)) == Some(hi);
      assert DigitValue(HexDigit(lo)) == Some(lo);
      assert [hi * 16 + lo] + b[1..] == b;
    }
  }
}
