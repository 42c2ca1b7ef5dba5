/**
 * The UTF-8 codec the clients call: str.encode('utf-8'), bytes.decode('utf-8')
 * and bytes.decode('utf-8', 'backslashreplace'). Well-formedness follows
 * Table 3-7 of the Unicode Standard, which Python's decoder enforces.
 */
module Utf8 {
  import opened Wrappers
  import opened Bytes
  import Hex

  predicate IsAscii(s: string) {
    forall i :: 0 <= i < |s| ==> s[i] as int < 0x80
  }

  predicate IsContinuation(b: Byte) {
    0x80 <= b < 0xC0
  }

  /** The UTF-8 bytes of one Unicode scalar value. */
  function EncodeChar(c: char): (r: seq<Byte>)
    ensures 1 <= |r| <= 4
    ensures |r| == 1 <==> c as int < 0x80
    ensures |r| == 1 ==> r[0] == c as int
  {
    var v := c as int;
    if v < 0x80 then [v]
    else if v < 0x800 then [0xC0 + v / 64, 0x80 + v % 64]
    else if v < 0x1_0000 then [0xE0 + v / 4096, 0x80 + v / 64 % 64, 0x80 + v % 64]
    else [0xF0 + v / 0x4_0000, 0x80 + v / 4096 % 64, 0x80 + v / 64 % 64, 0x80 + v % 64]
  }

  /** str.encode('utf-8'): at least one byte per character, exactly one for ASCII text. */
  function Encode(s: string): (r: seq<Byte>)
    ensures |r| >= |s|
    ensures IsAscii(s) ==> |r| == |s| && forall i :: 0 <= i < |s| ==> r[i] == s[i] as int
  {
    if s == "" then [] else EncodeChar(s[0]) + Encode(s[1..])
  }

  /** The width of the well-formed sequence that starts b, 0 when b does not start with one. */
  function SequenceLength(b: seq<Byte>): (n: nat)
    ensures n <= |b| && n <= 4
    ensures b != [] && b[0] < 0x80 ==> n == 1
  {
    if b == [] then 0
    else if b[0] < 0x80 then 1
    else if 0xC2 <= b[0] <= 0xDF then
      if |b| >= 2 && IsContinuation(b[1]) then 2 else 0
    else if 0xE0 <= b[0] <= 0xEF then
      var lo := if b[0] == 0xE0 then 0xA0 else 0x80;
      var hi := if b[0] == 0xED then 0x9F else 0xBF;
      if |b| >= 3 && lo <= b[1] <= hi && IsContinuation(b[2]) then 3 else 0
    else if 0xF0 <= b[0] <= 0xF4 then
      var lo := if b[0] == 0xF0 then 0x90 else 0x80;
      var hi := if b[0] == 0xF4 then 0x8F else 0xBF;
      if |b| >= 4 && lo <= b[1] <= hi && IsContinuation(b[2]) && IsContinuation(b[3]) then 4 else 0
    else 0
  }

  /** The payload bits of a continuation byte. */
  function Low6(b: Byte): int {
    b as int - 0x80
  }

  /** The scalar value encoded by the well-formed sequence that starts b. */
  function DecodeChar(b: seq<Byte>): char
    requires SequenceLength(b) > 0
  {
    var n := SequenceLength(b);
    var b0: int := b[0];
    var v: int :=
      if n == 1 then b0
      else if n == 2 then (b0 - 0xC0) * 64 + Low6(b[1])
      else if n == 3 then (b0 - 0xE0) * 4096 + Low6(b[1]) * 64 + Low6(b[2])
      else (b0 - 0xF0) * 0x4_0000 + Low6(b[1]) * 4096 + Low6(b[2]) * 64 + Low6(b[3]);
    v as char
  }

  /** bytes.decode('utf-8'): None where Python raises UnicodeDecodeError. */
  function DecodeStrict(b: seq<Byte>): Option<string>
  {
    if b == [] then Some("")
    else
      var n := SequenceLength(b);
      if n == 0 then None
      else match DecodeStrict(b[n..])
        case Some(t) => Some([DecodeChar(b)] + t)
        case None => None
  }

  /**
   * bytes.decode('utf-8', 'backslashreplace'): every byte that does not belong
   * to a well-formed sequence becomes the four characters \xNN.
   */
  function DecodeReplace(b: seq<Byte>): string
  {
    if b == [] then ""
    else
      var n := SequenceLength(b);
      if n == 0 then "\\x" + Hex.Hexlify([b[0]]) + DecodeReplace(b[1..])
      else [DecodeChar(b)] + DecodeReplace(b[n..])
  }

  /** On well-formed input the lenient decoder agrees with the strict one. */
  lemma {:induction false} DecodeReplaceAgrees(b: seq<Byte>)
    requires DecodeStrict(b).Some?
    ensures DecodeReplace(b) == DecodeStrict(b).value
  {
    if b != [] {
      DecodeReplaceAgrees(b[SequenceLength(b)..]);
    }
  }

  /** Each character's encoding is one well-formed sequence that decodes back to it. */
  lemma EncodeCharDecodes(c: char, rest: seq<Byte>)
    ensures SequenceLength(EncodeChar(c) + rest) == |EncodeChar(c)|
    ensures DecodeChar(EncodeChar(c) + rest) == c
  {
    var v := c as int;
    if v < 0x80 {
    } else if v < 0x800 {
      TwoBytes(v);
    } else if v < 0x1_0000 {
      ThreeBytes(v);
    } else {
      FourBytes(v);
    }
  }

  lemma TwoBytes(v: int)
    requires 0x80 <= v < 0x800
    ensures 0xC2 <= 0xC0 + v / 64 <= 0xDF && (v / 64) * 64 + v % 64 == v
  {
  }

  lemma ThreeBytes(v: int)
    requires 0x800 <= v < 0x1_0000 && !(0xD800 <= v < 0xE000)
    ensures 0xE0 <= 0xE0 + v / 4096 <= 0xEF
    ensures v / 4096 == 0 ==> v / 64 % 64 >= 0x20
    ensures v / 4096 == 0xD ==> v / 64 % 64 < 0x20
    ensures (v / 4096) * 4096 + (v / 64 % 64) * 64 + v % 64 == v
  {
    assert v / 64 == (v / 4096) * 64 + v / 64 % 64;
    assert v == (v / 64) * 64 + v % 64;
  }

  lemma FourBytes(v: int)
    requires 0x1_0000 <= v < 0x11_0000
    ensures 0xF0 <= 0xF0 + v / 0x4_0000 <= 0xF4
    ensures v / 0x4_0000 == 0 ==> v / 4096 % 64 >= 0x10
    ensures v / 0x4_0000 == 4 ==> v / 4096 % 64 < 0x10
    ensures (v / 0x4_0000) * 0x4_0000 + (v / 4096 % 64) * 4096 + (v / 64 % 64) * 64 + v % 64 == v
  {
    assert v / 4096 == (v / 0x4_0000) * 64 + v / 4096 % 64;
    assert v / 64 == (v / 4096) * 64 + v / 64 % 64;
    assert v == (v / 64) * 64 + v % 64;
  }

  /** Round trip: strict decoding reads back every encoded string. */
  lemma {:induction false} DecodeEncode(s: string)
    ensures DecodeStrict(Encode(s)) == Some(s)
  {
    if s != "" {
      var e := EncodeChar(s[0]);
      var b := Encode(s);
      EncodeCharDecodes(s[0], Encode(s[1..]));
      assert b[|e|..] == Encode(s[1..]);
      DecodeEncode(s[1..]);
      assert [s[0]] + s[1..] == s;
    }
  }
}
