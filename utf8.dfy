/**
 * Bytes, and the UTF-8 encoding that `str.encode()` applies to the text of an
 * input request before it is written to the terminal.
 */
module Utf8 {

  /** One byte of the terminal's byte stream. */
  newtype byte = x: int | 0 <= x < 256

  /** Carriage return and line feed. */
  const CR: byte := 13
  const LF: byte := 10

  /** UTF-8 encoding of one Unicode scalar value: one byte for ASCII, otherwise a
      lead byte (0xC0 and above) followed by continuation bytes (0x80 to 0xBF). */
  function EncodeChar(c: char): (bs: seq<byte>)
    ensures 1 <= |bs| <= 4
    ensures |bs| == 1 <==> c as int < 0x80
    ensures |bs| == 1 ==> bs[0] as int == c as int
    ensures |bs| > 1 ==> 0xC0 <= bs[0] && forall i | 1 <= i < |bs| :: 0x80 <= bs[i] < 0xC0
  {
    var v := c as int;
    if v < 0x80 then
      [v as byte]
    else if v < 0x800 then
      [(0xC0 + v / 64) as byte, (0x80 + v % 64) as byte]
    else if v < 0x10000 then
      [(0xE0 + v / 4096) as byte, (0x80 + (v / 64) % 64) as byte, (0x80 + v % 64) as byte]
    else
      [(0xF0 + v / 262144) as byte, (0x80 + (v / 4096) % 64) as byte,
       (0x80 + (v / 64) % 64) as byte, (0x80 + v % 64) as byte]
  }

  /** UTF-8 encoding of a string, character by character. Every character
      contributes at least one byte. */
  function Encode(s: string): (bs: seq<byte>)
    ensures |bs| >= |s|
    ensures s == [] <==> bs == []
  {
    if s == [] then [] else EncodeChar(s[0]) + Encode(s[1..])
  }

  /** The only string whose encoding is the single byte CR is "\r". */
  lemma {:induction false} EncodesToCarriageReturn(s: string)
    ensures Encode(s) == [CR] <==> s == "\r"
  {
    if s != [] {
      var head, tail := EncodeChar(s[0]), Encode(s[1..]);
      assert Encode(s) == head + tail;
      if |s| == 1 {
        assert s[1..] == [];
        assert Encode(s) == head;
      } else {
        assert |tail| >= 1;
        assert |Encode(s)| >= 2;
      }
    }
  }
}
