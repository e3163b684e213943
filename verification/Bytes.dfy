/** Bytes and the few character codes the HTTP code looks at. */
module Bytes {

  type Byte = b: int | 0 <= b < 256

  const HT: Byte := 9
  const LF: Byte := 10
  const CR: Byte := 13
  const SP: Byte := 32
  const COLON: Byte := 58
  const SEMICOLON: Byte := 59

  const CRLF: seq<Byte> := [CR, LF]

  /** The bytes of a text of ASCII characters. */
  function Ascii(text: string): (bytes: seq<Byte>)
    requires forall i :: 0 <= i < |text| ==> text[i] as int < 128
    ensures |bytes| == |text| && forall i :: 0 <= i < |text| ==> bytes[i] == text[i] as int
  {
    seq(|text|, i requires 0 <= i < |text| => text[i] as int)
  }

  /** The character codes are those of the characters they are named after. */
  lemma CodesAreAscii()
    ensures Ascii("\t\n\r :;") == [HT, LF, CR, SP, COLON, SEMICOLON]
    ensures Ascii("\r\n") == CRLF && Ascii("\n") == [LF] && Ascii(" ") == [SP] && Ascii(": ") == [COLON, SP]
  {
  }

  /** Capacity of `size_t` and `uint64_t` on the target. */
  const TWO64: nat := 0x1_0000_0000_0000_0000

  /** Reduction of an unsigned 64-bit result. */
  function Wrap64(x: int): (w: nat)
    ensures w < TWO64
    ensures 0 <= x < TWO64 ==> w == x
  {
    x % 0x1_0000_0000_0000_0000
  }
}
