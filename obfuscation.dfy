/** The XOR(0xFF) transform applied to the metadata and pixel blocks. */
module Obfuscation {
  import opened ByteOrder

  /** b ^ std::byte(0xFF). On eight bits, exclusive-or with all ones is
      255 - b; ByteXorIsBitwise shows the two agree. */
  function XorByte(b: Byte): (r: Byte)
    ensures r + b == 0xFF
  {
    0xFF - b
  }

  /** The arithmetic form is the bitwise one: for an eight-bit value x,
      x ^ 0xFF flips every bit of x and, read as a number, is XorByte(x). */
  lemma ByteXorIsBitwise(x: bv8)
    ensures x & (x ^ 0xFF) == 0 && x | (x ^ 0xFF) == 0xFF
    ensures (x ^ 0xFF) as int == XorByte(x as int)
  {
    assert x ^ 0xFF == 0xFF - x;
  }

  /** Every byte of `s` exclusive-or'ed with 0xFF. */
  function XorMask(s: seq<Byte>): (r: seq<Byte>)
    ensures |r| == |s|
  {
    if s == [] then [] else [XorByte(s[0])] + XorMask(s[1..])
  }

  /** Byte i of the output is byte i of the input with every bit flipped. */
  lemma {:induction false} XorMaskAt(s: seq<Byte>, i: nat)
    requires i < |s|
    ensures XorMask(s)[i] == XorByte(s[i])
  {
    if i > 0 {
      XorMaskAt(s[1..], i - 1);
    }
  }

  /** Applying the transform twice gives back the input. */
  lemma {:induction false} XorMaskInvolution(s: seq<Byte>)
    ensures XorMask(XorMask(s)) == s
  {
    if s != [] {
      var t := XorMask(s);
      assert t[1..] == XorMask(s[1..]);
      XorMaskInvolution(s[1..]);
    }
  }

  /** XOR(input): fills a fresh output buffer of the input's size in a loop;
      the input sequence is a value and stays as it was. */
  method Xor(input: seq<Byte>) returns (output: seq<Byte>)
    ensures output == XorMask(input)
  {
    var buffer := new Byte[|input|];
    for i := 0 to |input|
      invariant forall k :: 0 <= k < i ==> buffer[k] == XorByte(input[k])
    {
      buffer[i] := XorByte(input[i]);
    }
    output := buffer[..];
    forall k | 0 <= k < |input|
      ensures output[k] == XorMask(input)[k]
    {
      XorMaskAt(input, k);
    }
  }
}
