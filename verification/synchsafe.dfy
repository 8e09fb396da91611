/**
  Synchsafe integers (ID3v2.4.0 structure, section 6.2): a 28-bit value
  stored in four bytes, seven bits per byte, most significant group first,
  with the top bit of every byte left clear. The tag header (section 3.1)
  and every frame header (section 4) carry their sizes this way.
*/
module Synchsafe {
  import opened Bytes

  /** One past the largest synchsafe value: 2^28. */
  const Limit: nat := 0x1000_0000

  /** `b & 0x7F`: the seven payload bits of a byte, which for a value below
      0x100 is the byte less its top bit. */
  function Low7(b: byte): (v: nat)
    ensures v < 0x80
    ensures v == b as int % 0x80
  {
    if b < 0x80 then b as nat else b as nat - 0x80
  }

  /** `(b0 & 0x7F) << 21 | (b1 & 0x7F) << 14 | (b2 & 0x7F) << 7 | (b3 & 0x7F)`.
      The four masked groups occupy disjoint bit ranges, so the `|` of the
      shifted groups is their sum. */
  function Decode(b0: byte, b1: byte, b2: byte, b3: byte): (n: nat)
    ensures n < Limit
  {
    Low7(b0) * 0x20_0000 + Low7(b1) * 0x4000 + Low7(b2) * 0x80 + Low7(b3)
  }

  /** The synchsafe bytes of `n`, most significant group first. */
  function Encode(n: nat): (bs: seq<byte>)
    requires n < Limit
    ensures |bs| == 4
    ensures forall i :: 0 <= i < 4 ==> bs[i] < 0x80
    ensures Decode(bs[0], bs[1], bs[2], bs[3]) == n
  {
    var q1 := n / 0x80;
    var q2 := q1 / 0x80;
    var q3 := q2 / 0x80;
    [q3 as byte, (q2 % 0x80) as byte, (q1 % 0x80) as byte, (n % 0x80) as byte]
  }

  lemma DivMod128(q: nat, r: nat)
    requires r < 0x80
    ensures (q * 0x80 + r) / 0x80 == q
    ensures (q * 0x80 + r) % 0x80 == r
  {
  }

  /** Decoding keeps exactly the low seven bits of each byte: encoding the
      decoded value gives back the bytes with their top bits cleared. */
  lemma EncodeDecode(b0: byte, b1: byte, b2: byte, b3: byte)
    ensures Encode(Decode(b0, b1, b2, b3)) == [b0 % 0x80, b1 % 0x80, b2 % 0x80, b3 % 0x80]
  {
    var l0, l1, l2, l3 := Low7(b0), Low7(b1), Low7(b2), Low7(b3);
    DivMod128(l0 * 0x4000 + l1 * 0x80 + l2, l3);
    DivMod128(l0 * 0x80 + l1, l2);
    DivMod128(l0, l1);
  }

  /** Two byte quadruples decode to the same size exactly when they agree
      on their low seven bits; the top bit of each byte is ignored. */
  lemma DecodeInjectiveOnLow7(a0: byte, a1: byte, a2: byte, a3: byte,
                              b0: byte, b1: byte, b2: byte, b3: byte)
    ensures Decode(a0, a1, a2, a3) == Decode(b0, b1, b2, b3)
        <==> [a0 % 0x80, a1 % 0x80, a2 % 0x80, a3 % 0x80] == [b0 % 0x80, b1 % 0x80, b2 % 0x80, b3 % 0x80]
  {
    EncodeDecode(a0, a1, a2, a3);
    EncodeDecode(b0, b1, b2, b3);
  }
}
