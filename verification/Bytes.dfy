/** Bytes, byte streams cut into packets, and bytes as bit patterns. */
module Bytes {
  type byte = bv8

  /** A byte used as a number: a length, a tag, a part of an address. */
  type octet = n: int | 0 <= n < 256

  /** Two bytes as a 16-bit number, high byte first. */
  function Word(high: byte, low: byte): (w: nat)
    ensures w < 0x1_0000
  {
    256 * (high as int) + (low as int)
  }

  /** What is left of a number in one byte. */
  function LowByte(n: nat): byte {
    (n % 256) as byte
  }

  lemma LowByteValue(n: nat)
    ensures LowByte(n) as int == n % 256
  {
    AsByte(n % 256);
  }

  lemma AsByte(n: nat)
    requires n < 256
    ensures (n as byte) as int == n
  {
    var b := ByteOf(n);
    BackAndForth(b);
  }

  lemma {:induction false} ByteOf(n: nat) returns (b: byte)
    requires n < 256
    ensures b as int == n
  {
    if n == 0 {
      b := 0;
    } else {
      b := ByteOf(n - 1);
      BelowLast(b);
      ByteAfter(b);
      b := b + 1;
    }
  }

  lemma BelowLast(b: byte)
    requires b as int < 255
    ensures b < 0xFF
  {
  }

  lemma ByteAfter(b: byte)
    requires b < 0xFF
    ensures (b + 1) as int == b as int + 1
  {
  }

  lemma BackAndForth(b: byte)
    ensures (b as int) as byte == b
  {
  }

  /** The stream carried by a list of packets. */
  function Concat(packets: seq<seq<byte>>): seq<byte> {
    if packets == [] then [] else packets[0] + Concat(packets[1..])
  }

  /** Overwrites the bytes of `flat` from position `start` on with `data`. */
  function Splice(flat: seq<byte>, start: nat, data: seq<byte>): (r: seq<byte>)
    requires start + |data| <= |flat|
    ensures |r| == |flat|
  {
    flat[..start] + data + flat[start + |data|..]
  }

  /** One byte of an overwritten sequence. */
  lemma SplicedAt(flat: seq<byte>, start: nat, data: seq<byte>, i: nat)
    requires start + |data| <= |flat| && i < |flat|
    ensures Splice(flat, start, data)[i] == if start <= i < start + |data| then data[i - start] else flat[i]
  {
  }

  lemma {:induction false} ConcatAppend(packets: seq<seq<byte>>, last: seq<byte>)
    ensures Concat(packets + [last]) == Concat(packets) + last
  {
    if packets == [] {
      assert packets + [last] == [last];
      assert Concat([last]) == last + Concat([last][1..]);
    } else {
      ConcatAppend(packets[1..], last);
      assert (packets + [last])[1..] == packets[1..] + [last];
    }
  }

  /** The mask of bit k of a byte. */
  function Mask(k: nat): byte
    requires k < 8
  {
    if k == 0 then 0x01 else if k == 1 then 0x02 else if k == 2 then 0x04 else if k == 3 then 0x08
    else if k == 4 then 0x10 else if k == 5 then 0x20 else if k == 6 then 0x40 else 0x80
  }

  lemma MaskShift(k: nat)
    requires k < 8
    ensures Mask(k) == 0x80 <==> k == 7
    ensures k < 7 ==> Mask(k) << 1 == Mask(k + 1)
  {
  }

  /** Setting or clearing one bit leaves the other bits of the byte alone. */
  lemma MaskedBits(b: byte, k: nat, j: nat)
    requires k < 8 && j < 8
    ensures (b | Mask(k)) & Mask(j) != 0 <==> j == k || b & Mask(j) != 0
    ensures (b & !Mask(k)) & Mask(j) != 0 <==> j != k && b & Mask(j) != 0
  {
    if j == k {
      assert (b | Mask(k)) & Mask(k) == Mask(k);
      assert (b & !Mask(k)) & Mask(k) == 0;
    } else {
      assert Mask(k) & Mask(j) == 0;
      assert (b | Mask(k)) & Mask(j) == (b & Mask(j)) | (Mask(k) & Mask(j));
      assert (b & !Mask(k)) & Mask(j) == b & Mask(j);
    }
  }
}
