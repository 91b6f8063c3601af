/** CircularBitBuffer: single bits packed into a circular byte array, proved to be a FIFO of booleans. */
module CircularBitBuffer {
  import opened Bytes

  predicate BitAt(data: seq<byte>, pos: nat)
    requires pos < 8 * |data|
  {
    data[pos / 8] & Mask(pos % 8) != 0
  }

  /** Position x, at most one turn ahead, on a circle of `size` positions. */
  function Wrap(x: nat, size: nat): nat {
    if x < size then x else x - size
  }

  lemma WrapSteps(out: nat, n: nat, size: nat)
    requires out < size && n <= size
    ensures Wrap(out + n, size) < size
    ensures n < size ==> Wrap(Wrap(out + n, size) + 1, size) == Wrap(out + (n + 1), size) < size
    ensures 0 < n ==> Wrap(Wrap(out + 1, size) + (n - 1), size) == Wrap(out + n, size) && Wrap(out + 1, size) < size
  {
  }

  /** How far `pos` lies after `from` on the circle. */
  function Ahead(from: nat, pos: nat, size: nat): int {
    if from <= pos then pos - from else pos + size - from
  }

  /** The live window from `out` on holds the contents, and every bit outside it is zero. */
  ghost predicate Window(data: seq<byte>, out: nat, contents: seq<bool>) {
    var size := 8 * |data|;
    && out < size && |contents| <= size
    && forall pos :: 0 <= pos < size ==>
      BitAt(data, pos) == (Ahead(out, pos, size) < |contents| && contents[Ahead(out, pos, size)])
  }

  ghost predicate AllZero(data: seq<byte>) {
    forall pos :: 0 <= pos < 8 * |data| ==> !BitAt(data, pos)
  }

  function Stored(data: seq<byte>, at: nat, bit: bool): seq<byte>
    requires at < 8 * |data|
  {
    if bit then data[at / 8 := data[at / 8] | Mask(at % 8)] else data
  }

  function Cleared(data: seq<byte>, at: nat): seq<byte>
    requires at < 8 * |data|
  {
    data[at / 8 := data[at / 8] & !Mask(at % 8)]
  }

  lemma StoredBit(data: seq<byte>, at: nat, bit: bool, pos: nat)
    requires at < 8 * |data| && pos < 8 * |data|
    ensures BitAt(Stored(data, at, bit), pos) == (BitAt(data, pos) || (bit && pos == at))
  {
    hide *;
    SamePlace(at, pos);
    StoredByte(data, at, bit, pos / 8);
    BitIs(data, pos);
    BitIs(Stored(data, at, bit), pos);
    MaskedBits(data[pos / 8], at % 8, pos % 8);
  }

  lemma StoredByte(data: seq<byte>, at: nat, bit: bool, i: nat)
    requires at < 8 * |data| && i < |data|
    ensures |Stored(data, at, bit)| == |data|
    ensures Stored(data, at, bit)[i] == if bit && i == at / 8 then data[i] | Mask(at % 8) else data[i]
  {
    hide Mask;
  }

  lemma ClearedBit(data: seq<byte>, at: nat, pos: nat)
    requires at < 8 * |data| && pos < 8 * |data|
    ensures BitAt(Cleared(data, at), pos) == (BitAt(data, pos) && pos != at)
  {
    hide *;
    SamePlace(at, pos);
    ClearedByte(data, at, pos / 8);
    BitIs(data, pos);
    BitIs(Cleared(data, at), pos);
    MaskedBits(data[pos / 8], at % 8, pos % 8);
  }

  lemma BitIs(data: seq<byte>, pos: nat)
    requires pos < 8 * |data|
    ensures BitAt(data, pos) <==> data[pos / 8] & Mask(pos % 8) != 0
  {
  }

  lemma ClearedByte(data: seq<byte>, at: nat, i: nat)
    requires at < 8 * |data| && i < |data|
    ensures |Cleared(data, at)| == |data| && Cleared(data, at)[i] == if i == at / 8 then data[i] & !Mask(at % 8) else data[i]
  {
    hide Mask;
  }

  /** Two bit positions are the same when byte and bit are. */
  lemma SamePlace(at: nat, pos: nat)
    ensures at == pos <==> at / 8 == pos / 8 && at % 8 == pos % 8
  {
  }

  /** ORing a bit in at the end of the window appends it, because its place was zero. */
  lemma WindowPush(before: seq<byte>, out: nat, contents: seq<bool>, bit: bool)
    requires Window(before, out, contents) && |contents| < 8 * |before|
    ensures Window(Stored(before, Wrap(out + |contents|, 8 * |before|), bit), out, contents + [bit])
  {
    hide BitAt, Mask;
    var after := Stored(before, Wrap(out + |contents|, 8 * |before|), bit);
    var size := 8 * |before|;
    var at := Wrap(out + |contents|, size);
    forall pos | 0 <= pos < size
      ensures BitAt(after, pos) == (Ahead(out, pos, size) < |contents| + 1 && (contents + [bit])[Ahead(out, pos, size)])
    {
      StoredBit(before, at, bit, pos);
      assert Ahead(out, pos, size) == |contents| <==> pos == at;
    }
  }

  /** Clearing the first bit of the window removes it. */
  lemma WindowPop(before: seq<byte>, out: nat, contents: seq<bool>)
    requires Window(before, out, contents) && contents != []
    ensures (before[out / 8] & Mask(out % 8) != 0) == contents[0]
    ensures Window(Cleared(before, out), Wrap(out + 1, 8 * |before|), contents[1..])
  {
    assert (before[out / 8] & Mask(out % 8) != 0) == BitAt(before, out);
    hide BitAt, Mask;
    var after := Cleared(before, out);
    var size := 8 * |before|;
    var next := Wrap(out + 1, size);
    assert Ahead(out, out, size) == 0;
    forall pos | 0 <= pos < size
      ensures BitAt(after, pos) == (Ahead(next, pos, size) < |contents| - 1 && contents[1..][Ahead(next, pos, size)])
    {
      ClearedBit(before, out, pos);
      assert pos != out ==> Ahead(next, pos, size) == Ahead(out, pos, size) - 1;
    }
  }

  /** A bit pointer: byte index and mask of one bit position. */
  ghost predicate PointsTo(byteIndex: nat, mask: byte, pos: nat) {
    byteIndex == pos / 8 && mask == Mask(pos % 8)
  }

  /** The pointer step shared by store and get. */
  lemma PointerStep(byteIndex: nat, mask: byte, pos: nat, bytes: nat)
    requires pos < 8 * bytes && PointsTo(byteIndex, mask, pos)
    ensures mask == 0x80 && byteIndex == bytes - 1 ==> PointsTo(0, 0x01, Wrap(pos + 1, 8 * bytes))
    ensures mask == 0x80 && byteIndex != bytes - 1 ==> PointsTo(byteIndex + 1, 0x01, Wrap(pos + 1, 8 * bytes))
    ensures mask != 0x80 ==> PointsTo(byteIndex, mask << 1, Wrap(pos + 1, 8 * bytes))
  {
    MaskShift(pos % 8);
    if pos % 8 < 7 {
      assert (pos + 1) % 8 == pos % 8 + 1;
    }
  }

  class BitBuffer {
    const data: array<byte>
    var elements: nat
    var inByte: nat
    var inMask: byte
    var outByte: nat
    var outMask: byte

    ghost var inPos: nat
    ghost var outPos: nat
    ghost var contents: seq<bool>

    ghost function Capacity(): nat {
      8 * data.Length
    }

    /** In and Out point at bits, and In is Out plus Elements on the circle. */
    ghost predicate Pointers()
      reads this
    {
      && inPos < Capacity() && outPos < Capacity() && elements <= Capacity() <= 0xFFF8
      && PointsTo(inByte, inMask, inPos) && PointsTo(outByte, outMask, outPos)
      && inPos == Wrap(outPos + elements, Capacity())
    }

    ghost predicate Valid()
      reads this, data
    {
      Pointers() && |contents| == elements && Window(data[..], outPos, contents)
    }

    /** Statically allocated, hence zeroed, storage. */
    constructor (bytes: nat)
      requires 0 < 8 * bytes <= 0xFFF8
      ensures data.Length == bytes && AllZero(data[..]) && fresh(data) && elements == 0 && contents == []
    {
      data := new byte[bytes](_ => 0);
      elements, inByte, inMask, outByte, outMask := 0, 0, 0, 0, 0;
      inPos, outPos, contents := 0, 0, [];
    }

    /** BitBuffer_Init resets the pointers only, so it gives an empty buffer exactly when the storage is zero. */
    method Init()
      requires 0 < Capacity() <= 0xFFF8
      modifies this
      ensures Pointers() && elements == 0 && inPos == outPos == 0 && contents == []
      ensures Valid() <==> AllZero(data[..])
    {
      elements := 0;
      inByte, inMask := 0, 0x01;
      outByte, outMask := 0, 0x01;
      inPos, outPos, contents := 0, 0, [];
    }

    /** The pointer step at the end of both operations. */
    method NextBit(byteIndex: nat, mask: byte, ghost pos: nat) returns (byteIndex': nat, mask': byte)
      requires pos < Capacity() && PointsTo(byteIndex, mask, pos)
      ensures PointsTo(byteIndex', mask', Wrap(pos + 1, Capacity()))
    {
      PointerStep(byteIndex, mask, pos, data.Length);
      if mask == 0x80 {
        if byteIndex != data.Length - 1 {
          byteIndex' := byteIndex + 1;
        } else {
          byteIndex' := 0;
        }
        mask' := 0x01;
      } else {
        byteIndex', mask' := byteIndex, mask << 1;
      }
    }

    /** BitBuffer_StoreNextBit: only ever sets a bit, and relies on it having been zero. */
    method StoreNextBit(bit: bool)
      requires Valid() && elements < Capacity()
      modifies this, data
      ensures Valid() && contents == old(contents) + [bit] && outPos == old(outPos)
    {
      hide Window, Mask, BitAt, Wrap;
      WindowPush(data[..], outPos, contents, bit);
      ghost var after := Stored(data[..], inPos, bit);
      if bit {
        data[inByte] := data[inByte] | inMask;
      }
      assert data[..] == after;
      WrapSteps(outPos, elements, Capacity());
      elements := elements + 1;
      inByte, inMask := NextBit(inByte, inMask, inPos);
      inPos := Wrap(inPos + 1, Capacity());
      contents := contents + [bit];
    }

    /** Clears the bit that Out points at. */
    method ClearBit()
      requires Pointers()
      modifies data
      ensures data[..] == Cleared(old(data[..]), outPos)
    {
      hide Mask;
      data[outByte] := data[outByte] & !outMask;
    }

    /** BitBuffer_GetNextBit: takes the oldest bit and clears its place. */
    method GetNextBit() returns (bit: bool)
      requires Valid() && 0 < elements
      modifies this, data
      ensures Valid() && bit == old(contents)[0] && contents == old(contents)[1..]
    {
      hide Window, Mask, BitAt, Wrap;
      WindowPop(data[..], outPos, contents);
      hide Cleared;
      bit := data[outByte] & outMask != 0;
      ClearBit();
      WrapSteps(outPos, elements, Capacity());
      elements := elements - 1;
      outByte, outMask := NextBit(outByte, outMask, outPos);
      outPos := Wrap(outPos + 1, Capacity());
      contents := contents[1..];
    }
  }

  lemma FirstBit(data: seq<byte>, contents: seq<bool>)
    requires Window(data, 0, contents) && contents == [true]
    ensures BitAt(data, 0) && !AllZero(data)
  {
    assert Ahead(0, 0, 8 * |data|) == 0;
  }

  /** A reset with bits stored is no reset: the place the next bit will be ORed into already holds a 1. */
  method InitKeepsStoredBits(b: BitBuffer)
    requires 0 < b.Capacity() <= 0xFFF8 && AllZero(b.data[..])
    modifies b, b.data
    ensures b.Pointers() && b.elements == 0 && b.inPos == b.outPos == 0
    ensures BitAt(b.data[..], 0) && !b.Valid()
  {
    b.Init();
    assert b.Valid();
    b.StoreNextBit(true);
    assert b.outPos == 0;
    FirstBit(b.data[..], b.contents);
    b.Init();
  }
}
