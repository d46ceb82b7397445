/** The slot codec: a day's 30 half-hour slots, each 0 or 1, packed into the
    4-byte BINARY(4) `block_data` column. Slot i lives in byte i / 8 at bit
    7 - i % 8 (most significant bit first); the last two bits of byte 3
    carry no slot. */
module SlotCodec {

  const SlotCount := 30
  const ByteCount := 4

  /** Byte j of a stored buffer. An index past the end of a Node Buffer reads
      as `undefined`, which JavaScript's `>>` turns into 0. */
  function ByteAt(buf: seq<bv8>, j: int): bv8
  {
    if 0 <= j < |buf| then buf[j] else 0
  }

  /** `(b >> pos) & 1`, as a number. */
  function BitAt(b: bv8, pos: nat): (v: int)
    requires pos < 8
    ensures v == 0 || v == 1
  {
    if (b >> pos) & 1 == 1 then 1 else 0
  }

  /** The byte with only bit `pos` set. */
  function Bit(pos: nat): bv8
    requires pos < 8
  {
    match pos
    case 0 => 0x01 case 1 => 0x02 case 2 => 0x04 case 3 => 0x08
    case 4 => 0x10 case 5 => 0x20 case 6 => 0x40 case _ => 0x80
  }

  /** The single-bit mask `1 << (7 - k)` for the k-th slot of a byte. */
  function SlotMask(k: nat): bv8
    requires k < 8
  {
    Bit(7 - k)
  }

  /** Bit `pos` is set exactly when masking with `Bit(pos)` leaves something. */
  lemma BitAtMask(b: bv8, pos: nat)
    requires pos < 8
    ensures BitAt(b, pos) == if b & Bit(pos) != 0 then 1 else 0
  {
  }

  /** `1 << pos` is `Bit(pos)`. */
  lemma ShiftLeft(pos: nat)
    requires pos < 8
    ensures (1 as bv8) << pos == Bit(pos)
  {
  }

  /** Slot i is written as a set bit exactly when `blocks[i] === 1`; a slot
      past the end of `blocks` reads as `undefined` and so stays clear. */
  predicate IsOn(blocks: seq<int>, i: int)
  {
    0 <= i < SlotCount && i < |blocks| && blocks[i] == 1
  }

  /** The blocks a stored buffer stands for. */
  function Decode(buf: seq<bv8>): (blocks: seq<int>)
    ensures |blocks| == SlotCount
    ensures forall i :: 0 <= i < |blocks| ==> blocks[i] == 0 || blocks[i] == 1
  {
    seq(SlotCount, i requires 0 <= i < SlotCount => BitAt(ByteAt(buf, i / 8), 7 - i % 8))
  }

  /** Bits 7 - k down to 0 of byte j of the packed form: bit 7 - k' is set
      for every k' >= k whose slot 8 * j + k' is on. */
  function PackFrom(blocks: seq<int>, j: int, k: nat): bv8
    requires k <= 8
    decreases 8 - k
  {
    if k == 8 then 0 else (if IsOn(blocks, 8 * j + k) then SlotMask(k) else 0) | PackFrom(blocks, j, k + 1)
  }

  /** Byte j of the packed form: bit 7 - k is slot 8 * j + k. */
  function PackByte(blocks: seq<int>, j: int): bv8
  {
    PackFrom(blocks, j, 0)
  }

  /** The buffer a blocks array is stored as. */
  function Encode(blocks: seq<int>): (buf: seq<bv8>)
    ensures |buf| == ByteCount
    ensures buf[3] & 0x03 == 0
  {
    var buf := seq(ByteCount, j requires 0 <= j < ByteCount => PackByte(blocks, j));
    PackByteBit(blocks, 3, 6);
    PackByteBit(blocks, 3, 7);
    LowBitsClear(buf[3]);
    buf
  }

  /** Bit p of `x | y` is set when it is set in either. */
  lemma OrBits(x: bv8, y: bv8, p: nat)
    requires p < 8
    ensures BitAt(x | y, p) == if BitAt(x, p) == 1 || BitAt(y, p) == 1 then 1 else 0
  {
    BitAtMask(x | y, p);
    BitAtMask(x, p);
    BitAtMask(y, p);
  }

  /** `Bit(k)` has bit k set and no other. */
  lemma BitOfBit(k: nat, p: nat)
    requires k < 8 && p < 8
    ensures BitAt(Bit(k), p) == if p == k then 1 else 0
  {
    BitAtMask(Bit(k), p);
  }

  /** A byte whose bits 0 and 1 are clear has nothing under the mask 0x03. */
  lemma LowBitsClear(x: bv8)
    requires BitAt(x, 0) == 0 && BitAt(x, 1) == 0
    ensures x & 0x03 == 0
  {
  }

  lemma {:induction false} PackFromBit(blocks: seq<int>, j: int, k: nat, p: nat)
    requires k <= 8 && p < 8
    ensures BitAt(PackFrom(blocks, j, k), p) == if k <= 7 - p && IsOn(blocks, 8 * j + 7 - p) then 1 else 0
    decreases 8 - k
  {
    if k < 8 {
      PackFromBit(blocks, j, k + 1, p);
      OrBits(if IsOn(blocks, 8 * j + k) then SlotMask(k) else 0, PackFrom(blocks, j, k + 1), p);
      BitOfBit(7 - k, p);
    }
  }

  lemma PackByteBit(blocks: seq<int>, j: int, k: nat)
    requires k < 8
    ensures BitAt(PackByte(blocks, j), 7 - k) == if IsOn(blocks, 8 * j + k) then 1 else 0
  {
    PackFromBit(blocks, j, 0, 7 - k);
  }

  /** `Encode` sets bit 7 - i % 8 of byte i / 8 exactly when `blocks[i] == 1`
      for a slot i < 30, and never sets bits 30 and 31. */
  lemma EncodeSlot(blocks: seq<int>, i: int)
    requires 0 <= i < 8 * ByteCount
    ensures BitAt(Encode(blocks)[i / 8], 7 - i % 8) == if IsOn(blocks, i) then 1 else 0
    ensures i >= SlotCount ==> BitAt(Encode(blocks)[i / 8], 7 - i % 8) == 0
  {
    PackByteBit(blocks, i / 8, i % 8);
  }

  /** Round trip one way: packing then unpacking a 30-slot 0/1 array gives it back. */
  lemma DecodeEncode(blocks: seq<int>)
    requires |blocks| == SlotCount
    requires forall i :: 0 <= i < |blocks| ==> blocks[i] == 0 || blocks[i] == 1
    ensures Decode(Encode(blocks)) == blocks
  {
    var r := Decode(Encode(blocks));
    forall i | 0 <= i < SlotCount
      ensures r[i] == blocks[i]
    {
      EncodeSlot(blocks, i);
    }
  }

  lemma DecodedSlot(buf: seq<bv8>, j: int, k: nat)
    requires 0 <= j < ByteCount && k < 8
    ensures IsOn(Decode(buf), 8 * j + k) == ((j < 3 || k < 6) && BitAt(ByteAt(buf, j), 7 - k) == 1)
  {
    if 8 * j + k < SlotCount {
      assert (8 * j + k) / 8 == j && (8 * j + k) % 8 == k;
    }
  }

  /** `x & 0xFC` clears bits 0 and 1 and keeps the others. */
  lemma LowBitsCleared(x: bv8, p: nat)
    requires p < 8
    ensures BitAt(x & 0xFC, p) == if p < 2 then 0 else BitAt(x, p)
  {
    BitAtMask(x & 0xFC, p);
    BitAtMask(x, p);
  }

  /** Bit p of the byte that packing the decoded bits of byte j gives. */
  lemma PackDecodedBit(buf: seq<bv8>, j: int, p: nat)
    requires 0 <= j < ByteCount && p < 8
    ensures BitAt(PackByte(Decode(buf), j), p) ==
      if j < 3 || p >= 2 then BitAt(ByteAt(buf, j), p) else 0
  {
    PackByteBit(Decode(buf), j, 7 - p);
    DecodedSlot(buf, j, 7 - p);
  }

  /** The byte that packing the decoded bits of byte j gives back. */
  lemma PackDecodedByte(buf: seq<bv8>, j: int)
    requires 0 <= j < ByteCount
    ensures PackByte(Decode(buf), j) == if j < 3 then ByteAt(buf, j) else ByteAt(buf, 3) & 0xFC
  {
    var want := if j < 3 then ByteAt(buf, j) else ByteAt(buf, 3) & 0xFC;
    forall p | 0 <= p < 8
      ensures BitAt(PackByte(Decode(buf), j), p) == BitAt(want, p)
    {
      PackDecodedBit(buf, j, p);
      LowBitsCleared(ByteAt(buf, j), p);
    }
    ByteExt(PackByte(Decode(buf), j), want);
  }

  /** Round trip the other way: unpacking then packing a stored buffer gives
      its first four bytes back with bits 30 and 31 cleared. */
  lemma EncodeDecode(buf: seq<bv8>)
    ensures |Encode(Decode(buf))| == ByteCount
    ensures forall j :: 0 <= j < 3 ==> Encode(Decode(buf))[j] == ByteAt(buf, j)
    ensures Encode(Decode(buf))[3] == ByteAt(buf, 3) & 0xFC
  {
    forall j | 0 <= j < 3
      ensures Encode(Decode(buf))[j] == ByteAt(buf, j)
    {
      PackDecodedByte(buf, j);
    }
    PackDecodedByte(buf, 3);
  }

  /** Decoding never looks past bit 29: two buffers that agree on their
      first 30 bits decode alike, whatever their last two bits or any bytes
      beyond the fourth hold. */
  lemma DecodeIgnoresPadding(buf: seq<bv8>, other: seq<bv8>)
    requires forall j :: 0 <= j < 3 ==> ByteAt(buf, j) == ByteAt(other, j)
    requires ByteAt(buf, 3) & 0xFC == ByteAt(other, 3) & 0xFC
    ensures Decode(buf) == Decode(other)
  {
    forall i | 0 <= i < SlotCount
      ensures Decode(buf)[i] == Decode(other)[i]
    {
      assert i / 8 < 3 || 7 - i % 8 >= 2;
      LowBitsCleared(ByteAt(buf, 3), 7 - i % 8);
      LowBitsCleared(ByteAt(other, 3), 7 - i % 8);
    }
  }

  /** `x | (1 << k)` sets bit k and keeps every other bit. */
  lemma OrBit(x: bv8, k: nat, p: nat)
    requires k < 8 && p < 8
    ensures BitAt(x | ((1 as bv8) << k), p) == if p == k then 1 else BitAt(x, p)
  {
    ShiftLeft(k);
    OrBits(x, Bit(k), p);
    BitOfBit(k, p);
  }

  /** Two bytes with the same eight bits are equal. */
  lemma ByteExt(x: bv8, y: bv8)
    requires forall p :: 0 <= p < 8 ==> BitAt(x, p) == BitAt(y, p)
    ensures x == y
  {
    assert BitAt(x, 0) == BitAt(y, 0) && BitAt(x, 1) == BitAt(y, 1);
    assert BitAt(x, 2) == BitAt(y, 2) && BitAt(x, 3) == BitAt(y, 3);
    assert BitAt(x, 4) == BitAt(y, 4) && BitAt(x, 5) == BitAt(y, 5);
    assert BitAt(x, 6) == BitAt(y, 6) && BitAt(x, 7) == BitAt(y, 7);
  }



  /** binaryToBlocks: walks the four bytes, most significant bit first,
      pushing each bit, and keeps the first 30. */
  method BinaryToBlocks(buffer: seq<bv8>) returns (blocks: seq<int>)
    ensures blocks == Decode(buffer)
  {
    var pushed: seq<int> := [];
    var byteIndex := 0;
    while byteIndex < ByteCount
      invariant 0 <= byteIndex <= ByteCount
      invariant |pushed| == 8 * byteIndex
      invariant forall n :: 0 <= n < |pushed| ==> pushed[n] == BitAt(ByteAt(buffer, n / 8), 7 - n % 8)
    {
      var bit := 7;
      while bit >= 0
        invariant -1 <= bit <= 7
        invariant |pushed| == 8 * byteIndex + 7 - bit
        invariant forall n :: 0 <= n < |pushed| ==> pushed[n] == BitAt(ByteAt(buffer, n / 8), 7 - n % 8)
      {
        var v := if (ByteAt(buffer, byteIndex) >> bit) & 1 == 1 then 1 else 0;
        assert (|pushed|) / 8 == byteIndex && (|pushed|) % 8 == 7 - bit;
        pushed := pushed + [v];
        bit := bit - 1;
      }
      byteIndex := byteIndex + 1;
    }
    blocks := pushed[..SlotCount];
  }

  /** Four bytes in which bit p of byte j, slot 8 * j + 7 - p, is set
      exactly when that slot is below i and on. */
  ghost predicate HasSlotsBelow(buf: seq<bv8>, blocks: seq<int>, i: int)
  {
    && |buf| == ByteCount
    && forall j, p :: 0 <= j < ByteCount && 0 <= p < 8 ==>
         BitAt(buf[j], p) == if 8 * j + 7 - p < i && IsOn(blocks, 8 * j + 7 - p) then 1 else 0
  }

  /** Setting the bit of slot i, when it is on, extends the bits set so far. */
  lemma SetSlot(before: seq<bv8>, blocks: seq<int>, i: int)
    requires 0 <= i < SlotCount && IsOn(blocks, i)
    requires HasSlotsBelow(before, blocks, i)
    ensures HasSlotsBelow(before[i / 8 := before[i / 8] | ((1 as bv8) << (7 - i % 8))], blocks, i + 1)
  {
    var byteIndex, bitIndex := i / 8, 7 - i % 8;
    assert i == 8 * byteIndex + 7 - bitIndex;
    var after := before[byteIndex := before[byteIndex] | ((1 as bv8) << bitIndex)];
    forall j, p | 0 <= j < ByteCount && 0 <= p < 8
      ensures BitAt(after[j], p) == if 8 * j + 7 - p < i + 1 && IsOn(blocks, 8 * j + 7 - p) then 1 else 0
    {
      if j == byteIndex {
        OrBit(before[j], bitIndex, p);
      }
    }
  }

  /** Four zero bytes have no slot set. */
  lemma NoSlots(buf: seq<bv8>, blocks: seq<int>)
    requires buf == [0, 0, 0, 0]
    ensures HasSlotsBelow(buf, blocks, 0)
  {
    forall j, p | 0 <= j < ByteCount && 0 <= p < 8
      ensures BitAt(buf[j], p) == 0
    {
      BitAtMask(buf[j], p);
    }
  }

  /** A slot that is not on leaves the bytes as they are. */
  lemma SkipSlot(buf: seq<bv8>, blocks: seq<int>, i: int)
    requires 0 <= i && !IsOn(blocks, i)
    requires HasSlotsBelow(buf, blocks, i)
    ensures HasSlotsBelow(buf, blocks, i + 1)
  {
    forall j, p | 0 <= j < ByteCount && 0 <= p < 8
      ensures BitAt(buf[j], p) == if 8 * j + 7 - p < i + 1 && IsOn(blocks, 8 * j + 7 - p) then 1 else 0
    {
      assert 8 * j + 7 - p == i ==> !IsOn(blocks, 8 * j + 7 - p);
    }
  }

  /** Once every slot is done, the bytes are the packed form. */
  lemma AllSlots(buf: seq<bv8>, blocks: seq<int>)
    requires HasSlotsBelow(buf, blocks, SlotCount)
    ensures buf == Encode(blocks)
  {
    forall j | 0 <= j < ByteCount
      ensures buf[j] == Encode(blocks)[j]
    {
      forall p | 0 <= p < 8
        ensures BitAt(buf[j], p) == BitAt(PackByte(blocks, j), p)
      {
        PackByteBit(blocks, j, 7 - p);
      }
      ByteExt(buf[j], PackByte(blocks, j));
    }
  }

  /** blocksToBinary: starts from four zero bytes and ORs in the bit of
      every slot whose entry is exactly 1. */
  method BlocksToBinary(blocks: seq<int>) returns (packed: seq<bv8>)
    ensures packed == Encode(blocks)
  {
    var buffer := new bv8[ByteCount](_ => 0);
    NoSlots(buffer[..], blocks);
    for i := 0 to SlotCount
      invariant HasSlotsBelow(buffer[..], blocks, i)
    {
      if i < |blocks| && blocks[i] == 1 {
        var byteIndex := i / 8;
        var bitIndex := 7 - i % 8;
        ghost var before := buffer[..];
        buffer[byteIndex] := buffer[byteIndex] | ((1 as bv8) << bitIndex);
        assert buffer[..] == before[byteIndex := before[byteIndex] | ((1 as bv8) << bitIndex)];
        SetSlot(before, blocks, i);
      } else {
        SkipSlot(buffer[..], blocks, i);
      }
    }
    packed := buffer[..];
    AllSlots(packed, blocks);
  }
}
