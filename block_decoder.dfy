/**
 * Per-offset decoding of a Siemens S7 data block, as the PLC data logger
 * dumps it: every byte offset of the block yields one row holding the raw
 * byte, its truthiness, the big-endian signed 16-bit integer that starts
 * there and the big-endian binary32 bit pattern that starts there. The
 * integer and float windows overlap from one offset to the next; near the
 * end of the block, where a window would run past the last byte, the field
 * is absent instead.
 */
module BlockDecoder {

  datatype Option<+T> = None | Some(value: T)

  /** An unsigned 8-bit value: one element of the block buffer. */
  newtype byte = x: int | 0 <= x < 0x100

  /** An unsigned 32-bit value, used for the raw bit pattern of a binary32 float. */
  newtype uint32 = x: int | 0 <= x < 0x1_0000_0000

  /** The decoded view of one byte offset of the block. */
  datatype Row = Row(offset: nat, raw: byte, asBool: bool, asInt: Option<int>, asFloat: Option<uint32>)

  const Int16Min: int := -0x8000
  const Int16Max: int := 0x7FFF

  /** Big-endian two's-complement 16-bit integer (struct format '>h'). */
  function Int16Be(hi: byte, lo: byte): (v: int)
    ensures Int16Min <= v <= Int16Max
    ensures v < 0 <==> hi >= 0x80
  {
    var u := hi as int * 0x100 + lo as int;
    if u < 0x8000 then u else u - 0x1_0000
  }

  /** The two bytes, high byte first, that encode `v` in 16-bit two's complement. */
  function Int16Bytes(v: int): (b: (byte, byte))
    requires Int16Min <= v <= Int16Max
  {
    var u := if v < 0 then v + 0x1_0000 else v;
    ((u / 0x100) as byte, (u % 0x100) as byte)
  }

  /** Decoding a byte pair and encoding the value again gives the same pair. */
  lemma Int16BytesOfInt16Be(hi: byte, lo: byte)
    ensures Int16Bytes(Int16Be(hi, lo)) == (hi, lo)
  {
  }

  /** Every 16-bit value is decoded from exactly the bytes that encode it. */
  lemma Int16BeOfInt16Bytes(v: int)
    requires Int16Min <= v <= Int16Max
    ensures Int16Be(Int16Bytes(v).0, Int16Bytes(v).1) == v
  {
  }

  /** Big-endian binary32 bit pattern (struct format '>f', kept as its raw bits). */
  function Float32BitsBe(w: seq<byte>): (bits: uint32)
    requires |w| == 4
    ensures bits >= 0x8000_0000 <==> w[0] >= 0x80
  {
    (w[0] as int * 0x100_0000 + w[1] as int * 0x1_0000 + w[2] as int * 0x100 + w[3] as int) as uint32
  }

  /** The four bytes, most significant first, of a binary32 bit pattern. */
  function Float32Bytes(bits: uint32): (w: seq<byte>)
    ensures |w| == 4
  {
    var b := bits as int;
    [(b / 0x100_0000) as byte, (b / 0x1_0000 % 0x100) as byte, (b / 0x100 % 0x100) as byte, (b % 0x100) as byte]
  }

  /** Reading a four-byte window and splitting its pattern again gives the window. */
  lemma Float32BytesOfBitsBe(w: seq<byte>)
    requires |w| == 4
    ensures Float32Bytes(Float32BitsBe(w)) == w
  {
    var b := Float32BitsBe(w) as int;
    var hi := w[0] as int * 0x100 + w[1] as int;
    var mid := hi * 0x100 + w[2] as int;
    assert b == mid * 0x100 + w[3] as int;
    assert b / 0x100 == mid && b % 0x100 == w[3] as int;
    assert b / 0x1_0000 == mid / 0x100 == hi;
    assert b / 0x100_0000 == hi / 0x100 == w[0] as int;
  }

  /** Every bit pattern, NaNs and infinities included, is read back unchanged from its bytes. */
  lemma Float32BitsBeOfBytes(bits: uint32)
    ensures Float32BitsBe(Float32Bytes(bits)) == bits
  {
    SplitBase256(bits as int);
  }

  /** A number is the sum of its base-256 digits, as `Float32Bytes` extracts them. */
  lemma SplitBase256(b: nat)
    ensures b == (b / 0x100_0000) * 0x100_0000 + (b / 0x1_0000 % 0x100) * 0x1_0000 +
                 (b / 0x100 % 0x100) * 0x100 + b % 0x100
  {
    DivDiv256(b);
    DivDiv256(b / 0x100);
    assert b / 0x100_0000 == b / 0x1_0000 / 0x100 by { DivDiv256(b / 0x1_0000 * 0x100 + b / 0x100 % 0x100); }
  }

  /** Dividing by 256 twice is dividing by 65536. */
  lemma DivDiv256(a: nat)
    ensures a / 0x100 / 0x100 == a / 0x1_0000
  {
    var r := a % 0x1_0000;
    DivMod256(a, a / 0x1_0000 * 0x100 + r / 0x100, r % 0x100);
    DivMod256(a / 0x100, a / 0x1_0000, r / 0x100);
  }

  /** Quotient and remainder by 256 are the unique pair with a remainder below 256. */
  lemma DivMod256(a: int, q: int, r: int)
    requires 0 <= r < 0x100 && a == q * 0x100 + r
    ensures a / 0x100 == q && a % 0x100 == r
  {
  }

  /** The row the logger writes for offset `i` of the block `data`: the byte, its
      truthiness, the integer whose big-endian bytes are bytes `i` and `i + 1` when
      both exist, and the float pattern whose big-endian bytes are bytes `i` to `i + 3`
      when all four exist. */
  function RowAt(data: seq<byte>, i: nat): (r: Row)
    requires i < |data|
    ensures r.offset == i && r.raw == data[i] && (r.asBool <==> data[i] != 0)
    ensures r.asInt.Some? <==> i + 1 < |data|
    ensures r.asInt.Some? ==>
              Int16Min <= r.asInt.value <= Int16Max && Int16Bytes(r.asInt.value) == (data[i], data[i + 1])
    ensures r.asFloat.Some? <==> i + 3 < |data|
    ensures r.asFloat.Some? ==> Float32Bytes(r.asFloat.value) == data[i..i + 4]
  {
    assert i + 3 < |data| ==> Float32Bytes(Float32BitsBe(data[i..i + 4])) == data[i..i + 4] by {
      if i + 3 < |data| {
        Float32BytesOfBitsBe(data[i..i + 4]);
      }
    }
    Row(i, data[i], data[i] != 0,
        if i + 1 < |data| then Some(Int16Be(data[i], data[i + 1])) else None,
        if i + 3 < |data| then Some(Float32BitsBe(data[i..i + 4])) else None)
  }

  /** The rows for offsets `from`, `from + 1`, ..., `|data| - 1`, in that order. */
  function DecodeFrom(data: seq<byte>, from: nat): (rows: seq<Row>)
    requires from <= |data|
    ensures |rows| == |data| - from
    decreases |data| - from
  {
    if from == |data| then [] else [RowAt(data, from)] + DecodeFrom(data, from + 1)
  }

  /** The decoded table of a whole data block: row `i` is the row for offset `i`. */
  function Decode(data: seq<byte>): (rows: seq<Row>)
    ensures |rows| == |data|
    ensures forall i :: 0 <= i < |data| ==> rows[i] == RowAt(data, i)
  {
    assert forall i :: 0 <= i < |data| ==> DecodeFrom(data, 0)[i] == RowAt(data, i) by {
      forall i | 0 <= i < |data|
        ensures DecodeFrom(data, 0)[i] == RowAt(data, i)
      {
        DecodeFromAt(data, 0, i);
      }
    }
    DecodeFrom(data, 0)
  }

  lemma {:induction false} DecodeFromAt(data: seq<byte>, from: nat, k: nat)
    requires from <= k < |data|
    ensures DecodeFrom(data, from)[k - from] == RowAt(data, k)
    decreases k - from
  {
    if k > from {
      DecodeFromAt(data, from + 1, k);
    }
  }

  /** One row per byte, with offsets 0, 1, ..., |data| - 1 in ascending order. */
  lemma DecodeOffsets(data: seq<byte>)
    ensures |Decode(data)| == |data|
    ensures forall i :: 0 <= i < |data| ==> Decode(data)[i].offset == i
    ensures Decode(data) == [] <==> data == []
  {
    forall i | 0 <= i < |data|
      ensures Decode(data)[i].offset == i
    {
    }
  }

  /** Row `i` carries byte `i` and is true exactly when that byte is non-zero.
      This restates part of `RowAt`'s contract for the decoded block. */
  lemma DecodeRawAndBool(data: seq<byte>, i: nat)
    requires i < |data|
    ensures |Decode(data)| == |data|
    ensures Decode(data)[i].raw == data[i]
    ensures Decode(data)[i].asBool <==> data[i] != 0
  {
  }

  /** Row `i` has an integer exactly when byte `i + 1` exists; it is the 16-bit value
      whose big-endian encoding is bytes `i` and `i + 1`. This restates part of
      `RowAt`'s contract for the decoded block. */
  lemma DecodeInt(data: seq<byte>, i: nat)
    requires i < |data|
    ensures |Decode(data)| == |data|
    ensures Decode(data)[i].asInt.Some? <==> i + 1 < |data|
    ensures Decode(data)[i].asInt.Some? ==>
              var v := Decode(data)[i].asInt.value;
              Int16Min <= v <= Int16Max && Int16Bytes(v) == (data[i], data[i + 1])
  {
    if i + 1 < |data| {
      Int16BytesOfInt16Be(data[i], data[i + 1]);
    }
  }

  /** Row `i` has a float exactly when byte `i + 3` exists; its pattern is the one
      whose big-endian bytes are bytes `i` to `i + 3`. This restates part of
      `RowAt`'s contract for the decoded block. */
  lemma DecodeFloat(data: seq<byte>, i: nat)
    requires i < |data|
    ensures |Decode(data)| == |data|
    ensures Decode(data)[i].asFloat.Some? <==> i + 3 < |data|
    ensures Decode(data)[i].asFloat.Some? ==>
              Float32Bytes(Decode(data)[i].asFloat.value) == data[i..i + 4]
  {
    if i + 3 < |data| {
      Float32BytesOfBitsBe(data[i..i + 4]);
    }
  }

  /** Only the last row lacks an integer, and only the last three lack a float. */
  lemma OnlyTailRowsLackFields(data: seq<byte>)
    ensures |Decode(data)| == |data|
    ensures forall i :: 0 <= i < |data| ==> (Decode(data)[i].asInt.None? <==> i == |data| - 1)
    ensures forall i :: 0 <= i < |data| ==> (Decode(data)[i].asFloat.None? <==> i >= |data| - 3)
  {
    forall i | 0 <= i < |data|
      ensures Decode(data)[i].asInt.None? <==> i == |data| - 1
      ensures Decode(data)[i].asFloat.None? <==> i >= |data| - 3
    {
    }
  }

  /** Row `i` reads no byte outside `[i, min(i + 4, |data|))`: two blocks of the same
      size that agree on that window decode to the same row `i`. */
  lemma RowReadsOnlyItsWindow(a: seq<byte>, b: seq<byte>, i: nat)
    requires |a| == |b| && i < |a|
    requires var n := if i + 4 < |a| then i + 4 else |a|; a[i..n] == b[i..n]
    ensures |Decode(a)| == |a| && |Decode(b)| == |b|
    ensures Decode(a)[i] == Decode(b)[i]
  {
    var n := if i + 4 < |a| then i + 4 else |a|;
    forall k | i <= k < n
      ensures a[k] == b[k]
    {
      assert a[k] == a[i..n][k - i] && b[k] == b[i..n][k - i];
    }
    if i + 3 < |a| {
      assert a[i..i + 4] == b[i..i + 4];
    }
  }

  /** The windows overlap: the low byte of row `i`'s integer is the raw byte of row `i + 1`,
      and the last three bytes of row `i`'s float are the first three of row `i + 1`'s. */
  lemma WindowsOverlap(data: seq<byte>, i: nat)
    requires i + 1 < |data|
    ensures |Decode(data)| == |data|
    ensures Decode(data)[i].asInt.Some? && Int16Min <= Decode(data)[i].asInt.value <= Int16Max
    ensures Int16Bytes(Decode(data)[i].asInt.value).1 == Decode(data)[i + 1].raw
    ensures i + 4 < |data| ==>
              Decode(data)[i].asFloat.Some? && Decode(data)[i + 1].asFloat.Some? &&
              Float32Bytes(Decode(data)[i].asFloat.value)[1..] == Float32Bytes(Decode(data)[i + 1].asFloat.value)[..3]
  {
    DecodeInt(data, i);
    DecodeRawAndBool(data, i + 1);
    if i + 4 < |data| {
      DecodeFloat(data, i);
      DecodeFloat(data, i + 1);
      assert data[i..i + 4][1..] == data[i + 1..i + 5][..3];
    }
  }

  /** Six bytes 00 01 3F 80 00 00: row 0 reads bytes 0-1 as the integer 1 and bytes 0-3
      as its float; the pattern of 1.0f (3F 80 00 00) is the float of row 2. */
  lemma ExampleFloatOne()
    ensures var rows := Decode([0x00, 0x01, 0x3F, 0x80, 0x00, 0x00]);
            |rows| == 6 &&
            rows[0] == Row(0, 0x00, false, Some(1), Some(0x0001_3F80)) &&
            rows[2] == Row(2, 0x3F, true, Some(0x3F80), Some(0x3F80_0000)) &&
            rows[3].asFloat == None && rows[5].asInt == None
  {
    var data: seq<byte> := [0x00, 0x01, 0x3F, 0x80, 0x00, 0x00];
  }

  /** Three bytes FF 00 01: three rows, the first integer is -256, no row has a float
      and the last row has no integer. */
  lemma ExampleShortBlock()
    ensures Decode([0xFF, 0x00, 0x01]) ==
            [Row(0, 0xFF, true, Some(-0x100), None),
             Row(1, 0x00, false, Some(1), None),
             Row(2, 0x01, true, None, None)]
  {
    var data: seq<byte> := [0xFF, 0x00, 0x01];
  }
}
