/** The header of a packfile and the "size-encoding" record header of each
    object in it (Packfile.cs).  The record stream becomes a byte sequence
    and a cursor index into it. */
module Packfiles {
  import opened Results
  import opened Bytes
  import opened PackObjectTypes

  /** Each byte carries seven data bits. */
  const VarintEncodingBits: nat := 7
  /** Bit 7 says that another byte follows. */
  const VarintContinueFlag: nat := 128
  /** The number of bits of the record type. */
  const TypeBits: nat := 3
  /** The size bits of the first byte, below the type bits. */
  const TypeByteSizeBits: nat := VarintEncodingBits - TypeBits
  /** Head, signature, version and object count. */
  const HeaderLength: nat := 20

  function Pow2(n: nat): (p: nat)
    ensures p >= 1
  {
    if n == 0 then 1 else 2 * Pow2(n - 1)
  }

  lemma Pow2Values()
    ensures Pow2(TypeBits) == 8 && Pow2(TypeByteSizeBits) == 16 && Pow2(VarintEncodingBits) == 128
  {
    assert Pow2(1) == 2;
    assert Pow2(2) == 4;
    assert Pow2(3) == 8;
    assert Pow2(4) == 16;
    assert Pow2(5) == 32;
    assert Pow2(6) == 64;
  }

  lemma Pow2Add(m: nat, n: nat)
    ensures Pow2(m + n) == Pow2(m) * Pow2(n)
    decreases m
  {
    if m > 0 {
      Pow2Add(m - 1, n);
    }
  }

  // ---------------------------------------------------------------------
  // Big-endian 32-bit integers

  /** The unsigned value of four bytes, most significant first. */
  function BigEndianValue(b: seq<byte>): (u: nat)
    requires |b| == 4
    ensures u < 0x1_0000_0000
  {
    (b[0] as int) * 0x100_0000 + (b[1] as int) * 0x1_0000 + (b[2] as int) * 0x100 + b[3] as int
  }

  /** BinaryPrimitives.ReadInt32BigEndian: four bytes, most significant
      first, read as a two's-complement 32-bit integer. */
  function ReadInt32BigEndian(b: seq<byte>): (v: int)
    requires |b| == 4
    ensures -0x8000_0000 <= v < 0x8000_0000
  {
    var u := BigEndianValue(b);
    if u >= 0x8000_0000 then u - 0x1_0000_0000 else u
  }

  /** The four big-endian bytes of a 32-bit integer; the partner of
      ReadInt32BigEndian. */
  function WriteInt32BigEndian(v: int): (b: seq<byte>)
    requires -0x8000_0000 <= v < 0x8000_0000
    ensures |b| == 4
  {
    var u := if v < 0 then v + 0x1_0000_0000 else v;
    var u1 := u / 0x100;
    var u2 := u1 / 0x100;
    [u2 / 0x100, u2 % 0x100, u1 % 0x100, u % 0x100]
  }

  lemma Int32RoundTrip(v: int)
    requires -0x8000_0000 <= v < 0x8000_0000
    ensures ReadInt32BigEndian(WriteInt32BigEndian(v)) == v
  {
    var u := if v < 0 then v + 0x1_0000_0000 else v;
    var u1 := u / 0x100;
    var u2 := u1 / 0x100;
    assert u == u1 * 0x100 + u % 0x100;
    assert u1 == u2 * 0x100 + u1 % 0x100;
    assert u2 == (u2 / 0x100) * 0x100 + u2 % 0x100;
    assert BigEndianValue(WriteInt32BigEndian(v)) == u;
  }

  lemma Int32BytesRoundTrip(b: seq<byte>)
    requires |b| == 4
    ensures WriteInt32BigEndian(ReadInt32BigEndian(b)) == b
  {
    var u := BigEndianValue(b);
    var u1 := (b[0] as int) * 0x1_0000 + (b[1] as int) * 0x100 + b[2] as int;
    var u2 := (b[0] as int) * 0x100 + b[1] as int;
    assert u == u1 * 0x100 + b[3];
    assert u / 0x100 == u1 && u % 0x100 == b[3];
    assert u1 == u2 * 0x100 + b[2];
    assert u1 / 0x100 == u2 && u1 % 0x100 == b[2];
    assert u2 / 0x100 == b[0] && u2 % 0x100 == b[1];
  }

  // ---------------------------------------------------------------------
  // The packfile header

  datatype Packfile = Packfile(
    Bytes: seq<byte>, Head: string, Signature: string,
    Version: int, ObjectCount: int, ContentBytes: seq<byte>)

  /** The constructor: fixed slices of the first 20 bytes, with no check of
      the magic or of the version.  Fewer than 20 bytes fail at slicing. */
  function NewPackfile(bytes: seq<byte>): (r: Result<Packfile>)
    ensures r.Err? <==> |bytes| < HeaderLength
    ensures r.Err? ==> r.error == OutOfRange
    ensures r.Ok? ==> r.value.Bytes == bytes && r.value.ContentBytes == bytes[HeaderLength..]
    ensures r.Ok? ==> r.value.Head == AsciiDecode(bytes[..8]) && r.value.Signature == AsciiDecode(bytes[8..12])
    ensures r.Ok? ==> r.value.Version == ReadInt32BigEndian(bytes[12..16])
    ensures r.Ok? ==> r.value.ObjectCount == ReadInt32BigEndian(bytes[16..20])
    ensures r.Ok? ==> |r.value.Head| == 8 && |r.value.Signature| == 4
  {
    if |bytes| < HeaderLength then Err(OutOfRange)
    else
      Ok(Packfile(bytes,
                  AsciiDecode(bytes[..8]), AsciiDecode(bytes[8..12]),
                  ReadInt32BigEndian(bytes[12..16]), ReadInt32BigEndian(bytes[16..20]),
                  bytes[20..]))
  }

  /** The fields hold the whole input: the two counts give back their
      bytes, an ASCII head and signature give back theirs, and the content
      is the rest. */
  lemma PackfileFields(bytes: seq<byte>)
    requires |bytes| >= HeaderLength
    ensures var p := NewPackfile(bytes).value;
      && WriteInt32BigEndian(p.Version) == bytes[12..16]
      && WriteInt32BigEndian(p.ObjectCount) == bytes[16..20]
      && ((forall i :: 0 <= i < 12 ==> bytes[i] < 128) ==>
            AsciiEncode(p.Head) + AsciiEncode(p.Signature) + bytes[12..] == bytes)
  {
    Int32BytesRoundTrip(bytes[12..16]);
    Int32BytesRoundTrip(bytes[16..20]);
    if forall i :: 0 <= i < 12 ==> bytes[i] < 128 {
      AsciiDecodeRoundTrip(bytes[..8]);
      AsciiDecodeRoundTrip(bytes[8..12]);
      assert bytes[..8] + bytes[8..12] + bytes[12..] == bytes;
    }
  }

  // ---------------------------------------------------------------------
  // The size-encoding variable-length integer

  /** One byte of a varint: its seven data bits and its continuation flag. */
  datatype VarintByte = VarintByte(Value: nat, MoreBytes: bool)

  /** A decoded value and the cursor just past the bytes it used. */
  datatype Decoded = Decoded(Value: nat, Next: nat)

  /** ReadVarintByte: reads the byte at `pos`; fails when the stream has
      ended. */
  function ReadVarintByte(data: seq<byte>, pos: nat): (r: Result<VarintByte>)
    ensures r.Err? <==> pos >= |data|
    ensures r.Err? ==> r.error == EndOfStream
    ensures r.Ok? ==> r.value.Value < VarintContinueFlag
    ensures r.Ok? ==> (r.value.MoreBytes <==> data[pos] >= VarintContinueFlag)
    ensures r.Ok? ==> data[pos] == r.value.Value + (if r.value.MoreBytes then VarintContinueFlag else 0)
  {
    if pos >= |data| then Err(EndOfStream)
    else Ok(VarintByte(data[pos] % VarintContinueFlag, data[pos] >= VarintContinueFlag))
  }

  /** `lo + scale * d.Value`, keeping the cursor: how the groups read so far
      combine with the value of the rest. */
  function Shift(r: Result<Decoded>, lo: nat, scale: nat): Result<Decoded> {
    match r
    case Ok(d) => Ok(Decoded(lo + scale * d.Value, d.Next))
    case Err(e) => Err(e)
  }

  /** The reference reading of a size-encoding at `pos`: the low seven bits
      of each byte, least significant group first, up to and including the
      first byte whose bit 7 is clear. */
  function SizeEncodingAt(data: seq<byte>, pos: nat): Result<Decoded>
    decreases |data| - pos
  {
    if pos >= |data| then Err(EndOfStream)
    else if data[pos] < VarintContinueFlag then Ok(Decoded(data[pos], pos + 1))
    else Shift(SizeEncodingAt(data, pos + 1), data[pos] % VarintContinueFlag, VarintContinueFlag)
  }

  lemma ShiftShift(r: Result<Decoded>, value: nat, scale: nat, lo: nat)
    ensures Shift(Shift(r, lo, VarintContinueFlag), value, scale)
         == Shift(r, value + scale * lo, scale * VarintContinueFlag)
  {
    if r.Ok? {
      var v := r.value.Value;
      assert scale * (lo + VarintContinueFlag * v) == scale * lo + (scale * VarintContinueFlag) * v;
    }
  }

  /** ReadSizeEncoding: `value |= byteValue << length` adds each group at
      its bit offset, which is an addition since the ranges are disjoint. */
  method ReadSizeEncoding(data: seq<byte>, start: nat) returns (r: Result<Decoded>)
    ensures r == SizeEncodingAt(data, start)
  {
    var value: nat := 0;
    var length: nat := 0;
    var pos := start;
    while true
      invariant start <= pos
      invariant length == VarintEncodingBits * (pos - start)
      invariant SizeEncodingAt(data, start) == Shift(SizeEncodingAt(data, pos), value, Pow2(length))
      decreases |data| - pos
    {
      var b := ReadVarintByte(data, pos);
      if b.Err? {
        return Err(b.error);
      }
      ShiftShift(SizeEncodingAt(data, pos + 1), value, Pow2(length), b.value.Value);
      value := value + b.value.Value * Pow2(length);
      pos := pos + 1;
      if !b.value.MoreBytes {
        return Ok(Decoded(value, pos));
      }
      Pow2Add(length, VarintEncodingBits);
      length := length + VarintEncodingBits;
    }
  }

  /** The reading fails exactly when no byte from `pos` on has bit 7 clear,
      and the failure is the end of the stream. */
  lemma {:induction false} SizeEncodingFails(data: seq<byte>, pos: nat)
    ensures SizeEncodingAt(data, pos).Err? <==> forall i :: pos <= i < |data| ==> data[i] >= VarintContinueFlag
    ensures SizeEncodingAt(data, pos).Err? ==> SizeEncodingAt(data, pos).error == EndOfStream
    decreases |data| - pos
  {
    if pos < |data| && data[pos] >= VarintContinueFlag {
      SizeEncodingFails(data, pos + 1);
    }
  }

  lemma GroupBound(lo: nat, v: nat, p: nat)
    requires lo < 128 && v < p
    ensures lo + 128 * v < 128 * p
  {
  }

  /** A reading consumes the bytes up to and including the first one whose
      bit 7 is clear, and its value fits the seven bits per byte read. */
  lemma {:induction false} SizeEncodingConsumes(data: seq<byte>, pos: nat)
    requires SizeEncodingAt(data, pos).Ok?
    ensures var d := SizeEncodingAt(data, pos).value;
      && pos < d.Next <= |data|
      && data[d.Next - 1] < VarintContinueFlag
      && (forall i :: pos <= i < d.Next - 1 ==> data[i] >= VarintContinueFlag)
      && d.Value < Pow2(VarintEncodingBits * (d.Next - pos))
    decreases |data| - pos
  {
    if data[pos] >= VarintContinueFlag {
      SizeEncodingConsumes(data, pos + 1);
      var d := SizeEncodingAt(data, pos + 1).value;
      var k := VarintEncodingBits * (d.Next - pos - 1);
      Pow2Add(VarintEncodingBits, k);
      Pow2Values();
      assert VarintEncodingBits * (d.Next - pos) == VarintEncodingBits + k;
      GroupBound(data[pos] % VarintContinueFlag, d.Value, Pow2(k));
    } else {
      Pow2Values();
    }
  }

  /** The canonical size-encoding of `n`: seven bits per byte, least
      significant first, bit 7 set on every byte but the last. */
  function EncodeGroups(n: nat): (bs: seq<byte>)
    ensures |bs| >= 1
    decreases n
  {
    if n < VarintContinueFlag then [n]
    else [VarintContinueFlag + n % VarintContinueFlag] + EncodeGroups(n / VarintContinueFlag)
  }

  lemma {:induction false} EncodeGroupsRoundTrip(n: nat, rest: seq<byte>, pos: nat, data: seq<byte>)
    requires pos <= |data| && data[pos..] == EncodeGroups(n) + rest
    ensures SizeEncodingAt(data, pos) == Ok(Decoded(n, pos + |EncodeGroups(n)|))
    decreases n
  {
    assert data[pos] == EncodeGroups(n)[0];
    if n >= VarintContinueFlag {
      var tail := EncodeGroups(n / VarintContinueFlag);
      assert data[pos + 1..] == tail + rest by {
        assert data[pos + 1..] == data[pos..][1..];
      }
      EncodeGroupsRoundTrip(n / VarintContinueFlag, rest, pos + 1, data);
    }
  }

  // ---------------------------------------------------------------------
  // Record type and size

  lemma ModOfSmall(v: nat, p: nat)
    requires p >= 1
    ensures v < p ==> v % p == v
  {
  }

  /** KeepBits: `value & ((1 << bits) - 1)`, the low `bits` bits. */
  function KeepBits(value: nat, bits: nat): (r: nat)
    ensures r < Pow2(bits)
    ensures value < Pow2(bits) ==> r == value
  {
    ModOfSmall(value, Pow2(bits));
    value % Pow2(bits)
  }

  /** A record header: its type, its uncompressed size, and the cursor past it. */
  datatype TypeAndSize = TypeAndSize(Type: PackObjectType, Size: nat, Next: nat)

  lemma SplitBits(v: nat)
    ensures (v % 16 + (v / 128) * 16) % 16 == v % 16
    ensures (v % 16 + (v / 128) * 16) / 16 == v / 128
  {
  }

  /** The split of ReadTypeAndSize: bits 4 to 6 are the type; the size
      keeps the low four bits and moves the bits from 7 up down by three. */
  function SplitTypeAndSize(d: Decoded): (r: TypeAndSize)
    ensures r.Type.Code() == (d.Value / 16) % 8 && r.Next == d.Next
    ensures r.Size % 16 == d.Value % 16 && r.Size / 16 == d.Value / 128
  {
    Pow2Values();
    SplitBits(d.Value);
    var code := KeepBits(d.Value / Pow2(TypeByteSizeBits), TypeBits);
    var size := KeepBits(d.Value, TypeByteSizeBits)
              + (d.Value / Pow2(VarintEncodingBits)) * Pow2(TypeByteSizeBits);
    TypeAndSize(FromCode(code), size, d.Next)
  }

  function TypeAndSizeAt(data: seq<byte>, pos: nat): Result<TypeAndSize> {
    var d :- SizeEncodingAt(data, pos);
    Ok(SplitTypeAndSize(d))
  }

  /** ReadTypeAndSize. */
  method ReadTypeAndSize(data: seq<byte>, pos: nat) returns (r: Result<TypeAndSize>)
    ensures r == TypeAndSizeAt(data, pos)
  {
    var value := ReadSizeEncoding(data, pos);
    if value.Err? {
      return Err(value.error);
    }
    return Ok(SplitTypeAndSize(value.value));
  }

  /** A single byte with bit 7 clear holds the type in bits 4 to 6 and the
      size in bits 0 to 3. */
  lemma SingleByteHeader(data: seq<byte>, pos: nat)
    requires pos < |data| && data[pos] < VarintContinueFlag
    ensures TypeAndSizeAt(data, pos) == Ok(TypeAndSize(FromCode(data[pos] / 16), data[pos] % 16, pos + 1))
  {
    Pow2Values();
  }

  /** The canonical header of a record of type `code` and size `size`. */
  function EncodeTypeAndSize(code: nat, size: nat): (bs: seq<byte>)
    requires code < 8
    ensures |bs| >= 1
  {
    if size < 16 then [code * 16 + size]
    else [VarintContinueFlag + code * 16 + size % 16] + EncodeGroups(size / 16)
  }

  lemma SplitArithmetic(code: nat, size: nat, high: nat)
    requires code < 8 && high == size / 16
    ensures var v := code * 16 + size % 16 + VarintContinueFlag * high;
      && (v / 16) % 8 == code && v % 16 == size % 16 && v / 128 == high
      && size % 16 + (v / 128) * 16 == size
  {
  }

  /** The split undoes the arrangement of a canonical header's varint. */
  lemma SplitOfHeaderValue(code: nat, size: nat, next: nat)
    requires code < 8
    ensures SplitTypeAndSize(Decoded(code * 16 + size % 16 + VarintContinueFlag * (size / 16), next))
         == TypeAndSize(FromCode(code), size, next)
  {
    var v := code * 16 + size % 16 + VarintContinueFlag * (size / 16);
    SplitArithmetic(code, size, size / 16);
    var r := SplitTypeAndSize(Decoded(v, next));
    assert r.Size % 16 == size % 16 && r.Size / 16 == size / 16;
    assert r.Size == size;
    FromCodeOfCode(r.Type);
  }

  /** The varint of a canonical header holds the type above the low four
      size bits and the remaining size groups above bit 7. */
  lemma HeaderVarint(code: nat, size: nat, rest: seq<byte>)
    requires code < 8
    ensures var bs := EncodeTypeAndSize(code, size);
      SizeEncodingAt(bs + rest, 0)
        == Ok(Decoded(code * 16 + size % 16 + VarintContinueFlag * (size / 16), |bs|))
  {
    var bs := EncodeTypeAndSize(code, size);
    var data := bs + rest;
    if size >= 16 {
      assert data[1..] == EncodeGroups(size / 16) + rest;
      EncodeGroupsRoundTrip(size / 16, rest, 1, data);
    }
  }

  /** Reading a canonical header back gives its type and size and stops
      right after it. */
  lemma TypeAndSizeRoundTrip(code: nat, size: nat, rest: seq<byte>)
    requires code < 8
    ensures var bs := EncodeTypeAndSize(code, size);
      TypeAndSizeAt(bs + rest, 0) == Ok(TypeAndSize(FromCode(code), size, |bs|))
  {
    var bs := EncodeTypeAndSize(code, size);
    HeaderVarint(code, size, rest);
    SplitOfHeaderValue(code, size, |bs|);
  }
}
