/** The byte serializer and deserializer, and the codecs for numbers, byte strings and bit vectors. */
module Serialization {
  import opened Bytes

  // ---------------------------------------------------------------- bit vectors

  /** Bit j of a group of up to eight; missing bits are zero. */
  function Bit(bits: seq<bool>, j: nat): nat {
    if j < |bits| && bits[j] then 1 else 0
  }

  /** The number written by the first k bits, the first one most significant. */
  function Binary(bits: seq<bool>, k: nat): nat {
    if k == 0 then 0 else 2 * Binary(bits, k - 1) + Bit(bits, k - 1)
  }

  function ByteOf(bits: seq<bool>): Byte {
    BinaryBound(bits);
    Binary(bits, 8)
  }

  lemma BinaryBound(bits: seq<bool>)
    ensures Binary(bits, 8) < 256
  {
    assert Binary(bits, 0) == 0;
    assert Binary(bits, 1) < 2;
    assert Binary(bits, 2) < 4;
    assert Binary(bits, 3) < 8;
    assert Binary(bits, 4) < 16;
    assert Binary(bits, 5) < 32;
    assert Binary(bits, 6) < 64;
  }

  /** x without its k lowest bits. */
  function High(x: nat, k: nat): nat {
    if k == 0 then x else High(x, k - 1) / 2
  }

  function BitsOf(b: Byte): (bits: seq<bool>)
    ensures |bits| == 8
  {
    seq(8, j requires 0 <= j < 8 => High(b, 7 - j) % 2 == 1)
  }

  function Pack(bits: seq<bool>): (p: Bytes)
    ensures |p| == (|bits| + 7) / 8
  {
    if |bits| == 0 then []
    else if |bits| < 8 then [ByteOf(bits)]
    else [ByteOf(bits[..8])] + Pack(bits[8..])
  }

  function Unpack(p: Bytes): (bits: seq<bool>)
    ensures |bits| == 8 * |p|
  {
    if p == [] then [] else BitsOf(p[0]) + Unpack(p[1..])
  }

  /** What a receiver makes of a bit vector: false bits are added up to a multiple of eight. */
  function Extended(bits: seq<bool>): (e: seq<bool>)
    ensures |e| == 8 * ((|bits| + 7) / 8)
    ensures |bits| <= |e| && e[..|bits|] == bits
    ensures forall i :: |bits| <= i < |e| ==> !e[i]
  {
    bits + seq(8 * ((|bits| + 7) / 8) - |bits|, _ => false)
  }

  lemma {:induction false} HighOfBinary(bits: seq<bool>, k: nat)
    requires k <= 8
    ensures High(Binary(bits, 8), k) == Binary(bits, 8 - k)
  {
    if k > 0 {
      HighOfBinary(bits, k - 1);
    }
  }

  lemma ByteRoundTrip(bits: seq<bool>)
    requires |bits| <= 8
    ensures BitsOf(ByteOf(bits)) == bits + seq(8 - |bits|, _ => false)
  {
    hide High, Binary;
    forall j | 0 <= j < 8 ensures BitsOf(ByteOf(bits))[j] == (Bit(bits, j) == 1) {
      HighOfBinary(bits, 7 - j);
      BinaryStep(bits, j);
    }
  }

  /** Unpacking a packed bit vector gives it back, extended with false bits to whole bytes. */
  lemma {:induction false} PackRoundTrip(bits: seq<bool>)
    ensures Unpack(Pack(bits)) == Extended(bits)
    decreases |bits|
  {
    hide ByteOf, BitsOf;
    if |bits| == 0 {
    } else if |bits| < 8 {
      ByteRoundTrip(bits);
      assert Pack(bits)[1..] == [];
      assert bits + seq(8 - |bits|, _ => false) == Extended(bits);
    } else {
      ByteRoundTrip(bits[..8]);
      PackRoundTrip(bits[8..]);
      ExtendedStep(bits);
      assert Pack(bits)[1..] == Pack(bits[8..]);
    }
  }

  lemma ExtendedStep(bits: seq<bool>)
    requires |bits| >= 8
    ensures bits[..8] + seq(0, _ => false) + Extended(bits[8..]) == Extended(bits)
  {
    assert bits == bits[..8] + bits[8..];
    assert (|bits| + 7) / 8 == 1 + (|bits[8..]| + 7) / 8;
  }

  /** The number whose binary digits these are. */
  ghost function Octet(a: nat, b: nat, c: nat, d: nat, e: nat, f: nat, g: nat, h: nat): nat {
    128 * a + 64 * b + 32 * c + 16 * d + 8 * e + 4 * f + 2 * g + h
  }

  /** Byte i of a packed vector has bits 8 * i to 8 * i + 7, the first one highest; missing ones are zero. */
  lemma {:induction false} PackedBits(bits: seq<bool>, i: nat)
    requires i < |Pack(bits)|
    ensures Pack(bits)[i] == Octet(Bit(bits, 8 * i), Bit(bits, 8 * i + 1), Bit(bits, 8 * i + 2), Bit(bits, 8 * i + 3),
                                   Bit(bits, 8 * i + 4), Bit(bits, 8 * i + 5), Bit(bits, 8 * i + 6),
                                   Bit(bits, 8 * i + 7))
    ensures forall k: nat :: Bit(bits, k) == if k < |bits| && bits[k] then 1 else 0
    decreases i
  {
    hide ByteOf, Octet;
    if |bits| >= 8 && i > 0 {
      PackedBits(bits[8..], i - 1);
      assert forall k: nat :: Bit(bits[8..], k) == Bit(bits, k + 8);
    } else {
      ByteBits(if |bits| < 8 then bits else bits[..8]);
    }
  }

  lemma ByteBits(bits: seq<bool>)
    ensures ByteOf(bits) == Octet(Bit(bits, 0), Bit(bits, 1), Bit(bits, 2), Bit(bits, 3),
                                  Bit(bits, 4), Bit(bits, 5), Bit(bits, 6), Bit(bits, 7))
  {
    hide Bit, Binary;
    BinaryStep(bits, 0);
    BinaryStep(bits, 1);
    BinaryStep(bits, 2);
    BinaryStep(bits, 3);
    BinaryStep(bits, 4);
    BinaryStep(bits, 5);
    BinaryStep(bits, 6);
    BinaryStep(bits, 7);
  }

  lemma BinaryStep(bits: seq<bool>, k: nat)
    ensures Binary(bits, 0) == 0 && Binary(bits, k + 1) == 2 * Binary(bits, k) + Bit(bits, k)
  {
  }

  /** And these are the bits that are unpacked again. */
  lemma {:induction false} UnpackedBits(p: Bytes, i: nat)
    requires i < |p|
    ensures var u := Unpack(p);
            p[i] == Octet(Bit(u, 8 * i), Bit(u, 8 * i + 1), Bit(u, 8 * i + 2), Bit(u, 8 * i + 3),
                          Bit(u, 8 * i + 4), Bit(u, 8 * i + 5), Bit(u, 8 * i + 6), Bit(u, 8 * i + 7))
    decreases i
  {
    hide BitsOf, Octet;
    var u := Unpack(p);
    if i > 0 {
      UnpackedBits(p[1..], i - 1);
      assert forall k: nat :: Bit(Unpack(p[1..]), k) == Bit(u, k + 8);
    } else {
      BitsOfByte(p[0]);
      assert forall k: nat | k < 8 :: Bit(BitsOf(p[0]), k) == Bit(u, k);
    }
  }

  lemma BitsOfByte(x: Byte)
    ensures var u := BitsOf(x);
            x == Octet(Bit(u, 0), Bit(u, 1), Bit(u, 2), Bit(u, 3), Bit(u, 4), Bit(u, 5), Bit(u, 6), Bit(u, 7))
  {
    hide High, Bit, BitsOf;
    HighStep(x, 0);
    HighStep(x, 1);
    HighStep(x, 2);
    HighStep(x, 3);
    HighStep(x, 4);
    HighStep(x, 5);
    HighStep(x, 6);
    HighStep(x, 7);
  }

  lemma HighStep(x: Byte, k: nat)
    requires k < 8
    ensures High(x, 0) == x && High(x, k) == 2 * High(x, k + 1) + Bit(BitsOf(x), 7 - k)
    ensures High(x, 8) == 0
  {
    SevenDown(x);
  }

  /** For example: 1, 0, 1, 1 and four zeros, and then a single 1. */
  lemma PackedExample()
    ensures Pack([true, false, true, true, false, false, false, false, true]) == [0xb0, 0x80]
  {
    hide Pack, ByteOf, Binary;
    var v := [true, false, true, true, false, false, false, false, true];
    assert |Pack(v)| == 2;
    PackedBits(v, 0);
    PackedBits(v, 1);
  }

  // ---------------------------------------------------------------- the serializer

  class Serializer {
    var data: Bytes
    var offset: nat

    /** Everything that has been reserved has been written. */
    ghost predicate Full()
      reads this
    {
      offset == |data|
    }

    constructor ()
      ensures Full() && data == []
    {
      data, offset := [], 0;
    }

    /** Fails, by an exception, when nothing more is reserved. */
    method Write(byte: Byte) returns (ok: bool)
      modifies this
      ensures ok <==> old(offset) < old(|data|)
      ensures ok ==> data == old(data)[old(offset) := byte] && offset == old(offset) + 1
      ensures !ok ==> data == old(data) && offset == old(offset)
    {
      if offset >= |data| {
        return false;
      }
      data := data[offset := byte];
      offset := offset + 1;
      return true;
    }

    method Reserve(bytes: nat)
      modifies this
      ensures data == old(data) + Zeros(bytes) && offset == old(offset)
    {
      data := data + Zeros(bytes);
    }

    /** Reserving and writing byte by byte, as for arrays, strings and vectors. Never fails. */
    method PutBytes(v: Bytes)
      requires Full()
      modifies this
      ensures Full() && data == old(data) + v
    {
      ghost var before := data;
      Reserve(|v|);
      for i := 0 to |v|
        invariant offset == |before| + i
        invariant data == before + v[..i] + Zeros(|v| - i)
      {
        var ok := Write(v[i]);
        assert ok;
      }
    }

    /** A 32-bit number, low byte first. */
    method PutUint32(num: uint32)
      requires Full()
      modifies this
      ensures Full() && data == old(data) + LittleEndian(num, 4)
    {
      ghost var before := data;
      Reserve(4);
      var rest: nat := num;
      LittleEndian4(num);
      ghost var bytes := LittleEndian(num, 4);
      for i := 0 to 4
        invariant offset == |before| + i
        invariant rest == if i == 0 then num else if i == 1 then num / 0x100 else if i == 2 then num / 0x1_0000
                          else if i == 3 then num / 0x100_0000 else 0
        invariant data == before + bytes[..i] + Zeros(4 - i)
      {
        var ok := Write(rest % 256);
        assert ok;
        rest := rest / 256;
      }
    }

    /** A bit vector: eight bits to a byte, the first bit highest. */
    method PutBits(v: seq<bool>)
      requires Full()
      modifies this
      ensures Full() && data == old(data) + Pack(v)
    {
      ghost var before := data;
      var blocks := |v| / 8 + (if |v| % 8 > 0 then 1 else 0);
      Reserve(blocks);
      ghost var packed := Pack(v);
      for i := 0 to blocks
        invariant offset == |before| + i && |packed| == blocks
        invariant data == before + packed[..i] + Zeros(blocks - i)
      {
        var start := i * 8;
        var end := if |v| < start + 8 then |v| else start + 8;
        var block := PackGroup(v, start, end);
        PackAt(v, i);
        var ok := Write(block);
        assert ok;
        assert packed[..i + 1] == packed[..i] + [block];
      }
      assert packed[..blocks] == packed;
    }
  }

  /** The inner loop: the bits from start to end are put into a byte from its highest bit down. */
  method PackGroup(v: seq<bool>, start: nat, end: nat) returns (block: Byte)
    requires start <= end <= |v| && end - start <= 8
    ensures block == ByteOf(v[start..end])
  {
    ghost var group := v[start..end];
    var sum: nat := 0;
    var weight := 128;
    for j := start to end
      invariant weight == Weight(j - start)
      invariant sum == Partial(group, j - start)
    {
      assert group[j - start] == v[j];
      sum := sum + weight * (if v[j] then 1 else 0);
      weight := weight / 2;
    }
    PartialIsByte(group);
    block := sum;
  }

  /** `1u << (7 - j)`. */
  ghost function Weight(j: nat): nat {
    if j == 0 then 128 else if j == 1 then 64 else if j == 2 then 32 else if j == 3 then 16
    else if j == 4 then 8 else if j == 5 then 4 else if j == 6 then 2 else if j == 7 then 1 else 0
  }

  /** A byte when its first j bits have been set. */
  ghost function Partial(bits: seq<bool>, j: nat): nat {
    if j == 0 then 0 else Partial(bits, j - 1) + Weight(j - 1) * Bit(bits, j - 1)
  }

  lemma PartialIsByte(bits: seq<bool>)
    requires |bits| <= 8
    ensures Partial(bits, |bits|) == ByteOf(bits)
  {
    assert Partial(bits, 1) == 128 * Binary(bits, 1);
    assert Partial(bits, 2) == 64 * Binary(bits, 2);
    assert Partial(bits, 3) == 32 * Binary(bits, 3);
    assert Partial(bits, 4) == 16 * Binary(bits, 4);
    assert Partial(bits, 5) == 8 * Binary(bits, 5);
    assert Partial(bits, 6) == 4 * Binary(bits, 6);
    assert Partial(bits, 7) == 2 * Binary(bits, 7);
    assert Partial(bits, 8) == Binary(bits, 8);
    MissingBits(bits, 8);
  }

  lemma {:induction false} MissingBits(bits: seq<bool>, k: nat)
    requires |bits| <= k
    ensures Partial(bits, k) == Partial(bits, |bits|)
  {
    if k > |bits| {
      MissingBits(bits, k - 1);
    }
  }

  lemma {:induction false} PackAt(v: seq<bool>, i: nat)
    requires i < |Pack(v)|
    ensures 8 * i < |v|
    ensures Pack(v)[i] == ByteOf(v[i * 8..if |v| < i * 8 + 8 then |v| else i * 8 + 8])
    decreases |v|
  {
    if |v| < 8 {
      assert v[0..|v|] == v;
    } else if i > 0 {
      PackAt(v[8..], i - 1);
      var end := if |v| < i * 8 + 8 then |v| else i * 8 + 8;
      assert v[8..][(i - 1) * 8..end - 8] == v[i * 8..end];
    } else {
      assert v[0..8] == v[..8];
    }
  }

  // ---------------------------------------------------------------- the deserializer

  class Deserializer {
    const data: Bytes
    var offset: nat

    ghost predicate Valid()
      reads this
    {
      offset <= |data| < U32
    }

    constructor (d: Bytes)
      requires |d| < U32
      ensures Valid() && data == d && offset == 0
    {
      data, offset := d, 0;
    }

    /** The next bytes, or an exception when there are not as many. */
    method Get(bytes: nat) returns (r: Option<Bytes>)
      requires Valid()
      modifies this
      ensures Valid()
      ensures if bytes <= old(|data| - offset)
              then r == Some(data[old(offset)..old(offset) + bytes]) && offset == old(offset) + bytes
              else r == None && offset == old(offset)
    {
      if offset + bytes > |data| {
        return None;
      }
      var start := offset;
      offset := offset + bytes;
      return Some(data[start..start + bytes]);
    }

    /** A number sent in network order: read low byte first, then swapped. */
    method GetBig32() returns (r: Option<uint32>)
      requires Valid()
      modifies this
      ensures Valid()
      ensures if 4 <= old(|data| - offset)
              then r.Some? && r.value == FromBigEndian(data[old(offset)..old(offset) + 4]) && offset == old(offset) + 4
              else r == None && offset == old(offset)
    {
      var bytes := Get(4);
      if bytes.None? {
        return None;
      }
      var num := 0;
      var weight := 1;
      LowBytes(bytes.value, 4);
      for i := 0 to 4
        invariant weight == Weight256(i)
        invariant num == LowPart(bytes.value, i)
      {
        num := num + bytes.value[i] as int * weight;
        weight := weight * 256;
      }
      SwappedFromLittleEndian(bytes.value);
      return Some(Swap32(num));
    }

    /** The bits of the next bytes, the highest first, as many as there is room for; an int indexes them. */
    method GetBits(size: nat) returns (r: Option<seq<bool>>)
      requires Valid() && size <= 0x8000_0000
      modifies this
      ensures Valid()
      ensures var blocks := (size + 7) / 8;
              if blocks <= old(|data| - offset)
              then r == Some(Unpack(data[old(offset)..old(offset) + blocks])[..size]) && offset == old(offset) + blocks
              else r == None && offset == old(offset)
    {
      var num := size / 8 + (if size % 8 > 0 then 1 else 0);
      var blocks := Get(num);
      if blocks.None? {
        return None;
      }
      var buf := UnpackBlocks(blocks.value, size);
      return Some(buf);
    }
  }

  method UnpackBlocks(blocks: Bytes, size: nat) returns (buf: seq<bool>)
    requires |blocks| == (size + 7) / 8
    ensures buf == Unpack(blocks)[..size]
  {
    buf := [];
    for i := 0 to |blocks|
      invariant buf == Unpack(blocks[..i])[..Minimum(8 * i, size)]
    {
      var bits := UnpackByte(blocks[i]);
      buf := buf + bits[..Minimum(8, size - 8 * i)];
      UnpackMore(blocks[..i], blocks[i]);
      assert blocks[..i + 1] == blocks[..i] + [blocks[i]];
    }
    assert blocks[..|blocks|] == blocks;
  }

  function Minimum(a: int, b: int): int {
    if a <= b then a else b
  }

  /** The inner loop: bit j is set when `(byte << j) & 0x80` is not zero. */
  method UnpackByte(byte: Byte) returns (bits: seq<bool>)
    ensures bits == BitsOf(byte)
  {
    bits := [];
    var shifted: nat := byte;
    for j := 0 to 8
      invariant |bits| == j && forall k :: 0 <= k < j ==> bits[k] == BitsOf(byte)[k]
      invariant shifted == ShiftedLeft(byte, j)
    {
      HighBit(byte, j);
      bits := bits + [shifted / 128 % 2 == 1];
      shifted := shifted * 2;
    }
  }

  ghost function Weight256(i: nat): nat {
    if i == 0 then 1 else if i == 1 then 0x100 else if i == 2 then 0x1_0000 else if i == 3 then 0x100_0000 else U32
  }

  ghost function LowPart(b: Bytes, i: nat): nat
    requires i <= |b| == 4
  {
    if i == 0 then 0 else LowPart(b, i - 1) + b[i - 1] as int * Weight256(i - 1)
  }

  lemma LowBytes(b: Bytes, i: nat)
    requires |b| == 4
    ensures LowPart(b, 4) == FromLittleEndian(b)
  {
    FromLittleEndian4(b);
    assert LowPart(b, 1) == b[0] as int;
    assert LowPart(b, 2) == b[0] as int + b[1] as int * 0x100;
    assert LowPart(b, 3) == b[0] as int + b[1] as int * 0x100 + b[2] as int * 0x1_0000;
  }

  /** `byte << j`, before it is cut to eight bits. */
  ghost function ShiftedLeft(byte: nat, j: nat): nat {
    if j == 0 then byte else 2 * ShiftedLeft(byte, j - 1)
  }

  lemma {:induction false} ShiftDown(x: nat, j: nat, k: nat)
    ensures High(ShiftedLeft(x, j), j + k) == High(x, k)
    decreases j + k
  {
    if j == 0 {
    } else if k == 0 {
      ShiftDown(x, j - 1, 0);
      Doubled(ShiftedLeft(x, j - 1), j);
    } else {
      ShiftDown(x, j, k - 1);
    }
  }

  lemma {:induction false} Doubled(y: nat, j: nat)
    requires j > 0
    ensures High(2 * y, j) == High(y, j - 1)
  {
    if j > 1 {
      Doubled(y, j - 1);
    }
  }

  lemma HighBit(byte: Byte, j: nat)
    requires j < 8
    ensures ShiftedLeft(byte, j) / 128 % 2 == 1 <==> BitsOf(byte)[j]
  {
    ShiftDown(byte, j, 7 - j);
    SevenDown(ShiftedLeft(byte, j));
  }

  lemma SevenDown(x: nat)
    ensures High(x, 7) == x / 128
  {
    assert High(x, 1) == x / 2 && High(x, 2) == x / 4 && High(x, 3) == x / 8;
    assert High(x, 4) == x / 16 && High(x, 5) == x / 32 && High(x, 6) == x / 64;
  }

  lemma {:induction false} UnpackMore(p: Bytes, b: Byte)
    ensures Unpack(p + [b]) == Unpack(p) + BitsOf(b)
    decreases |p|
  {
    if p == [] {
      assert ([] + [b])[1..] == [];
    } else {
      assert (p + [b])[1..] == p[1..] + [b];
      UnpackMore(p[1..], b);
    }
  }
}
