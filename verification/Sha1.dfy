/** The SHA-1 provider: its compression loop, and the digest of a message. */
module Sha1 {
  import opened Bytes
  import opened Absorb
  import opened MerkleDamgard

  type Word = bv32

  datatype Hash = Hash(a: Word, b: Word, c: Word, d: Word, e: Word)

  // ---------------------------------------------------------------- section 4 to 6 of FIPS 180-4

  function RotateLeft(x: Word, n: Word): Word
    requires n < 32
  {
    (x << n) | (x >> (32 - n))
  }

  function Ch(x: Word, y: Word, z: Word): Word {
    (x & y) ^ (!x & z)
  }

  function Parity(x: Word, y: Word, z: Word): Word {
    x ^ y ^ z
  }

  function Maj(x: Word, y: Word, z: Word): Word {
    (x & y) ^ (x & z) ^ (y & z)
  }

  /** f_t of section 4.1.1. */
  function F(t: nat): (Word, Word, Word) -> Word {
    if t < 20 then Ch else if t < 40 then Parity else if t < 60 then Maj else Parity
  }

  const K0: Word := 0x5a82_7999
  const K1: Word := 0x6ed9_eba1
  const K2: Word := 0x8f1b_bcdc
  const K3: Word := 0xca62_c1d6

  /** K_t of section 4.2.1. */
  function K(t: nat): Word {
    if t < 20 then K0 else if t < 40 then K1 else if t < 60 then K2 else K3
  }

  function Octet(b: Byte): Word {
    (b as bv8) as bv32
  }

  /** The i-th word of a block, most significant byte first. */
  function WordAt(block: Bytes, i: nat): Word
    requires 4 * i + 4 <= |block|
  {
    (Octet(block[4 * i]) << 24) | (Octet(block[4 * i + 1]) << 16)
    | (Octet(block[4 * i + 2]) << 8) | Octet(block[4 * i + 3])
  }

  function Mix(w: Word, x: Word, y: Word, z: Word): Word {
    RotateLeft(w ^ x ^ y ^ z, 1)
  }

  /** The message schedule of section 6.1.2. */
  function W(block: Bytes, t: nat): Word
    requires |block| == 64
  {
    if t < 16 then WordAt(block, t)
    else Mix(W(block, t - 3), W(block, t - 8), W(block, t - 14), W(block, t - 16))
  }

  /** T of section 6.1.2. */
  function Temporary(a: Word, f: Word, e: Word, k: Word, w: Word): Word {
    RotateLeft(a, 5) + f + e + k + w
  }

  /** The working variables after t rounds. */
  function Rounds(h: Hash, block: Bytes, t: nat): Hash
    requires |block| == 64
  {
    if t == 0 then h
    else
      var v := Rounds(h, block, t - 1);
      var T := Temporary(v.a, F(t - 1)(v.b, v.c, v.d), v.e, K(t - 1), W(block, t - 1));
      Hash(T, v.a, RotateLeft(v.b, 30), v.c, v.d)
  }

  /** Addition modulo 2^32. */
  function Add(x: Word, y: Word): Word {
    x + y
  }

  function Plus(x: Hash, y: Hash): Hash {
    Hash(Add(x.a, y.a), Add(x.b, y.b), Add(x.c, y.c), Add(x.d, y.d), Add(x.e, y.e))
  }

  function Compress(h: Hash, block: Bytes): Hash
  {
    if |block| == 64 then Plus(h, Rounds(h, block, 80)) else h
  }

  const IV: Hash := Hash(0x67452301, 0xefcdab89, 0x98badcfe, 0x10325476, 0xc3d2e1f0)

  /** The SHA-1 hash of a message. */
  ghost function Sha1(msg: Bytes): Hash {
    Iterate(Compress, IV, Padded(msg, 64, 8), 64)
  }

  // ---------------------------------------------------------------- the provider's transformation

  /** A word as a little-endian host reads it from memory. */
  function Load(data: Bytes, at: nat): Word
    requires at + 4 <= |data|
  {
    Octet(data[at]) | (Octet(data[at + 1]) << 8) | (Octet(data[at + 2]) << 16) | (Octet(data[at + 3]) << 24)
  }

  function ByteSwap(val: Word): Word {
    ((val & 0xff000000) >> 24) | ((val & 0x00ff0000) >> 8) | ((val & 0x0000ff00) << 8) | ((val & 0x000000ff) << 24)
  }

  lemma SwappedLoad(data: Bytes, at: nat, i: nat)
    requires at + 64 <= |data| && i < 16
    ensures ByteSwap(Load(data, at + 4 * i)) == WordAt(data[at..at + 64], i)
  {
    var p := at + 4 * i;
    SwapOctets(data[p] as bv8, data[p + 1] as bv8, data[p + 2] as bv8, data[p + 3] as bv8);
  }

  lemma SwapOctets(a: bv8, b: bv8, c: bv8, d: bv8)
    ensures ByteSwap((a as bv32) | ((b as bv32) << 8) | ((c as bv32) << 16) | ((d as bv32) << 24))
         == ((a as bv32) << 24) | ((b as bv32) << 16) | ((c as bv32) << 8) | (d as bv32)
  {
  }

  /** The eighty words that the rounds use. */
  method Expand(data: Bytes, at: nat) returns (schedule: array<Word>)
    requires at + 64 <= |data|
    ensures fresh(schedule) && schedule.Length == 80
    ensures forall i :: 0 <= i < 80 ==> schedule[i] == W(data[at..at + 64], i)
  {
    hide Mix, WordAt, ByteSwap, Load;
    ghost var block := data[at..at + 64];
    schedule := new Word[80];
    for t := 0 to 16
      invariant forall i :: 0 <= i < t ==> schedule[i] == W(block, i)
    {
      SwappedLoad(data, at, t);
      schedule[t] := ByteSwap(Load(data, at + 4 * t));
    }
    for t := 16 to 80
      invariant forall i :: 0 <= i < t ==> schedule[i] == W(block, i)
    {
      schedule[t] := Mix(schedule[t - 3], schedule[t - 8], schedule[t - 14], schedule[t - 16]);
    }
  }

  function HashOf(H: array<Word>): Hash
    requires H.Length == 5
    reads H
  {
    Hash(H[0], H[1], H[2], H[3], H[4])
  }

  /**
   * `transform`: the chaining value, updated in place block by block. The function and the constant
   * of a round are switched after rounds 19, 39 and 59.
   */
  method Transform(H: array<Word>, data: Bytes, num: nat)
    requires H.Length == 5 && num * 64 <= |data|
    modifies H
    ensures HashOf(H) == Iterate(Compress, old(HashOf(H)), data[..num * 64], 64)
  {
    hide Compress, F, K, W, Rounds;
    for blk := 0 to num
      invariant HashOf(H) == Iterate(Compress, old(HashOf(H)), data[..blk * 64], 64)
    {
      var at := blk * 64;
      ghost var h := HashOf(H);
      TransformBlock(H, data, at);
      assert data[..at + 64] == data[..at] + data[at..at + 64];
      AlignedTimes(blk, 64);
      OneMore(Compress, old(HashOf(H)), data[..at], data[at..at + 64], 64);
    }
  }

  method TransformBlock(H: array<Word>, data: Bytes, at: nat)
    requires H.Length == 5 && at + 64 <= |data|
    modifies H
    ensures HashOf(H) == Compress(old(HashOf(H)), data[at..at + 64])
  {
    hide Rounds, W, Plus, HashOf;
    ghost var block := data[at..at + 64];
    var schedule := Expand(data, at);
    var v := EightyRounds(HashOf(H), schedule, block);
    AddTo(H, v);
  }

  method AddTo(H: array<Word>, v: Hash)
    requires H.Length == 5
    modifies H
    ensures HashOf(H) == Plus(old(HashOf(H)), v)
  {
    hide Add;
    H[0], H[1], H[2], H[3], H[4] := Add(H[0], v.a), Add(H[1], v.b), Add(H[2], v.c), Add(H[3], v.d), Add(H[4], v.e);
  }

  method EightyRounds(h: Hash, schedule: array<Word>, ghost block: Bytes) returns (v: Hash)
    requires schedule.Length == 80 && |block| == 64
    requires forall i :: 0 <= i < 80 ==> schedule[i] == W(block, i)
    ensures v == Rounds(h, block, 80)
  {
    hide W, Temporary, RotateLeft, F, K, Rounds;
    var a, b, c, d, e := h.a, h.b, h.c, h.d, h.e;
    var k := K0;
    var f := Ch;
    FirstRound(h, block);
    for t := 0 to 80
      invariant Hash(a, b, c, d, e) == Rounds(h, block, t)
      invariant t < 80 ==> f == F(t) && k == K(t)
    {
      var T := Temporary(a, f(b, c, d), e, k, schedule[t]);
      OneRound(h, block, t);
      e := d;
      d := c;
      c := RotateLeft(b, 30);
      b := a;
      a := T;
      Switching(t);
      if t == 19 {
        f := Parity;
        k := K1;
      } else if t == 39 {
        f := Maj;
        k := K2;
      } else if t == 59 {
        f := Parity;
        k := K3;
      }
    }
    v := Hash(a, b, c, d, e);
  }

  lemma FirstRound(h: Hash, block: Bytes)
    requires |block| == 64
    ensures Rounds(h, block, 0) == h && F(0) == Ch && K(0) == K0
  {
  }

  lemma OneRound(h: Hash, block: Bytes, t: nat)
    requires |block| == 64
    ensures var v := Rounds(h, block, t);
            var T := Temporary(v.a, F(t)(v.b, v.c, v.d), v.e, K(t), W(block, t));
            Rounds(h, block, t + 1) == Hash(T, v.a, RotateLeft(v.b, 30), v.c, v.d)
  {
    hide W, Temporary, RotateLeft, F, K;
  }

  lemma Switching(t: nat)
    ensures F(t + 1) == if t == 19 then Parity else if t == 39 then Maj else if t == 59 then Parity else F(t)
    ensures K(t + 1) == if t == 19 then K1 else if t == 39 then K2 else if t == 59 then K3 else K(t)
  {
  }

  // ---------------------------------------------------------------- the hash of the service

  /** Every word of the hash, most significant byte first. */
  function DigestBytes(h: Hash): (d: seq<bv8>)
    ensures |d| == 20
  {
    WordBytes(h.a) + WordBytes(h.b) + WordBytes(h.c) + WordBytes(h.d) + WordBytes(h.e)
  }

  function WordBytes(w: Word): (d: seq<bv8>)
    ensures |d| == 4
  {
    [((w >> 24) & 0xff) as bv8, ((w >> 16) & 0xff) as bv8, ((w >> 8) & 0xff) as bv8, (w & 0xff) as bv8]
  }

  function Stored(w: Word): (d: seq<bv8>)
  {
    [(w & 0xff) as bv8, ((w >> 8) & 0xff) as bv8, ((w >> 16) & 0xff) as bv8, ((w >> 24) & 0xff) as bv8]
  }

  /** Swapping a word's bytes and storing it on a little-endian host writes it big-endian. */
  lemma SwappedStore(w: Word)
    ensures Stored(ByteSwap(w)) == WordBytes(w)
  {
  }

  function Step(): (Hash, Bytes, nat) -> Hash {
    (h: Hash, b: Bytes, n: nat) => Compress(h, b)
  }

  /**
   * `computeHash`: the bytes are absorbed one at a time through a pair of iterators, and the digest
   * of a copy of the hasher is written out. The result is the SHA-1 digest of the data.
   */
  method ComputeHash(data: Bytes) returns (result: seq<bv8>)
    requires |data| < LIMIT
    ensures result == DigestBytes(Sha1(data))
    ensures Sha1(data) == Iterate(Compress, IV, Padded(data, 64, 8), 64)
  {
    hide Compress, Iterate, WordBytes, ByteSwap, Stored;
    var h := new Absorber<Hash>(64, 64, false, Step(), IV);
    AbsorbIterator(h, data);
    assert h.absorbed == data;
    var hash := Digest(h, 8, Compress);
    SwappedStore(hash.a);
    SwappedStore(hash.b);
    SwappedStore(hash.c);
    SwappedStore(hash.d);
    SwappedStore(hash.e);
    result := Stored(ByteSwap(hash.a)) + Stored(ByteSwap(hash.b)) + Stored(ByteSwap(hash.c))
      + Stored(ByteSwap(hash.d)) + Stored(ByteSwap(hash.e));
  }

  // ---------------------------------------------------------------- bit by bit

  /** Rotating by one moves every bit up by one place, and the highest bit to the end. */
  lemma RotatedBits(x: Word, j: Word)
    requires j < 32
    ensures (RotateLeft(x, 1) >> ((j + 1) % 32)) & 1 == (x >> j) & 1
  {
  }

  lemma MixedBits(w: Word, x: Word, y: Word, z: Word, j: Word)
    requires j < 32
    ensures (Mix(w, x, y, z) >> ((j + 1) % 32)) & 1 == ((w >> j) & 1) ^ ((x >> j) & 1) ^ ((y >> j) & 1) ^ ((z >> j) & 1)
  {
    hide RotateLeft;
    RotatedBits(w ^ x ^ y ^ z, j);
  }

  /** A word of the schedule from the seventeenth on: the exclusive or of four earlier ones, one place up. */
  lemma ScheduleBits(block: Bytes, t: nat, j: Word)
    requires |block| == 64 && 16 <= t && j < 32
    ensures (W(block, t) >> ((j + 1) % 32)) & 1
         == ((W(block, t - 3) >> j) & 1) ^ ((W(block, t - 8) >> j) & 1)
            ^ ((W(block, t - 14) >> j) & 1) ^ ((W(block, t - 16) >> j) & 1)
  {
    hide Mix;
    MixedBits(W(block, t - 3), W(block, t - 8), W(block, t - 14), W(block, t - 16), j);
  }

  /** Where a bit of x is set that of y, and else that of z. */
  lemma ChBits(x: Word, y: Word, z: Word)
    ensures Ch(x, y, z) == (x & y) | (!x & z)
  {
  }

  lemma ParityBits(x: Word, y: Word, z: Word)
    ensures Parity(x, y, z) == x ^ y ^ z
  {
  }

  /** What at least two of three have. */
  lemma MajBits(x: Word, y: Word, z: Word)
    ensures Maj(x, y, z) == (x & y) | (x & z) | (y & z)
  {
  }

  lemma RotateIs(x: Word)
    ensures RotateLeft(x, 5) == (x << 5) | (x >> 27) && RotateLeft(x, 30) == (x << 30) | (x >> 2)
  {
  }

  /** T of a round: the sum of five words, modulo 2^32. */
  lemma TemporaryIs(a: Word, f: Word, e: Word, k: Word, w: Word)
    ensures Temporary(a, f, e, k, w) == RotateLeft(a, 5) + f + e + k + w
  {
    hide RotateLeft;
  }

  lemma FunctionIs(t: nat)
    requires t < 80
    ensures F(t) == if t < 20 then Ch else if 40 <= t < 60 then Maj else Parity
    ensures K(t) == if t < 20 then 0x5a82_7999 else if t < 40 then 0x6ed9_eba1
                    else if t < 60 then 0x8f1b_bcdc else 0xca62_c1d6
  {
  }

  /** Round t: what the five variables are afterwards. */
  lemma RoundIs(h: Hash, block: Bytes, t: nat)
    requires |block| == 64 && t < 80
    ensures Rounds(h, block, 0) == h
    ensures var v := Rounds(h, block, t);
            var f := if t < 20 then Ch(v.b, v.c, v.d) else if 40 <= t < 60 then Maj(v.b, v.c, v.d)
                     else Parity(v.b, v.c, v.d);
            var k := if t < 20 then 0x5a82_7999 else if t < 40 then 0x6ed9_eba1
                     else if t < 60 then 0x8f1b_bcdc else 0xca62_c1d6;
            Rounds(h, block, t + 1) == Hash(Temporary(v.a, f, v.e, k, W(block, t)), v.a, RotateLeft(v.b, 30), v.c, v.d)
  {
    hide *;
    FirstRound(h, block);
    OneRound(h, block, t);
    FunctionIs(t);
  }

  /** The constants are the square roots of 2, 3, 5 and 10, with thirty binary places. */
  lemma Constants()
    ensures forall t | 0 <= t < 80 ::
              var k, n := K(t) as int, if t < 20 then 2 else if t < 40 then 3 else if t < 60 then 5 else 10;
              k * k < n * 0x1000_0000_0000_0000 < (k + 1) * (k + 1)
  {
  }

  /** The bytes of a word of the message, and of a word of the digest. */
  lemma WordBits(block: Bytes, i: nat, w: Word)
    requires |block| == 64 && i < 16
    ensures W(block, i) == ((block[4 * i] as bv8 as bv32) << 24) | ((block[4 * i + 1] as bv8 as bv32) << 16)
                           | ((block[4 * i + 2] as bv8 as bv32) << 8) | (block[4 * i + 3] as bv8 as bv32)
    ensures ((WordBytes(w)[0] as bv32) << 24) | ((WordBytes(w)[1] as bv32) << 16)
            | ((WordBytes(w)[2] as bv32) << 8) | (WordBytes(w)[3] as bv32) == w
  {
  }

  /** A block is added to the hash word by word. */
  lemma CompressIs(h: Hash, block: Bytes)
    requires |block| == 64
    ensures var v := Rounds(h, block, 80);
            Compress(h, block) == Hash(Add(h.a, v.a), Add(h.b, v.b), Add(h.c, v.c), Add(h.d, v.d), Add(h.e, v.e))
  {
    hide Rounds, Add;
  }

  lemma AddIs(x: Word, y: Word)
    ensures Add(x, y) == x + y
  {
  }

  /** The order of the digest, and the initial hash written in it. */
  lemma DigestIs(h: Hash)
    ensures var d := DigestBytes(h);
            forall k :: 0 <= k < 4 ==>
              && d[k] == WordBytes(h.a)[k] && d[4 + k] == WordBytes(h.b)[k] && d[8 + k] == WordBytes(h.c)[k]
              && d[12 + k] == WordBytes(h.d)[k] && d[16 + k] == WordBytes(h.e)[k]
    ensures IV == Hash(0x6745_2301, 0xefcd_ab89, 0x98ba_dcfe, 0x1032_5476, 0xc3d2_e1f0)
  {
    hide WordBytes;
  }

  /** The padded message "abc". */
  const ABC: Bytes := [97, 98, 99, 0x80] + Zeros(59) + [24]

  /** A message of at most 55 bytes is one block: the byte 0x80, zeros, and the number of its bits. */
  lemma {:induction false} Sha1OfBlock(msg: Bytes)
    requires |msg| <= 55
    ensures Sha1(msg) == Compress(IV, msg + [0x80] + Zeros(55 - |msg|) + BigEndian(8 * |msg|, 8))
  {
    hide Compress, BigEndian;
    OneTimes(64);
    var block := msg + [0x80] + Zeros(55 - |msg|) + BigEndian(8 * |msg|, 8);
    ZeroCountIs(|msg|, 64, 8, 55 - |msg|);
    assert block[..64] == block && block[64..] == [];
    assert Iterate(Compress, Compress(IV, block), [], 64) == Compress(IV, block);
  }

  /** Its words as far as the first one that the schedule adds. */
  lemma ScheduleOfAbc()
    ensures Padded([97, 98, 99], 64, 8) == ABC && |ABC| == 64
    ensures W(ABC, 0) == 0x6162_6380 && W(ABC, 15) == 24 && W(ABC, 16) == 0xc2c4_c700
  {
    BigEndianWider(24, 1);
  }
}
