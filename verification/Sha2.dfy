/** SHA-2: its two block shapes, and the initial values of SHA-512/t, over an abstract compression function. */
module Sha2 {
  import opened Bytes
  import opened Absorb
  import opened Decimals
  import opened MerkleDamgard

  /** SHA-224 and SHA-256 have 64-byte blocks and an 8-byte length; the others have twice that. */
  datatype Family = Words32 | Words64

  function BlockSize(w: Family): nat {
    if w.Words32? then 64 else 128
  }

  function LengthBytes(w: Family): nat {
    if w.Words32? then 8 else 16
  }

  /** Any number of updates. */
  method UpdateAll<S>(x: Absorber<S>, chunks: seq<Bytes>)
    requires x.Valid() && |x.absorbed| + |Joined(chunks)| < LIMIT
    modifies x`state, x`pos, x`total, x`absorbed, x.m
    ensures x.Valid() && x.absorbed == old(x.absorbed) + Joined(chunks)
  {
    hide *;
    assert chunks[..0] == [] && x.absorbed + [] == x.absorbed;
    NothingJoined();
    for i := 0 to |chunks|
      invariant x.Valid() && x.absorbed == old(x.absorbed) + Joined(chunks[..i])
    {
      assert chunks[..i + 1] == chunks[..i] + [chunks[i]];
      JoinedSplit(chunks, i + 1);
      JoinedMore(chunks[..i], chunks[i]);
      x.Update(chunks[i]);
      Associative(old(x.absorbed), Joined(chunks[..i]), chunks[i]);
    }
    assert chunks[..|chunks|] == chunks;
  }

  lemma NothingJoined()
    ensures Joined([]) == []
  {
  }

  /** `update`* and the blocks of `final`: the padding rule of section 5.1 of FIPS 180-4 for the family. */
  method Chained<S(!new)>(w: Family, iv: S, step: (S, Bytes, nat) -> S, ghost f: (S, Bytes) -> S, chunks: seq<Bytes>)
    returns (h: S)
    requires IgnoresCounter(step, f) && |Joined(chunks)| < LIMIT
    ensures h == Iterate(f, iv, Padded(Joined(chunks), BlockSize(w), LengthBytes(w)), BlockSize(w))
  {
    hide Iterate, Padded, Joined;
    var x := new Absorber<S>(BlockSize(w), BlockSize(w), false, step, iv);
    UpdateAll(x, chunks);
    assert [] + Joined(chunks) == Joined(chunks);
    h := Final(x, LengthBytes(w), f);
  }

  /** The eight words of the chaining value. */
  type Words = s: seq<uint64> | |s| == 8 witness [0, 0, 0, 0, 0, 0, 0, 0]

  function WordBytes(w: Family): nat {
    if w.Words32? then 4 else 8
  }

  /** The words one after the other, each with its most significant byte first. */
  ghost function BigEndianWords(h: seq<uint64>, n: nat): (b: Bytes)
    ensures |b| == |h| * n
  {
    if h == [] then [] else BigEndianWords(h[..|h| - 1], n) + BigEndian(h[|h| - 1], n)
  }

  /** Word i of the digest. */
  lemma {:induction false} DigestWord(h: seq<uint64>, n: nat, i: nat)
    requires i < |h|
    ensures 0 <= i * n && i * n + n <= |BigEndianWords(h, n)|
    ensures BigEndianWords(h, n)[i * n..i * n + n] == BigEndian(h[i], n)
    decreases |h|
  {
    hide BigEndian;
    var front := h[..|h| - 1];
    assert |front| * n + n == |h| * n;
    assert |BigEndianWords(front, n)| == |front| * n;
    if i < |front| {
      DigestWord(front, n, i);
      assert BigEndianWords(h, n)[i * n..i * n + n] == BigEndianWords(front, n)[i * n..i * n + n];
    }
  }

  /** A word with its bytes in the other order. */
  function ByteSwap(x: nat, n: nat): nat {
    FromLittleEndian(BigEndian(x, n))
  }

  /** Swapped, and stored on a little-endian host, the most significant byte comes first. */
  lemma SwappedStore(x: nat, n: nat)
    ensures LittleEndian(ByteSwap(x, n), n) == BigEndian(x, n)
  {
    StoredLoaded(BigEndian(x, n));
  }

  lemma {:induction false} StoredLoaded(b: Bytes)
    ensures LittleEndian(FromLittleEndian(b), |b|) == b
    decreases |b|
  {
    if b != [] {
      StoredLoaded(b[1..]);
      var x: nat := b[0];
      var y := FromLittleEndian(b[1..]);
      assert (x + 256 * y) % 256 == x && (x + 256 * y) / 256 == y;
      assert b == [b[0]] + b[1..];
    }
  }

  /**
   * The digest of any sequence of updates: the standard's hash of the whole, its words most significant
   * byte first, cut to the length of the digest.
   */
  method Hash(w: Family, iv: Words, step: (Words, Bytes, nat) -> Words, ghost f: (Words, Bytes) -> Words,
      chunks: seq<Bytes>, bits: nat)
    returns (digest: Bytes)
    requires IgnoresCounter(step, f) && |Joined(chunks)| < LIMIT && bits / 8 <= 8 * WordBytes(w)
    ensures w.Words32? ==>
              digest == BigEndianWords(Iterate(f, iv, Padded(Joined(chunks), 64, 8), 64), 4)[..bits / 8]
    ensures w.Words64? ==>
              digest == BigEndianWords(Iterate(f, iv, Padded(Joined(chunks), 128, 16), 128), 8)[..bits / 8]
  {
    hide Iterate, Padded, Joined, ByteSwap, LittleEndian, BigEndian;
    var h := Chained(w, iv, step, f, chunks);
    var n := WordBytes(w);
    var stored := [];
    for i := 0 to 8
      invariant stored == BigEndianWords(h[..i], n)
    {
      SwappedStore(h[i], n);
      stored := stored + LittleEndian(ByteSwap(h[i], n), n);
      assert h[..i + 1][..i] == h[..i];
    }
    assert h[..8] == h;
    digest := stored[..bits / 8];
  }

  function Joined(chunks: seq<Bytes>): Bytes {
    if chunks == [] then [] else chunks[0] + Joined(chunks[1..])
  }

  lemma {:induction false} JoinedMore(chunks: seq<Bytes>, c: Bytes)
    ensures Joined(chunks + [c]) == Joined(chunks) + c
    decreases |chunks|
  {
    if chunks == [] {
      assert [c][1..] == [];
    } else {
      assert (chunks + [c])[1..] == chunks[1..] + [c];
      JoinedMore(chunks[1..], c);
      assert chunks[0] + (Joined(chunks[1..]) + c) == chunks[0] + Joined(chunks[1..]) + c;
    }
  }

  lemma {:induction false} JoinedSplit(chunks: seq<Bytes>, i: nat)
    requires i <= |chunks|
    ensures |Joined(chunks[..i])| <= |Joined(chunks)|
    decreases |chunks| - i
  {
    if i < |chunks| {
      assert chunks[..i + 1] == chunks[..i] + [chunks[i]];
      JoinedMore(chunks[..i], chunks[i]);
      JoinedSplit(chunks, i + 1);
    } else {
      assert chunks[..i] == chunks;
    }
  }

  /** The ASCII name "SHA-512/t". */
  function Name(t: nat): Bytes {
    [83, 72, 65, 45, 53, 49, 50, 47] + NatDecimal(t)
  }

  /**
   * `init` for SHA-512/t: the initial value is the SHA-512 hash, from changed initial values, of the
   * function's name, as section 5.3.6 of FIPS 180-4 has it; the buffer is empty again afterwards.
   */
  method InitTruncated<S(!new)>(t: nat, changed: S, step: (S, Bytes, nat) -> S, ghost f: (S, Bytes) -> S)
    returns (x: Absorber<S>)
    requires IgnoresCounter(step, f) && t < U64
    ensures fresh(x) && fresh(x.m) && x.Valid() && x.absorbed == [] && x.bs == 128 && !x.lazy && x.step == step
    ensures x.iv == Iterate(f, changed, Padded(Name(t), 128, 16), 128)
  {
    hide Iterate, Padded, Name;
    NameLength(t);
    var y := new Absorber<S>(128, 128, false, step, changed);
    y.Update(Name(t));
    assert [] + Name(t) == Name(t);
    var iv := Final(y, 16, f);
    x := new Absorber<S>(128, 128, false, step, iv);
  }

  lemma NameOfSha512of256()
    ensures Name(256) == Ascii("SHA-512/256")
  {
    assert NatDecimal(25) == [50, 53];
    assert NatDecimal(256) == [50, 53, 54];
  }

  lemma NameLength(t: nat)
    requires t < U64
    ensures |Name(t)| <= 28
  {
    Pow10Values();
    NatDecimalLength(t, 20);
  }
}
