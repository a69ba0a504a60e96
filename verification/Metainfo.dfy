/** The metainfo file: what is read from it, and the text that is hashed for its `info` dictionary. */
module Metainfo {
  import opened Bytes
  import opened BencodeDigits
  import opened Decimals
  import opened BencodeValue
  import opened BencodeGrammar
  import opened BencodePaths
  import opened BencodeDecoder
  import opened BencodeTheorems
  import Absorb
  import Sha1

  const ANNOUNCE: Bytes := [97, 110, 110, 111, 117, 110, 99, 101]
  const INFO: Bytes := [105, 110, 102, 111]
  const PIECE_LENGTH: Bytes := [112, 105, 101, 99, 101, 32, 108, 101, 110, 103, 116, 104]
  const PIECES: Bytes := [112, 105, 101, 99, 101, 115]
  const LENGTH: Bytes := [108, 101, 110, 103, 116, 104]

  datatype Metainfo =
    Metainfo(announce: Bytes, pieceLength: uint64, pieces: seq<Bytes>, length: uint64, infoHash: seq<bv8>)

  // ---------------------------------------------------------------- looking up

  /** What `operator[]` leaves of a map: a missing key is put in, with the default value, the integer 0. */
  function Looked(es: seq<Entry>, k: Bytes): seq<Entry> {
    if HasKey(es, k) then es else Insert(es, k, Integer(0))
  }

  /** What it gives. */
  ghost function Found(es: seq<Entry>, k: Bytes): Value {
    if HasKey(es, k) then es[IndexOf(es, k)].val else Integer(0)
  }

  method LookUp(es: seq<Entry>, k: Bytes) returns (v: Value, left: seq<Entry>)
    requires Sorted(es)
    ensures v == Found(es, k) && left == Looked(es, k) && Sorted(left)
    ensures forall key :: HasKey(left, key) <==> HasKey(es, key) || key == k
    ensures forall key :: Found(left, key) == Found(es, key)
  {
    left := Looked(es, k);
    LookedStays(es, k);
    v := left[IndexOf(left, k)].val;
  }

  lemma FoundIs(es: seq<Entry>, k: Bytes, e: Entry)
    requires Sorted(es) && e in es && e.key == k
    ensures HasKey(es, k) && Found(es, k) == e.val
  {
    var i :| 0 <= i < |es| && es[i] == e;
    var j := IndexOf(es, k);
    LessTotal(k, k);
  }

  /** Looking up changes no value that can be looked up. */
  lemma LookedStays(es: seq<Entry>, k: Bytes)
    requires Sorted(es)
    ensures Sorted(Looked(es, k)) && HasKey(Looked(es, k), k)
    ensures forall key :: HasKey(Looked(es, k), key) <==> HasKey(es, key) || key == k
    ensures forall key :: Found(Looked(es, k), key) == Found(es, key)
  {
    if !HasKey(es, k) {
      var r := Insert(es, k, Integer(0));
      InsertSorted(es, k, Integer(0));
      InsertMembers(es, k, Integer(0));
      forall key ensures Found(r, key) == Found(es, key) {
        if HasKey(es, key) {
          FoundIs(r, key, es[IndexOf(es, key)]);
        } else if key == k {
          FoundIs(r, key, Entry(k, Integer(0)));
        }
      }
    }
  }

  // ---------------------------------------------------------------- loading

  /** The dictionary that is encoded and hashed: the decoded one, with the two missing integers put in. */
  ghost function Hashed(info: seq<Entry>): seq<Entry> {
    Looked(Looked(info, PIECE_LENGTH), LENGTH)
  }

  ghost function HashedText(info: seq<Entry>): Bytes {
    Encode(Dict(Hashed(info)))
  }

  /** The hashes of the pieces, as many as are complete. */
  function Cut(s: Bytes, n: nat): (hashes: seq<Bytes>)
    requires 20 * n <= |s|
    ensures |hashes| == n && forall i :: 0 <= i < n ==> hashes[i] == s[20 * i..20 * i + 20]
  {
    seq(n, i requires 0 <= i < n => s[20 * i..20 * i + 20])
  }

  ghost predicate Loads(info: seq<Entry>) {
    Found(info, PIECE_LENGTH).Integer? && Found(info, PIECES).Str? && Found(info, LENGTH).Integer?
  }

  /** None stands for an exception: the file is not bencoded, or an entry is missing or of another type. */
  ghost function Loaded(file: Bytes): Option<Metainfo> {
    match ParseValue(file, 0, false)
    case Err(_, _) => None
    case Ok(v, _) =>
      if !v.Dict? || !Found(v.entries, ANNOUNCE).Str? || !Found(v.entries, INFO).Dict? then None
      else
        var info := Found(v.entries, INFO).entries;
        if !Loads(info) then None
        else
          var hashes := Found(info, PIECES).s;
          Some(Metainfo(
            Found(v.entries, ANNOUNCE).s, Found(info, PIECE_LENGTH).i % U64, Cut(hashes, |hashes| / 20),
            Found(info, LENGTH).i % U64, Sha1.DigestBytes(Sha1.Sha1(HashedText(info)))))
  }

  /** The constructor of `Metainfo`; `operator[]` changes both dictionaries before `info` is encoded. */
  method Load(file: Bytes) returns (r: Option<Metainfo>)
    requires 2 * |file| + 64 < Absorb.LIMIT
    ensures r == Loaded(file)
    ensures r.Some? ==>
              var d := ParseValue(file, 0, false); d.Ok? && d.value.Dict? && Describes(r.value, d.value.entries)
  {
    LoadedFields(file);
    hide Encode, Looked, Found, Sha1.DigestBytes, Sha1.Sha1, ParseValue;
    var decoded := BasicDecode(file, 0);
    if decoded.Err? || !decoded.value.Dict? {
      return None;
    }
    ParsedValueValid(file, 0, false);
    var metainfo := decoded.value.entries;
    var announce;
    announce, metainfo := LookUp(metainfo, ANNOUNCE);
    if !announce.Str? {
      return None;
    }
    var found;
    found, metainfo := LookUp(metainfo, INFO);
    if !found.Dict? {
      return None;
    }
    FoundValid(decoded.value.entries, INFO);
    var info := found.entries;
    var pieceLength, pieces, length;
    pieceLength, info := LookUp(info, PIECE_LENGTH);
    if !pieceLength.Integer? {
      return None;
    }
    pieces, info := LookUp(info, PIECES);
    if !pieces.Str? {
      return None;
    }
    var hashes := [];
    for i := 0 to |pieces.s| / 20
      invariant hashes == Cut(pieces.s, i)
    {
      hashes := hashes + [pieces.s[i * 20..i * 20 + 20]];
    }
    length, info := LookUp(info, LENGTH);
    if !length.Integer? {
      return None;
    }
    HashedIs(found.entries);
    HashedFits(file, decoded.next, decoded.value.entries);
    var infoHash := Sha1.ComputeHash(Encode(Dict(info)));
    return Some(Metainfo(announce.s, pieceLength.i % U64, hashes, length.i % U64, infoHash));
  }

  lemma FoundValid(es: seq<Entry>, k: Bytes)
    requires Sorted(es) && ValidEntries(es) && Found(es, k).Dict?
    ensures Entry(k, Found(es, k)) in es && ValidValue(Found(es, k)) && Sorted(Found(es, k).entries)
  {
    var i := IndexOf(es, k);
    ValidEntriesAt(es);
    assert es[i] in es && ValidEntry(es[i]);
  }

  /** Looking `pieces` up puts nothing in, because a missing one is no string. */
  lemma HashedIs(info: seq<Entry>)
    requires Sorted(info) && Found(info, PIECES).Str?
    ensures Looked(Looked(Looked(info, PIECE_LENGTH), PIECES), LENGTH) == Hashed(info)
  {
    LookedStays(info, PIECE_LENGTH);
  }

  // ---------------------------------------------------------------- what is loaded

  lemma Names()
    ensures ANNOUNCE == Ascii("announce") && INFO == Ascii("info") && PIECE_LENGTH == Ascii("piece length")
    ensures PIECES == Ascii("pieces") && LENGTH == Ascii("length")
  {
  }

  /** An integer that is looked up: its value in 64 bits, or 0 when it is missing. */
  ghost predicate IntegerOf(es: seq<Entry>, key: Bytes, v: uint64) {
    if HasKey(es, key) then exists i :: Entry(key, Integer(i)) in es && v == i % 0x1_0000_0000_0000_0000 else v == 0
  }

  /** The fields are those of the dictionary, each under its own key. */
  ghost predicate Describes(m: Metainfo, es: seq<Entry>) {
    && Entry(Ascii("announce"), Str(m.announce)) in es
    && exists info, hashes :: Entry(Ascii("info"), Dict(info)) in es && Entry(Ascii("pieces"), Str(hashes)) in info
         && IntegerOf(info, Ascii("piece length"), m.pieceLength)
         && IntegerOf(info, Ascii("length"), m.length)
         && |m.pieces| == |hashes| / 20
         && forall i :: 0 <= i < |m.pieces| ==> m.pieces[i] == hashes[20 * i..20 * i + 20]
  }

  lemma FoundIn(es: seq<Entry>, k: Bytes)
    ensures HasKey(es, k) ==> Entry(k, Found(es, k)) in es
    ensures !HasKey(es, k) ==> Found(es, k) == Integer(0)
  {
  }

  /** Whatever is loaded, is loaded from the entries with these names. */
  lemma LoadedFields(file: Bytes)
    ensures Loaded(file).Some? ==>
              var r := ParseValue(file, 0, false);
              r.Ok? && r.value.Dict? && Describes(Loaded(file).value, r.value.entries)
  {
    hide ParseValue, Found, Sha1.DigestBytes, Sha1.Sha1, HashedText;
    Names();
    if Loaded(file).Some? {
      var es := ParseValue(file, 0, false).value.entries;
      FoundIn(es, ANNOUNCE);
      FoundIn(es, INFO);
      var info := Found(es, INFO).entries;
      FoundIn(info, PIECE_LENGTH);
      FoundIn(info, LENGTH);
      FoundIn(info, PIECES);
      var m := Loaded(file).value;
      assert IntegerOf(info, PIECE_LENGTH, m.pieceLength) && IntegerOf(info, LENGTH, m.length);
      assert Entry(INFO, Dict(info)) in es && Entry(PIECES, Str(Found(info, PIECES).s)) in info;
    }
  }

  /** A file is loaded exactly when it has these strings, and no integer of the two has another type. */
  lemma {:induction false} LoadsExactly(file: Bytes, es: seq<Entry>, next: nat)
    requires ParseValue(file, 0, false) == Ok(Dict(es), next)
    ensures Loaded(file).Some? <==>
            && (exists a :: Entry(Ascii("announce"), Str(a)) in es)
            && exists info, hashes ::
                 && Entry(Ascii("info"), Dict(info)) in es && Entry(Ascii("pieces"), Str(hashes)) in info
                 && (forall v :: Entry(Ascii("piece length"), v) in info ==> v.Integer?)
                 && forall v :: Entry(Ascii("length"), v) in info ==> v.Integer?
  {
    hide ParseValue, Found, Sha1.DigestBytes, Sha1.Sha1, HashedText, ValidEntries, Less;
    Names();
    ParsedValueValid(file, 0, false);
    FoundBoth(es, ANNOUNCE);
    FoundBoth(es, INFO);
    if Found(es, INFO).Dict? {
      FoundValid(es, INFO);
      var info := Found(es, INFO).entries;
      FoundBoth(info, PIECE_LENGTH);
      FoundBoth(info, LENGTH);
      FoundBoth(info, PIECES);
    }
  }

  /** Looking a key up gives its only entry. */
  lemma FoundBoth(es: seq<Entry>, k: Bytes)
    requires Sorted(es)
    ensures forall v :: Entry(k, v) in es ==> Found(es, k) == v
    ensures Entry(k, Found(es, k)) in es || Found(es, k) == Integer(0)
  {
    forall v | Entry(k, v) in es ensures Found(es, k) == v {
      FoundIs(es, k, Entry(k, v));
    }
  }

  function Concatenated(hashes: seq<Bytes>): Bytes {
    if hashes == [] then [] else Concatenated(hashes[..|hashes| - 1]) + hashes[|hashes| - 1]
  }

  lemma {:induction false} CutConcatenated(hashes: seq<Bytes>)
    requires forall i :: 0 <= i < |hashes| ==> |hashes[i]| == 20
    ensures |Concatenated(hashes)| == 20 * |hashes| && Cut(Concatenated(hashes), |hashes|) == hashes
  {
    if hashes != [] {
      var n := |hashes| - 1;
      CutConcatenated(hashes[..n]);
      var all := Concatenated(hashes);
      forall i | 0 <= i <= n ensures all[20 * i..20 * i + 20] == hashes[i] {
        if i < n {
          assert Cut(Concatenated(hashes[..n]), n)[i] == hashes[i];
          assert all[20 * i..20 * i + 20] == Concatenated(hashes[..n])[20 * i..20 * i + 20];
        }
      }
    }
  }

  /** What a torrent file of one file has under `info`. */
  ghost function OneFile(length: uint64, pieceLength: uint64, hashes: seq<Bytes>): seq<Entry> {
    [Entry(Ascii("length"), Integer(length)), Entry(Ascii("piece length"), Integer(pieceLength)),
     Entry(Ascii("pieces"), Str(Concatenated(hashes)))]
  }

  /**
   * The round trip: a torrent file that was written with an announce URL, a length, a piece length and
   * hashes is loaded with exactly these, and with the hash of what it has under `info`.
   */
  lemma {:induction false} LoadRoundTrip(announce: Bytes, length: uint64, pieceLength: uint64, hashes: seq<Bytes>)
    requires length < 0x8000_0000_0000_0000 && pieceLength < 0x8000_0000_0000_0000
    requires |announce| < 0x1_0000_0000_0000_0000 && 20 * |hashes| < 0x1_0000_0000_0000_0000
    requires forall i :: 0 <= i < |hashes| ==> |hashes[i]| == 20
    ensures var info := Dict(OneFile(length, pieceLength, hashes));
            Loaded(Encode(Dict([Entry(Ascii("announce"), Str(announce)), Entry(Ascii("info"), info)])))
            == Some(Metainfo(announce, pieceLength, hashes, length, Sha1.DigestBytes(Sha1.Sha1(Encode(info)))))
  {
    hide *;
    var info := OneFile(length, pieceLength, hashes);
    var es := [Entry(Ascii("announce"), Str(announce)), Entry(Ascii("info"), Dict(info))];
    CutConcatenated(hashes);
    OneFileValid(length, pieceLength, hashes);
    AnnouncedValid(es, announce, info);
    AtSlice(Encode(Dict(es)), 0, Encode(Dict(es)));
    RoundTripAt(Dict(es), Encode(Dict(es)), 0);
    LoadsOneFile(es, announce, info, length, pieceLength, Concatenated(hashes));
  }

  lemma LoadsOneFile(es: seq<Entry>, announce: Bytes, info: seq<Entry>, length: uint64, pieceLength: uint64, all: Bytes)
    requires ParseValue(Encode(Dict(es)), 0, false) == Ok(Dict(es), |Encode(Dict(es))|)
    requires Found(es, ANNOUNCE) == Str(announce) && Found(es, INFO) == Dict(info) && Hashed(info) == info
    requires Found(info, PIECE_LENGTH) == Integer(pieceLength) && Found(info, LENGTH) == Integer(length)
    requires Found(info, PIECES) == Str(all)
    ensures Loaded(Encode(Dict(es))) ==
            Some(Metainfo(announce, pieceLength, Cut(all, |all| / 20), length,
                          Sha1.DigestBytes(Sha1.Sha1(Encode(Dict(info))))))
  {
    hide ParseValue, Encode, Sha1.Sha1, Sha1.DigestBytes, Found, Hashed, Cut;
  }

  lemma OneFileValid(length: uint64, pieceLength: uint64, hashes: seq<Bytes>)
    requires length < 0x8000_0000_0000_0000 && pieceLength < 0x8000_0000_0000_0000
    requires |Concatenated(hashes)| < 0x1_0000_0000_0000_0000
    ensures var info := OneFile(length, pieceLength, hashes);
            && ValidValue(Dict(info)) && Hashed(info) == info
            && Found(info, PIECE_LENGTH) == Integer(pieceLength) && Found(info, LENGTH) == Integer(length)
            && Found(info, PIECES) == Str(Concatenated(hashes))
  {
    Names();
    PieceLengthFirst();
    PieceLengthShort();
    LengthFirst();
    var info := OneFile(length, pieceLength, hashes);
    hide Less, LENGTH, PIECE_LENGTH, PIECES, Concatenated, Ascii;
    ValidEntriesAt(info);
    IndexOfUnique(info, LENGTH, 0);
    IndexOfUnique(info, PIECE_LENGTH, 1);
    IndexOfUnique(info, PIECES, 2);
  }

  lemma LengthFirst()
    ensures Less(LENGTH, PIECE_LENGTH) && Less(LENGTH, PIECES) && |LENGTH| == 6
    ensures Less(ANNOUNCE, INFO) && |ANNOUNCE| == 8 && |INFO| == 4
  {
  }

  lemma AnnouncedValid(es: seq<Entry>, announce: Bytes, info: seq<Entry>)
    requires es == [Entry(Ascii("announce"), Str(announce)), Entry(Ascii("info"), Dict(info))]
    requires ValidValue(Dict(info)) && |announce| < 0x1_0000_0000_0000_0000
    ensures ValidValue(Dict(es)) && Found(es, ANNOUNCE) == Str(announce) && Found(es, INFO) == Dict(info)
  {
    Names();
    LengthFirst();
    hide Less, ANNOUNCE, INFO, Ascii;
    ValidEntriesAt(es);
    assert forall e :: e in es ==> ValidEntry(e);
    IndexOfUnique(es, ANNOUNCE, 0);
    IndexOfUnique(es, INFO, 1);
  }

  // ---------------------------------------------------------------- how long the hashed text is

  lemma {:induction false} InsertedLength(es: seq<Entry>, k: Bytes, v: Value)
    ensures |EncodeEntries(Insert(es, k, v))| == |EncodeEntries(es)| + |EncodeStr(k)| + |Encode(v)|
    decreases |es|
  {
    hide Encode, EncodeStr;
    if es == [] || Less(k, es[0].key) {
      assert ([Entry(k, v)] + es)[1..] == es;
    } else {
      InsertedLength(es[1..], k, v);
      assert ([es[0]] + Insert(es[1..], k, v))[1..] == Insert(es[1..], k, v);
    }
  }

  lemma LookedLength(es: seq<Entry>, k: Bytes)
    requires k == LENGTH || k == PIECE_LENGTH
    ensures |EncodeEntries(Looked(es, k))| <= |EncodeEntries(es)| + 18
  {
    InsertedLength(es, k, Integer(0));
    assert NatDecimal(12) == [49, 50] by { assert NatDecimal(1) == [49]; }
  }

  /** The number at p, written again, is at most as long, or one digit where there was none. */
  lemma NumberLength(s: Bytes, p: nat)
    requires p <= |s|
    ensures var n := DigitRun(s, p); 0 <= Decimal(s, p, n) && |NatDecimal(Decimal(s, p, n))| <= if n == 0 then 1 else n
  {
    hide DigitRun, NatDecimal;
    var n := DigitRun(s, p);
    DecimalBound(s, p, n);
    Pow10Monotone(0, n);
    NatDecimalLength(Decimal(s, p, n), if n == 0 then 1 else n);
    assert Pow10(0) == 1;
  }

  /** Where the digits of an integer token are, and what they say. */
  lemma IntDigits(s: Bytes, p: nat) returns (q: nat)
    requires p < |s| && ParseInt(s, p).Ok?
    ensures q <= |s| && (q == p + 1 || q == p + 2) && ParseInt(s, p).next == q + DigitRun(s, q) + 1
    ensures ParseInt(s, p).value == Decimal(s, q, DigitRun(s, q)) * (if q == p + 1 then 1 else -1)
  {
    hide Decimal, DigitRun;
    q := if s[p + 1] == CH_MINUS then p + 2 else p + 1;
  }

  lemma IntLength(s: Bytes, p: nat)
    requires p < |s| && ParseInt(s, p).Ok?
    ensures |Encode(Integer(ParseInt(s, p).value))| <= 2 * (ParseInt(s, p).next - p)
  {
    hide Decimal, DigitRun, NatDecimal, ParseInt;
    var q := IntDigits(s, p);
    NumberLength(s, q);
    var n := DigitRun(s, q);
    var d := Decimal(s, q, n);
    assert |IntDecimal(ParseInt(s, p).value)| <= (if q == p + 1 then 0 else 1) + (if n == 0 then 1 else n);
  }

  lemma StrLength(s: Bytes, p: nat)
    requires p < |s| && IsDigit(s[p]) && ParseStr(s, p).Ok?
    ensures |EncodeStr(ParseStr(s, p).value)| <= ParseStr(s, p).next - p
  {
    hide Decimal, NatDecimal;
    NumberSound(s, p, 1, SizeT);
    NumberLength(s, p);
  }

  /** Re-encoding makes a text at most twice as long. */
  lemma {:induction false} ReencodedLength(s: Bytes, p: nat)
    requires p <= |s| && ParseValue(s, p, false).Ok?
    ensures var r := ParseValue(s, p, false); |Encode(r.value)| <= 2 * (r.next - p)
    decreases |s| - p, 0
  {
    hide ParseInt, ParseStr, ParseItems, ParseEntries, EncodeItems, EncodeEntries, EncodeStr, IntDecimal;
    NoEntries();
    NoItems();
    if s[p] == CH_I {
      IntLength(s, p);
    } else if s[p] == CH_L {
      ReencodedItemsLength(s, p + 1, []);
    } else if s[p] == CH_D {
      ReencodedEntriesLength(s, p + 1, []);
    } else {
      StrLength(s, p);
    }
  }

  lemma NoItems()
    ensures EncodeItems([]) == []
  {
  }

  lemma {:induction false} ItemsLength(items: seq<Value>, v: Value)
    ensures |EncodeItems(items + [v])| == |EncodeItems(items)| + |Encode(v)|
    decreases |items|
  {
    hide Encode;
    if items == [] {
      assert ([] + [v])[1..] == [];
    } else {
      assert (items + [v])[1..] == items[1..] + [v];
      ItemsLength(items[1..], v);
    }
  }

  lemma {:induction false} ReencodedItemsLength(s: Bytes, p: nat, acc: seq<Value>)
    requires p <= |s| && ParseItems(s, p, acc).Ok?
    ensures var r := ParseItems(s, p, acc); |EncodeItems(r.value.items)| <= |EncodeItems(acc)| + 2 * (r.next - p) - 2
    decreases |s| - p, 1
  {
    hide ParseValue, Encode, EncodeItems;
    if s[p] != CH_E {
      var v := ParseValue(s, p, false);
      ReencodedLength(s, p);
      ItemsLength(acc, v.value);
      ReencodedItemsLength(s, v.next, acc + [v.value]);
    }
  }

  lemma {:induction false} ReencodedEntriesLength(s: Bytes, p: nat, acc: seq<Entry>)
    requires p <= |s| && ParseEntries(s, p, acc).Ok?
    ensures var r := ParseEntries(s, p, acc);
            |EncodeEntries(r.value.entries)| <= |EncodeEntries(acc)| + 2 * (r.next - p) - 2
    decreases |s| - p, 1
  {
    hide ParseValue, ParseStr, Encode, EncodeEntries, EncodeStr, Insert;
    if s[p] != CH_E {
      var k := ParseStr(s, p);
      TakenFails(s, k.next);
      var v := ParseValue(s, k.next, false);
      StrLength(s, p);
      ReencodedLength(s, k.next);
      InsertedLength(acc, k.value, v.value);
      ReencodedEntriesLength(s, v.next, Insert(acc, k.value, v.value));
    }
  }

  lemma HashedFits(file: Bytes, next: nat, es: seq<Entry>)
    requires ParseValue(file, 0, false) == Ok(Dict(es), next) && Found(es, INFO).Dict?
    ensures |HashedText(Found(es, INFO).entries)| <= 2 * |file| + 36
  {
    hide ParseValue, EncodeEntries, Looked;
    var info := Found(es, INFO).entries;
    ParsedValueValid(file, 0, false);
    FoundValid(es, INFO);
    var k, from, to := InfoStands(file, es, next, Entry(INFO, Dict(info)));
    ReencodedLength(file, from);
    LookedLength(info, PIECE_LENGTH);
    LookedLength(Looked(info, PIECE_LENGTH), LENGTH);
  }

  lemma InfoStands(file: Bytes, es: seq<Entry>, next: nat, info: Entry) returns (k: nat, from: nat, to: nat)
    requires ParseValue(file, 0, false) == Ok(Dict(es), next) && info in es
    ensures OnlyKey(file, 1, info.key, k) && EntryText(file, k, from, to, info) && to < next
  {
    OuterEntries(file, es, next);
    k, from, to := EntryStands(file, 1, [], info);
    forall k': nat | ComesToKey(file, 1, k') && KeyIs(file, k', info.key) ensures k' == k {
      KeyOnce(file, 1, [], info.key, k, k');
    }
  }

  // ---------------------------------------------------------------- the info hash

  /**
   * What is hashed is the part of the file that `info` was decoded from exactly when that part is
   * canonical and has both of the integers that are looked up in it. It stands at the only key `info`
   * that the decoder comes to in the outer dictionary.
   */
  lemma {:induction false} InfoHashedBytes(file: Bytes, es: seq<Entry>, next: nat) returns (k: nat, from: nat, to: nat)
    requires ParseValue(file, 0, false) == Ok(Dict(es), next) && Found(es, INFO).Dict?
    ensures var info := Found(es, INFO).entries;
            && OnlyKey(file, 1, INFO, k) && EntryText(file, k, from, to, Entry(INFO, Dict(info))) && to < next
            && (HashedText(info) == file[from..to] <==>
                Canonical(file, from) && HasKey(info, LENGTH) && HasKey(info, PIECE_LENGTH))
  {
    hide ParseValue, OnlyKey, Canonical, Encode, Looked, Less, ValidEntries;
    var info := Found(es, INFO).entries;
    ParsedValueValid(file, 0, false);
    FoundValid(es, INFO);
    k, from, to := InfoStands(file, es, next, Entry(INFO, Dict(info)));
    HashedExactly(file, from, to, info);
  }

  lemma OuterEntries(file: Bytes, es: seq<Entry>, next: nat)
    requires ParseValue(file, 0, false) == Ok(Dict(es), next)
    ensures file != [] && ParseEntries(file, 1, []) == Ok(Dict(es), next)
  {
    hide ParseEntries;
  }

  lemma HashedExactly(file: Bytes, from: nat, to: nat, info: seq<Entry>)
    requires from < to <= |file| && ParseValue(file, from, false) == Ok(Dict(info), to) && ValidValue(Dict(info))
    ensures HashedText(info) == file[from..to] <==>
            Canonical(file, from) && HasKey(info, LENGTH) && HasKey(info, PIECE_LENGTH)
  {
    hide ParseValue, Canonical, Encode, Less, ValidEntries, HasKey, Looked;
    ReencodeExact(file, from);
    HashedSame(info);
    if HashedText(info) == file[from..to] {
      HashedValid(info);
      AtSlice(file, from, HashedText(info));
      RoundTripAt(Dict(Hashed(info)), file, from);
    }
  }

  /** Nothing is put in exactly when both integers are there. */
  lemma HashedSame(info: seq<Entry>)
    requires Sorted(info)
    ensures Hashed(info) == info <==> HasKey(info, LENGTH) && HasKey(info, PIECE_LENGTH)
  {
    LookedStays(info, PIECE_LENGTH);
    LookedStays(Looked(info, PIECE_LENGTH), LENGTH);
  }

  lemma LookedValid(es: seq<Entry>, k: Bytes)
    requires Sorted(es) && ValidEntries(es) && InRange(SizeT, |k|)
    ensures Sorted(Looked(es, k)) && ValidEntries(Looked(es, k))
  {
    LookedStays(es, k);
    ValidEntriesAt(es);
    ValidEntriesAt(Looked(es, k));
    if !HasKey(es, k) {
      InsertMembers(es, k, Integer(0));
      assert ValidEntry(Entry(k, Integer(0)));
    }
  }

  lemma HashedValid(info: seq<Entry>)
    requires Sorted(info) && ValidEntries(info)
    ensures ValidValue(Dict(Hashed(info)))
  {
    LookedValid(info, PIECE_LENGTH);
    LookedValid(Looked(info, PIECE_LENGTH), LENGTH);
  }

  /** An `info` dictionary without a length, as torrents of several files have it. */
  const SEVERAL_FILES: seq<Entry> := [Entry(PIECE_LENGTH, Integer(1)), Entry(PIECES, Str([]))]

  lemma {:induction false} CommonStart(p: Bytes, a: Bytes, b: Bytes)
    ensures Less(p + a, p + b) <==> Less(a, b)
    decreases |p|
  {
    if p == [] {
      assert p + a == a && p + b == b;
    } else {
      assert (p + a)[1..] == p[1..] + a && (p + b)[1..] == p[1..] + b;
      CommonStart(p[1..], a, b);
    }
  }

  lemma PieceLengthFirst()
    ensures Less(PIECE_LENGTH, PIECES) && PIECE_LENGTH != PIECES
    ensures LENGTH != PIECES && LENGTH != PIECE_LENGTH
  {
    var piece: Bytes := [112, 105, 101, 99, 101];
    var a: Bytes, b: Bytes := [32, 108, 101, 110, 103, 116, 104], [115];
    assert PIECE_LENGTH == piece + a && PIECES == piece + b;
    CommonStart(piece, a, b);
    assert Less(a, b);
    assert |LENGTH| == |PIECES| == 6 && LENGTH[0] == 108 && PIECES[0] == 112 && |PIECE_LENGTH| == 12;
  }

  lemma SeveralFilesSorted()
    ensures ValidValue(Dict(SEVERAL_FILES))
  {
    PieceLengthFirst();
    hide Less, PIECE_LENGTH, PIECES;
    ValidEntriesAt(SEVERAL_FILES);
    forall e | e in SEVERAL_FILES ensures ValidEntry(e) {
      PieceLengthShort();
    }
  }

  lemma PieceLengthShort()
    ensures |PIECE_LENGTH| == 12 && |PIECES| == 6
  {
  }

  lemma SeveralFilesValid()
    ensures ValidValue(Dict(SEVERAL_FILES)) && !HasKey(SEVERAL_FILES, LENGTH) && HasKey(SEVERAL_FILES, PIECE_LENGTH)
    ensures Found(SEVERAL_FILES, PIECE_LENGTH) == Integer(1) && Found(SEVERAL_FILES, PIECES) == Str([])
  {
    SeveralFilesSorted();
    PieceLengthFirst();
    hide Less, ValidValue;
    IndexOfUnique(SEVERAL_FILES, PIECE_LENGTH, 0);
    IndexOfUnique(SEVERAL_FILES, PIECES, 1);
  }

  /**
   * The canonical file `d8:announce0:4:infod12:piece lengthi1e6:pieces0:ee` is loaded, but what is hashed
   * has `6:lengthi0e` in it as well.
   */
  lemma MissingLengthHashed()
    ensures var file := Encode(Dict([Entry(ANNOUNCE, Str([])), Entry(INFO, Dict(SEVERAL_FILES))]));
            && Loaded(file).Some? && Canonical(file, 0)
            && HashedText(SEVERAL_FILES) == Encode(Dict([Entry(LENGTH, Integer(0))] + SEVERAL_FILES))
            && HashedText(SEVERAL_FILES) != Encode(Dict(SEVERAL_FILES))
            && Loaded(file).value.infoHash == Sha1.DigestBytes(Sha1.Sha1(HashedText(SEVERAL_FILES)))
  {
    hide *;
    var es := [Entry(ANNOUNCE, Str([])), Entry(INFO, Dict(SEVERAL_FILES))];
    SeveralFilesValid();
    Names();
    AnnouncedValid(es, [], SEVERAL_FILES);
    AtSlice(Encode(Dict(es)), 0, Encode(Dict(es)));
    RoundTripAt(Dict(es), Encode(Dict(es)), 0);
    SeveralFilesLoad();
    Loadable(es, SEVERAL_FILES);
    SeveralFilesHashed();
  }

  lemma Loadable(es: seq<Entry>, info: seq<Entry>)
    requires ParseValue(Encode(Dict(es)), 0, false) == Ok(Dict(es), |Encode(Dict(es))|)
    requires Found(es, ANNOUNCE).Str? && Found(es, INFO) == Dict(info) && Loads(info)
    ensures var r := Loaded(Encode(Dict(es)));
            r.Some? && r.value.infoHash == Sha1.DigestBytes(Sha1.Sha1(HashedText(info)))
  {
    hide ParseValue, Encode, Sha1.Sha1, Sha1.DigestBytes, Found, HashedText, Cut;
  }

  lemma SeveralFilesLoad()
    ensures Loads(SEVERAL_FILES)
  {
    hide Found, SEVERAL_FILES;
    SeveralFilesValid();
    LengthPutIn();
  }

  lemma SeveralFilesHashed()
    ensures HashedText(SEVERAL_FILES) == Encode(Dict([Entry(LENGTH, Integer(0))] + SEVERAL_FILES))
    ensures HashedText(SEVERAL_FILES) != Encode(Dict(SEVERAL_FILES))
  {
    hide Encode, ParseValue, ValidValue, Hashed;
    SeveralFilesValid();
    LengthPutIn();
    HashedTextValid();
    if HashedText(SEVERAL_FILES) == Encode(Dict(SEVERAL_FILES)) {
      RoundTrip(Dict(Hashed(SEVERAL_FILES)), []);
      RoundTrip(Dict(SEVERAL_FILES), []);
    }
  }

  lemma HashedTextValid()
    ensures ValidValue(Dict(Hashed(SEVERAL_FILES)))
  {
    SeveralFilesValid();
    HashedValid(SEVERAL_FILES);
  }

  lemma LengthPutIn()
    ensures Hashed(SEVERAL_FILES) == [Entry(LENGTH, Integer(0))] + SEVERAL_FILES
    ensures Hashed(SEVERAL_FILES) != SEVERAL_FILES
    ensures Found(SEVERAL_FILES, LENGTH) == Integer(0)
  {
    SeveralFilesValid();
    assert Less(LENGTH, PIECE_LENGTH);
  }
}
