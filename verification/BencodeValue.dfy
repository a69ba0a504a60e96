/** Bencoded values, the order of dictionary keys, and the encoder. */
module BencodeValue {
  import opened Bytes
  import opened BencodeDigits
  import opened Decimals

  /** A dictionary is a `std::map`: its entries in the order in which they are iterated. */
  datatype Value =
    | Integer(i: int)
    | Str(s: Bytes)
    | List(items: seq<Value>)
    | Dict(entries: seq<Entry>)

  datatype Entry = Entry(key: Bytes, val: Value)

  // ---------------------------------------------------------------- key order

  /** `operator<` of `std::string`. */
  predicate Less(a: Bytes, b: Bytes) {
    if b == [] then false
    else if a == [] then true
    else a[0] < b[0] || (a[0] == b[0] && Less(a[1..], b[1..]))
  }

  lemma {:induction false} LessTransitive(a: Bytes, b: Bytes, c: Bytes)
    requires Less(a, b) && Less(b, c)
    ensures Less(a, c)
  {
    if a != [] && a[0] == b[0] == c[0] {
      LessTransitive(a[1..], b[1..], c[1..]);
    }
  }

  lemma {:induction false} LessTotal(a: Bytes, b: Bytes)
    ensures a == b <==> !Less(a, b) && !Less(b, a)
    ensures !(Less(a, b) && Less(b, a))
  {
    if a != [] && b != [] && a[0] == b[0] {
      LessTotal(a[1..], b[1..]);
      assert a == [a[0]] + a[1..] && b == [b[0]] + b[1..];
    }
  }

  /** The keys agree up to some place, and there the first one has ended, or has the smaller byte. */
  lemma {:induction false} LessExactly(a: Bytes, b: Bytes)
    ensures Less(a, b) <==>
            exists k: nat :: k <= |a| && k < |b| && a[..k] == b[..k] && (k == |a| || a[k] < b[k])
  {
    if b == [] {
    } else if a == [] {
      assert a[..0] == b[..0];
    } else if a[0] != b[0] {
      assert a[..0] == b[..0];
      assert forall k: nat :: 0 < k <= |a| && k < |b| ==> a[..k][0] == a[0] && b[..k][0] == b[0];
    } else {
      LessExactly(a[1..], b[1..]);
      forall k: nat | k < |a| && k + 1 < |b| ensures a[1..][..k] == b[1..][..k] <==> a[..k + 1] == b[..k + 1] {
        AgreeFurther(a, b, k);
      }
      if k: nat :| k <= |a| && k < |b| && a[..k] == b[..k] && (k == |a| || a[k] < b[k]) {
        assert k > 0 && a[1..][..k - 1] == b[1..][..k - 1];
      }
    }
  }

  lemma AgreeFurther(a: Bytes, b: Bytes, k: nat)
    requires k < |a| && k < |b| && a[0] == b[0]
    ensures a[1..][..k] == b[1..][..k] <==> a[..k + 1] == b[..k + 1]
  {
    assert a[..k + 1] == [a[0]] + a[1..][..k] && b[..k + 1] == [b[0]] + b[1..][..k];
    assert a[1..][..k] == a[..k + 1][1..] && b[1..][..k] == b[..k + 1][1..];
  }

  /** So a key comes after every proper prefix of it. */
  lemma PrefixFirst(a: Bytes, rest: Bytes)
    requires rest != []
    ensures Less(a, a + rest) && !Less(a + rest, a)
  {
    assert a[..|a|] == a && (a + rest)[..|a|] == a;
    LessExactly(a, a + rest);
    LessTotal(a, a + rest);
  }

  ghost predicate Sorted(es: seq<Entry>) {
    forall i, j :: 0 <= i < j < |es| ==> Less(es[i].key, es[j].key)
  }

  predicate HasKey(es: seq<Entry>, k: Bytes) {
    exists i :: 0 <= i < |es| && es[i].key == k
  }

  /** Where the iteration of a map meets a new key: before the first larger one. */
  function Insert(es: seq<Entry>, k: Bytes, v: Value): (r: seq<Entry>)
    ensures multiset(r) == multiset(es) + multiset{Entry(k, v)}
  {
    if es == [] || Less(k, es[0].key) then
      assert [Entry(k, v)] + es == [Entry(k, v)] + es;
      [Entry(k, v)] + es
    else
      assert es == [es[0]] + es[1..];
      [es[0]] + Insert(es[1..], k, v)
  }

  lemma InsertMembers(es: seq<Entry>, k: Bytes, v: Value)
    ensures forall e :: e in Insert(es, k, v) <==> e in es || e == Entry(k, v)
    ensures forall key :: HasKey(Insert(es, k, v), key) <==> HasKey(es, key) || key == k
  {
    var r := Insert(es, k, v);
    assert multiset(r) == multiset(es) + multiset{Entry(k, v)};
    forall e ensures e in r <==> e in es || e == Entry(k, v) {
      assert e in multiset(r) <==> e in multiset(es) || e == Entry(k, v);
    }
    forall key ensures HasKey(r, key) <==> HasKey(es, key) || key == k {
      if HasKey(es, key) {
        var i :| 0 <= i < |es| && es[i].key == key;
        assert es[i] in r;
        var j :| 0 <= j < |r| && r[j] == es[i];
      }
      if key == k {
        assert Entry(k, v) in r;
        var j :| 0 <= j < |r| && r[j] == Entry(k, v);
      }
      if HasKey(r, key) {
        var j :| 0 <= j < |r| && r[j].key == key;
        assert r[j] in r;
      }
    }
  }

  lemma {:induction false} InsertSorted(es: seq<Entry>, k: Bytes, v: Value)
    requires Sorted(es) && !HasKey(es, k)
    ensures Sorted(Insert(es, k, v))
  {
    hide Less;
    if es == [] {
    } else if Less(k, es[0].key) {
      forall j | 0 <= j < |es| ensures Less(k, es[j].key) {
        if j > 0 {
          LessTransitive(k, es[0].key, es[j].key);
        }
      }
    } else {
      LessTotal(k, es[0].key);
      assert forall i :: 0 <= i < |es[1..]| ==> es[1..][i] == es[i + 1];
      InsertSorted(es[1..], k, v);
      InsertMembers(es[1..], k, v);
      var r := Insert(es[1..], k, v);
      forall j | 0 <= j < |r| ensures Less(es[0].key, r[j].key) {
        assert r[j] in r;
      }
    }
  }

  lemma {:induction false} InsertLast(es: seq<Entry>, k: Bytes, v: Value)
    requires forall i :: 0 <= i < |es| ==> Less(es[i].key, k)
    ensures Insert(es, k, v) == es + [Entry(k, v)]
  {
    if es == [] {
    } else {
      LessTotal(es[0].key, k);
      InsertLast(es[1..], k, v);
      assert es == [es[0]] + es[1..];
    }
  }

  lemma SortedHead(a: seq<Entry>, b: seq<Entry>)
    requires Sorted(a) && Sorted(b) && a != [] && b != []
    requires a[0] in b && b[0] in a
    ensures a[0] == b[0]
  {
    var i :| 0 <= i < |b| && b[i] == a[0];
    var j :| 0 <= j < |a| && a[j] == b[0];
    LessTotal(a[0].key, b[0].key);
  }

  lemma SortedTail(a: seq<Entry>)
    requires Sorted(a) && a != []
    ensures Sorted(a[1..]) && multiset(a[1..]) == multiset(a) - multiset{a[0]}
  {
    assert a == [a[0]] + a[1..];
  }

  /** Two maps with the same entries iterate in the same order. */
  lemma {:induction false} SortedUnique(a: seq<Entry>, b: seq<Entry>)
    requires Sorted(a) && Sorted(b) && multiset(a) == multiset(b)
    ensures a == b
    decreases |a|
  {
    assert |a| == |multiset(a)| == |multiset(b)| == |b|;
    if a != [] {
      assert a[0] in multiset(b) && b[0] in multiset(a);
      SortedHead(a, b);
      SortedTail(a);
      SortedTail(b);
      SortedUnique(a[1..], b[1..]);
      assert a == [a[0]] + a[1..] && b == [b[0]] + b[1..];
    }
  }

  // ---------------------------------------------------------------- values that C++ can hold

  ghost predicate ValidValue(v: Value)
    decreases v, 1
  {
    match v
    case Integer(i) => InRange(LongLong, i)
    case Str(s) => InRange(SizeT, |s|)
    case List(items) => ValidItems(items)
    case Dict(entries) => Sorted(entries) && ValidEntries(entries)
  }

  ghost predicate ValidItems(items: seq<Value>)
    decreases items, 0
  {
    items == [] || (ValidValue(items[0]) && ValidItems(items[1..]))
  }

  ghost predicate ValidEntries(es: seq<Entry>)
    decreases es, 0
  {
    es == [] || (InRange(SizeT, |es[0].key|) && ValidValue(es[0].val) && ValidEntries(es[1..]))
  }

  lemma {:induction false} ValidItemsAt(items: seq<Value>)
    ensures ValidItems(items) <==> forall i :: 0 <= i < |items| ==> ValidValue(items[i])
  {
    if items != [] {
      ValidItemsAt(items[1..]);
      if ValidItems(items) {
        forall i | 0 <= i < |items| ensures ValidValue(items[i]) {
          if i > 0 {
            assert items[i] == items[1..][i - 1];
          }
        }
      }
      if forall i :: 0 <= i < |items| ==> ValidValue(items[i]) {
        assert ValidValue(items[0]);
      }
    }
  }

  ghost predicate ValidEntry(e: Entry) {
    InRange(SizeT, |e.key|) && ValidValue(e.val)
  }

  lemma {:induction false} ValidEntriesAt(es: seq<Entry>)
    ensures ValidEntries(es) <==> forall e :: e in es ==> ValidEntry(e)
  {
    if es != [] {
      ValidEntriesAt(es[1..]);
      assert es == [es[0]] + es[1..];
      if forall e :: e in es ==> ValidEntry(e) {
        assert ValidEntry(es[0]);
      }
    }
  }

  // ---------------------------------------------------------------- the encoder

  const CH_I: Byte := 105
  const CH_L: Byte := 108
  const CH_D: Byte := 100
  const CH_E: Byte := 101
  const CH_COLON: Byte := 58
  const CH_MINUS: Byte := 45

  function EncodeStr(s: Bytes): Bytes {
    NatDecimal(|s|) + [CH_COLON] + s
  }

  function Encode(v: Value): (e: Bytes)
    decreases v, 1
  {
    match v
    case Integer(i) => [CH_I] + IntDecimal(i) + [CH_E]
    case Str(s) => EncodeStr(s)
    case List(items) => [CH_L] + EncodeItems(items) + [CH_E]
    case Dict(entries) => [CH_D] + EncodeEntries(entries) + [CH_E]
  }

  function EncodeItems(items: seq<Value>): Bytes
    decreases items, 0
  {
    if items == [] then [] else Encode(items[0]) + EncodeItems(items[1..])
  }

  function EncodeEntries(es: seq<Entry>): Bytes
    decreases es, 0
  {
    if es == [] then [] else EncodeStr(es[0].key) + Encode(es[0].val) + EncodeEntries(es[1..])
  }
}
