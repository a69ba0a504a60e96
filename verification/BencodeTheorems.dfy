/** What the codec promises: values come back, and a decoded text has one canonical form. */
module BencodeTheorems {
  import opened Bytes
  import opened BencodeDigits
  import opened Decimals
  import opened BencodeOrder
  import opened BencodeValue
  import opened BencodeGrammar

  // ---------------------------------------------------------------- canonical texts

  /** The number at p is written with no leading zero, and is not empty. */
  ghost predicate MinimalNumber(s: Bytes, p: nat)
    requires p <= |s|
  {
    var n := DigitRun(s, p);
    n == 1 || (n > 1 && s[p] != 48)
  }

  ghost predicate CanonicalInt(s: Bytes, p: nat)
    requires p < |s|
  {
    p + 1 < |s| &&
    if s[p + 1] == CH_MINUS then MinimalNumber(s, p + 2) && p + 2 < |s| && s[p + 2] != 48
    else MinimalNumber(s, p + 1)
  }

  /** Minimal decimals throughout, and strictly increasing keys in every dictionary. */
  ghost predicate Canonical(s: Bytes, p: nat)
    requires p <= |s|
    decreases |s| - p, 0
  {
    p < |s| &&
    if s[p] == CH_I then CanonicalInt(s, p)
    else if s[p] == CH_L then CanonicalItems(s, p + 1)
    else if s[p] == CH_D then CanonicalEntries(s, p + 1, None)
    else MinimalNumber(s, p)
  }

  ghost predicate CanonicalItems(s: Bytes, p: nat)
    requires p <= |s|
    decreases |s| - p, 1
  {
    p < |s| && s[p] != CH_E ==>
      Canonical(s, p) &&
      var v := ParseValue(s, p, false);
      v.Ok? ==> CanonicalItems(s, v.next)
  }

  ghost predicate CanonicalEntries(s: Bytes, p: nat, previous: Option<Bytes>)
    requires p <= |s|
    decreases |s| - p, 1
  {
    p < |s| && s[p] != CH_E ==>
      MinimalNumber(s, p) &&
      var k := ParseStr(s, p);
      k.Ok? ==>
        (previous.Some? ==> Less(previous.value, k.value)) &&
        Canonical(s, k.next) &&
        var v := ParseValue(s, k.next, false);
        v.Ok? ==> CanonicalEntries(s, v.next, Some(k.value))
  }

  // ---------------------------------------------------------------- round trip

  lemma IntRoundTrip(s: Bytes, p: nat, i: int)
    requires At(s, p, Encode(Integer(i))) && InRange(LongLong, i)
    ensures p < |s| && s[p] == CH_I
    ensures ParseInt(s, p) == Ok(i, p + |Encode(Integer(i))|)
    ensures CanonicalInt(s, p)
  {
    hide Number, DigitRun, NatDecimal;
    AtBracketed(s, p, CH_I, IntDecimal(i), CH_E);
    assert s[p + 1 + 0] == IntDecimal(i)[0];
    if i < 0 {
      AtConcat(s, p + 1, [CH_MINUS], NatDecimal(-i));
      assert s[p + 2 + 0] == NatDecimal(-i)[0];
      NumberRoundTrip(s, p + 2, -i, -1, LongLong);
    } else {
      NumberRoundTrip(s, p + 1, i, 1, LongLong);
    }
  }

  lemma StrRoundTrip(s: Bytes, p: nat, b: Bytes)
    requires At(s, p, EncodeStr(b)) && InRange(SizeT, |b|)
    ensures p < |s| && IsDigit(s[p])
    ensures ParseStr(s, p) == Ok(b, p + |EncodeStr(b)|)
    ensures MinimalNumber(s, p)
  {
    var d := NatDecimal(|b|);
    AtConcat(s, p, d + [CH_COLON], b);
    AtConcat(s, p, d, [CH_COLON]);
    AtSlice(s, p + |d| + 1, b);
    assert s[p + 0] == d[0];
    assert s[p + |d| + 0] == [CH_COLON][0];
    NumberRoundTrip(s, p, |b|, 1, SizeT);
  }

  /**
   * Decoding any text in which v is written, with the entries of its dictionaries in any order, gives
   * the normal form of v and stops right after it. With the entries sorted the text is canonical.
   */
  lemma {:induction false} ParsedAt(v: Value, s: Bytes, p: nat)
    requires Writable(v) && At(s, p, Encode(v))
    ensures ParseValue(s, p, false) == Ok(Normal(v), p + |Encode(v)|)
    ensures p < |s| && s[p] != CH_E
    ensures ValidValue(v) ==> Canonical(s, p)
    decreases v, 1
  {
    hide At, ParseInt, ParseStr, ParseItems, ParseEntries, EncodeItems, EncodeEntries, InsertAll, NormalEntries;
    hide MinimalNumber, CanonicalInt, CanonicalItems, CanonicalEntries;
    match v
    case Integer(i) => IntRoundTrip(s, p, i);
    case Str(b) => StrRoundTrip(s, p, b);
    case List(items) =>
      AtBracketed(s, p, CH_L, EncodeItems(items), CH_E);
      ItemsParsedAt(items, s, p + 1, []);
      assert [] + NormalItems(items) == NormalItems(items);
    case Dict(es) =>
      AtBracketed(s, p, CH_D, EncodeEntries(es), CH_E);
      NothingTaken(es);
      EntriesParsedAt(es, s, p + 1, []);
      if ValidValue(v) {
        EntriesCanonicalAt(es, s, p + 1, None);
      }
  }

  lemma NothingTaken(es: seq<Entry>)
    ensures KeysApart([], es)
  {
  }

  lemma ItemsStep(s: Bytes, p: nat, n: nat, v: Value, acc: seq<Value>)
    requires p < n <= |s| && s[p] != CH_E && ParseValue(s, p, false) == Ok(v, n)
    ensures ParseItems(s, p, acc) == ParseItems(s, n, acc + [v])
    ensures Canonical(s, p) && CanonicalItems(s, n) ==> CanonicalItems(s, p)
  {
    hide ParseValue, Canonical;
  }

  lemma {:induction false} ItemsParsedAt(items: seq<Value>, s: Bytes, p: nat, acc: seq<Value>)
    requires WritableItems(items) && At(s, p, EncodeItems(items) + [CH_E])
    ensures ParseItems(s, p, acc) == Ok(List(acc + NormalItems(items)), p + |EncodeItems(items)| + 1)
    ensures ValidItems(items) ==> CanonicalItems(s, p)
    decreases items, 0
  {
    hide At, ParseValue, Canonical, Encode, Normal, Writable, ValidValue;
    if items == [] {
      AtLast(s, p, [], CH_E);
      assert acc + NormalItems(items) == acc;
    } else {
      var v, rest := items[0], items[1..];
      var n := p + |Encode(v)|;
      AtParts(s, p, Encode(v), EncodeItems(rest), CH_E);
      ParsedAt(v, s, p);
      ItemsParsedAt(rest, s, n, acc + [Normal(v)]);
      ItemsStep(s, p, n, Normal(v), acc);
      Associative(acc, [Normal(v)], NormalItems(rest));
    }
  }

  lemma AtEntry(s: Bytes, p: nat, es: seq<Entry>)
    requires es != [] && At(s, p, EncodeEntries(es) + [CH_E])
    ensures var key, val := EncodeStr(es[0].key), Encode(es[0].val);
            && At(s, p, key) && At(s, p + |key|, val)
            && At(s, p + |key| + |val|, EncodeEntries(es[1..]) + [CH_E])
            && |EncodeEntries(es)| == |key| + |val| + |EncodeEntries(es[1..])|
  {
    hide At, EncodeStr, Encode;
    var key, val := EncodeStr(es[0].key), Encode(es[0].val);
    AtParts(s, p, key + val, EncodeEntries(es[1..]), CH_E);
    AtConcat(s, p, key, val);
  }

  lemma EntriesStep(s: Bytes, p: nat, n: nat, m: nat, e: Entry, acc: seq<Entry>, previous: Option<Bytes>)
    requires p < n < m <= |s| && s[p] != CH_E && IsDigit(s[p])
    requires ParseStr(s, p) == Ok(e.key, n) && ParseValue(s, n, false) == Ok(e.val, m)
    ensures !HasKey(acc, e.key) ==> ParseEntries(s, p, acc) == ParseEntries(s, m, Insert(acc, e.key, e.val))
    ensures MinimalNumber(s, p) && Canonical(s, n) && CanonicalEntries(s, m, Some(e.key)) ==>
              (previous.Some? ==> Less(previous.value, e.key)) ==> CanonicalEntries(s, p, previous)
  {
    hide ParseStr, ParseValue, Canonical, MinimalNumber;
  }

  /** Entries in any order: the decoder sorts them, and nothing else depends on the order. */
  lemma {:induction false} EntriesParsedAt(es: seq<Entry>, s: Bytes, p: nat, acc: seq<Entry>)
    requires WritableEntries(es) && DistinctKeys(es) && KeysApart(acc, es)
    requires At(s, p, EncodeEntries(es) + [CH_E])
    ensures ParseEntries(s, p, acc) == Ok(Dict(InsertAll(acc, NormalEntries(es))), p + |EncodeEntries(es)| + 1)
    decreases es, 0, 1
  {
    hide At, ParseValue, ParseStr, Canonical, MinimalNumber, HasKey, DistinctKeys, KeysApart, Normal, Writable;
    hide ParseEntries, InsertAll, EncodeStr, Encode;
    if es == [] {
      AtLast(s, p, [], CH_E);
      NoMoreEntries(s, p, acc);
    } else {
      var n := p + |EncodeStr(es[0].key)|;
      var m := n + |Encode(es[0].val)|;
      var e := Entry(es[0].key, Normal(es[0].val));
      EntryParsedAt(es, s, p);
      KeysApartStep(acc, es, e.val);
      EntriesStep(s, p, n, m, e, acc, None);
      EntriesParsedAt(es[1..], s, m, Insert(acc, e.key, e.val));
      FirstInserted(acc, e, NormalEntries(es[1..]));
    }
  }

  lemma NoMoreEntries(s: Bytes, p: nat, acc: seq<Entry>)
    requires p < |s| && s[p] == CH_E
    ensures ParseEntries(s, p, acc) == Ok(Dict(InsertAll(acc, [])), p + 1)
  {
  }

  lemma FirstInserted(acc: seq<Entry>, e: Entry, es: seq<Entry>)
    ensures InsertAll(acc, [e] + es) == InsertAll(Insert(acc, e.key, e.val), es)
  {
    assert ([e] + es)[1..] == es;
  }

  /** Sorted entries are also canonical. */
  lemma {:induction false} EntriesCanonicalAt(es: seq<Entry>, s: Bytes, p: nat, previous: Option<Bytes>)
    requires WritableEntries(es) && ValidEntries(es) && Sorted(es)
    requires es != [] && previous.Some? ==> Less(previous.value, es[0].key)
    requires At(s, p, EncodeEntries(es) + [CH_E])
    ensures CanonicalEntries(s, p, previous)
    decreases es, 0, 1
  {
    hide At, ParseValue, ParseStr, Canonical, MinimalNumber, Normal, Writable, ValidValue;
    if es == [] {
      AtLast(s, p, [], CH_E);
    } else {
      var n := p + |EncodeStr(es[0].key)|;
      var m := n + |Encode(es[0].val)|;
      EntryParsedAt(es, s, p);
      EntriesCanonicalAt(es[1..], s, m, Some(es[0].key));
      EntriesStep(s, p, n, m, Entry(es[0].key, Normal(es[0].val)), [], previous);
    }
  }

  lemma {:induction false} EntryParsedAt(es: seq<Entry>, s: Bytes, p: nat)
    requires WritableEntries(es) && es != []
    requires At(s, p, EncodeEntries(es) + [CH_E])
    ensures p < |s| && IsDigit(s[p]) && MinimalNumber(s, p)
    ensures var n := p + |EncodeStr(es[0].key)|;
            var m := n + |Encode(es[0].val)|;
            && m + |EncodeEntries(es[1..])| == p + |EncodeEntries(es)|
            && n < m <= |s| && ParseStr(s, p) == Ok(es[0].key, n)
            && ParseValue(s, n, false) == Ok(Normal(es[0].val), m)
            && (ValidValue(es[0].val) ==> Canonical(s, n))
            && At(s, m, EncodeEntries(es[1..]) + [CH_E])
    decreases es, 0, 0
  {
    hide At, ParseValue, ParseStr, Canonical, MinimalNumber, EncodeStr, Encode, Normal, Writable, ValidValue;
    AtEntry(s, p, es);
    StrRoundTrip(s, p, es[0].key);
    ParsedAt(es[0].val, s, p + |EncodeStr(es[0].key)|);
  }

  /** Decoding any text in which the encoding of v stands gives v and stops right after it. */
  lemma RoundTripAt(v: Value, s: Bytes, p: nat)
    requires ValidValue(v) && At(s, p, Encode(v))
    ensures ParseValue(s, p, false) == Ok(v, p + |Encode(v)|)
    ensures p < |s| && s[p] != CH_E && Canonical(s, p)
  {
    ValidNormal(v);
    ParsedAt(v, s, p);
  }

  /**
   * Two texts, wherever they stand, decode and re-encode alike exactly when what is written in them
   * differs only in the order of dictionary entries, at whatever depth.
   */
  lemma {:induction false} AnyEntryOrder(v: Value, s: Bytes, p: nat, w: Value, t: Bytes, q: nat)
    requires Writable(v) && At(s, p, Encode(v))
    requires Writable(w) && At(t, q, Encode(w))
    ensures ParseValue(s, p, false).Ok? && ParseValue(t, q, false).Ok?
    ensures Encode(ParseValue(s, p, false).value) == Encode(ParseValue(t, q, false).value) <==> Reordered(v, w)
  {
    hide ParseValue, Encode, Reordered, Normal, Writable, ValidValue, At;
    ParsedAt(v, s, p);
    ParsedAt(w, t, q);
    ParsedValueValid(s, p, false);
    ParsedValueValid(t, q, false);
    NormalExactly(v, w);
    if Encode(Normal(v)) == Encode(Normal(w)) {
      RoundTrip(Normal(v), []);
      RoundTrip(Normal(w), []);
    }
  }

  /** decode(encode(v) + rest) is v, and leaves exactly rest. */
  lemma {:induction false} RoundTrip(v: Value, rest: Bytes)
    requires ValidValue(v)
    ensures ParseValue(Encode(v) + rest, 0, false) == Ok(v, |Encode(v)|)
    ensures (Encode(v) + rest)[|Encode(v)|..] == rest
  {
    AtSlice(Encode(v) + rest, 0, Encode(v));
    RoundTripAt(v, Encode(v) + rest, 0);
  }

  // ---------------------------------------------------------------- canonicalisation

  lemma BracketedSlice(s: Bytes, p: nat, q: nat)
    requires p < q < |s|
    ensures s[p..q + 1] == [s[p]] + s[p + 1..q] + [s[q]]
  {
  }

  lemma CanonicalIntText(s: Bytes, p: nat)
    requires p < |s| && s[p] == CH_I && CanonicalInt(s, p) && ParseInt(s, p).Ok?
    ensures s[p..ParseInt(s, p).next] == Encode(Integer(ParseInt(s, p).value))
  {
    hide Decimal, NatDecimal, DigitRun, MinimalNumber;
    var r := ParseInt(s, p);
    var q := if s[p + 1] == CH_MINUS then p + 2 else p + 1;
    MinimalPositive(s, q);
    BracketedSlice(s, p, r.next - 1);
    assert s[p + 1..r.next - 1] == IntDecimal(r.value) by {
      if s[p + 1] == CH_MINUS {
        assert s[p + 1..r.next - 1] == [CH_MINUS] + s[p + 2..r.next - 1];
      }
    }
  }

  lemma MinimalPositive(s: Bytes, q: nat)
    requires q < |s| && MinimalNumber(s, q)
    ensures var n := DigitRun(s, q);
            && Decimal(s, q, n) >= 0
            && (s[q] != 48 ==> Decimal(s, q, n) > 0)
            && NatDecimal(Decimal(s, q, n)) == s[q..q + n]
  {
    hide Decimal, NatDecimal, DigitRun, Pow10;
    var n := DigitRun(s, q);
    NatDecimalOfDecimal(s, q, n);
    if s[q] != 48 {
      DecimalAtLeast(s, q, n);
      Pow10Monotone(0, n - 1);
    }
  }

  lemma CanonicalStrText(s: Bytes, p: nat)
    requires p < |s| && MinimalNumber(s, p) && ParseStr(s, p).Ok?
    ensures s[p..ParseStr(s, p).next] == EncodeStr(ParseStr(s, p).value)
  {
    hide Decimal, NatDecimal, DigitRun;
    var r := ParseStr(s, p);
    var n := DigitRun(s, p);
    NatDecimalOfDecimal(s, p, n);
    NumberSound(s, p, 1, SizeT);
    assert s[p..r.next] == s[p..p + n] + [CH_COLON] + s[p + n + 1..r.next];
  }

  /** A canonical text is the encoding of the value it is decoded to. */
  lemma {:induction false} CanonicalText(s: Bytes, p: nat, taken: bool)
    requires p <= |s| && Canonical(s, p) && ParseValue(s, p, taken).Ok?
    ensures var r := ParseValue(s, p, taken); s[p..r.next] == Encode(r.value)
    decreases |s| - p, 0
  {
    hide ParseInt, ParseStr, ParseItems, ParseEntries, EncodeItems, EncodeEntries;
    hide MinimalNumber, CanonicalInt, CanonicalItems, CanonicalEntries;
    var r := ParseValue(s, p, taken);
    if s[p] == CH_I {
      CanonicalIntText(s, p);
    } else if s[p] == CH_L {
      CanonicalItemsText(s, p + 1, []);
      assert s[p..r.next] == [CH_L] + s[p + 1..r.next];
      assert [CH_L] + (EncodeItems(r.value.items) + [CH_E]) == [CH_L] + EncodeItems(r.value.items) + [CH_E];
    } else if s[p] == CH_D {
      var rest := CanonicalEntriesText(s, p + 1, [], None);
      assert [] + rest == rest;
      assert s[p..r.next] == [CH_D] + s[p + 1..r.next];
      assert [CH_D] + (EncodeEntries(rest) + [CH_E]) == [CH_D] + EncodeEntries(rest) + [CH_E];
    } else {
      CanonicalStrText(s, p);
    }
  }

  lemma {:induction false} CanonicalItemsText(s: Bytes, p: nat, acc: seq<Value>)
    requires p <= |s| && CanonicalItems(s, p) && ParseItems(s, p, acc).Ok?
    ensures var r := ParseItems(s, p, acc);
            acc <= r.value.items && s[p..r.next] == EncodeItems(r.value.items[|acc|..]) + [CH_E]
    decreases |s| - p, 1
  {
    hide ParseValue, Canonical;
    var r := ParseItems(s, p, acc);
    if s[p] == CH_E {
      assert acc[|acc|..] == [] && s[p..p + 1] == [CH_E];
    } else {
      var v := ParseValue(s, p, false);
      CanonicalText(s, p, false);
      CanonicalItemsText(s, v.next, acc + [v.value]);
      var tail := r.value.items[|acc|..];
      assert tail[0] == v.value && tail[1..] == r.value.items[|acc| + 1..];
      assert s[p..r.next] == s[p..v.next] + s[v.next..r.next];
      assert Encode(v.value) + (EncodeItems(tail[1..]) + [CH_E]) == EncodeItems(tail) + [CH_E];
    }
  }

  /** No key in acc is larger than the one before. */
  ghost predicate UpTo(acc: seq<Entry>, previous: Option<Bytes>) {
    forall i :: 0 <= i < |acc| ==>
      previous.Some? && (acc[i].key == previous.value || Less(acc[i].key, previous.value))
  }

  lemma LargerKey(acc: seq<Entry>, previous: Option<Bytes>, k: Bytes)
    requires previous.Some? ==> Less(previous.value, k)
    requires UpTo(acc, previous)
    ensures forall i :: 0 <= i < |acc| ==> Less(acc[i].key, k)
    ensures !HasKey(acc, k)
  {
    forall i | 0 <= i < |acc| ensures Less(acc[i].key, k) && acc[i].key != k {
      if acc[i].key != previous.value {
        LessTransitive(acc[i].key, previous.value, k);
      }
      LessTotal(acc[i].key, k);
    }
  }

  lemma NoEntries()
    ensures EncodeEntries([]) == []
  {
  }

  lemma JoinEntry(s: Bytes, p: nat, k: nat, v: nat, n: nat, e: Entry, acc: seq<Entry>, more: seq<Entry>)
    requires p <= k <= v <= n <= |s|
    requires s[p..k] == EncodeStr(e.key) && s[k..v] == Encode(e.val) && s[v..n] == EncodeEntries(more) + [CH_E]
    ensures s[p..n] == EncodeEntries([e] + more) + [CH_E]
    ensures acc + [e] + more == acc + ([e] + more)
  {
    Join3(s, p, k, v, n);
    Associative(acc, [e], more);
    assert ([e] + more)[1..] == more && ([e] + more)[0] == e;
    Associative(EncodeStr(e.key) + Encode(e.val), EncodeEntries(more), [CH_E]);
  }

  lemma Join3(s: Bytes, p: nat, k: nat, v: nat, n: nat)
    requires p <= k <= v <= n <= |s|
    ensures s[p..n] == s[p..k] + s[k..v] + s[v..n]
  {
  }

  /** What a canonical entry text says about the entry, and what is left to read after it. */
  lemma {:induction false} CanonicalEntryRead(s: Bytes, p: nat, acc: seq<Entry>, previous: Option<Bytes>)
    requires p < |s| && s[p] != CH_E && CanonicalEntries(s, p, previous) && ParseEntries(s, p, acc).Ok?
    requires UpTo(acc, previous)
    ensures MinimalNumber(s, p) && ParseStr(s, p).Ok?
    ensures var k := ParseStr(s, p);
            var v := ParseValue(s, k.next, false);
            && Canonical(s, k.next) && v.Ok? && CanonicalEntries(s, v.next, Some(k.value))
            && ParseEntries(s, p, acc) == ParseEntries(s, v.next, acc + [Entry(k.value, v.value)])
            && UpTo(acc + [Entry(k.value, v.value)], Some(k.value))
  {
    hide ParseValue, ParseStr, Canonical, MinimalNumber;
    var k := ParseStr(s, p);
    LargerKey(acc, previous, k.value);
    InsertLast(acc, k.value, ParseValue(s, k.next, false).value);
  }

  lemma {:induction false} CanonicalEntriesText(s: Bytes, p: nat, acc: seq<Entry>, previous: Option<Bytes>)
    returns (rest: seq<Entry>)
    requires p <= |s| && CanonicalEntries(s, p, previous) && ParseEntries(s, p, acc).Ok?
    requires UpTo(acc, previous)
    ensures var r := ParseEntries(s, p, acc);
            r.value == Dict(acc + rest) && s[p..r.next] == EncodeEntries(rest) + [CH_E]
    decreases |s| - p, 1
  {
    hide ParseValue, ParseStr, Canonical, MinimalNumber, UpTo, EncodeEntries, EncodeStr, Encode;
    var r := ParseEntries(s, p, acc);
    if s[p] == CH_E {
      rest := [];
      assert acc + rest == acc && s[p..p + 1] == [CH_E];
      assert EncodeEntries([]) == [] by { NoEntries(); }
    } else {
      var k := ParseStr(s, p);
      var v := ParseValue(s, k.next, false);
      CanonicalEntryRead(s, p, acc, previous);
      CanonicalStrText(s, p);
      CanonicalText(s, k.next, false);
      var e := Entry(k.value, v.value);
      var more := CanonicalEntriesText(s, v.next, acc + [e], Some(k.value));
      rest := [e] + more;
      JoinEntry(s, p, k.next, v.next, r.next, e, acc, more);
    }
  }

  /** Re-encoding gives the decoded text back exactly when that text is canonical. */
  lemma {:induction false} ReencodeExact(s: Bytes, p: nat)
    requires p <= |s| && ParseValue(s, p, false).Ok?
    ensures var r := ParseValue(s, p, false);
            Encode(r.value) == s[p..r.next] <==> Canonical(s, p)
  {
    var r := ParseValue(s, p, false);
    if Canonical(s, p) {
      CanonicalText(s, p, false);
    }
    if Encode(r.value) == s[p..r.next] {
      ParsedValueValid(s, p, false);
      AtSlice(s, p, Encode(r.value));
      RoundTripAt(r.value, s, p);
    }
  }

  /** A text that is not canonical: `i007e` is decoded to 7, and comes back as `i7e`. */
  lemma LeadingZerosDropped()
    ensures var s := [CH_I, 48, 48, 55, CH_E];
            && ParseValue(s, 0, false) == Ok(Integer(7), 5) && Encode(Integer(7)) == [CH_I, 55, CH_E]
            && !Canonical(s, 0)
  {
    var s := [CH_I, 48, 48, 55, CH_E];
    assert Decimal(s, 1, 1) == 0 && Decimal(s, 1, 2) == 0 && Decimal(s, 1, 3) == 7 by {
      assert Decimal(s, 1, 0) == 0;
    }
    DigitRunAtLeast(s, 1, 3);
    assert Number(s, 1, 1, LongLong) == Ok(7, 4);
    assert NatDecimal(7) == [55];
    ReencodeExact(s, 0);
  }

  /** Decoding and re-encoding settles after one round, on a canonical text for the same value. */
  lemma {:induction false} ReencodeIdempotent(s: Bytes, p: nat)
    requires p <= |s| && ParseValue(s, p, false).Ok?
    ensures var e := Encode(ParseValue(s, p, false).value);
            && ParseValue(e, 0, false) == Ok(ParseValue(s, p, false).value, |e|)
            && Canonical(e, 0)
  {
    var v := ParseValue(s, p, false).value;
    ParsedValueValid(s, p, false);
    RoundTripAt(v, Encode(v), 0);
  }

  // ---------------------------------------------------------------- the info hash

  /** Where the text of an entry of a decoded dictionary stands: its key at k, its value from..to. */
  ghost predicate EntryText(s: Bytes, k: nat, from: nat, to: nat, e: Entry) {
    && k < from < to <= |s|
    && ParseStr(s, k) == Ok(e.key, from)
    && ParseValue(s, from, false) == Ok(e.val, to)
  }

  /** Reading the entries of a dictionary from p on, the reader comes to a key at k. */
  ghost predicate ComesToKey(s: Bytes, p: nat, k: nat)
    decreases |s| - p
  {
    && p < |s| && s[p] != CH_E
    && (k == p ||
        (ParseStr(s, p).Ok? &&
         var from := ParseStr(s, p).next;
         ParseValue(s, from, false).Ok? && ComesToKey(s, ParseValue(s, from, false).next, k)))
  }

  /** A key that the reader comes to has not been read before. */
  lemma {:induction false} NewKey(s: Bytes, p: nat, acc: seq<Entry>, k: nat)
    requires p <= |s| && ParseEntries(s, p, acc).Ok? && ComesToKey(s, p, k)
    ensures p <= k < |s| && ParseStr(s, k).Ok? && !HasKey(acc, ParseStr(s, k).value)
    decreases |s| - p
  {
    hide ParseStr, ParseValue;
    var key := ParseStr(s, p);
    TakenFails(s, key.next);
    if k != p {
      var v := ParseValue(s, key.next, false);
      InsertMembers(acc, key.value, v.value);
      NewKey(s, v.next, Insert(acc, key.value, v.value), k);
    }
  }

  ghost predicate KeyIs(s: Bytes, k: nat, key: Bytes) {
    k < |s| && ParseStr(s, k).Ok? && ParseStr(s, k).value == key
  }

  /** The one place where the reader comes to the key. */
  ghost predicate OnlyKey(s: Bytes, p: nat, key: Bytes, k: nat) {
    && ComesToKey(s, p, k) && KeyIs(s, k, key)
    && forall k': nat :: ComesToKey(s, p, k') && KeyIs(s, k', key) ==> k' == k
  }

  /** So it comes to each key only once. */
  lemma {:induction false} KeyOnce(s: Bytes, p: nat, acc: seq<Entry>, key: Bytes, k: nat, k': nat)
    requires p <= |s| && ParseEntries(s, p, acc).Ok? && ComesToKey(s, p, k) && ComesToKey(s, p, k')
    requires KeyIs(s, k, key) && KeyIs(s, k', key)
    ensures k == k'
    decreases |s| - p
  {
    hide ParseStr, ParseValue;
    var first := ParseStr(s, p);
    TakenFails(s, first.next);
    var v := ParseValue(s, first.next, false);
    var acc' := Insert(acc, first.value, v.value);
    InsertMembers(acc, first.value, v.value);
    if k != p && k' != p {
      KeyOnce(s, v.next, acc', key, k, k');
    } else if k != p {
      NewKey(s, v.next, acc', k);
    } else if k' != p {
      NewKey(s, v.next, acc', k');
    }
  }

  /** Every entry of a decoded dictionary was read from some part of the text, where the reader came to its key. */
  lemma {:induction false} EntryStands(s: Bytes, p: nat, acc: seq<Entry>, e: Entry) returns (k: nat, from: nat, to: nat)
    requires p <= |s| && ParseEntries(s, p, acc).Ok?
    requires e in ParseEntries(s, p, acc).value.entries && e !in acc
    ensures p <= k && ComesToKey(s, p, k) && EntryText(s, k, from, to, e) && to < ParseEntries(s, p, acc).next
    decreases |s| - p
  {
    hide ParseStr, ParseValue;
    assert s[p] != CH_E && IsDigit(s[p]);
    var key := ParseStr(s, p);
    TakenFails(s, key.next);
    var v := ParseValue(s, key.next, false);
    InsertMembers(acc, key.value, v.value);
    if e == Entry(key.value, v.value) {
      k, from, to := p, key.next, v.next;
    } else {
      k, from, to := EntryStands(s, v.next, Insert(acc, key.value, v.value), e);
    }
  }
}
