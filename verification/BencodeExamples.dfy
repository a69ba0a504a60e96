/** Two values and the bytes they are written in: `li-42e4:spame` and `d3:cow4:spame`. */
module BencodeExamples {
  import opened Bytes
  import opened Decimals
  import opened BencodeDigits
  import opened BencodeValue
  import opened BencodeGrammar
  import opened BencodeTheorems

  const COW: Bytes := [99, 111, 119]
  const SPAM: Bytes := [115, 112, 97, 109]

  /** The list -42, "spam". */
  lemma {:induction false} ListExample()
    ensures var list := List([Integer(-42), Str(SPAM)]);
            var text := [108, 105, 45, 52, 50, 101, 52, 58, 115, 112, 97, 109, 101];
            Encode(list) == text && ParseValue(text, 0, false) == Ok(list, 13)
  {
    var list := List([Integer(-42), Str(SPAM)]);
    ListWritten();
    Decoded(list);
  }

  /** The dictionary from "cow" to "spam". */
  lemma {:induction false} DictExample()
    ensures var dict := Dict([Entry(COW, Str(SPAM))]);
            var text := [100, 51, 58, 99, 111, 119, 52, 58, 115, 112, 97, 109, 101];
            Encode(dict) == text && ParseValue(text, 0, false) == Ok(dict, 13)
  {
    var dict := Dict([Entry(COW, Str(SPAM))]);
    DictWritten();
    Decoded(dict);
  }

  lemma Decoded(v: Value)
    requires ValidValue(v)
    ensures ParseValue(Encode(v), 0, false) == Ok(v, |Encode(v)|)
  {
    hide *;
    RoundTrip(v, []);
    assert Encode(v) + [] == Encode(v);
  }

  lemma ListWritten()
    ensures var list := List([Integer(-42), Str(SPAM)]);
            ValidValue(list) && Encode(list) == [108, 105, 45, 52, 50, 101, 52, 58, 115, 112, 97, 109, 101]
  {
    var items := [Integer(-42), Str(SPAM)];
    NumberWritten();
    StringsWritten();
    ItemsOf(items[0], items[1]);
    ValidItemsAt(items);
    assert ValidValue(items[0]) && ValidValue(items[1]);
    hide Encode, EncodeItems, ValidValue, SPAM;
    assert Encode(List(items)) == [108] + EncodeItems(items) + [101] by { WrittenAs(items, []); }
  }

  lemma WrittenAs(items: seq<Value>, es: seq<Entry>)
    ensures Encode(List(items)) == [108] + EncodeItems(items) + [101]
    ensures Encode(Dict(es)) == [100] + EncodeEntries(es) + [101]
  {
  }

  lemma ItemsOf(a: Value, b: Value)
    ensures EncodeItems([a, b]) == Encode(a) + Encode(b)
  {
    assert [a, b][1..] == [b] && [b][1..] == [];
    assert EncodeItems([b]) == Encode(b) + [];
  }

  lemma DictWritten()
    ensures var dict := Dict([Entry(COW, Str(SPAM))]);
            ValidValue(dict) && Encode(dict) == [100, 51, 58, 99, 111, 119, 52, 58, 115, 112, 97, 109, 101]
  {
    var e := Entry(COW, Str(SPAM));
    StringsWritten();
    EntriesOf(e);
    ValidEntriesAt([e]);
    assert ValidEntry(e);
    hide Encode, EncodeStr, EncodeEntries, SPAM, COW;
    WrittenAs([], [e]);
  }

  lemma EntriesOf(e: Entry)
    ensures EncodeEntries([e]) == EncodeStr(e.key) + Encode(e.val)
  {
    assert [e][1..] == [];
  }

  lemma NumberWritten()
    ensures Encode(Integer(-42)) == [105, 45, 52, 50, 101]
  {
    assert NatDecimal(4) == [52];
    assert NatDecimal(42) == [52, 50];
  }

  lemma StringsWritten()
    ensures EncodeStr(COW) == [51, 58, 99, 111, 119]
    ensures EncodeStr(SPAM) == [52, 58, 115, 112, 97, 109] && Encode(Str(SPAM)) == EncodeStr(SPAM)
  {
  }
}
