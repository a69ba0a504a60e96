/** Dictionaries with their entries in any order, at any depth, and the sorted form they are decoded to. */
module BencodeOrder {
  import opened Bytes
  import opened BencodeDigits
  import opened Decimals
  import opened BencodeValue

  // ---------------------------------------------------------------- one dictionary

  /** The map left by emplacing the entries one after another. */
  ghost function InsertAll(acc: seq<Entry>, es: seq<Entry>): seq<Entry>
    decreases |es|
  {
    if es == [] then acc else InsertAll(Insert(acc, es[0].key, es[0].val), es[1..])
  }

  ghost predicate DistinctKeys(es: seq<Entry>) {
    forall i, j :: 0 <= i < j < |es| ==> es[i].key != es[j].key
  }

  ghost predicate KeysApart(acc: seq<Entry>, es: seq<Entry>) {
    forall i :: 0 <= i < |es| ==> !HasKey(acc, es[i].key)
  }

  lemma KeysApartStep(acc: seq<Entry>, es: seq<Entry>, v: Value)
    requires es != [] && DistinctKeys(es) && KeysApart(acc, es)
    ensures !HasKey(acc, es[0].key)
    ensures DistinctKeys(es[1..]) && KeysApart(Insert(acc, es[0].key, v), es[1..])
  {
    InsertMembers(acc, es[0].key, v);
  }

  lemma SortedDistinct(es: seq<Entry>)
    requires Sorted(es)
    ensures DistinctKeys(es) && KeysApart([], es) && InsertAll([], es) == es
  {
    assert [] + es == es;
    InsertAllSorted([], es);
  }

  lemma {:induction false} InsertAllSorted(acc: seq<Entry>, es: seq<Entry>)
    requires Sorted(acc + es)
    ensures InsertAll(acc, es) == acc + es
    ensures DistinctKeys(es) && KeysApart(acc, es)
    decreases |es|
  {
    forall i, j | 0 <= i < j < |acc + es| ensures (acc + es)[i].key != (acc + es)[j].key {
      LessTotal((acc + es)[i].key, (acc + es)[j].key);
    }
    forall i, j | 0 <= i < j < |es| ensures es[i].key != es[j].key {
      assert es[i] == (acc + es)[|acc| + i] && es[j] == (acc + es)[|acc| + j];
    }
    forall i | 0 <= i < |es| ensures !HasKey(acc, es[i].key) {
      assert es[i] == (acc + es)[|acc| + i];
      forall j | 0 <= j < |acc| ensures acc[j].key != es[i].key {
        assert acc[j] == (acc + es)[j];
      }
    }
    if es == [] {
      assert acc + es == acc;
    } else {
      forall i | 0 <= i < |acc| ensures Less(acc[i].key, es[0].key) {
        assert acc[i] == (acc + es)[i] && es[0] == (acc + es)[|acc|];
      }
      InsertLast(acc, es[0].key, es[0].val);
      assert acc + [Entry(es[0].key, es[0].val)] + es[1..] == acc + es;
      InsertAllSorted(acc + [es[0]], es[1..]);
    }
  }

  lemma {:induction false} InsertAllEntries(acc: seq<Entry>, es: seq<Entry>)
    requires Sorted(acc) && DistinctKeys(es) && KeysApart(acc, es)
    ensures Sorted(InsertAll(acc, es))
    ensures multiset(InsertAll(acc, es)) == multiset(acc) + multiset(es)
    decreases |es|
  {
    if es != [] {
      InsertSorted(acc, es[0].key, es[0].val);
      KeysApartStep(acc, es, es[0].val);
      InsertAllEntries(Insert(acc, es[0].key, es[0].val), es[1..]);
      assert es == [es[0]] + es[1..];
    }
  }

  // ---------------------------------------------------------------- values of any depth

  /** Every dictionary sorted, as emplacing its entries one after another leaves it. */
  ghost function Normal(v: Value): Value
    decreases v, 1
  {
    match v
    case Integer(_) => v
    case Str(_) => v
    case List(items) => List(NormalItems(items))
    case Dict(es) => Dict(InsertAll([], NormalEntries(es)))
  }

  ghost function NormalItems(items: seq<Value>): (n: seq<Value>)
    ensures |n| == |items| && forall i :: 0 <= i < |n| ==> n[i] == Normal(items[i])
    decreases items, 0
  {
    if items == [] then [] else [Normal(items[0])] + NormalItems(items[1..])
  }

  ghost function NormalEntries(es: seq<Entry>): (n: seq<Entry>)
    ensures |n| == |es| && forall i :: 0 <= i < |n| ==> n[i] == Entry(es[i].key, Normal(es[i].val))
    decreases es, 0
  {
    if es == [] then [] else [Entry(es[0].key, Normal(es[0].val))] + NormalEntries(es[1..])
  }

  /** Numbers and lengths fit their types, and no dictionary has a key twice. */
  ghost predicate Writable(v: Value)
    decreases v, 1
  {
    match v
    case Integer(i) => InRange(LongLong, i)
    case Str(s) => InRange(SizeT, |s|)
    case List(items) => WritableItems(items)
    case Dict(es) => DistinctKeys(es) && WritableEntries(es)
  }

  ghost predicate WritableItems(items: seq<Value>)
    decreases items, 0
  {
    forall i :: 0 <= i < |items| ==> Writable(items[i])
  }

  ghost predicate WritableEntries(es: seq<Entry>)
    decreases es, 0
  {
    forall i :: 0 <= i < |es| ==> InRange(SizeT, |es[i].key|) && Writable(es[i].val)
  }

  /** A decoded value is writable, and is its own normal form. */
  lemma {:induction false} ValidNormal(v: Value)
    requires ValidValue(v)
    ensures Writable(v) && Normal(v) == v
    decreases v, 1
  {
    match v
    case Integer(_) =>
    case Str(_) =>
    case List(items) => ValidNormalItems(items);
    case Dict(es) =>
      ValidNormalEntries(es);
      SortedDistinct(es);
  }

  lemma {:induction false} ValidNormalItems(items: seq<Value>)
    requires ValidItems(items)
    ensures WritableItems(items) && NormalItems(items) == items
    decreases items, 0
  {
    if items != [] {
      ValidNormal(items[0]);
      ValidNormalItems(items[1..]);
    }
  }

  lemma {:induction false} ValidNormalEntries(es: seq<Entry>)
    requires ValidEntries(es)
    ensures WritableEntries(es) && NormalEntries(es) == es
    decreases es, 0
  {
    if es != [] {
      ValidNormal(es[0].val);
      ValidNormalEntries(es[1..]);
    }
  }

  // ---------------------------------------------------------------- the same up to the order of entries

  /** Two values that differ only in the order of dictionary entries, in the value itself or inside it. */
  ghost predicate Reordered(v: Value, w: Value)
    decreases v, 1
  {
    match v
    case Integer(_) => w == v
    case Str(_) => w == v
    case List(items) =>
      w.List? && |w.items| == |items| && forall i :: 0 <= i < |items| ==> Reordered(items[i], w.items[i])
    case Dict(es) =>
      w.Dict? && |w.entries| == |es| && Matched(es, w.entries)
  }

  ghost predicate Matched(es: seq<Entry>, fs: seq<Entry>)
    decreases es, 0
  {
    forall i :: 0 <= i < |es| ==>
      exists j :: 0 <= j < |fs| && fs[j].key == es[i].key && Reordered(es[i].val, fs[j].val)
  }

  lemma {:induction false} CountOnce(es: seq<Entry>, e: Entry)
    requires DistinctKeys(es)
    ensures multiset(es)[e] == if e in es then 1 else 0
    decreases |es|
  {
    if es != [] {
      assert es == [es[0]] + es[1..];
      CountOnce(es[1..], e);
    }
  }

  /** As many entries, each of them found on the other side: the same entries. */
  lemma SameEntries(a: seq<Entry>, b: seq<Entry>)
    requires DistinctKeys(a) && DistinctKeys(b) && |a| == |b|
    requires forall i :: 0 <= i < |a| ==> a[i] in b
    ensures multiset(a) == multiset(b)
  {
    forall e ensures multiset(a)[e] <= multiset(b)[e] {
      CountOnce(a, e);
      CountOnce(b, e);
    }
    assert multiset(a) <= multiset(b);
    assert multiset(b) == multiset(a) + (multiset(b) - multiset(a));
    assert |multiset(b) - multiset(a)| == 0;
  }

  /** The sorted form of a dictionary depends on its entries only, and has all of them. */
  lemma SortedForm(a: seq<Entry>, b: seq<Entry>)
    requires DistinctKeys(a) && DistinctKeys(b)
    ensures InsertAll([], a) == InsertAll([], b) <==> multiset(a) == multiset(b)
  {
    var none: seq<Entry> := [];
    InsertAllEntries(none, a);
    InsertAllEntries(none, b);
    assert multiset(none) + multiset(a) == multiset(a) && multiset(none) + multiset(b) == multiset(b);
    if multiset(a) == multiset(b) {
      SortedUnique(InsertAll(none, a), InsertAll(none, b));
    }
  }

  lemma NormalKeys(es: seq<Entry>)
    requires DistinctKeys(es)
    ensures DistinctKeys(NormalEntries(es))
  {
  }

  /** Two writable values have the same normal form exactly when they differ only in the order of entries. */
  lemma {:induction false} NormalExactly(v: Value, w: Value)
    requires Writable(v) && Writable(w)
    ensures Normal(v) == Normal(w) <==> Reordered(v, w)
    decreases v
  {
    if v.List? && w.List? && |v.items| == |w.items| {
      forall i | 0 <= i < |v.items|
        ensures Normal(v.items[i]) == Normal(w.items[i]) <==> Reordered(v.items[i], w.items[i])
      {
        NormalExactly(v.items[i], w.items[i]);
      }
      if Reordered(v, w) {
        assert NormalItems(v.items) == NormalItems(w.items);
      }
      if Normal(v) == Normal(w) {
        assert forall i :: 0 <= i < |v.items| ==> NormalItems(v.items)[i] == NormalItems(w.items)[i];
      }
    } else if v.List? && w.List? {
      assert |NormalItems(v.items)| != |NormalItems(w.items)|;
    } else if v.Dict? && w.Dict? {
      forall i, j | 0 <= i < |v.entries| && 0 <= j < |w.entries|
        ensures Normal(v.entries[i].val) == Normal(w.entries[j].val) <==> Reordered(v.entries[i].val, w.entries[j].val)
      {
        NormalExactly(v.entries[i].val, w.entries[j].val);
      }
      DictExactly(v.entries, w.entries);
    }
  }

  lemma DictExactly(es: seq<Entry>, fs: seq<Entry>)
    requires DistinctKeys(es) && DistinctKeys(fs) && Comparable(es, fs)
    ensures Normal(Dict(es)) == Normal(Dict(fs)) <==> Reordered(Dict(es), Dict(fs))
  {
    hide *;
    var a, b := NormalEntries(es), NormalEntries(fs);
    NormalKeys(es);
    NormalKeys(fs);
    SortedForm(a, b);
    NormalOfDict(es);
    NormalOfDict(fs);
    ReorderedOfDict(es, fs);
    if multiset(a) == multiset(b) {
      assert |a| == |multiset(a)| == |multiset(b)| == |b|;
      SameNormalMatched(es, fs);
    }
    if |es| == |fs| && Matched(es, fs) {
      MatchedSameNormal(es, fs);
      SameEntries(a, b);
    }
  }

  lemma ReorderedOfDict(es: seq<Entry>, fs: seq<Entry>)
    ensures Reordered(Dict(es), Dict(fs)) <==> |es| == |fs| && Matched(es, fs)
  {
  }

  lemma NormalOfDict(es: seq<Entry>)
    ensures Normal(Dict(es)) == Dict(InsertAll([], NormalEntries(es)))
  {
  }

  ghost predicate Comparable(es: seq<Entry>, fs: seq<Entry>) {
    forall i, j :: 0 <= i < |es| && 0 <= j < |fs| ==>
      (Normal(es[i].val) == Normal(fs[j].val) <==> Reordered(es[i].val, fs[j].val))
  }

  lemma SameNormalMatched(es: seq<Entry>, fs: seq<Entry>)
    requires Comparable(es, fs) && multiset(NormalEntries(es)) == multiset(NormalEntries(fs))
    ensures Matched(es, fs)
  {
    hide Normal, Reordered, NormalEntries;
    var a, b := NormalEntries(es), NormalEntries(fs);
    forall i | 0 <= i < |es|
      ensures exists j :: 0 <= j < |fs| && fs[j].key == es[i].key && Reordered(es[i].val, fs[j].val)
    {
      assert a[i] in multiset(a) && a[i] in b;
      var j :| 0 <= j < |b| && b[j] == a[i];
      assert fs[j].key == es[i].key && Reordered(es[i].val, fs[j].val);
    }
  }

  lemma MatchedSameNormal(es: seq<Entry>, fs: seq<Entry>)
    requires Comparable(es, fs) && Matched(es, fs)
    ensures forall i :: 0 <= i < |es| ==> NormalEntries(es)[i] in NormalEntries(fs)
  {
    hide Normal, Reordered, NormalEntries;
    var a, b := NormalEntries(es), NormalEntries(fs);
    forall i | 0 <= i < |a| ensures a[i] in b {
      var j :| 0 <= j < |fs| && fs[j].key == es[i].key && Reordered(es[i].val, fs[j].val);
      assert b[j] == a[i];
    }
  }
}
