/** Pointers into a half-built value: a pointer is the path to its node, and writing through it is Put. */
module BencodePaths {
  import opened Bytes
  import opened BencodeDigits
  import opened Decimals
  import opened BencodeValue

  datatype Step = Index(i: nat) | Key(k: Bytes)

  type Path = seq<Step>

  function IndexOf(es: seq<Entry>, k: Bytes): (i: nat)
    requires HasKey(es, k)
    ensures i < |es| && es[i].key == k
    ensures forall j :: 0 <= j < i ==> es[j].key != k
  {
    if es[0].key == k then 0
    else
      assert forall j :: 0 <= j < |es| && es[j].key == k ==> es[1..][j - 1] == es[j];
      1 + IndexOf(es[1..], k)
  }

  predicate Has(v: Value, st: Step) {
    match v
    case List(items) => st.Index? && st.i < |items|
    case Dict(es) => st.Key? && HasKey(es, st.k)
    case _ => false
  }

  function Child(v: Value, st: Step): Value
    requires Has(v, st)
  {
    if v.List? then v.items[st.i] else v.entries[IndexOf(v.entries, st.k)].val
  }

  function WithChild(v: Value, st: Step, c: Value): Value
    requires Has(v, st)
  {
    if v.List? then List(v.items[st.i := c])
    else Dict(v.entries[IndexOf(v.entries, st.k) := Entry(st.k, c)])
  }

  predicate Live(v: Value, path: Path) {
    path == [] || (Has(v, path[0]) && Live(Child(v, path[0]), path[1..]))
  }

  function Get(v: Value, path: Path): Value
    requires Live(v, path)
  {
    if path == [] then v else Get(Child(v, path[0]), path[1..])
  }

  function Put(v: Value, path: Path, w: Value): Value
    requires Live(v, path)
  {
    if path == [] then w
    else WithChild(v, path[0], Put(Child(v, path[0]), path[1..], w))
  }

  lemma IndexOfUnique(es: seq<Entry>, k: Bytes, i: nat)
    requires i < |es| && es[i].key == k
    requires forall j :: 0 <= j < i ==> es[j].key != k
    ensures HasKey(es, k) && IndexOf(es, k) == i
  {
  }

  lemma ChildOfWithChild(v: Value, st: Step, c: Value)
    requires Has(v, st)
    ensures Has(WithChild(v, st, c), st)
    ensures Child(WithChild(v, st, c), st) == c
    ensures forall d {:trigger WithChild(v, st, d)} :: WithChild(WithChild(v, st, c), st, d) == WithChild(v, st, d)
    ensures WithChild(v, st, Child(v, st)) == v
  {
    if v.List? {
      forall d ensures WithChild(WithChild(v, st, c), st, d) == WithChild(v, st, d) {
        assert v.items[st.i := c][st.i := d] == v.items[st.i := d];
      }
      assert v.items[st.i := v.items[st.i]] == v.items;
    } else {
      var i := IndexOf(v.entries, st.k);
      IndexOfUnique(v.entries[i := Entry(st.k, c)], st.k, i);
      forall d ensures WithChild(WithChild(v, st, c), st, d) == WithChild(v, st, d) {
        assert v.entries[i := Entry(st.k, c)][i := Entry(st.k, d)] == v.entries[i := Entry(st.k, d)];
      }
      assert v.entries[i := v.entries[i]] == v.entries;
    }
  }

  lemma {:induction false} GetOfPut(v: Value, path: Path, w: Value)
    requires Live(v, path)
    ensures Live(Put(v, path, w), path)
    ensures Get(Put(v, path, w), path) == w
    decreases |path|
  {
    if path != [] {
      var c := Put(Child(v, path[0]), path[1..], w);
      ChildOfWithChild(v, path[0], c);
      GetOfPut(Child(v, path[0]), path[1..], w);
    }
  }

  lemma {:induction false} PutOfPut(v: Value, path: Path, w: Value, x: Value)
    requires Live(v, path) && Live(Put(v, path, w), path)
    ensures Put(Put(v, path, w), path, x) == Put(v, path, x)
    decreases |path|
  {
    if path != [] {
      ChildOfWithChild(v, path[0], Put(Child(v, path[0]), path[1..], w));
      PutOfPut(Child(v, path[0]), path[1..], w, x);
    }
  }

  lemma {:induction false} PutOfGet(v: Value, path: Path)
    requires Live(v, path)
    ensures Put(v, path, Get(v, path)) == v
    decreases |path|
  {
    if path != [] {
      PutOfGet(Child(v, path[0]), path[1..]);
      ChildOfWithChild(v, path[0], Child(v, path[0]));
    }
  }

  /** Following one more step from a live pointer. */
  lemma {:induction false} PathExtend(v: Value, path: Path, st: Step, w: Value)
    requires Live(v, path) && Has(Get(v, path), st)
    ensures Live(v, path + [st])
    ensures Get(v, path + [st]) == Child(Get(v, path), st)
    ensures Put(v, path + [st], w) == Put(v, path, WithChild(Get(v, path), st, w))
    decreases |path|
  {
    if path == [] {
      assert [st][1..] == [];
    } else {
      assert (path + [st])[1..] == path[1..] + [st];
      PathExtend(Child(v, path[0]), path[1..], st, w);
    }
  }

  /** Every prefix of a live pointer is live, and denotes a list or a dictionary that leads further. */
  lemma {:induction false} PathPrefix(v: Value, path: Path, k: nat)
    requires Live(v, path) && k <= |path|
    ensures Live(v, path[..k])
    ensures k < |path| ==> Has(Get(v, path[..k]), path[k])
    decreases |path|
  {
    if k == 0 {
      assert path[..0] == [];
    } else {
      assert path[..k][1..] == path[1..][..k - 1];
      PathPrefix(Child(v, path[0]), path[1..], k - 1);
    }
  }

  /**
   * A write through a pointer leaves every pointer on the way to it valid, still denoting the same
   * container, which has changed only where that pointer passes through it.
   */
  lemma {:induction false} PutKeepsPrefix(v: Value, path: Path, w: Value, k: nat)
    requires Live(v, path) && k <= |path|
    ensures Live(v, path[..k]) && Live(Get(v, path[..k]), path[k..])
    ensures Live(Put(v, path, w), path[..k])
    ensures Get(Put(v, path, w), path[..k]) == Put(Get(v, path[..k]), path[k..], w)
    decreases |path|
  {
    if k == 0 {
      assert path[..0] == [] && path[0..] == path;
    } else {
      assert path[..k][1..] == path[1..][..k - 1] && path[k..] == path[1..][k - 1..];
      PutKeepsPrefix(Child(v, path[0]), path[1..], w, k - 1);
      ChildOfWithChild(v, path[0], Put(Child(v, path[0]), path[1..], w));
    }
  }

  // ---------------------------------------------------------------- storing into a container

  predicate IsContainer(v: Value) {
    v.List? || v.Dict?
  }

  /** The slot for a new element: the end of a list, or the place of `key` in a dictionary. */
  predicate Taken(c: Value, key: Bytes) {
    c.Dict? && HasKey(c.entries, key)
  }

  function Stored(c: Value, key: Bytes, v: Value): Value
    requires IsContainer(c)
  {
    if c.List? then List(c.items + [v]) else Dict(Insert(c.entries, key, v))
  }

  function StoredStep(c: Value, key: Bytes): Step
    requires IsContainer(c)
  {
    if c.List? then Index(|c.items|) else Key(key)
  }

  /** How many keys come before k: where Insert puts a new key. */
  ghost function InsertAt(es: seq<Entry>, k: Bytes): (i: nat)
    ensures i <= |es|
  {
    if es == [] || Less(k, es[0].key) then 0 else 1 + InsertAt(es[1..], k)
  }

  function Splice(es: seq<Entry>, i: nat, e: Entry): (r: seq<Entry>)
    requires i <= |es|
    ensures |r| == |es| + 1 && r[i] == e
    ensures forall j :: 0 <= j < i ==> r[j] == es[j]
    ensures forall j :: i <= j < |es| ==> r[j + 1] == es[j]
  {
    es[..i] + [e] + es[i..]
  }

  lemma SpliceTail(es: seq<Entry>, i: nat, e: Entry)
    requires 0 < i <= |es|
    ensures Splice(es, i, e) == [es[0]] + Splice(es[1..], i - 1, e)
  {
    assert es[..i] == [es[0]] + es[1..][..i - 1];
    assert es[i..] == es[1..][i - 1..];
  }

  lemma {:induction false} InsertIsSplice(es: seq<Entry>, k: Bytes, v: Value)
    ensures Insert(es, k, v) == Splice(es, InsertAt(es, k), Entry(k, v))
    decreases |es|
  {
    if es == [] || Less(k, es[0].key) {
      assert es[..0] == [] && es[0..] == es;
    } else {
      InsertIsSplice(es[1..], k, v);
      SpliceTail(es, InsertAt(es, k), Entry(k, v));
    }
  }

  lemma SpliceThenUpdate(es: seq<Entry>, i: nat, k: Bytes, v: Value, w: Value)
    requires i <= |es| && !HasKey(es, k)
    ensures HasKey(Splice(es, i, Entry(k, v)), k)
    ensures IndexOf(Splice(es, i, Entry(k, v)), k) == i
    ensures Splice(es, i, Entry(k, v))[i := Entry(k, w)] == Splice(es, i, Entry(k, w))
  {
    var r := Splice(es, i, Entry(k, v));
    forall j | 0 <= j < i ensures r[j].key != k {
      assert r[j] == es[j];
    }
    IndexOfUnique(r, k, i);
  }

  lemma InsertThenUpdate(es: seq<Entry>, k: Bytes, v: Value, w: Value)
    requires !HasKey(es, k)
    ensures HasKey(Insert(es, k, v), k)
    ensures var i := IndexOf(Insert(es, k, v), k);
            Insert(es, k, v)[i] == Entry(k, v) && Insert(es, k, v)[i := Entry(k, w)] == Insert(es, k, w)
  {
    InsertIsSplice(es, k, v);
    InsertIsSplice(es, k, w);
    SpliceThenUpdate(es, InsertAt(es, k), k, v, w);
  }

  /** The pointer returned by a store denotes the stored element, and writes through it replace it. */
  lemma StoredChild(c: Value, key: Bytes, v: Value, w: Value)
    requires IsContainer(c) && !Taken(c, key)
    ensures Has(Stored(c, key, v), StoredStep(c, key))
    ensures Child(Stored(c, key, v), StoredStep(c, key)) == v
    ensures WithChild(Stored(c, key, v), StoredStep(c, key), w) == Stored(c, key, w)
  {
    if c.Dict? {
      InsertThenUpdate(c.entries, key, v, w);
    }
  }
}
