/** The iterative decoder, which keeps a stack of pointers into the value it is building. */
module BencodeDecoder {
  import opened Bytes
  import opened BencodeDigits
  import opened Decimals
  import opened BencodeValue
  import opened BencodeGrammar
  import opened BencodePaths

  // ---------------------------------------------------------------- scalars

  method DecodeInt(s: Bytes, start: nat) returns (r: Result<int>)
    requires start < |s| && s[start] == CH_I
    ensures r == ParseInt(s, start)
  {
    var begin := start + 1;
    var sgn := 1;
    if begin == |s| {
      return Err(EndOfInput, begin);
    }
    if s[begin] == CH_MINUS {
      sgn := -1;
      begin := begin + 1;
    }
    var n := DecodeDigits(s, begin, sgn, LongLong);
    match n {
      case Err(e, at) => return Err(e, at);
      case Ok(value, next) =>
        if s[next] != CH_E {
          return Err(SyntaxError, next);
        }
        return Ok(value, next + 1);
    }
  }

  method DecodeStr(s: Bytes, start: nat) returns (r: Result<Bytes>)
    requires start < |s| && IsDigit(s[start])
    ensures r == ParseStr(s, start)
  {
    var n := DecodeDigits(s, start, 1, SizeT);
    NumberSound(s, start, 1, SizeT);
    match n {
      case Err(e, at) => return Err(e, at);
      case Ok(len, next) =>
        if s[next] != CH_COLON {
          return Err(SyntaxError, next);
        }
        var begin := next + 1;
        if |s| - begin < Distance(len) {
          return Err(EndOfInput, |s|);
        }
        if begin + len > |s| {
          return Err(PastEnd, begin);
        }
        return Ok(s[begin..begin + len], begin + len);
    }
  }

  /** The reader for streams takes the bytes one at a time, and so notices every end of the input. */
  method ReadStream(s: Bytes, start: nat, len: uint64) returns (r: Result<Bytes>)
    requires start <= |s|
    ensures r == if start + len <= |s| then Ok(s[start..start + len], start + len) else Err(EndOfInput, |s|)
  {
    var begin := start;
    var value := Zeros(len);
    for i := 0 to len
      invariant begin == start + i <= |s| && |value| == len
      invariant value[..i] == s[start..begin]
    {
      if begin == |s| {
        return Err(EndOfInput, begin);
      }
      value := value[i := s[begin]];
      begin := begin + 1;
      assert s[start..begin] == s[start..begin - 1] + [s[begin - 1]];
    }
    assert value[..len] == value;
    return Ok(value, begin);
  }

  // ---------------------------------------------------------------- what remains to be read

  ghost function Continue(s: Bytes, p: nat, c: Value): (r: Result<Value>)
    requires p <= |s| && IsContainer(c)
    ensures r.Ok? ==> r.next <= |s|
  {
    if c.List? then ParseItems(s, p, c.items) else ParseEntries(s, p, c.entries)
  }

  /** The container at `path` is finished with outcome r; finish the containers around it. */
  ghost function Close(s: Bytes, tree: Value, path: Path, r: Result<Value>): Result<Value>
    requires Live(tree, path) && (r.Ok? ==> r.next <= |s|)
    decreases |path|, 0
  {
    match r
    case Err(e, at) => Err(e, at)
    case Ok(v, n) =>
      var t := Put(tree, path, v);
      if path == [] then Ok(t, n)
      else
        var parent := path[..|path| - 1];
        GetOfPut(tree, path, v);
        PathPrefix(t, path, |parent|);
        Resume(s, n, t, parent)
  }

  /** Read the rest of the open container at `path`, and then of the containers around it. */
  ghost function Resume(s: Bytes, p: nat, tree: Value, path: Path): Result<Value>
    requires p <= |s| && Live(tree, path) && IsContainer(Get(tree, path))
    decreases |path|, 1
  {
    Close(s, tree, path, Continue(s, p, Get(tree, path)))
  }

  /** A container after its next element has been read with outcome r. */
  ghost function AfterElement(s: Bytes, c: Value, key: Bytes, r: Result<Value>): (f: Result<Value>)
    requires IsContainer(c) && (r.Ok? ==> r.next <= |s|)
    ensures f.Ok? ==> f.next <= |s|
  {
    match r
    case Err(e, at) => Err(e, at)
    case Ok(v, n) => Continue(s, n, Stored(c, key, v))
  }

  /** The whole outcome, when the next element is read with outcome r and goes where the stack says. */
  ghost function Expect(s: Bytes, tree: Value, state: seq<Path>, key: Bytes, r: Result<Value>): Result<Value>
    requires StackOk(tree, state) && (r.Ok? ==> r.next <= |s|)
  {
    if state == [] then r
    else
      var top := state[|state| - 1];
      Close(s, tree, top, AfterElement(s, Get(tree, top), key, r))
  }

  /**
   * The stack is the way from the root to the innermost open container: entry j is the pointer with
   * j steps, so no entry points below the top one, and a write there moves nothing pointed at.
   */
  ghost predicate StackOk(tree: Value, state: seq<Path>) {
    state != [] ==>
      var top := state[|state| - 1];
      && |top| == |state| - 1
      && (forall j :: 0 <= j < |state| ==> state[j] == top[..j])
      && Live(tree, top) && IsContainer(Get(tree, top))
  }

  lemma PutBelow(s: Bytes, tree: Value, path: Path, x: Value, r: Result<Value>)
    requires Live(tree, path) && (r.Ok? ==> r.next <= |s|)
    ensures Live(Put(tree, path, x), path)
    ensures Close(s, Put(tree, path, x), path, r) == Close(s, tree, path, r)
  {
    GetOfPut(tree, path, x);
    if r.Ok? {
      PutOfPut(tree, path, x, r.value);
    }
  }

  /** Storing a complete element, and going on in the same container. */
  lemma StoreLeaf(s: Bytes, tree: Value, path: Path, key: Bytes, v: Value, n: nat)
    requires Live(tree, path) && IsContainer(Get(tree, path)) && n <= |s|
    ensures var c := Get(tree, path);
            var t := Put(tree, path, Stored(c, key, v));
            && Live(t, path) && IsContainer(Get(t, path))
            && Resume(s, n, t, path) == Close(s, tree, path, AfterElement(s, c, key, Ok(v, n)))
  {
    var c := Get(tree, path);
    GetOfPut(tree, path, Stored(c, key, v));
    PutBelow(s, tree, path, Stored(c, key, v), Continue(s, n, Stored(c, key, v)));
  }

  /** Storing an empty container, and going on inside it. */
  lemma StoreOpen(s: Bytes, tree: Value, path: Path, key: Bytes, e: Value, n: nat)
    requires Live(tree, path) && IsContainer(Get(tree, path)) && n <= |s|
    requires IsContainer(e) && !Taken(Get(tree, path), key)
    ensures var c := Get(tree, path);
            var t := Put(tree, path, Stored(c, key, e));
            var inner := path + [StoredStep(c, key)];
            && Live(t, inner) && Get(t, inner) == e
            && Resume(s, n, t, inner) == Close(s, tree, path, AfterElement(s, c, key, Continue(s, n, e)))
  {
    var c := Get(tree, path);
    var st := StoredStep(c, key);
    var t := Put(tree, path, Stored(c, key, e));
    var inner := path + [st];
    GetOfPut(tree, path, Stored(c, key, e));
    StoredChild(c, key, e, e);
    PathExtend(t, path, st, e);
    var r := Continue(s, n, e);
    if r.Ok? {
      StoredChild(c, key, e, r.value);
      PathExtend(t, path, st, r.value);
      PutOfPut(tree, path, Stored(c, key, e), Stored(c, key, r.value));
      assert Put(t, inner, r.value) == Put(tree, path, Stored(c, key, r.value));
      assert inner[..|inner| - 1] == path;
      StoreLeaf(s, tree, path, key, r.value, r.next);
    }
  }

  // ---------------------------------------------------------------- the decoder

  /**
   * The three ways of storing an element: as the root, at the end of a list, or into a dictionary.
   * The pointer returned denotes the element; the stack stays valid.
   */
  method Store(result: Value, state: seq<Path>, dictKey: Bytes, thing: Value)
    returns (r: Option<(Value, Path)>)
    requires StackOk(result, state)
    ensures state == [] ==> r == Some((thing, []))
    ensures state != [] ==>
              var top := state[|state| - 1];
              var c := Get(result, top);
              if Taken(c, dictKey) then r == None
              else r == Some((Put(result, top, Stored(c, dictKey, thing)), top + [StoredStep(c, dictKey)]))
  {
    if state == [] {
      return Some((thing, []));
    }
    var top := state[|state| - 1];
    match Get(result, top) {
      case List(items) =>
        return Some((Put(result, top, List(items + [thing])), top + [Index(|items|)]));
      case Dict(entries) =>
        if HasKey(entries, dictKey) {
          return None;
        }
        return Some((Put(result, top, Dict(Insert(entries, dictKey, thing))), top + [Key(dictKey)]));
    }
  }

  /** What the next iteration of the loop has to read. */
  lemma NextElement(s: Bytes, p: nat, tree: Value, path: Path)
    requires p <= |s| && Live(tree, path) && IsContainer(Get(tree, path))
    ensures p == |s| ==> Resume(s, p, tree, path) == Err(EndOfInput, p)
    ensures p < |s| && s[p] == CH_E ==>
              Resume(s, p, tree, path) == Close(s, tree, path, Ok(Get(tree, path), p + 1))
    ensures p < |s| && s[p] != CH_E && Get(tree, path).List? ==>
              forall key :: Resume(s, p, tree, path)
                == Close(s, tree, path, AfterElement(s, Get(tree, path), key, ParseValue(s, p, false)))
    ensures p < |s| && s[p] != CH_E && Get(tree, path).Dict? ==>
              if !IsDigit(s[p]) then Resume(s, p, tree, path) == Err(SyntaxError, p)
              else
                match ParseStr(s, p)
                case Err(e, at) => Resume(s, p, tree, path) == Err(e, at)
                case Ok(k, n) =>
                  if n == |s| then Resume(s, p, tree, path) == Err(EndOfInput, n)
                  else
                    var c := Get(tree, path);
                    Resume(s, p, tree, path)
                      == Close(s, tree, path, AfterElement(s, c, k, ParseValue(s, n, Taken(c, k))))
  {
  }

  /** Closing the innermost container and going on in the one around it. */
  lemma CloseInnermost(s: Bytes, tree: Value, state: seq<Path>, n: nat)
    requires StackOk(tree, state) && state != [] && n <= |s|
    ensures var top := state[|state| - 1];
            var rest := state[..|state| - 1];
            && StackOk(tree, rest)
            && Close(s, tree, top, Ok(Get(tree, top), n)) ==
               if rest == [] then Ok(tree, n) else Resume(s, n, tree, rest[|rest| - 1])
  {
    var top := state[|state| - 1];
    PutOfGet(tree, top);
    if |state| > 1 {
      PathPrefix(tree, top, |top| - 1);
      assert state[|state| - 2] == top[..|top| - 1];
      assert forall j :: 0 <= j < |state| - 1 ==> top[..j] == top[..|top| - 1][..j];
    }
  }

  /** The stack after pushing the pointer to a new element. */
  lemma PushInner(tree: Value, state: seq<Path>, st: Step)
    requires state != []
    requires var top := state[|state| - 1];
             && |top| == |state| - 1
             && (forall j :: 0 <= j < |state| ==> state[j] == top[..j])
             && Live(tree, top + [st]) && IsContainer(Get(tree, top + [st]))
    ensures StackOk(tree, state + [state[|state| - 1] + [st]])
  {
    var top := state[|state| - 1];
    assert forall j :: 0 <= j < |state| ==> (top + [st])[..j] == top[..j];
    assert (top + [st])[..|state|] == top + [st];
  }

  /** One element that is not a container: what is stored and what is left to read. */
  lemma LeafStored(s: Bytes, tree: Value, state: seq<Path>, key: Bytes, v: Value, n: nat)
    requires StackOk(tree, state) && n <= |s|
    requires state != []
    ensures var top := state[|state| - 1];
            var t := Put(tree, top, Stored(Get(tree, top), key, v));
            StackOk(t, state) && Resume(s, n, t, top) == Expect(s, tree, state, key, Ok(v, n))
  {
    StoreLeaf(s, tree, state[|state| - 1], key, v, n);
  }

  /** One element that opens a container: what is stored, pushed, and left to read. */
  lemma ContainerStored(s: Bytes, tree: Value, state: seq<Path>, key: Bytes, e: Value, n: nat)
    requires StackOk(tree, state) && n <= |s| && IsContainer(e)
    requires state != [] && !Taken(Get(tree, state[|state| - 1]), key)
    ensures var top := state[|state| - 1];
            var c := Get(tree, top);
            var t := Put(tree, top, Stored(c, key, e));
            var inner := top + [StoredStep(c, key)];
            && StackOk(t, state + [inner])
            && Resume(s, n, t, inner) == Expect(s, tree, state, key, Continue(s, n, e))
  {
    var top := state[|state| - 1];
    StoreOpen(s, tree, top, key, e, n);
    PushInner(Put(tree, top, Stored(Get(tree, top), key, e)), state, StoredStep(Get(tree, top), key));
  }

  /** The loop is at a point where an element (or an `e`) is due. */
  ghost predicate Due(s: Bytes, start: nat, begin: nat, result: Value, state: seq<Path>)
    requires start <= |s|
  {
    && begin <= |s|
    && StackOk(result, state)
    && ParseValue(s, start, false) ==
       if state == [] then Ok(result, begin) else Resume(s, begin, result, state[|state| - 1])
  }

  method StoreLeafElement(s: Bytes, ghost start: nat, next: nat, result: Value, state: seq<Path>,
      dictKey: Bytes, v: Value)
    returns (r: Option<Value>)
    requires start <= |s| && next <= |s| && StackOk(result, state)
    requires var taken := state != [] && Taken(Get(result, state[|state| - 1]), dictKey);
             ParseValue(s, start, false) ==
             Expect(s, result, state, dictKey, if taken then Err(DuplicateKey, next) else Ok(v, next))
    ensures r.None? ==> ParseValue(s, start, false) == Err(DuplicateKey, next)
    ensures r.Some? ==> Due(s, start, next, r.value, state)
  {
    var stored := Store(result, state, dictKey, v);
    if stored.None? {
      return None;
    }
    if state != [] {
      LeafStored(s, result, state, dictKey, v, next);
    }
    return Some(stored.value.0);
  }

  method StoreContainer(s: Bytes, ghost start: nat, next: nat, result: Value, state: seq<Path>, dictKey: Bytes,
      e: Value)
    returns (r: Option<(Value, seq<Path>)>)
    requires start <= |s| && next <= |s| && StackOk(result, state)
    requires e == List([]) || e == Dict([])
    requires var taken := state != [] && Taken(Get(result, state[|state| - 1]), dictKey);
             ParseValue(s, start, false) ==
             Expect(s, result, state, dictKey, if taken then Err(DuplicateKey, next) else Continue(s, next, e))
    ensures r.None? ==> ParseValue(s, start, false) == Err(DuplicateKey, next)
    ensures r.Some? ==> r.value.1 != [] && Due(s, start, next, r.value.0, r.value.1)
  {
    var stored := Store(result, state, dictKey, e);
    if stored.None? {
      return None;
    }
    var (tree, pointer) := stored.value;
    if state != [] {
      ContainerStored(s, result, state, dictKey, e, next);
    } else {
      assert Continue(s, next, e) == Resume(s, next, e, []);
    }
    return Some((tree, state + [pointer]));
  }

  /** The decoder's variables after an element has been stored, or the error that stopped it. */
  datatype Progress =
    | Advanced(begin: nat, result: Value, state: seq<Path>)
    | Failed(error: Error, offset: nat)

  method DecodeElement(s: Bytes, ghost start: nat, begin: nat, result: Value, state: seq<Path>, dictKey: Bytes)
    returns (r: Progress)
    requires start <= |s| && begin < |s| && StackOk(result, state)
    requires var taken := state != [] && Taken(Get(result, state[|state| - 1]), dictKey);
             ParseValue(s, start, false) == Expect(s, result, state, dictKey, ParseValue(s, begin, taken))
    ensures r.Failed? ==> ParseValue(s, start, false) == Err(r.error, r.offset)
    ensures r.Advanced? ==> begin < r.begin && Due(s, start, r.begin, r.result, r.state)
  {
    if s[begin] == CH_I {
      var i := DecodeInt(s, begin);
      if i.Err? {
        return Failed(i.error, i.offset);
      }
      var stored := StoreLeafElement(s, start, i.next, result, state, dictKey, Integer(i.value));
      if stored.None? {
        return Failed(DuplicateKey, i.next);
      }
      return Advanced(i.next, stored.value, state);
    } else if s[begin] == CH_L || s[begin] == CH_D {
      var e := if s[begin] == CH_L then List([]) else Dict([]);
      var stored := StoreContainer(s, start, begin + 1, result, state, dictKey, e);
      if stored.None? {
        return Failed(DuplicateKey, begin + 1);
      }
      return Advanced(begin + 1, stored.value.0, stored.value.1);
    } else if IsDigit(s[begin]) {
      var b := DecodeStr(s, begin);
      if b.Err? {
        return Failed(b.error, b.offset);
      }
      var stored := StoreLeafElement(s, start, b.next, result, state, dictKey, Str(b.value));
      if stored.None? {
        return Failed(DuplicateKey, b.next);
      }
      return Advanced(b.next, stored.value, state);
    } else {
      return Failed(SyntaxError, begin);
    }
  }

  lemma NoElement(s: Bytes, p: nat)
    requires p <= |s|
    ensures p == |s| ==> ParseValue(s, p, false) == Err(EndOfInput, p)
    ensures p < |s| && s[p] == CH_E ==> ParseValue(s, p, false) == Err(SyntaxError, p)
  {
  }

  /** The decoder accepts exactly the grammar, with the same value, rest, error and error offset. */
  method BasicDecode(s: Bytes, start: nat) returns (r: Result<Value>)
    requires start <= |s|
    ensures r == ParseValue(s, start, false)
  {
    hide ParseValue, ParseStr, Resume, Continue, Close, AfterElement, Live, Put;
    var begin := start;
    var result := Integer(0);
    var state: seq<Path> := [];
    var dictKey: Bytes := [];
    var first := true;
    while first || state != []
      invariant start <= begin <= |s|
      invariant if first then begin == start && state == [] else Due(s, start, begin, result, state)
      decreases |s| - begin
    {
      first := false;
      if state != [] {
        NextElement(s, begin, result, state[|state| - 1]);
      } else {
        NoElement(s, begin);
      }
      if begin == |s| {
        return Err(EndOfInput, begin);
      }
      if s[begin] == CH_E {
        if state == [] {
          return Err(SyntaxError, begin);
        }
        CloseInnermost(s, result, state, begin + 1);
        begin := begin + 1;
        state := state[..|state| - 1];
      } else {
        if state != [] && Get(result, state[|state| - 1]).Dict? {
          if !IsDigit(s[begin]) {
            return Err(SyntaxError, begin);
          }
          var key := DecodeStr(s, begin);
          if key.Err? {
            return Err(key.error, key.offset);
          }
          dictKey, begin := key.value, key.next;
          if begin == |s| {
            return Err(EndOfInput, begin);
          }
        }
        ghost var taken := state != [] && Taken(Get(result, state[|state| - 1]), dictKey);
        assert ParseValue(s, start, false) == Expect(s, result, state, dictKey, ParseValue(s, begin, taken));
        var after := DecodeElement(s, start, begin, result, state, dictKey);
        if after.Failed? {
          return Err(after.error, after.offset);
        }
        begin, result, state := after.begin, after.result, after.state;
      }
    }
    return Ok(result, begin);
  }
}
