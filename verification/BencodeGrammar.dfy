/** The bencode grammar as a recursive-descent reading of the text, with the errors it reports. */
module BencodeGrammar {
  import opened Bytes
  import opened BencodeDigits
  import opened Decimals
  import opened BencodeValue

  /** An integer: `i`, an optional minus sign, a number, `e`. */
  ghost function ParseInt(s: Bytes, p: nat): (r: Result<int>)
    requires p < |s|
    ensures r.Ok? ==> p < r.next <= |s|
  {
    if p + 1 == |s| then Err(EndOfInput, p + 1)
    else
      var negative := s[p + 1] == CH_MINUS;
      match Number(s, if negative then p + 2 else p + 1, if negative then -1 else 1, LongLong)
      case Err(e, at) => Err(e, at)
      case Ok(v, n) => if s[n] != CH_E then Err(SyntaxError, n) else Ok(v, n + 1)
  }

  /** A length is compared as a signed 64-bit number. */
  function Distance(len: nat): int {
    if len % U64 < HALF then len % U64 else len % U64 - U64
  }

  const HALF: nat := 0x8000_0000_0000_0000

  /** The test for the end of the input lets a string longer than the rest through exactly from 2^63 on. */
  lemma LengthGuard(rest: nat, len: uint64)
    requires rest < len
    ensures !(rest < Distance(len)) <==> HALF <= len
  {
  }

  /**
   * A string: its length, a colon, that many bytes. A string that is too long is noticed, unless its
   * length is 2^63 or more.
   */
  ghost function ParseStr(s: Bytes, p: nat): (r: Result<Bytes>)
    requires p <= |s|
    ensures r.Ok? ==> p < r.next <= |s|
  {
    match Number(s, p, 1, SizeT)
    case Err(e, at) => Err(e, at)
    case Ok(len, n) =>
      NumberSound(s, p, 1, SizeT);
      if s[n] != CH_COLON then Err(SyntaxError, n)
      else if n + 1 + len > |s| then if len < HALF then Err(EndOfInput, |s|) else Err(PastEnd, n + 1)
      else Ok(s[n + 1..n + 1 + len], n + 1 + len)
  }

  /** The value r, unless the dictionary slot it is for is already taken. */
  ghost function Fill<T>(r: Result<T>, taken: bool, wrap: T -> Value): (f: Result<Value>)
    ensures f.Ok? ==> r.Ok? && f.next == r.next
  {
    match r
    case Err(e, at) => Err(e, at)
    case Ok(v, n) => if taken then Err(DuplicateKey, n) else Ok(wrap(v), n)
  }

  /** One value. taken: it belongs to a dictionary key that has been seen before. */
  ghost function ParseValue(s: Bytes, p: nat, taken: bool): (r: Result<Value>)
    requires p <= |s|
    ensures r.Ok? ==> p < r.next <= |s|
    decreases |s| - p, 0
  {
    if p == |s| then Err(EndOfInput, p)
    else if s[p] == CH_I then Fill(ParseInt(s, p), taken, i => Integer(i))
    else if s[p] == CH_L then if taken then Err(DuplicateKey, p + 1) else ParseItems(s, p + 1, [])
    else if s[p] == CH_D then if taken then Err(DuplicateKey, p + 1) else ParseEntries(s, p + 1, [])
    else if IsDigit(s[p]) then Fill(ParseStr(s, p), taken, b => Str(b))
    else Err(SyntaxError, p)
  }

  /** The rest of a list of which the elements acc have been read. */
  ghost function ParseItems(s: Bytes, p: nat, acc: seq<Value>): (r: Result<Value>)
    requires p <= |s|
    ensures r.Ok? ==> p < r.next <= |s| && r.value.List?
    decreases |s| - p, 1
  {
    if p == |s| then Err(EndOfInput, p)
    else if s[p] == CH_E then Ok(List(acc), p + 1)
    else
      match ParseValue(s, p, false)
      case Err(e, at) => Err(e, at)
      case Ok(v, n) => ParseItems(s, n, acc + [v])
  }

  /** The rest of a dictionary of which the entries acc have been read. */
  ghost function ParseEntries(s: Bytes, p: nat, acc: seq<Entry>): (r: Result<Value>)
    requires p <= |s|
    ensures r.Ok? ==> p < r.next <= |s| && r.value.Dict?
    decreases |s| - p, 1
  {
    if p == |s| then Err(EndOfInput, p)
    else if s[p] == CH_E then Ok(Dict(acc), p + 1)
    else if !IsDigit(s[p]) then Err(SyntaxError, p)
    else
      match ParseStr(s, p)
      case Err(e, at) => Err(e, at)
      case Ok(k, n) =>
        if n == |s| then Err(EndOfInput, n)
        else
          match ParseValue(s, n, HasKey(acc, k))
          case Err(e, at) => Err(e, at)
          case Ok(v, m) => ParseEntries(s, m, Insert(acc, k, v))
  }

  /** What kind of value begins with which byte; no other byte begins one. */
  lemma {:induction false} FirstByte(s: Bytes, p: nat)
    requires p <= |s|
    ensures p == |s| ==> ParseValue(s, p, false) == Err(EndOfInput, p)
    ensures p < |s| && s[p] != 105 && s[p] != 108 && s[p] != 100 && !(48 <= s[p] <= 57) ==>
              ParseValue(s, p, false) == Err(SyntaxError, p)
    ensures ParseValue(s, p, false).Ok? ==>
              match ParseValue(s, p, false).value
              case Integer(_) => s[p] == 105
              case List(_) => s[p] == 108
              case Dict(_) => s[p] == 100
              case Str(_) => 48 <= s[p] <= 57
    ensures p < |s| && (s[p] == 108 || s[p] == 100) ==> ParseValue(s, p, true) == Err(DuplicateKey, p + 1)
    ensures ParseValue(s, p, false).Ok? && s[p] != 108 && s[p] != 100 ==>
              ParseValue(s, p, true) == Err(DuplicateKey, ParseValue(s, p, false).next)
  {
  }

  /** Where the errors of an integer are noticed: `i`, `i7`, `i7x`; and `ie`, which is none. */
  lemma {:induction false} IntegerRejections()
    ensures ParseInt([105], 0) == Err(EndOfInput, 1)
    ensures ParseInt([105, 55], 0) == Err(EndOfInput, 2)
    ensures ParseInt([105, 55, 120], 0) == Err(SyntaxError, 2)
    ensures ParseInt([105, 101], 0) == Ok(0, 2)
  {
  }

  /** And those of a string: `2x`, `2:x`. */
  lemma {:induction false} StringRejections()
    ensures ParseStr([50, 120], 0) == Err(SyntaxError, 1)
    ensures ParseStr([50, 58, 120], 0) == Err(EndOfInput, 3)
  {
  }

  /** And those of containers: `l`, `d`, `di`, `d0:`. */
  lemma {:induction false} ContainerRejections()
    ensures ParseValue([108], 0, false) == ParseValue([100], 0, false) == Err(EndOfInput, 1)
    ensures ParseValue([100, 105], 0, false) == Err(SyntaxError, 1)
    ensures ParseValue([100, 48, 58], 0, false) == Err(EndOfInput, 3)
  {
    assert Number([100, 48, 58], 1, 1, SizeT) == Ok(0, 2);
  }

  // ---------------------------------------------------------------- lengths of 2^63 and more

  /** A string at p of which the given length, of 2^63 or more, goes beyond the end of the input. */
  ghost predicate TooLongUnnoticed(s: Bytes, p: nat, at: nat) {
    && p < at <= |s| && s[at - 1] == CH_COLON
    && Number(s, p, 1, SizeT).Ok? && Number(s, p, 1, SizeT).next == at - 1
    && var len := Number(s, p, 1, SizeT).value; HALF <= len && at + len > |s|
  }

  /** The string reader goes beyond the input exactly for such a string. */
  lemma StrPastEnd(s: Bytes, p: nat, at: nat)
    requires p <= |s|
    ensures ParseStr(s, p) == Err(PastEnd, at) <==> TooLongUnnoticed(s, p, at)
  {
    NumberSound(s, p, 1, SizeT);
  }

  /** Reading the value at p, the decoder comes to a string at q, be it the value itself or inside it. */
  ghost predicate ComesTo(s: Bytes, p: nat, taken: bool, q: nat)
    requires p <= |s|
    decreases |s| - p, 0
  {
    && p < |s|
    && if s[p] == CH_L then !taken && ItemsComeTo(s, p + 1, q)
       else if s[p] == CH_D then !taken && EntriesComeTo(s, p + 1, [], q)
       else IsDigit(s[p]) && p == q
  }

  ghost predicate ItemsComeTo(s: Bytes, p: nat, q: nat)
    requires p <= |s|
    decreases |s| - p, 1
  {
    && p < |s| && s[p] != CH_E
    && (ComesTo(s, p, false, q) ||
        (ParseValue(s, p, false).Ok? && ItemsComeTo(s, ParseValue(s, p, false).next, q)))
  }

  /** Keys are strings, too. */
  ghost predicate EntriesComeTo(s: Bytes, p: nat, acc: seq<Entry>, q: nat)
    requires p <= |s|
    decreases |s| - p, 1
  {
    && p < |s| && IsDigit(s[p])
    && (p == q ||
        (ParseStr(s, p).Ok? &&
         var k, n := ParseStr(s, p).value, ParseStr(s, p).next;
         var r := ParseValue(s, n, HasKey(acc, k));
         ComesTo(s, n, HasKey(acc, k), q) || (r.Ok? && EntriesComeTo(s, r.next, Insert(acc, k, r.value), q))))
  }

  /**
   * The decoder goes beyond the input exactly when it comes to such a string; every other text is decoded
   * or rejected.
   */
  lemma {:induction false} ValuePastEnd(s: Bytes, p: nat, taken: bool, at: nat)
    requires p <= |s|
    ensures ParseValue(s, p, taken) == Err(PastEnd, at) <==>
            exists q :: ComesTo(s, p, taken, q) && TooLongUnnoticed(s, q, at)
    decreases |s| - p, 0
  {
    hide TooLongUnnoticed;
    if p < |s| && s[p] == CH_L {
      ItemsPastEnd(s, p + 1, [], at);
    } else if p < |s| && s[p] == CH_D {
      EntriesPastEnd(s, p + 1, [], at);
    } else if p < |s| && IsDigit(s[p]) {
      StrPastEnd(s, p, at);
    }
  }

  lemma {:induction false} ItemsPastEnd(s: Bytes, p: nat, acc: seq<Value>, at: nat)
    requires p <= |s|
    ensures ParseItems(s, p, acc) == Err(PastEnd, at) <==>
            exists q :: ItemsComeTo(s, p, q) && TooLongUnnoticed(s, q, at)
    decreases |s| - p, 1
  {
    hide TooLongUnnoticed;
    if p < |s| && s[p] != CH_E {
      var v := ParseValue(s, p, false);
      ValuePastEnd(s, p, false, at);
      if v.Ok? {
        ItemsPastEnd(s, v.next, acc + [v.value], at);
      }
    }
  }

  lemma {:induction false} EntriesPastEnd(s: Bytes, p: nat, acc: seq<Entry>, at: nat)
    requires p <= |s|
    ensures ParseEntries(s, p, acc) == Err(PastEnd, at) <==>
            exists q :: EntriesComeTo(s, p, acc, q) && TooLongUnnoticed(s, q, at)
    decreases |s| - p, 1
  {
    hide TooLongUnnoticed, ParseStr;
    if p < |s| && IsDigit(s[p]) {
      var k := ParseStr(s, p);
      StrPastEnd(s, p, at);
      if k.Ok? {
        var taken := HasKey(acc, k.value);
        var v := ParseValue(s, k.next, taken);
        ValuePastEnd(s, k.next, taken, at);
        if v.Ok? {
          EntriesPastEnd(s, v.next, Insert(acc, k.value, v.value), at);
        }
      }
    }
  }

  /** The shortest such text is `9223372036854775808:`, the length 2^63 and nothing after it. */
  lemma {:induction false} HugeLengthReadsOn()
    ensures var s := NatDecimal(HALF) + [CH_COLON]; ParseValue(s, 0, false) == Err(PastEnd, |s|)
  {
    hide NatDecimal, Number, DigitRun;
    var s := NatDecimal(HALF) + [CH_COLON];
    AtSlice(s, 0, NatDecimal(HALF));
    NumberRoundTrip(s, 0, HALF, 1, SizeT);
    assert s[0] == NatDecimal(HALF)[0];
  }

  // ---------------------------------------------------------------- decoded values are values

  lemma {:induction false} ParsedValueValid(s: Bytes, p: nat, taken: bool)
    requires p <= |s|
    ensures var r := ParseValue(s, p, taken); r.Ok? ==> ValidValue(r.value)
    decreases |s| - p, 0
  {
    if p == |s| {
    } else if s[p] == CH_I {
      ParsedIntValid(s, p);
    } else if s[p] == CH_L {
      ParsedItemsValid(s, p + 1, []);
    } else if s[p] == CH_D {
      ParsedEntriesValid(s, p + 1, []);
    } else if IsDigit(s[p]) {
      ParsedStrValid(s, p);
    }
  }

  lemma ParsedIntValid(s: Bytes, p: nat)
    requires p < |s|
    ensures var r := ParseInt(s, p); r.Ok? ==> InRange(LongLong, r.value)
  {
    if p + 1 < |s| {
      NumberSound(s, p + 1, 1, LongLong);
      NumberSound(s, if s[p + 1] == CH_MINUS then p + 2 else p + 1, -1, LongLong);
    }
  }

  lemma ParsedStrValid(s: Bytes, p: nat)
    requires p <= |s|
    ensures var r := ParseStr(s, p); r.Ok? ==> InRange(SizeT, |r.value|)
  {
    NumberSound(s, p, 1, SizeT);
  }

  lemma {:induction false} ParsedItemsValid(s: Bytes, p: nat, acc: seq<Value>)
    requires p <= |s| && ValidItems(acc)
    ensures var r := ParseItems(s, p, acc); r.Ok? ==> ValidValue(r.value)
    decreases |s| - p, 1
  {
    if p < |s| && s[p] != CH_E {
      ParsedValueValid(s, p, false);
      var r := ParseValue(s, p, false);
      if r.Ok? {
        ValidItemsAt(acc);
        ValidItemsAt(acc + [r.value]);
        ParsedItemsValid(s, r.next, acc + [r.value]);
      }
    }
  }

  lemma {:induction false} ParsedEntriesValid(s: Bytes, p: nat, acc: seq<Entry>)
    requires p <= |s| && Sorted(acc) && ValidEntries(acc)
    ensures var r := ParseEntries(s, p, acc); r.Ok? ==> ValidValue(r.value)
    decreases |s| - p, 1
  {
    if p < |s| && s[p] != CH_E && IsDigit(s[p]) {
      ParsedStrValid(s, p);
      var k := ParseStr(s, p);
      if k.Ok? && k.next < |s| {
        ParsedValueValid(s, k.next, HasKey(acc, k.value));
        var r := ParseValue(s, k.next, HasKey(acc, k.value));
        if r.Ok? {
          TakenFails(s, k.next);
          InsertSorted(acc, k.value, r.value);
          InsertMembers(acc, k.value, r.value);
          ValidEntriesAt(acc);
          ValidEntriesAt(Insert(acc, k.value, r.value));
          ParsedEntriesValid(s, r.next, Insert(acc, k.value, r.value));
        }
      }
    }
  }

  /** A repeated key is never accepted, and changes nothing else. */
  lemma TakenFails(s: Bytes, p: nat)
    requires p <= |s|
    ensures ParseValue(s, p, true).Err?
  {
  }
}
