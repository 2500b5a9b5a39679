/** What the decoder and the printer promise each other: locality, truncation, round trip,
    prefix-freeness, and exactly when re-encoding reproduces the input. */
module BencodeTheory {
  import Lex
  import opened Decimal
  import opened BencodeCodec
  import opened Optional

  // ---------------------------------------------------------------------------
  // Locality and truncation, over everything the decoder accepts
  // ---------------------------------------------------------------------------

  /** `other`, shifted by `off`, carries the same bytes as `data` on [i, j). */
  ghost predicate Agree(data: Bytes, i: nat, j: nat, other: Bytes, off: int) {
    && i <= j <= |data| && 0 <= i + off && j + off <= |other|
    && forall k {:trigger data[k]} :: i <= k < j ==> data[k] == other[k + off]
  }

  lemma FindLocal(data: Bytes, b: byte, i: nat, j: nat, other: Bytes, off: int)
    requires Agree(data, i, j, other, off)
    requires i <= Find(data, b, i) < j
    ensures Find(other, b, i + off) == Find(data, b, i) + off
  {
    var at := Find(data, b, i);
    assert other[at + off] == data[at];
    forall k | i + off <= k < at + off
      ensures other[k] != b
    {
      assert data[k - off] == other[k - off + off];
    }
  }

  lemma IntegerLocal(data: Bytes, i: nat, other: Bytes, off: int)
    requires i < |data| && data[i] == LOWER_I && DecodeInteger(data, i).Ok?
    requires Agree(data, i, DecodeInteger(data, i).next, other, off)
    ensures other[i + off] == LOWER_I
    ensures var r := DecodeInteger(data, i); DecodeInteger(other, i + off) == Ok(r.value, r.next + off)
  {
    FindLocal(data, LOWER_E, i, DecodeInteger(data, i).next, other, off);
    var end := Find(data, LOWER_E, i);
    assert data[i] == other[i + off];
    assert data[i + 1..end] == other[i + off + 1..end + off];
  }

  lemma StringLocal(data: Bytes, i: nat, other: Bytes, off: int)
    requires i < |data| && IsDigit(data[i]) && DecodeString(data, i).Ok?
    requires Agree(data, i, DecodeString(data, i).next, other, off)
    ensures IsDigit(other[i + off])
    ensures var r := DecodeString(data, i); DecodeString(other, i + off) == Ok(r.value, r.next + off)
  {
    var j := DecodeString(data, i).next;
    FindLocal(data, COLON, i, j, other, off);
    var colon := Find(data, COLON, i);
    assert data[i] == other[i + off];
    assert data[i..colon] == other[i + off..colon + off];
    assert data[colon + 1..j] == other[colon + off + 1..j + off];
  }

  /** A successful decode looks at nothing outside the bytes it consumes. */
  lemma {:induction false} Locality(data: Bytes, i: nat, other: Bytes, off: int)
    requires Decode(data, i).Ok?
    requires Agree(data, i, Decode(data, i).next, other, off)
    ensures Decode(other, i + off) == Ok(Decode(data, i).value, Decode(data, i).next + off)
    decreases Left(data, i), 0
  {
    assert data[i] == other[i + off];
    if data[i] == LOWER_I {
      IntegerLocal(data, i, other, off);
    } else if IsDigit(data[i]) {
      StringLocal(data, i, other, off);
    } else if data[i] == LOWER_L {
      LocalityItems(data, i + 1, [], other, off);
    } else {
      LocalityEntries(data, i + 1, map[], other, off);
    }
  }

  lemma {:induction false} LocalityItems(data: Bytes, i: nat, items: seq<Value>, other: Bytes, off: int)
    requires DecodeItems(data, i, items).Ok?
    requires Agree(data, i, DecodeItems(data, i, items).next, other, off)
    ensures var r := DecodeItems(data, i, items);
            DecodeItems(other, i + off, items) == Ok(r.value, r.next + off)
    decreases Left(data, i), 1
  {
    assert data[i] == other[i + off];
    if data[i] != LOWER_E {
      hide Decode;
      var item := Decode(data, i);
      Locality(data, i, other, off);
      LocalityItems(data, item.next, items + [item.value], other, off);
    }
  }

  lemma {:induction false} LocalityEntry(data: Bytes, i: nat, other: Bytes, off: int)
    requires DecodeEntry(data, i).Entry?
    requires Agree(data, i, DecodeEntry(data, i).next, other, off)
    ensures var e := DecodeEntry(data, i);
            DecodeEntry(other, i + off) == Entry(e.key, e.valueAt + off, e.value, e.next + off)
    decreases Left(data, i), 1
  {
    hide Decode;
    Locality(data, i, other, off);
    Locality(data, Decode(data, i).next, other, off);
  }

  lemma {:induction false} LocalityEntries(data: Bytes, i: nat, entries: map<Bytes, Value>, other: Bytes, off: int)
    requires DecodeEntries(data, i, entries).Ok?
    requires Agree(data, i, DecodeEntries(data, i, entries).next, other, off)
    ensures var r := DecodeEntries(data, i, entries);
            DecodeEntries(other, i + off, entries) == Ok(r.value, r.next + off)
    decreases Left(data, i), 2
  {
    hide DecodeEntry;
    assert data[i] == other[i + off];
    if data[i] != LOWER_E {
      var e := DecodeEntry(data, i);
      LocalityEntry(data, i, other, off);
      LocalityEntries(data, e.next, entries[e.key := e.value], other, off);
    }
  }

  /** Input cut anywhere before the end of a value is rejected: never a different value. */
  lemma Truncation(data: Bytes, i: nat, cut: nat)
    requires Decode(data, i).Ok? && cut < Decode(data, i).next
    ensures Decode(data[..cut], i).Err?
  {
    if Decode(data[..cut], i).Ok? {
      Locality(data[..cut], i, data, 0);
    }
  }

  /** The accepted language is prefix-free: no accepted text is a proper prefix of another. */
  lemma PrefixFree(a: Bytes, b: Bytes)
    requires Decode(a, 0).Ok? && Decode(a, 0).next == |a|
    requires Decode(b, 0).Ok? && Decode(b, 0).next == |b|
    requires a <= b
    ensures a == b
  {
    Locality(a, 0, b, 0);
  }

  // ---------------------------------------------------------------------------
  // Canonical text, defined on the bytes
  // ---------------------------------------------------------------------------

  /** No superfluous leading zero in a numeral. */
  predicate PlainNumeral(text: Bytes) {
    IsNumeral(text) && (|text| > 1 ==> text[0] != ZERO)
  }

  /** No leading zero, and no minus zero. */
  predicate PlainInteger(text: Bytes) {
    text != [] &&
    if text[0] == MINUS then PlainNumeral(text[1..]) && text[1] != ZERO else PlainNumeral(text)
  }

  /** The value text at `i` is canonical: plain integers, plain lengths, strictly ascending keys. */
  predicate CanonicalAt(data: Bytes, i: nat)
    decreases Left(data, i), 0
  {
    i < |data| &&
    if data[i] == LOWER_I then
      Find(data, LOWER_E, i) != -1 && PlainInteger(data[i + 1..Find(data, LOWER_E, i)])
    else if IsDigit(data[i]) then
      Find(data, COLON, i) != -1 && PlainNumeral(data[i..Find(data, COLON, i)])
    else if data[i] == LOWER_L then CanonicalItems(data, i + 1)
    else data[i] == LOWER_D && CanonicalEntries(data, i + 1, None)
  }

  predicate CanonicalItems(data: Bytes, i: nat)
    decreases Left(data, i), 1
  {
    i < |data| &&
    (data[i] == LOWER_E ||
     (CanonicalAt(data, i) && Decode(data, i).Ok? && CanonicalItems(data, Decode(data, i).next)))
  }

  predicate CanonicalEntries(data: Bytes, i: nat, previous: Option<Bytes>)
    decreases Left(data, i), 1
  {
    i < |data| &&
    (data[i] == LOWER_E ||
     (var e := DecodeEntry(data, i);
      && e.Entry? && CanonicalAt(data, i) && CanonicalAt(data, e.valueAt)
      && (previous.Some? ==> Lex.Less(previous.value, e.key))
      && CanonicalEntries(data, e.next, Some(e.key))))
  }

  // ---------------------------------------------------------------------------
  // Round trip
  // ---------------------------------------------------------------------------

  /** `text` stands in `data` at `i`. */
  ghost predicate Holds(data: Bytes, i: nat, text: Bytes) {
    i + |text| <= |data| && data[i..i + |text|] == text
  }

  lemma HoldsSplit(data: Bytes, i: nat, left: Bytes, right: Bytes)
    requires Holds(data, i, left + right)
    ensures Holds(data, i, left) && Holds(data, i + |left|, right)
  {
    var whole := left + right;
    assert data[i..i + |left|] == whole[..|left|] == left;
    assert data[i + |left|..i + |whole|] == whole[|left|..] == right;
  }

  lemma FindAfter(data: Bytes, b: byte, i: nat, text: Bytes)
    requires Holds(data, i, text + [b])
    requires forall k :: 0 <= k < |text| ==> text[k] != b
    ensures Find(data, b, i) == i + |text|
  {
    HoldsSplit(data, i, text, [b]);
    assert data[i + |text|] == data[i + |text|..i + |text| + 1][0];
    forall k | i <= k < i + |text|
      ensures data[k] != b
    {
      assert data[k] == data[i..i + |text|][k - i];
    }
  }

  lemma PlainDigits(n: nat)
    ensures PlainNumeral(Ascii(Digits(n)))
    ensures n > 0 ==> Ascii(Digits(n))[0] != ZERO
  {
  }

  lemma DelimitedParts(text: Bytes, b: byte, rest: Bytes, data: Bytes, i: nat)
    requires text != [] && forall k :: 0 <= k < |text| ==> text[k] != b
    requires Holds(data, i, text + [b] + rest)
    ensures var at := i + |text|;
            && at + 1 + |rest| <= |data| && Find(data, b, i) == at
            && data[i] == text[0] && data[i..at] == text && data[at + 1..at + 1 + |rest|] == rest
  {
    HoldsSplit(data, i, text + [b], rest);
    HoldsSplit(data, i, text, [b]);
    FindAfter(data, b, i, text);
    assert data[i] == data[i..i + |text|][0];
  }

  lemma StringRoundTrip(s: Bytes, data: Bytes, i: nat)
    requires Holds(data, i, EncodeString(s))
    ensures Decode(data, i) == Ok(Str(s), i + |EncodeString(s)|)
    ensures CanonicalAt(data, i)
  {
    DelimitedParts(Ascii(Digits(|s|)), COLON, s, data, i);
    PlainDigits(|s|);
    assert IsDigit(data[i]);
    assert DecodeString(data, i) == Ok(Str(s), i + |EncodeString(s)|);
  }

  lemma IntegerParts(n: int, data: Bytes, i: nat)
    requires Holds(data, i, Encode(Int(n)))
    ensures var text := IntegerText(n);
            var end := i + 1 + |text|;
            && end < |data| && Find(data, LOWER_E, i) == end
            && data[i] == LOWER_I && data[i + 1..end] == text
  {
    hide IntegerText, Find;
    var text := IntegerText(n);
    assert [LOWER_I] + text + [LOWER_E] == ([LOWER_I] + text) + [LOWER_E];
    FindAfter(data, LOWER_E, i, [LOWER_I] + text);
    HoldsSplit(data, i, [LOWER_I] + text, [LOWER_E]);
    HoldsSplit(data, i, [LOWER_I], text);
    assert data[i] == data[i..i + 1][0];
  }

  lemma PlainIntegerText(n: int)
    ensures PlainInteger(IntegerText(n))
  {
    PlainDigits(if n < 0 then -n else n);
    if n < 0 {
      assert IntegerText(n)[1..] == Ascii(Digits(-n));
    }
  }

  lemma IntegerReads(n: int, data: Bytes, i: nat)
    requires Holds(data, i, Encode(Int(n)))
    ensures i < |data| && data[i] == LOWER_I && DecodeInteger(data, i) == Ok(Int(n), i + 2 + |IntegerText(n)|)
    ensures Find(data, LOWER_E, i) != -1 && i + 1 <= Find(data, LOWER_E, i) <= |data|
    ensures PlainInteger(data[i + 1..Find(data, LOWER_E, i)])
  {
    hide *;
    IntegerParts(n, data, i);
    PlainIntegerText(n);
    FoundIntegerReads(data, i, i + 1 + |IntegerText(n)|, n);
  }

  lemma FoundIntegerReads(data: Bytes, i: nat, end: nat, n: int)
    requires i < |data| && data[i] == LOWER_I && i + 1 <= end < |data| && Find(data, LOWER_E, i) == end
    requires data[i + 1..end] == IntegerText(n)
    ensures DecodeInteger(data, i) == Ok(Int(n), end + 1)
  {
    hide Find, IntegerValue, IsIntegerText, IntegerText;
  }

  lemma IntegerRoundTrip(n: int, data: Bytes, i: nat)
    requires Holds(data, i, Encode(Int(n)))
    ensures Decode(data, i) == Ok(Int(n), i + |Encode(Int(n))|)
    ensures CanonicalAt(data, i)
  {
    IntegerReads(n, data, i);
    assert |Encode(Int(n))| == 2 + |IntegerText(n)|;
    hide Holds, Find, IntegerText, PlainInteger, DecodeInteger, DecodeItems, DecodeEntries, CanonicalItems,
         CanonicalEntries,
         Encode;
  }

  lemma NeverStartsWithEnd(v: Value)
    ensures Encode(v)[0] != LOWER_E
  {
    if v.Str? {
      var text := Ascii(Digits(|v.s|));
      assert IsDigit(text[0]);
      assert EncodeString(v.s)[0] == text[0];
    }
  }

  lemma ContainerParts(open: byte, body: Bytes, data: Bytes, i: nat)
    requires Holds(data, i, [open] + body + [LOWER_E])
    ensures data[i] == open && Holds(data, i + 1, body + [LOWER_E])
  {
    assert [open] + body + [LOWER_E] == [open] + (body + [LOWER_E]);
    HoldsSplit(data, i, [open], body + [LOWER_E]);
    assert data[i] == data[i..i + 1][0];
  }

  /** A piece that does not start with `e`, then more, then the closing `e`. */
  lemma BodyParts(first: Bytes, rest: Bytes, data: Bytes, i: nat)
    requires first != [] && first[0] != LOWER_E
    requires Holds(data, i, first + rest + [LOWER_E])
    ensures data[i] != LOWER_E && Holds(data, i, first) && Holds(data, i + |first|, rest + [LOWER_E])
  {
    assert first + rest + [LOWER_E] == first + (rest + [LOWER_E]);
    HoldsSplit(data, i, first, rest + [LOWER_E]);
    assert data[i] == data[i..i + |first|][0];
  }

  lemma EndOfBody(data: Bytes, i: nat)
    requires Holds(data, i, [] + [LOWER_E])
    ensures i < |data| && data[i] == LOWER_E
  {
    assert data[i] == data[i..i + 1][0];
  }

  /** Decoding the text of `v` in any surroundings gives back exactly `v` and stops exactly behind
      it; and the text is canonical. */
  lemma {:induction false} RoundTrip(v: Value, data: Bytes, i: nat)
    requires Holds(data, i, Encode(v))
    ensures Decode(data, i) == Ok(v, i + |Encode(v)|)
    ensures CanonicalAt(data, i)
    decreases v, 2, 0
  {
    match v
    case Int(n) => IntegerRoundTrip(n, data, i);
    case Str(s) => StringRoundTrip(s, data, i);
    case List(items) =>
      ListRoundTrip(items, data, i);
    case Dict(entries) =>
      DictRoundTrip(v, data, i);
  }

  lemma {:induction false} ListRoundTrip(items: seq<Value>, data: Bytes, i: nat)
    requires Holds(data, i, Encode(List(items)))
    ensures Decode(data, i) == Ok(List(items), i + |Encode(List(items))|)
    ensures CanonicalAt(data, i)
    decreases items, 1, 0
  {
    hide DecodeItems, EncodeItems, Holds, CanonicalItems;
    ContainerParts(LOWER_L, EncodeItems(items), data, i);
    RoundTripItems(items, [], data, i + 1);
    assert [] + items == items;
  }

  lemma {:induction false} DictRoundTrip(v: Value, data: Bytes, i: nat)
    requires v.Dict? && Holds(data, i, Encode(v))
    ensures Decode(data, i) == Ok(v, i + |Encode(v)|)
    ensures CanonicalAt(data, i)
    decreases v, 1, 0
  {
    hide DecodeEntries, EncodeEntries, SortKeys, Holds, CanonicalEntries;
    var ks := SortKeys(v.entries.Keys);
    ContainerParts(LOWER_D, EncodeEntries(v, ks), data, i);
    SortedIsAscending(ks, None);
    assert Without(v, ks) == map[];
    RoundTripEntries(v, ks, None, data, i + 1);
  }

  lemma ItemsEnd(items: seq<Value>, before: seq<Value>, data: Bytes, i: nat)
    requires items == [] && Holds(data, i, EncodeItems(items) + [LOWER_E])
    ensures DecodeItems(data, i, before) == Ok(List(before + items), i + |EncodeItems(items)| + 1)
    ensures CanonicalItems(data, i)
  {
    EndOfBody(data, i);
    assert before + items == before;
  }

  lemma ItemsParts(items: seq<Value>, data: Bytes, i: nat)
    requires items != [] && Holds(data, i, EncodeItems(items) + [LOWER_E])
    ensures var first := Encode(items[0]);
            && i < |data| && data[i] != LOWER_E && Holds(data, i, first)
            && Holds(data, i + |first|, EncodeItems(items[1..]) + [LOWER_E])
            && |EncodeItems(items)| == |first| + |EncodeItems(items[1..])|
  {
    hide Encode, Holds;
    NeverStartsWithEnd(items[0]);
    BodyParts(Encode(items[0]), EncodeItems(items[1..]), data, i);
  }

  lemma ItemsStep(data: Bytes, i: nat, before: seq<Value>, r: Outcome)
    requires i < |data| && data[i] != LOWER_E && Decode(data, i).Ok? && CanonicalAt(data, i)
    requires DecodeItems(data, Decode(data, i).next, before + [Decode(data, i).value]) == r
    requires CanonicalItems(data, Decode(data, i).next)
    ensures DecodeItems(data, i, before) == r && CanonicalItems(data, i)
  {
  }

  lemma {:induction false} RoundTripItems(items: seq<Value>, before: seq<Value>, data: Bytes, i: nat)
    requires Holds(data, i, EncodeItems(items) + [LOWER_E])
    ensures DecodeItems(data, i, before) == Ok(List(before + items), i + |EncodeItems(items)| + 1)
    ensures CanonicalItems(data, i)
    decreases items, 0, 0
  {
    hide *;
    if items == [] {
      ItemsEnd(items, before, data, i);
    } else {
      ItemsParts(items, data, i);
      RoundTrip(items[0], data, i);
      RoundTripItems(items[1..], before + [items[0]], data, i + |Encode(items[0])|);
      assert before + [items[0]] + items[1..] == before + items;
      ItemsStep(data, i, before, Ok(List(before + items), i + |EncodeItems(items)| + 1));
    }
  }

  /** The entries of `v` whose keys are not still to come. */
  ghost function Without(v: Value, ks: seq<Bytes>): map<Bytes, Value>
    requires v.Dict?
  {
    map k | k in v.entries && k !in ks :: v.entries[k]
  }

  ghost predicate Ascending(ks: seq<Bytes>, previous: Option<Bytes>) {
    ks == [] ||
    ((previous.Some? ==> Lex.Less(previous.value, ks[0])) && Ascending(ks[1..], Some(ks[0])))
  }

  lemma {:induction false} SortedIsAscending(ks: seq<Bytes>, previous: Option<Bytes>)
    requires forall a, b :: 0 <= a < b < |ks| ==> Lex.Less(ks[a], ks[b])
    requires previous.Some? && ks != [] ==> Lex.Less(previous.value, ks[0])
    ensures Ascending(ks, previous)
  {
    if ks != [] {
      SortedIsAscending(ks[1..], Some(ks[0]));
    }
  }

  lemma {:induction false} AscendingIsAbove(ks: seq<Bytes>, below: Bytes)
    requires Ascending(ks, Some(below))
    ensures below !in ks
    ensures forall k :: k in ks ==> Lex.Less(below, k)
  {
    Lex.Trichotomy(below, below);
    if ks != [] {
      AscendingIsAbove(ks[1..], ks[0]);
      forall k | k in ks
        ensures Lex.Less(below, k)
      {
        if k != ks[0] {
          Lex.Transitive(below, ks[0], k);
        }
      }
    }
  }

  lemma TakeEntry(v: Value, ks: seq<Bytes>, previous: Option<Bytes>)
    requires KeysOf(v, ks) && Ascending(ks, previous) && ks != [] && ks[0] in v.entries
    ensures Without(v, ks)[ks[0] := v.entries[ks[0]]] == Without(v, ks[1..])
    ensures KeysOf(v, ks[1..])
  {
    AscendingIsAbove(ks[1..], ks[0]);
  }

  lemma {:induction false} RoundTripEntry(key: Bytes, v: Value, data: Bytes, i: nat)
    requires Holds(data, i, EncodeString(key) + Encode(v))
    ensures DecodeEntry(data, i) == Entry(key, i + |EncodeString(key)|, v, i + |EncodeString(key) + Encode(v)|)
    ensures CanonicalAt(data, i) && CanonicalAt(data, i + |EncodeString(key)|)
    decreases v, 3, 0
  {
    hide Decode, Encode, EncodeString, CanonicalAt, Holds;
    HoldsSplit(data, i, EncodeString(key), Encode(v));
    StringRoundTrip(key, data, i);
    RoundTrip(v, data, i + |EncodeString(key)|);
  }

  lemma EntriesStep(data: Bytes, i: nat, entries: map<Bytes, Value>, previous: Option<Bytes>, r: Outcome)
    requires i < |data| && data[i] != LOWER_E && DecodeEntry(data, i).Entry?
    requires CanonicalAt(data, i) && CanonicalAt(data, DecodeEntry(data, i).valueAt)
    requires var e := DecodeEntry(data, i);
             && (previous.Some? ==> Lex.Less(previous.value, e.key))
             && DecodeEntries(data, e.next, entries[e.key := e.value]) == r
             && CanonicalEntries(data, e.next, Some(e.key))
    ensures DecodeEntries(data, i, entries) == r
    ensures CanonicalEntries(data, i, previous)
  {
  }

  lemma EntriesEnd(v: Value, ks: seq<Bytes>, data: Bytes, i: nat, previous: Option<Bytes>)
    requires KeysOf(v, ks) && ks == []
    requires Holds(data, i, EncodeEntries(v, ks) + [LOWER_E])
    ensures DecodeEntries(data, i, Without(v, ks)) == Ok(v, i + |EncodeEntries(v, ks)| + 1)
    ensures CanonicalEntries(data, i, previous)
  {
    EndOfBody(data, i);
    assert Without(v, ks) == v.entries;
  }

  lemma EntriesParts(v: Value, ks: seq<Bytes>, previous: Option<Bytes>, data: Bytes, i: nat)
    requires KeysOf(v, ks) && Ascending(ks, previous) && ks != []
    requires Holds(data, i, EncodeEntries(v, ks) + [LOWER_E])
    ensures v.Dict? && ks[0] in v.entries && KeysOf(v, ks[1..]) && Ascending(ks[1..], Some(ks[0]))
    ensures previous.Some? ==> Lex.Less(previous.value, ks[0])
    ensures Without(v, ks)[ks[0] := v.entries[ks[0]]] == Without(v, ks[1..])
    ensures var first := EncodeString(ks[0]) + Encode(v.entries[ks[0]]);
            && i < |data| && data[i] != LOWER_E && Holds(data, i, first)
            && Holds(data, i + |first|, EncodeEntries(v, ks[1..]) + [LOWER_E])
            && |EncodeEntries(v, ks)| == |first| + |EncodeEntries(v, ks[1..])|
  {
    hide Encode, EncodeString, Holds, Without;
    assert ks[0] in v.entries;
    var text, rest := Encode(v.entries[ks[0]]), EncodeEntries(v, ks[1..]);
    NeverStartsWithEnd(Str(ks[0]));
    EncodeStringIsEncode(ks[0]);
    BodyParts(EncodeString(ks[0]) + text, rest, data, i);
    TakeEntry(v, ks, previous);
  }

  lemma EncodeStringIsEncode(s: Bytes)
    ensures EncodeString(s) == Encode(Str(s))
  {
  }

  lemma {:induction false} RoundTripEntries(v: Value, ks: seq<Bytes>, previous: Option<Bytes>, data: Bytes, i: nat)
    requires KeysOf(v, ks) && Ascending(ks, previous)
    requires Holds(data, i, EncodeEntries(v, ks) + [LOWER_E])
    ensures DecodeEntries(data, i, Without(v, ks)) == Ok(v, i + |EncodeEntries(v, ks)| + 1)
    ensures CanonicalEntries(data, i, previous)
    decreases v, 0, |ks|
  {
    hide *;
    if ks == [] {
      EntriesEnd(v, ks, data, i, previous);
    } else {
      EntriesParts(v, ks, previous, data, i);
      var key, value := ks[0], v.entries[ks[0]];
      var next := i + |EncodeString(key) + Encode(value)|;
      RoundTripEntry(key, value, data, i);
      RoundTripEntries(v, ks[1..], Some(key), data, next);
      EntriesStep(data, i, Without(v, ks), previous, Ok(v, i + |EncodeEntries(v, ks)| + 1));
    }
  }

  /** Round trip with anything in front and anything behind. */
  lemma RoundTripInContext(v: Value, prefix: Bytes, suffix: Bytes)
    ensures Decode(prefix + Encode(v) + suffix, |prefix|) == Ok(v, |prefix| + |Encode(v)|)
  {
    hide Decode, Encode;
    var data := prefix + Encode(v) + suffix;
    assert Holds(data, |prefix|, Encode(v));
    RoundTrip(v, data, |prefix|);
  }

  /** Encodings are uniquely readable: equal streams start with equal values and continue equally. */
  lemma UniquelyReadable(v: Value, w: Value, afterV: Bytes, afterW: Bytes)
    requires Encode(v) + afterV == Encode(w) + afterW
    ensures v == w && afterV == afterW
  {
    var data := Encode(v) + afterV;
    assert Holds(data, 0, Encode(v)) && Holds(data, 0, Encode(w));
    RoundTrip(v, data, 0);
    RoundTrip(w, data, 0);
    assert afterV == (Encode(v) + afterV)[|Encode(v)|..];
    assert afterW == (Encode(w) + afterW)[|Encode(w)|..];
  }
}
