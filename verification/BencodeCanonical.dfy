/** Exactly when printing a decoded value gives back the bytes it was read from, and what that
    means for the info-hash of BEP 3 (section "trackers"). */
module BencodeCanonical {
  import Lex
  import opened Decimal
  import opened BencodeCodec
  import opened BencodeTheory
  import opened Optional

  // ---------------------------------------------------------------------------
  // Canonical text is printed back unchanged
  // ---------------------------------------------------------------------------

  lemma NumeralReprint(text: Bytes)
    requires PlainNumeral(text)
    ensures Ascii(Digits(ValueOf(DigitsIn(text)))) == text
    ensures text[0] != ZERO ==> ValueOf(DigitsIn(text)) > 0
  {
    DigitsOfValue(DigitsIn(text));
  }

  lemma PlainIntegerReprint(text: Bytes)
    requires PlainInteger(text)
    ensures IsIntegerText(text) && IntegerText(IntegerValue(text)) == text
  {
    hide ValueOf, Digits, DigitsIn, Ascii;
    if text[0] == MINUS {
      NumeralReprint(text[1..]);
      assert text == [MINUS] + text[1..];
    } else {
      NumeralReprint(text);
    }
  }

  lemma SliceAround(data: Bytes, i: nat, at: nat, j: nat)
    requires i <= at < j <= |data|
    ensures data[i..j] == data[i..at] + [data[at]] + data[at + 1..j]
  {
  }

  lemma IntegerFacts(data: Bytes, i: nat)
    requires i < |data| && data[i] == LOWER_I && Decode(data, i).Ok? && CanonicalAt(data, i)
    ensures var end := Find(data, LOWER_E, i);
            && i < end < |data| && data[end] == LOWER_E && PlainInteger(data[i + 1..end])
            && IsIntegerText(data[i + 1..end])
            && Decode(data, i) == Ok(Int(IntegerValue(data[i + 1..end])), end + 1)
            && Encode(Decode(data, i).value) == [LOWER_I] + IntegerText(IntegerValue(data[i + 1..end])) + [LOWER_E]
  {
    hide IntegerText, IntegerValue;
  }

  lemma IntegerReprint(data: Bytes, i: nat)
    requires i < |data| && data[i] == LOWER_I && Decode(data, i).Ok? && CanonicalAt(data, i)
    ensures Encode(Decode(data, i).value) == data[i..Decode(data, i).next]
  {
    hide *;
    IntegerFacts(data, i);
    var end := Find(data, LOWER_E, i);
    PlainIntegerReprint(data[i + 1..end]);
    SliceAround(data, i, i, end + 1);
    SliceAround(data, i + 1, end, end + 1);
  }

  lemma StringFacts(data: Bytes, i: nat)
    requires i < |data| && IsDigit(data[i]) && Decode(data, i).Ok? && CanonicalAt(data, i)
    ensures var colon := Find(data, COLON, i);
            && i < colon < |data| && data[colon] == COLON && PlainNumeral(data[i..colon])
            && Decode(data, i).next == colon + 1 + ValueOf(DigitsIn(data[i..colon]))
            && Decode(data, i).value == Str(data[colon + 1..Decode(data, i).next])
  {
    hide ValueOf, DigitsIn;
  }

  lemma StringReprint(data: Bytes, i: nat)
    requires i < |data| && IsDigit(data[i]) && Decode(data, i).Ok? && CanonicalAt(data, i)
    ensures Encode(Decode(data, i).value) == data[i..Decode(data, i).next]
  {
    hide Decode, CanonicalAt, Find, Ascii, Digits, DigitsIn, ValueOf, PlainNumeral, Encode;
    StringFacts(data, i);
    var colon := Find(data, COLON, i);
    var s := data[colon + 1..Decode(data, i).next];
    NumeralReprint(data[i..colon]);
    EncodeStringIsEncode(s);
    assert |s| == ValueOf(DigitsIn(data[i..colon]));
    SliceAround(data, i, colon, Decode(data, i).next);
  }

  lemma {:induction false} EncodeItemsAppend(items: seq<Value>, v: Value)
    ensures EncodeItems(items + [v]) == EncodeItems(items) + Encode(v)
  {
    if items == [] {
      assert EncodeItems([v]) == Encode(v) + EncodeItems([]);
      assert items + [v] == [v];
    } else {
      assert (items + [v])[1..] == items[1..] + [v];
      EncodeItemsAppend(items[1..], v);
    }
  }

  lemma {:induction false} SortKeysAppend(keys: set<Bytes>, k: Bytes)
    requires forall other: Bytes :: other in keys ==> Lex.Less(other, k)
    ensures SortKeys(keys + {k}) == SortKeys(keys) + [k]
  {
    hide Lex.Less;
    Lex.Trichotomy(k, k);
    LeastIsFirst(keys + {k});
    if keys == {} {
      assert keys + {k} == {k};
      assert {k} - {k} == {};
      assert SortKeys({}) == [];
    } else {
      LeastIsFirst(keys);
      var least := SortKeys(keys)[0];
      Lex.Trichotomy(least, k);
      assert IsLeast(least, keys + {k});
      LeastIsUnique(keys + {k}, least, SortKeys(keys + {k})[0]);
      assert (keys + {k}) - {least} == (keys - {least}) + {k};
      SortKeysAppend(keys - {least}, k);
    }
  }

  lemma LeastIsFirst(keys: set<Bytes>)
    requires keys != {}
    ensures var ks := SortKeys(keys);
            ks != [] && IsLeast(ks[0], keys) && ks == [ks[0]] + SortKeys(keys - {ks[0]})
  {
    LeastExists(keys);
    var k: Bytes :| IsLeast(k, keys) && SortKeys(keys) == [k] + SortKeys(keys - {k});
  }

  lemma LeastIsUnique(keys: set<Bytes>, a: Bytes, b: Bytes)
    requires IsLeast(a, keys) && IsLeast(b, keys)
    ensures a == b
  {
    Lex.Trichotomy(a, b);
  }

  /** The text between the `d` and the `e` of a dictionary. */
  ghost function Body(entries: map<Bytes, Value>): Bytes {
    EncodeEntries(Dict(entries), SortKeys(entries.Keys))
  }

  lemma {:induction false} EncodeEntriesAppend(v: Value, ks: seq<Bytes>, k: Bytes)
    requires KeysOf(v, ks + [k]) && KeysOf(v, ks) && k in v.entries
    ensures EncodeEntries(v, ks + [k]) == EncodeEntries(v, ks) + EncodeString(k) + Encode(v.entries[k])
  {
    hide Encode, EncodeString;
    if ks == [] {
      assert ks + [k] == [k] && [k][1..] == [];
    } else {
      assert (ks + [k])[1..] == ks[1..] + [k];
      EncodeEntriesAppend(v, ks[1..], k);
    }
  }

  lemma {:induction false} EncodeEntriesAgree(v: Value, w: Value, ks: seq<Bytes>)
    requires KeysOf(v, ks) && KeysOf(w, ks)
    requires forall k :: k in ks ==> v.entries[k] == w.entries[k]
    ensures EncodeEntries(v, ks) == EncodeEntries(w, ks)
  {
    hide Encode, EncodeString;
    if ks != [] {
      assert ks[0] in ks;
      EncodeEntriesAgree(v, w, ks[1..]);
    }
  }

  lemma BodyAppend(entries: map<Bytes, Value>, k: Bytes, v: Value)
    requires forall other: Bytes :: other in entries ==> Lex.Less(other, k)
    ensures Body(entries[k := v]) == Body(entries) + EncodeString(k) + Encode(v)
  {
    hide Encode, EncodeString, EncodeEntries, SortKeys;
    var more := entries[k := v];
    var ks := SortKeys(entries.Keys);
    SortKeysAppend(entries.Keys, k);
    assert more.Keys == entries.Keys + {k};
    Lex.Trichotomy(k, k);
    EncodeEntriesAppend(Dict(more), ks, k);
    EncodeEntriesAgree(Dict(more), Dict(entries), ks);
  }

  ghost predicate Below(entries: map<Bytes, Value>, previous: Option<Bytes>) {
    if previous.None? then entries == map[]
    else forall k: Bytes :: k in entries && k != previous.value ==> Lex.Less(k, previous.value)
  }

  lemma BelowNext(entries: map<Bytes, Value>, previous: Option<Bytes>, k: Bytes, v: Value)
    requires Below(entries, previous)
    requires previous.Some? ==> Lex.Less(previous.value, k)
    ensures forall other: Bytes :: other in entries ==> Lex.Less(other, k)
    ensures Below(entries[k := v], Some(k))
  {
    forall other: Bytes | other in entries
      ensures Lex.Less(other, k)
    {
      if other != previous.value {
        Lex.Transitive(other, previous.value, k);
      }
    }
  }

  /** Canonical text is printed back unchanged. */
  lemma {:induction false} Reprint(data: Bytes, i: nat)
    requires Decode(data, i).Ok? && CanonicalAt(data, i)
    ensures Encode(Decode(data, i).value) == data[i..Decode(data, i).next]
    decreases Left(data, i), 1, 0
  {
    if data[i] == LOWER_I {
      IntegerReprint(data, i);
    } else if IsDigit(data[i]) {
      StringReprint(data, i);
    } else if data[i] == LOWER_L {
      ListReprint(data, i);
    } else {
      DictReprint(data, i);
    }
  }

  lemma {:induction false} ListReprint(data: Bytes, i: nat)
    requires i < |data| && data[i] == LOWER_L && Decode(data, i).Ok? && CanonicalAt(data, i)
    ensures Encode(Decode(data, i).value) == data[i..Decode(data, i).next]
    decreases Left(data, i), 0, 0
  {
    hide DecodeItems, EncodeItems, CanonicalItems;
    ItemsReprint(data, i + 1, []);
    var r := DecodeItems(data, i + 1, []);
    NoItems();
    assert data[i..r.next] == [LOWER_L] + data[i + 1..r.next - 1] + [LOWER_E];
  }

  lemma NoItems()
    ensures EncodeItems([]) == []
  {
  }

  lemma {:induction false} DictReprint(data: Bytes, i: nat)
    requires i < |data| && data[i] == LOWER_D && Decode(data, i).Ok? && CanonicalAt(data, i)
    ensures Encode(Decode(data, i).value) == data[i..Decode(data, i).next]
    decreases Left(data, i), 0, 0
  {
    hide DecodeEntries, EncodeEntries, CanonicalEntries, SortKeys;
    EntriesReprint(data, i + 1, map[], None);
    var r := DecodeEntries(data, i + 1, map[]);
    NoEntries();
    assert data[i..r.next] == [LOWER_D] + data[i + 1..r.next - 1] + [LOWER_E];
  }

  lemma NoEntries()
    ensures Body(map[]) == []
  {
    var none: map<Bytes, Value> := map[];
    assert none.Keys == {} && SortKeys({}) == [];
  }

  /** Text for everything is text for what came before, the next piece, and what follows. */
  lemma Chain(all: Bytes, more: Bytes, before: Bytes, piece: Bytes, data: Bytes, i: nat, k: nat, j: nat)
    requires i <= k <= j <= |data|
    requires more == before + piece && piece == data[i..k] && all == more + data[k..j]
    ensures all == before + data[i..j]
  {
    assert data[i..k] + data[k..j] == data[i..j];
    AddAssociates(before, piece, data[k..j]);
  }

  lemma AddAssociates(a: Bytes, b: Bytes, c: Bytes)
    ensures a + b + c == a + (b + c)
  {
  }

  lemma ItemsUnfold(data: Bytes, i: nat, items: seq<Value>)
    requires DecodeItems(data, i, items).Ok? && CanonicalItems(data, i)
    ensures i < |data|
    ensures data[i] == LOWER_E ==> DecodeItems(data, i, items) == Ok(List(items), i + 1)
    ensures data[i] != LOWER_E ==>
              var item := Decode(data, i);
              && item.Ok? && i < item.next && CanonicalAt(data, i) && CanonicalItems(data, item.next)
              && DecodeItems(data, i, items) == DecodeItems(data, item.next, items + [item.value])
  {
    hide Decode, CanonicalAt;
  }

  lemma {:induction false} ItemsReprint(data: Bytes, i: nat, items: seq<Value>)
    requires DecodeItems(data, i, items).Ok? && CanonicalItems(data, i)
    ensures var r := DecodeItems(data, i, items);
            data[r.next - 1] == LOWER_E && EncodeItems(r.value.items) == EncodeItems(items) + data[i..r.next - 1]
    decreases Left(data, i), 2, 0
  {
    ItemsUnfold(data, i, items);
    hide Decode, Encode, DecodeItems, EncodeItems, CanonicalAt, CanonicalItems;
    var end := DecodeItems(data, i, items).next - 1;
    if data[i] == LOWER_E {
      assert end == i && data[i..end] == [];
    } else {
      var item := Decode(data, i);
      Reprint(data, i);
      ItemsReprint(data, item.next, items + [item.value]);
      EncodeItemsAppend(items, item.value);
      Chain(EncodeItems(DecodeItems(data, i, items).value.items), EncodeItems(items + [item.value]),
            EncodeItems(items), Encode(item.value), data, i, item.next, end);
    }
  }

  lemma {:induction false} EntryReprint(data: Bytes, i: nat)
    requires var e := DecodeEntry(data, i); e.Entry? && CanonicalAt(data, i) && CanonicalAt(data, e.valueAt)
    ensures var e := DecodeEntry(data, i); EncodeString(e.key) + Encode(e.value) == data[i..e.next]
    decreases Left(data, i), 2, 0
  {
    hide Decode, Encode, EncodeString, CanonicalAt;
    var e := DecodeEntry(data, i);
    Reprint(data, i);
    Reprint(data, e.valueAt);
    EncodeStringIsEncode(e.key);
    assert data[i..e.next] == data[i..e.valueAt] + data[e.valueAt..e.next];
  }

  lemma {:induction false} EntriesReprint(data: Bytes, i: nat, entries: map<Bytes, Value>, previous: Option<Bytes>)
    requires DecodeEntries(data, i, entries).Ok? && CanonicalEntries(data, i, previous) && Below(entries, previous)
    ensures var r := DecodeEntries(data, i, entries);
            data[r.next - 1] == LOWER_E && Body(r.value.entries) == Body(entries) + data[i..r.next - 1]
    decreases Left(data, i), 3, 0
  {
    hide DecodeEntry, Encode, EncodeString, CanonicalAt, Below, Body;
    if data[i] == LOWER_E {
      assert data[i..i] == [];
    } else {
      var e := DecodeEntry(data, i);
      BelowNext(entries, previous, e.key, e.value);
      EntryReprint(data, i);
      EntriesReprint(data, e.next, entries[e.key := e.value], Some(e.key));
      BodyAppend(entries, e.key, e.value);
      var after := entries[e.key := e.value];
      AddAssociates(Body(entries), EncodeString(e.key), Encode(e.value));
      Chain(Body(DecodeEntries(data, i, entries).value.entries), Body(after), Body(entries),
            EncodeString(e.key) + Encode(e.value), data, i, e.next, DecodeEntries(data, i, entries).next - 1);
    }
  }

  /** The docstring of `bencode` promises that re-encoding a decoded value reproduces the original
      bytes. It does exactly when those bytes are canonical. */
  lemma ReencodingIsExactOnCanonicalText(data: Bytes, i: nat)
    requires Decode(data, i).Ok?
    ensures CanonicalAt(data, i) <==> Encode(Decode(data, i).value) == data[i..Decode(data, i).next]
  {
    hide Decode, Encode, CanonicalAt;
    var r := Decode(data, i);
    if CanonicalAt(data, i) {
      Reprint(data, i);
    }
    if Encode(r.value) == data[i..r.next] {
      assert i + |Encode(r.value)| == r.next <= |data|;
      RoundTrip(r.value, data, i);
    }
  }

  /** Any accepted input, canonical or not, re-encodes to text that decodes to the same value. */
  lemma ReencodingKeepsTheValue(data: Bytes, i: nat)
    requires Decode(data, i).Ok?
    ensures Decode(Encode(Decode(data, i).value), 0)
            == Ok(Decode(data, i).value, |Encode(Decode(data, i).value)|)
    ensures CanonicalAt(Encode(Decode(data, i).value), 0)
  {
    hide Decode, Encode, CanonicalAt;
    var text := Encode(Decode(data, i).value);
    assert text[0..0 + |text|] == text;
    RoundTrip(Decode(data, i).value, text, 0);
  }

  // ---------------------------------------------------------------------------
  // The info-hash
  // ---------------------------------------------------------------------------

  const INFO: Bytes := [105, 110, 102, 111]

  datatype HashOutcome = Hash(digest: Bytes) | NoHash(error: HashError)

  datatype HashError = Malformed(error: Error) | MissingInfo

  /** `compute_info_hash`, for whatever digest function `sha1` is. */
  ghost function ComputeInfoHash(torrent: Bytes, sha1: Bytes -> Bytes): HashOutcome {
    var metainfo := Decode(torrent, 0);
    if metainfo.Err? then NoHash(Malformed(metainfo.error))
    else if !metainfo.value.Dict? || INFO !in metainfo.value.entries then NoHash(MissingInfo)
    else Hash(sha1(Encode(metainfo.value.entries[INFO])))
  }

  datatype Span = Span(start: nat, end: nat)

  /** Where the value of the last entry for `key` stands in a run of dictionary entries. */
  function LastSpan(data: Bytes, i: nat, key: Bytes, found: Option<Span>): Option<Span>
    decreases Left(data, i)
  {
    if i < |data| && data[i] == LOWER_E then found
    else
      var e := DecodeEntry(data, i);
      if e.NoEntry? then None
      else LastSpan(data, e.next, key, if e.key == key then Some(Span(e.valueAt, e.next)) else found)
  }

  ghost predicate Marks(data: Bytes, key: Bytes, entries: map<Bytes, Value>, found: Option<Span>) {
    (key in entries <==> found.Some?) &&
    (found.Some? ==> Decode(data, found.value.start) == Ok(entries[key], found.value.end))
  }

  lemma EntryValue(data: Bytes, i: nat)
    requires DecodeEntry(data, i).Entry?
    ensures var e := DecodeEntry(data, i); Decode(data, e.valueAt) == Ok(e.value, e.next)
  {
    hide Decode;
  }

  lemma {:induction false} LastSpanIsTheValue(data: Bytes, i: nat, key: Bytes, entries: map<Bytes, Value>,
                                              found: Option<Span>)
    requires DecodeEntries(data, i, entries).Ok? && Marks(data, key, entries, found)
    ensures Marks(data, key, DecodeEntries(data, i, entries).value.entries, LastSpan(data, i, key, found))
    decreases Left(data, i)
  {
    hide Decode, DecodeEntry;
    if data[i] != LOWER_E {
      var e := DecodeEntry(data, i);
      EntryValue(data, i);
      var found' := if e.key == key then Some(Span(e.valueAt, e.next)) else found;
      LastSpanIsTheValue(data, e.next, key, entries[e.key := e.value], found');
    }
  }

  /** The raw bytes of the value of `info` in the top-level dictionary. */
  function InfoSpan(torrent: Bytes): Option<Span> {
    LastSpan(torrent, 1, INFO, None)
  }

  /** A hash comes out exactly when the file is a dictionary with an `info` entry; it is then the
      digest of some encoding of the value that stands in the raw `info` slice; and that encoding is
      the raw slice itself exactly when the slice is canonical, however untidy the rest of the file. */
  lemma {:induction false} InfoHashIsOfTheRawSlice(torrent: Bytes, sha1: Bytes -> Bytes)
    ensures var r := Decode(torrent, 0);
            ComputeInfoHash(torrent, sha1).Hash? <==> r.Ok? && r.value.Dict? && INFO in r.value.entries
    ensures ComputeInfoHash(torrent, sha1).Hash? ==>
              && InfoSpan(torrent).Some?
              && var Span(a, b) := InfoSpan(torrent).value;
              && a < b <= |torrent| && Decode(torrent, a).Ok? && Decode(torrent, a).next == b
              && var hashed := Encode(Decode(torrent, a).value);
              && ComputeInfoHash(torrent, sha1) == Hash(sha1(hashed))
              && (hashed == torrent[a..b] <==> CanonicalAt(torrent, a))
  {
    var r := Decode(torrent, 0);
    if r.Ok? && r.value.Dict? && INFO in r.value.entries {
      TopLevelDict(torrent);
      hide Decode, Encode, CanonicalAt, DecodeEntries;
      LastSpanIsTheValue(torrent, 1, INFO, map[], None);
      var span := InfoSpan(torrent).value;
      ReencodingIsExactOnCanonicalText(torrent, span.start);
    }
  }

  lemma TopLevelDict(torrent: Bytes)
    requires Decode(torrent, 0).Ok? && Decode(torrent, 0).value.Dict?
    ensures Decode(torrent, 0) == DecodeEntries(torrent, 1, map[])
  {
    hide DecodeItems, DecodeEntries;
  }

  /** The file a standards-conforming tool writes: the hash is the digest of the raw `info` bytes. */
  lemma {:induction false} CanonicalTorrentHash(torrent: Bytes, sha1: Bytes -> Bytes)
    requires CanonicalAt(torrent, 0) && ComputeInfoHash(torrent, sha1).Hash?
    ensures InfoSpan(torrent).Some?
    ensures var Span(a, b) := InfoSpan(torrent).value;
            a < b <= |torrent| && ComputeInfoHash(torrent, sha1) == Hash(sha1(torrent[a..b]))
  {
    InfoHashIsOfTheRawSlice(torrent, sha1);
    TopLevelDict(torrent);
    CanonicalTopLevel(torrent);
    LastSpanIsCanonical(torrent, 1, None, INFO, None);
  }

  lemma CanonicalTopLevel(torrent: Bytes)
    requires Decode(torrent, 0).Ok? && Decode(torrent, 0).value.Dict? && CanonicalAt(torrent, 0)
    ensures CanonicalEntries(torrent, 1, None)
  {
    hide DecodeItems, DecodeEntries, CanonicalItems, CanonicalEntries;
  }

  lemma {:induction false} LastSpanIsCanonical(data: Bytes, i: nat, previous: Option<Bytes>, key: Bytes,
                                               found: Option<Span>)
    requires CanonicalEntries(data, i, previous)
    requires found.Some? ==> CanonicalAt(data, found.value.start)
    ensures var last := LastSpan(data, i, key, found); last.Some? ==> CanonicalAt(data, last.value.start)
    decreases Left(data, i)
  {
    hide Decode, DecodeEntry, CanonicalAt;
    if data[i] != LOWER_E {
      var e := DecodeEntry(data, i);
      var found' := if e.key == key then Some(Span(e.valueAt, e.next)) else found;
      LastSpanIsCanonical(data, e.next, Some(e.key), key, found');
    }
  }

  /** The smallest departures: text the decoder accepts and the printer does not give back. */
  lemma LenientInputsAreNotReproduced()
    ensures Decode([LOWER_I, ZERO, ZERO, LOWER_E], 0) == Ok(Int(0), 4)
    ensures !CanonicalAt([LOWER_I, ZERO, ZERO, LOWER_E], 0)
    ensures Encode(Int(0)) != [LOWER_I, ZERO, ZERO, LOWER_E]
  {
    var data := [LOWER_I, ZERO, ZERO, LOWER_E];
    assert Find(data, LOWER_E, 2) == 3;
    assert Find(data, LOWER_E, 0) == 3;
    var text := data[1..3];
    assert text == [ZERO, ZERO] && DigitsIn(text) == [0, 0];
    assert [0, 0][..1] == [0] && [0][..0] == [];
    assert ValueOf([0, 0]) == 0;
    assert |Encode(Int(0))| == 3;
  }

  // ---------------------------------------------------------------------------
  // The examples of BEP 3
  // ---------------------------------------------------------------------------

  const SPAM: Bytes := [115, 112, 97, 109]
  const EGGS: Bytes := [101, 103, 103, 115]
  const COW: Bytes := [99, 111, 119]
  const MOO: Bytes := [109, 111, 111]

  lemma SmallNumbers()
    ensures Digits(3) == [3] && Digits(4) == [4]
  {
  }

  lemma StringExample(s: Bytes, n: digit)
    requires |s| == n
    ensures EncodeString(s) == [48 + n, 58] + s
  {
    assert Digits(n) == [n];
    assert Ascii([n]) == [48 + n];
  }

  /** The standard's examples, byte by byte: 4:spam, i3e, i-3e, l4:spam4:eggse, d3:cow3:moo4:spam4:eggse. */
  lemma {:induction false} StandardExamples()
    ensures Encode(Str(SPAM)) == [52, 58, 115, 112, 97, 109]
    ensures Encode(Int(3)) == [105, 51, 101] && Encode(Int(-3)) == [105, 45, 51, 101]
    ensures Encode(List([Str(SPAM), Str(EGGS)]))
         == [108, 52, 58, 115, 112, 97, 109, 52, 58, 101, 103, 103, 115, 101]
    ensures Encode(Dict(map[SPAM := Str(EGGS), COW := Str(MOO)]))
         == [100, 51, 58, 99, 111, 119, 51, 58, 109, 111, 111,
             52, 58, 115, 112, 97, 109, 52, 58, 101, 103, 103, 115, 101]
  {
    hide *;
    PlainExamples();
    ListBytes();
    DictBytes();
  }

  lemma PlainExamples()
    ensures Encode(Str(SPAM)) == [52, 58, 115, 112, 97, 109]
    ensures Encode(Int(3)) == [105, 51, 101] && Encode(Int(-3)) == [105, 45, 51, 101]
  {
    StringExample(SPAM, 4);
    NumberExamples();
    hide EncodeString, Digits, IntegerText;
  }

  lemma ListBytes()
    ensures Encode(List([Str(SPAM), Str(EGGS)]))
         == [108, 52, 58, 115, 112, 97, 109, 52, 58, 101, 103, 103, 115, 101]
  {
    StringExample(SPAM, 4);
    StringExample(EGGS, 4);
    ListExample();
    var v := List([Str(SPAM), Str(EGGS)]);
    assert Encode(v) == [108] + (EncodeString(SPAM) + EncodeString(EGGS)) + [101];
    hide Encode, EncodeItems, EncodeString;
  }

  lemma DictBytes()
    ensures Encode(Dict(map[SPAM := Str(EGGS), COW := Str(MOO)]))
         == [100, 51, 58, 99, 111, 119, 51, 58, 109, 111, 111,
             52, 58, 115, 112, 97, 109, 52, 58, 101, 103, 103, 115, 101]
  {
    hide Encode, EncodeString, SortKeys;
    StringExample(SPAM, 4);
    StringExample(EGGS, 4);
    StringExample(COW, 3);
    StringExample(MOO, 3);
    DictExample();
  }

  lemma NumberExamples()
    ensures IntegerText(3) == [51] && IntegerText(-3) == [45, 51]
  {
    SmallNumbers();
    assert Ascii([3]) == [51];
  }

  lemma ListExample()
    ensures EncodeItems([Str(SPAM), Str(EGGS)]) == EncodeString(SPAM) + EncodeString(EGGS)
  {
    var items := [Str(SPAM), Str(EGGS)];
    assert items[1..] == [Str(EGGS)] && items[1..][1..] == [];
    assert EncodeItems([Str(EGGS)]) == EncodeString(EGGS) + EncodeItems([]);
  }

  lemma DictExample()
    ensures var v := Dict(map[SPAM := Str(EGGS), COW := Str(MOO)]);
            Encode(v) ==
              [100] + (EncodeString(COW) + EncodeString(MOO) + (EncodeString(SPAM) + EncodeString(EGGS))) + [101]
  {
    var v := Dict(map[SPAM := Str(EGGS), COW := Str(MOO)]);
    var ks := SortKeys(v.entries.Keys);
    assert SPAM in ks && COW in ks;
    assert Lex.Less(COW, SPAM);
    Lex.Trichotomy(COW, SPAM);
    TwoKeys(ks, COW, SPAM);
    var none: seq<Bytes> := [];
    assert ks[1..] == [SPAM] && [SPAM][1..] == none;
    assert EncodeEntries(v, [SPAM]) == EncodeString(SPAM) + EncodeString(EGGS) + EncodeEntries(v, none);
    assert EncodeEntries(v, ks) == EncodeString(COW) + EncodeString(MOO) + EncodeEntries(v, [SPAM]);
  }

  lemma TwoKeys(ks: seq<Bytes>, a: Bytes, b: Bytes)
    requires forall k :: k in ks <==> k == a || k == b
    requires forall i, j :: 0 <= i < j < |ks| ==> Lex.Less(ks[i], ks[j])
    requires Lex.Less(a, b) && !Lex.Less(b, a) && !Lex.Less(a, a) && !Lex.Less(b, b)
    ensures ks == [a, b]
  {
    hide Lex.Less;
    assert a in ks && b in ks;
    assert forall i :: 0 <= i < |ks| ==> ks[i] in ks;
    forall i | 0 <= i < |ks| - 1
      ensures ks[i] == a
    {
      assert Lex.Less(ks[i], ks[i + 1]);
      assert ks[i + 1] == a || ks[i + 1] == b;
    }
    var first, second := ks[0], if |ks| > 1 then ks[1] else b;
    assert |ks| <= 2;
  }

  /** The key of the info-hash spells "info". */
  lemma {:induction false} InfoKeyIsSpelled()
    ensures |INFO| == 4 && forall k :: 0 <= k < 4 ==> INFO[k] == "info"[k] as int
  {
  }
}
