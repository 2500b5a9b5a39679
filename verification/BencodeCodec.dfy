/** The bencode codec of BEP 3 (section "bencoding") as torrent_scrape.py implements it:
    a lenient index-passing decoder and a printer that sorts dictionary keys. */
module BencodeCodec {
  import Lex
  import opened Decimal

  type byte = b: int | 0 <= b < 256
  type Bytes = seq<byte>

  const MINUS: byte := 45
  const ZERO: byte := 48
  const COLON: byte := 58
  const LOWER_D: byte := 100
  const LOWER_E: byte := 101
  const LOWER_I: byte := 105
  const LOWER_L: byte := 108

  /** A Python dict is a map here: dict equality ignores insertion order, and the printer sorts. */
  datatype Value =
    | Int(i: int)
    | Str(s: Bytes)
    | List(items: seq<Value>)
    | Dict(entries: map<Bytes, Value>)

  datatype Error =
    | UnexpectedEnd(at: nat)
    | UnterminatedInteger(at: nat)
    | InvalidInteger(at: nat)
    | LengthWithoutColon(at: nat)
    | InvalidLength(at: nat)
    | TruncatedString(at: nat)
    | KeyIsNotAString
    | InvalidPrefix(at: nat)

  datatype Outcome = Ok(value: Value, next: nat) | Err(error: Error)

  /** A dictionary entry; its value text starts at `valueAt`. */
  datatype EntryOutcome = Entry(key: Bytes, valueAt: nat, value: Value, next: nat) | NoEntry(error: Error)

  // ---------------------------------------------------------------------------
  // Decimal text
  // ---------------------------------------------------------------------------

  predicate IsDigit(b: byte) { ZERO <= b < ZERO + 10 }

  /** `bytes.isdigit()`: one or more ASCII digits. */
  predicate IsNumeral(text: Bytes) {
    text != [] && forall k :: 0 <= k < |text| ==> IsDigit(text[k])
  }

  function DigitsIn(text: Bytes): (ds: seq<digit>)
    requires IsNumeral(text)
    ensures |ds| == |text|
    ensures forall k :: 0 <= k < |text| ==> ds[k] == text[k] - ZERO
  {
    seq(|text|, k requires 0 <= k < |text| => assert IsDigit(text[k]); text[k] - ZERO)
  }

  function Ascii(ds: seq<digit>): (text: Bytes)
    requires ds != []
    ensures |text| == |ds| && IsNumeral(text) && DigitsIn(text) == ds
  {
    seq(|ds|, k requires 0 <= k < |ds| => ZERO + ds[k])
  }

  /** The regular expression `-?\d+`, matched in full. */
  predicate IsIntegerText(text: Bytes) {
    text != [] && if text[0] == MINUS then IsNumeral(text[1..]) else IsNumeral(text)
  }

  function IntegerValue(text: Bytes): int
    requires IsIntegerText(text)
  {
    if text[0] == MINUS then 0 - ValueOf(DigitsIn(text[1..])) else ValueOf(DigitsIn(text))
  }

  function IntegerText(i: int): (text: Bytes)
    ensures IsIntegerText(text) && IntegerValue(text) == i
    ensures forall k :: 0 <= k < |text| ==> text[k] == MINUS || IsDigit(text[k])
  {
    if i < 0 then [MINUS] + Ascii(Digits(-i)) else Ascii(Digits(i))
  }

  /** `data.find(b, i)`: the first position of `b` at or after `i`, or -1. */
  function Find(data: Bytes, b: byte, i: nat): (at: int)
    ensures at == -1 ==> forall k :: i <= k < |data| ==> data[k] != b
    ensures at != -1 ==> i <= at < |data| && data[at] == b && forall k :: i <= k < at ==> data[k] != b
    decreases if i <= |data| then |data| - i else 0
  {
    if i >= |data| then -1 else if data[i] == b then i else Find(data, b, i + 1)
  }

  // ---------------------------------------------------------------------------
  // The decoder
  // ---------------------------------------------------------------------------

  function Left(data: Bytes, i: nat): nat { if i <= |data| then |data| - i else 0 }

  function DecodeInteger(data: Bytes, i: nat): (r: Outcome)
    requires i < |data| && data[i] == LOWER_I
    ensures r.Ok? ==> i < r.next <= |data|
  {
    var end := Find(data, LOWER_E, i);
    if end == -1 then Err(UnterminatedInteger(i))
    else
      var text := data[i + 1..end];
      if IsIntegerText(text) then Ok(Int(IntegerValue(text)), end + 1) else Err(InvalidInteger(i))
  }

  function DecodeString(data: Bytes, i: nat): (r: Outcome)
    requires i < |data| && IsDigit(data[i])
    ensures r.Ok? ==> i < r.next <= |data| && r.value.Str?
  {
    var colon := Find(data, COLON, i);
    if colon == -1 then Err(LengthWithoutColon(i))
    else
      var text := data[i..colon];
      if !IsNumeral(text) then Err(InvalidLength(i))
      else
        var start := colon + 1;
        var end := start + ValueOf(DigitsIn(text));
        if end > |data| then Err(TruncatedString(i)) else Ok(Str(data[start..end]), end)
  }

  /** `bdecode(data, i)`. The contract is decoder totality: on every input the recursion ends, and
      a success consumes at least one byte and never more than there are. */
  function Decode(data: Bytes, i: nat): (r: Outcome)
    ensures r.Ok? ==> i < r.next <= |data|
    decreases Left(data, i), 0
  {
    if i >= |data| then Err(UnexpectedEnd(i))
    else if data[i] == LOWER_I then DecodeInteger(data, i)
    else if IsDigit(data[i]) then DecodeString(data, i)
    else if data[i] == LOWER_L then DecodeItems(data, i + 1, [])
    else if data[i] == LOWER_D then DecodeEntries(data, i + 1, map[])
    else Err(InvalidPrefix(i))
  }

  /** The list loop: `items` are the ones decoded so far. */
  function DecodeItems(data: Bytes, i: nat, items: seq<Value>): (r: Outcome)
    ensures r.Ok? ==> i < r.next <= |data| && r.value.List?
    decreases Left(data, i), 1
  {
    if i < |data| && data[i] == LOWER_E then Ok(List(items), i + 1)
    else
      var item := Decode(data, i);
      if item.Err? then item else DecodeItems(data, item.next, items + [item.value])
  }

  /** One key and its value. */
  function DecodeEntry(data: Bytes, i: nat): (r: EntryOutcome)
    ensures r.Entry? ==> i < r.valueAt < r.next <= |data|
    decreases Left(data, i), 1
  {
    var key := Decode(data, i);
    if key.Err? then NoEntry(key.error)
    else if !key.value.Str? then NoEntry(KeyIsNotAString)
    else
      var value := Decode(data, key.next);
      if value.Err? then NoEntry(value.error) else Entry(key.value.s, key.next, value.value, value.next)
  }

  /** The dictionary loop: a repeated key overwrites, and keys may come in any order. */
  function DecodeEntries(data: Bytes, i: nat, entries: map<Bytes, Value>): (r: Outcome)
    ensures r.Ok? ==> i < r.next <= |data| && r.value.Dict?
    decreases Left(data, i), 2
  {
    if i < |data| && data[i] == LOWER_E then Ok(Dict(entries), i + 1)
    else
      var e := DecodeEntry(data, i);
      if e.NoEntry? then Err(e.error) else DecodeEntries(data, e.next, entries[e.key := e.value])
  }

  /** `bdecode` in its own form: an advancing index, a growing list and a dict filled in place. */
  method Bdecode(data: Bytes, start: nat) returns (r: Outcome)
    ensures r == Decode(data, start)
    decreases Left(data, start)
  {
    var index := start;
    if index >= |data| {
      return Err(UnexpectedEnd(index));
    }
    var prefix := data[index];
    if prefix == LOWER_I {
      var end := Find(data, LOWER_E, index);
      if end == -1 {
        return Err(UnterminatedInteger(index));
      }
      var text := data[index + 1..end];
      if !IsIntegerText(text) {
        return Err(InvalidInteger(index));
      }
      return Ok(Int(IntegerValue(text)), end + 1);
    }
    if IsDigit(prefix) {
      var colon := Find(data, COLON, index);
      if colon == -1 {
        return Err(LengthWithoutColon(index));
      }
      var text := data[index..colon];
      if !IsNumeral(text) {
        return Err(InvalidLength(index));
      }
      var first := colon + 1;
      var end := first + ValueOf(DigitsIn(text));
      if end > |data| {
        return Err(TruncatedString(index));
      }
      return Ok(Str(data[first..end]), end);
    }
    if prefix == LOWER_L {
      index := index + 1;
      var items: seq<Value> := [];
      while !(index < |data| && data[index] == LOWER_E)
        invariant start < index
        invariant Decode(data, start) == DecodeItems(data, index, items)
        decreases Left(data, index)
      {
        var item := Bdecode(data, index);
        if item.Err? {
          return item;
        }
        items, index := items + [item.value], item.next;
      }
      return Ok(List(items), index + 1);
    }
    if prefix == LOWER_D {
      index := index + 1;
      var result: map<Bytes, Value> := map[];
      while !(index < |data| && data[index] == LOWER_E)
        invariant start < index
        invariant Decode(data, start) == DecodeEntries(data, index, result)
        decreases Left(data, index)
      {
        var key := Bdecode(data, index);
        if key.Err? {
          return key;
        }
        if !key.value.Str? {
          return Err(KeyIsNotAString);
        }
        var value := Bdecode(data, key.next);
        if value.Err? {
          return value;
        }
        result, index := result[key.value.s := value.value], value.next;
      }
      return Ok(Dict(result), index + 1);
    }
    return Err(InvalidPrefix(index));
  }

  // ---------------------------------------------------------------------------
  // The printer
  // ---------------------------------------------------------------------------

  ghost predicate IsLeast(k: Bytes, keys: set<Bytes>) {
    k in keys && forall other: Bytes :: other in keys && other != k ==> Lex.Less(k, other)
  }

  lemma {:induction false} LeastExists(keys: set<Bytes>)
    requires keys != {}
    ensures exists k: Bytes :: IsLeast(k, keys)
  {
    var k: Bytes :| k in keys;
    var rest := keys - {k};
    if rest == {} {
      assert keys == {k};
      assert IsLeast(k, keys);
    } else {
      LeastExists(rest);
      var least: Bytes :| IsLeast(least, rest);
      Lex.Trichotomy(k, least);
      if Lex.Less(least, k) {
        assert IsLeast(least, keys);
      } else {
        forall other: Bytes | other in keys && other != k
          ensures Lex.Less(k, other)
        {
          if other != least {
            Lex.Transitive(k, least, other);
          }
        }
        assert IsLeast(k, keys);
      }
    }
  }

  /** `sorted(value.items())`: the keys in ascending byte order. */
  ghost function SortKeys(keys: set<Bytes>): (ks: seq<Bytes>)
    ensures forall k :: k in ks <==> k in keys
    ensures forall a, b :: 0 <= a < b < |ks| ==> Lex.Less(ks[a], ks[b])
  {
    if keys == {} then []
    else
      LeastExists(keys);
      var k: Bytes :| IsLeast(k, keys);
      [k] + SortKeys(keys - {k})
  }

  ghost function Encode(v: Value): (text: Bytes)
    ensures text != []
    decreases v, 1, 0
  {
    match v
    case Int(i) => [LOWER_I] + IntegerText(i) + [LOWER_E]
    case Str(s) => EncodeString(s)
    case List(items) => [LOWER_L] + EncodeItems(items) + [LOWER_E]
    case Dict(entries) => [LOWER_D] + EncodeEntries(v, SortKeys(entries.Keys)) + [LOWER_E]
  }

  function EncodeString(s: Bytes): Bytes {
    Ascii(Digits(|s|)) + [COLON] + s
  }

  ghost function EncodeItems(items: seq<Value>): Bytes
    decreases items, 0, 0
  {
    if items == [] then [] else Encode(items[0]) + EncodeItems(items[1..])
  }

  ghost predicate KeysOf(v: Value, ks: seq<Bytes>) {
    v.Dict? && forall k :: k in ks ==> k in v.entries
  }

  ghost function EncodeEntries(v: Value, ks: seq<Bytes>): Bytes
    requires KeysOf(v, ks)
    decreases v, 0, |ks|
  {
    if ks == [] then []
    else
      assert ks[0] in v.entries;
      EncodeString(ks[0]) + Encode(v.entries[ks[0]]) + EncodeEntries(v, ks[1..])
  }
}
