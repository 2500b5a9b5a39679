/** The language the decoder accepts, as a grammar on whole texts with no index and no search, and
    the proof that the decoder accepts exactly that language with exactly that meaning. */
module BencodeGrammar {
  import opened Decimal
  import opened BencodeCodec

  /** `text` is one value text, leading zeros, minus zero, unsorted and repeated keys included,
      and `v` is what it means. */
  ghost predicate Denotes(text: Bytes, v: Value)
    decreases |text|, 0
  {
    match v
    case Int(n) =>
      |text| >= 2 && text[0] == LOWER_I && text[|text| - 1] == LOWER_E
      && var numeral := text[1..|text| - 1]; IsIntegerText(numeral) && IntegerValue(numeral) == n
    case Str(s) =>
      |s| < |text| && text[|text| - |s|..] == s && text[|text| - |s| - 1] == COLON
      && var numeral := text[..|text| - |s| - 1]; IsNumeral(numeral) && ValueOf(DigitsIn(numeral)) == |s|
    case List(items) =>
      |text| >= 2 && text[0] == LOWER_L && text[|text| - 1] == LOWER_E
      && DenoteItems(text[1..|text| - 1], items)
    case Dict(entries) =>
      |text| >= 2 && text[0] == LOWER_D && text[|text| - 1] == LOWER_E
      && DenoteEntries(text[1..|text| - 1], map[], entries)
  }

  /** `body` is the texts of `items`, one after the other. */
  ghost predicate DenoteItems(body: Bytes, items: seq<Value>)
    decreases |body|, 1
  {
    if items == [] then body == []
    else exists k :: 0 < k <= |body| && Denotes(body[..k], items[0]) && DenoteItems(body[k..], items[1..])
  }

  /** One key and one value: `body[..k]` is the key text, `body[k..m]` the value text. */
  ghost predicate EntryAt(body: Bytes, k: nat, m: nat, key: Bytes, value: Value)
    decreases |body|, 1
  {
    0 < k < m <= |body| && Denotes(body[..k], Str(key)) && Denotes(body[k..m], value)
  }

  /** Entering the entries of `body` one after the other turns `before` into `after`. */
  ghost predicate DenoteEntries(body: Bytes, before: map<Bytes, Value>, after: map<Bytes, Value>)
    decreases |body|, 2
  {
    (body == [] && before == after) ||
    exists k: nat, m: nat, key, value ::
      EntryAt(body, k, m, key, value) && DenoteEntries(body[m..], before[key := value], after)
  }

  // ---------------------------------------------------------------------------
  // Everything the decoder accepts is in the language
  // ---------------------------------------------------------------------------

  lemma IntegerSound(data: Bytes, i: nat)
    requires i < |data| && data[i] == LOWER_I && DecodeInteger(data, i).Ok?
    ensures var r := DecodeInteger(data, i); Denotes(data[i..r.next], r.value)
  {
    var end := Find(data, LOWER_E, i);
    SliceOfSlice(data, i, end + 1, 1, end - i);
  }

  lemma StringSound(data: Bytes, i: nat)
    requires i < |data| && IsDigit(data[i]) && DecodeString(data, i).Ok?
    ensures var r := DecodeString(data, i); Denotes(data[i..r.next], r.value)
  {
    var colon := Find(data, COLON, i);
    var r := DecodeString(data, i);
    SliceOfSlice(data, i, r.next, 0, colon - i);
    SliceOfSlice(data, i, r.next, colon + 1 - i, r.next - i);
  }

  lemma {:induction false} Sound(data: Bytes, i: nat)
    requires Decode(data, i).Ok?
    ensures Denotes(data[i..Decode(data, i).next], Decode(data, i).value)
    decreases Left(data, i), 0
  {
    hide Denotes, DecodeInteger, DecodeString, DecodeItems, DecodeEntries;
    if data[i] == LOWER_I {
      IntegerSound(data, i);
    } else if IsDigit(data[i]) {
      StringSound(data, i);
    } else if data[i] == LOWER_L {
      ItemsSound(data, i + 1, []);
      var r := DecodeItems(data, i + 1, []);
      assert r.value.items[0..] == r.value.items;
      ListText(data, i, r.next, r.value.items);
    } else {
      EntriesSound(data, i + 1, map[]);
      var r := DecodeEntries(data, i + 1, map[]);
      DictText(data, i, r.next, r.value.entries);
    }
  }

  lemma SliceOfSlice(data: Bytes, i: nat, j: nat, a: nat, b: nat)
    requires i <= j <= |data| && a <= b <= j - i
    ensures data[i..j][a..b] == data[i + a..i + b]
  {
    forall k | 0 <= k < b - a
      ensures data[i..j][a..b][k] == data[i + a..i + b][k]
    {
      assert data[i..j][a + k] == data[i + a + k];
    }
  }

  lemma ListText(data: Bytes, i: nat, j: nat, items: seq<Value>)
    requires i + 2 <= j <= |data| && data[i] == LOWER_L && data[j - 1] == LOWER_E
    ensures Denotes(data[i..j], List(items)) <==> DenoteItems(data[i + 1..j - 1], items)
  {
    var text := data[i..j];
    assert text[0] == data[i] && text[|text| - 1] == data[j - 1];
    SliceOfSlice(data, i, j, 1, j - i - 1);
    assert text[1..|text| - 1] == data[i + 1..j - 1];
  }

  lemma DictText(data: Bytes, i: nat, j: nat, entries: map<Bytes, Value>)
    requires i + 2 <= j <= |data| && data[i] == LOWER_D && data[j - 1] == LOWER_E
    ensures Denotes(data[i..j], Dict(entries)) <==> DenoteEntries(data[i + 1..j - 1], map[], entries)
  {
    var text := data[i..j];
    assert text[0] == data[i] && text[|text| - 1] == data[j - 1];
    SliceOfSlice(data, i, j, 1, j - i - 1);
    assert text[1..|text| - 1] == data[i + 1..j - 1];
  }

  lemma {:induction false} ItemsSound(data: Bytes, i: nat, before: seq<Value>)
    requires DecodeItems(data, i, before).Ok?
    ensures var r := DecodeItems(data, i, before);
            && data[r.next - 1] == LOWER_E && before <= r.value.items
            && DenoteItems(data[i..r.next - 1], r.value.items[|before|..])
    decreases Left(data, i), 1
  {
    hide Denotes, Decode;
    var r := DecodeItems(data, i, before);
    if data[i] == LOWER_E {
      assert data[i..r.next - 1] == [] && r.value.items[|before|..] == [];
    } else {
      var item := Decode(data, i);
      Sound(data, i);
      ItemsSound(data, item.next, before + [item.value]);
      ItemsCons(data, i, item.next, r.next - 1, item.value, r.value.items[|before|..]);
    }
  }

  lemma ItemsCons(data: Bytes, i: nat, k: nat, j: nat, first: Value, items: seq<Value>)
    requires i < k <= j <= |data| && items != [] && items[0] == first
    requires Denotes(data[i..k], first) && DenoteItems(data[k..j], items[1..])
    ensures DenoteItems(data[i..j], items)
  {
    hide Denotes;
    var body := data[i..j];
    SliceOfSlice(data, i, j, 0, k - i);
    SliceOfSlice(data, i, j, k - i, j - i);
  }

  lemma {:induction false} EntriesSound(data: Bytes, i: nat, before: map<Bytes, Value>)
    requires DecodeEntries(data, i, before).Ok?
    ensures var r := DecodeEntries(data, i, before);
            data[r.next - 1] == LOWER_E && DenoteEntries(data[i..r.next - 1], before, r.value.entries)
    decreases Left(data, i), 2
  {
    hide Denotes, DenoteEntries, Decode, DecodeEntry;
    var r := DecodeEntries(data, i, before);
    if data[i] == LOWER_E {
      assert data[i..r.next - 1] == [];
      NoEntriesLeft(before);
    } else {
      var e := DecodeEntry(data, i);
      EntrySound(data, i);
      EntriesSound(data, e.next, before[e.key := e.value]);
      EntriesCons(data, i, e.valueAt, e.next, r.next - 1, e.key, e.value, before, r.value.entries);
    }
  }

  lemma {:induction false} EntrySound(data: Bytes, i: nat)
    requires DecodeEntry(data, i).Entry?
    ensures var e := DecodeEntry(data, i);
            Denotes(data[i..e.valueAt], Str(e.key)) && Denotes(data[e.valueAt..e.next], e.value)
    decreases Left(data, i), 1
  {
    hide Denotes, Decode;
    var e := DecodeEntry(data, i);
    Sound(data, i);
    Sound(data, e.valueAt);
  }

  lemma NoEntriesLeft(before: map<Bytes, Value>)
    ensures DenoteEntries([], before, before)
  {
  }

  lemma EntriesCons(data: Bytes, i: nat, k: nat, m: nat, j: nat, key: Bytes, value: Value,
                    before: map<Bytes, Value>, after: map<Bytes, Value>)
    requires i < k < m <= j <= |data|
    requires Denotes(data[i..k], Str(key)) && Denotes(data[k..m], value)
    requires DenoteEntries(data[m..j], before[key := value], after)
    ensures DenoteEntries(data[i..j], before, after)
  {
    hide Denotes;
    var body := data[i..j];
    SliceOfSlice(data, i, j, 0, k - i);
    SliceOfSlice(data, i, j, k - i, m - i);
    SliceOfSlice(data, i, j, m - i, j - i);
    assert EntryAt(body, k - i, m - i, key, value);
  }

  // ---------------------------------------------------------------------------
  // Everything in the language is accepted, with that meaning
  // ---------------------------------------------------------------------------

  lemma FindAt(data: Bytes, b: byte, i: nat, at: nat)
    requires i <= at < |data| && data[at] == b
    requires forall k :: i <= k < at ==> data[k] != b
    ensures Find(data, b, i) == at
  {
  }

  lemma NumeralHasNoEnd(numeral: Bytes)
    requires IsIntegerText(numeral)
    ensures forall k :: 0 <= k < |numeral| ==> numeral[k] != LOWER_E
  {
    if numeral[0] == MINUS {
      assert forall d :: 0 < d < |numeral| ==> numeral[d] == numeral[1..][d - 1];
    }
  }

  lemma IntegerComplete(data: Bytes, i: nat, j: nat, n: int)
    requires i < j <= |data| && Denotes(data[i..j], Int(n))
    ensures data[i] == LOWER_I && DecodeInteger(data, i) == Ok(Int(n), j)
  {
    var text := data[i..j];
    var numeral := text[1..|text| - 1];
    SliceOfSlice(data, i, j, 1, j - i - 1);
    NumeralHasNoEnd(numeral);
    forall k | i <= k < j - 1
      ensures data[k] != LOWER_E
    {
      if k > i {
        assert data[k] == numeral[k - i - 1];
      }
    }
    FindAt(data, LOWER_E, i, j - 1);
  }

  lemma StringComplete(data: Bytes, i: nat, j: nat, s: Bytes)
    requires i < j <= |data| && Denotes(data[i..j], Str(s))
    ensures IsDigit(data[i]) && DecodeString(data, i) == Ok(Str(s), j)
  {
    var text := data[i..j];
    var colon := j - |s| - 1;
    var numeral := text[..|text| - |s| - 1];
    assert numeral == data[i..colon];
    assert data[i] == numeral[0];
    forall k | i <= k < colon
      ensures data[k] != COLON
    {
      assert data[k] == numeral[k - i];
    }
    FindAt(data, COLON, i, colon);
    assert data[colon + 1..j] == text[|text| - |s|..];
  }

  lemma FirstByte(text: Bytes, v: Value)
    requires Denotes(text, v)
    ensures text != [] && text[0] != LOWER_E
  {
    if v.Str? {
      assert text[0] == text[..|text| - |v.s| - 1][0];
    }
  }

  lemma {:induction false} Complete(data: Bytes, i: nat, j: nat, v: Value)
    requires i <= j <= |data| && Denotes(data[i..j], v)
    ensures Decode(data, i) == Ok(v, j)
    decreases j - i, 0
  {
    hide DecodeInteger, DecodeString, DecodeItems, DecodeEntries, DenoteItems, DenoteEntries;
    FirstByte(data[i..j], v);
    var text := data[i..j];
    assert text[0] == data[i] && text[|text| - 1] == data[j - 1];
    match v
    case Int(n) => IntegerComplete(data, i, j, n);
    case Str(s) => StringComplete(data, i, j, s);
    case List(items) =>
      ListText(data, i, j, items);
      ItemsComplete(data, i + 1, j - 1, [], items);
      assert [] + items == items;
    case Dict(entries) =>
      DictText(data, i, j, entries);
      EntriesComplete(data, i + 1, j - 1, map[], entries);
  }

  lemma {:induction false} ItemsComplete(data: Bytes, i: nat, j: nat, before: seq<Value>, items: seq<Value>)
    requires i <= j < |data| && data[j] == LOWER_E && DenoteItems(data[i..j], items)
    ensures DecodeItems(data, i, before) == Ok(List(before + items), j + 1)
    decreases j - i, 1
  {
    hide Denotes, Decode;
    if items == [] {
      assert i == j && before + items == before;
    } else {
      var body := data[i..j];
      var k :| 0 < k <= |body| && Denotes(body[..k], items[0]) && DenoteItems(body[k..], items[1..]);
      SliceOfSlice(data, i, j, 0, k);
      SliceOfSlice(data, i, j, k, j - i);
      FirstByte(data[i..i + k], items[0]);
      assert data[i] == data[i..i + k][0];
      Complete(data, i, i + k, items[0]);
      ItemsComplete(data, i + k, j, before + [items[0]], items[1..]);
      assert before + [items[0]] + items[1..] == before + items;
    }
  }

  lemma {:induction false} EntriesComplete(data: Bytes, i: nat, j: nat, before: map<Bytes, Value>,
                                           after: map<Bytes, Value>)
    requires i <= j < |data| && data[j] == LOWER_E && DenoteEntries(data[i..j], before, after)
    ensures DecodeEntries(data, i, before) == Ok(Dict(after), j + 1)
    decreases j - i, 2
  {
    hide Denotes, Decode, DecodeEntry;
    var body := data[i..j];
    if body == [] && before == after {
    } else {
      var k: nat, m: nat, key, value :|
        EntryAt(body, k, m, key, value) && DenoteEntries(body[m..], before[key := value], after);
      EntryComplete(data, i, j, k, m, key, value);
      SliceOfSlice(data, i, j, m, j - i);
      EntriesComplete(data, i + m, j, before[key := value], after);
    }
  }

  lemma {:induction false} EntryComplete(data: Bytes, i: nat, j: nat, k: nat, m: nat, key: Bytes, value: Value)
    requires i <= j <= |data| && EntryAt(data[i..j], k, m, key, value)
    ensures i + m <= j && i < |data| && data[i] != LOWER_E
    ensures DecodeEntry(data, i) == Entry(key, i + k, value, i + m)
    decreases j - i, 1
  {
    hide Denotes, Decode;
    var body := data[i..j];
    SliceOfSlice(data, i, j, 0, k);
    SliceOfSlice(data, i, j, k, m);
    FirstByte(data[i..i + k], Str(key));
    assert data[i] == data[i..i + k][0];
    Complete(data, i, i + k, Str(key));
    Complete(data, i + k, i + m, value);
  }

  /** The decoder accepts exactly the language, reads exactly its meaning, and rejects everything else. */
  lemma DecoderIsTheGrammar(data: Bytes, i: nat, v: Value, j: nat)
    ensures Decode(data, i) == Ok(v, j) <==> i <= j <= |data| && Denotes(data[i..j], v)
  {
    hide Decode, Denotes;
    if i <= j <= |data| && Denotes(data[i..j], v) {
      Complete(data, i, j, v);
    }
    if Decode(data, i) == Ok(v, j) {
      Sound(data, i);
    }
  }

  /** The text of an integer is any digits, with a minus sign or without: leading zeros and a minus zero
      included, and nothing else; and it is the number they make. */
  lemma {:induction false} IntegerTextIff(text: Bytes)
    ensures IsIntegerText(text) <==>
              exists ds: seq<digit> :: ds != [] && (text == Ascii(ds) || text == [45] + Ascii(ds))
    ensures forall ds: seq<digit> :: ds != [] ==>
              && IsIntegerText(Ascii(ds)) && IntegerValue(Ascii(ds)) == ValueOf(ds)
              && IsIntegerText([45] + Ascii(ds)) && IntegerValue([45] + Ascii(ds)) == 0 - ValueOf(ds)
  {
    forall ds: seq<digit> | ds != []
      ensures IsIntegerText(Ascii(ds)) && IntegerValue(Ascii(ds)) == ValueOf(ds)
      ensures IsIntegerText([45] + Ascii(ds)) && IntegerValue([45] + Ascii(ds)) == 0 - ValueOf(ds)
    {
      DigitsAreIntegers(ds);
    }
    if IsIntegerText(text) {
      IntegersAreDigits(text);
    }
  }

  lemma DigitsAreIntegers(ds: seq<digit>)
    requires ds != []
    ensures IsIntegerText(Ascii(ds)) && IntegerValue(Ascii(ds)) == ValueOf(ds)
    ensures IsIntegerText([45] + Ascii(ds)) && IntegerValue([45] + Ascii(ds)) == 0 - ValueOf(ds)
  {
    var text := Ascii(ds);
    assert IsDigit(text[0]) && ([45] + text)[1..] == text;
  }

  lemma IntegersAreDigits(text: Bytes)
    requires IsIntegerText(text)
    ensures exists ds: seq<digit> :: ds != [] && (text == Ascii(ds) || text == [45] + Ascii(ds))
  {
    var numeral := if text[0] == 45 then text[1..] else text;
    var ds := DigitsIn(numeral);
    var printed := Ascii(ds);
    forall k | 0 <= k < |numeral|
      ensures printed[k] == numeral[k]
    {
      assert DigitsIn(printed)[k] == ds[k];
    }
    assert printed == numeral;
    assert text[0] == 45 ==> text == [45] + numeral;
  }
}
