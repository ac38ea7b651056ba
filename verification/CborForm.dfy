/**
  What the deterministic CBOR encodings look like, byte by byte, as RFC 8949 lays heads out in
  section 3 and orders map keys in section 4.2.1: a relation between values and byte strings that
  mentions neither the encoder nor the decoder, and both are shown to follow it.
  */
module CborForm {
  import opened Wrappers
  import opened Digits
  import opened Lex
  import opened Canonical

  // ----- heads -----

  /**
    The major type in the top three bits of the first byte; below 24 the argument in its other
    five, otherwise 24, 25, 26 or 27 there and the argument in 1, 2, 4 or 8 bytes, the fewest
    that hold it.
    */
  predicate IsHead(h: Bytes, major: nat, n: nat) {
    && h != [] && h[0] / 32 == major && n < U64_LIMIT
    && (n < 24 ==> |h| == 1 && h[0] % 32 == n)
    && (24 <= n ==> BytesToInt(h[1..]) == n)
    && (24 <= n < 0x100 ==> |h| == 2 && h[0] % 32 == 24)
    && (0x100 <= n < 0x1_0000 ==> |h| == 3 && h[0] % 32 == 25)
    && (0x1_0000 <= n < 0x1_0000_0000 ==> |h| == 5 && h[0] % 32 == 26)
    && (0x1_0000_0000 <= n ==> |h| == 9 && h[0] % 32 == 27)
  }

  lemma EncodedHead(major: nat, n: nat)
    requires major < 8 && n < U64_LIMIT
    ensures IsHead(Head(major, n), major, n)
  {
    hide BytesToInt, IntToBytes, Power, ToDigits, FromDigits;
    Powers();
    var h := Head(major, n);
    if 24 <= n <= 0xFF {
      OneByte(n);
      assert h[1..] == [n];
    } else if n > 0xFF {
      var count := |h| - 1;
      BytesFit(n, count);
      assert h[1..] == IntToBytes(n, count);
    }
  }

  lemma HeadUnique(h: Bytes, major: nat, n: nat)
    requires major < 8 && IsHead(h, major, n)
    ensures h == Head(major, n)
  {
    hide BytesToInt, IntToBytes, Power, ToDigits, FromDigits;
    assert h == [h[0]] + h[1..] && h[0] == 32 * major + h[0] % 32;
    BytesOfInt(h[1..]);
    if n < 24 { assert h[1..] == []; }
  }

  /** Encoded heads have this layout, and nothing else has. */
  lemma HeadLayout(h: Bytes, major: nat, n: nat)
    requires major < 8
    ensures IsHead(h, major, n) <==> EncodeHead(major, n) == Ok(h)
  {
    if n < U64_LIMIT { EncodedHead(major, n); }
    if IsHead(h, major, n) { HeadUnique(h, major, n); }
    hide Head;
  }

  /** A decoded head has this layout, and every head of this layout decodes. */
  lemma DecodesIffHead(data: Bytes, offset: nat, major: nat, n: nat, end: nat)
    requires offset <= end <= |data|
    ensures DecodeHead(data, offset) == Ok((major, n, end)) <==> IsHead(data[offset..end], major, n)
  {
    hide DecodeHead, IsHead, Head;
    if DecodeHead(data, offset) == Ok((major, n, end)) {
      HeadExact(data, offset);
      HeadLayout(data[offset..end], major, n);
    }
    if IsHead(data[offset..end], major, n) {
      assert major < 8 by { TopBits(data[offset..end], major, n); }
      HeadLayout(data[offset..end], major, n);
      HeadDecodes(data, offset, major, n);
    }
  }

  lemma TopBits(h: Bytes, major: nat, n: nat)
    requires IsHead(h, major, n)
    ensures major < 8
  {
  }

  // ----- values -----

  /** A head, and `body` behind it. */
  predicate Framed(b: Bytes, major: nat, n: nat, body: Bytes) {
    |body| <= |b| && IsHead(b[..|b| - |body|], major, n) && b[|b| - |body|..] == body
  }

  function Flatten(pieces: seq<Bytes>): (b: Bytes) {
    if pieces == [] then [] else pieces[0] + Flatten(pieces[1..])
  }

  function Paired(keys: seq<Bytes>, values: seq<Bytes>): (pieces: seq<Bytes>)
    requires |keys| == |values|
    ensures |pieces| == |keys| && forall i :: 0 <= i < |keys| ==> pieces[i] == keys[i] + values[i]
  {
    seq(|keys|, i requires 0 <= i < |keys| => keys[i] + values[i])
  }

  /** `b` is the deterministic encoding of `v`. */
  ghost predicate IsEncoding(v: Value, b: Bytes)
    decreases v, 1
  {
    match v
    case Null => b == [0xF6]
    case Bool(x) => b == [if x then 0xF5 else 0xF4]
    case Int(i) => if i >= 0 then IsHead(b, 0, i) else IsHead(b, 1, -1 - i)
    case Blob(bytes) => Framed(b, 2, |bytes|, bytes)
    case Text(utf8) => Framed(b, 3, |utf8|, utf8)
    case Array(items) =>
      exists parts :: AreEncodings(items, parts) && Framed(b, 4, |items|, Flatten(parts))
    case Dict(entries) =>
      exists sorted, keys, values ::
        Listed(entries, sorted, keys) && HoldValues(entries, sorted, values) && Framed(b, 5, |entries|, Flatten(Paired(keys, values)))
  }

  ghost predicate AreEncodings(items: seq<Value>, parts: seq<Bytes>)
    decreases items, 0
  {
    |parts| == |items| && forall i :: 0 <= i < |items| ==> IsEncoding(items[i], parts[i])
  }

  /** `sorted` lists the entries in strictly ascending order of their encoded keys, which are text strings. */
  ghost predicate Listed(entries: seq<Entry>, sorted: seq<Entry>, keys: seq<Bytes>) {
    && SameMembers(sorted, entries) && |keys| == |sorted| == |entries|
    && (forall i :: 0 <= i < |keys| ==> Framed(keys[i], 3, |sorted[i].name|, sorted[i].name))
    && forall i, j :: 0 <= i < j < |keys| ==> Less(keys[i], keys[j])
  }

  ghost predicate HoldValues(entries: seq<Entry>, sorted: seq<Entry>, values: seq<Bytes>)
    decreases entries, 0
  {
    |values| == |sorted| == |entries| && forall i :: 0 <= i < |sorted| ==> sorted[i] in entries && IsEncoding(sorted[i].value, values[i])
  }

  // ----- the encoder follows the relation -----

  lemma FramedIff(b: Bytes, major: nat, n: nat, body: Bytes)
    requires major < 8
    ensures Framed(b, major, n, body) <==> n < U64_LIMIT && b == Head(major, n) + body
  {
    hide Head, IsHead;
    if Framed(b, major, n, body) {
      HeadLayout(b[..|b| - |body|], major, n);
      assert b == b[..|b| - |body|] + b[|b| - |body|..];
    }
    if n < U64_LIMIT && b == Head(major, n) + body {
      HeadLayout(Head(major, n), major, n);
      assert b[..|b| - |body|] == Head(major, n) && b[|b| - |body|..] == body;
    }
  }

  lemma {:induction false} ItemsFlatten(items: seq<Value>, parts: seq<Bytes>)
    requires |parts| == |items| && forall i :: 0 <= i < |items| ==> Encode(items[i]) == Ok(parts[i])
    ensures EncodeItems(items) == Ok(Flatten(parts))
  {
    hide Encode, EncodeItems;
    if items == [] {
      NoItems();
    } else {
      ItemsFlatten(items[1..], parts[1..]);
      EncodeItemsShape(items);
    }
  }

  lemma NoItems()
    ensures EncodeItems([]) == Ok([])
  {
  }

  lemma {:induction false} ItemsEncoded(items: seq<Value>) returns (parts: seq<Bytes>)
    requires EncodeItems(items).Ok?
    ensures |parts| == |items| && forall i :: 0 <= i < |items| ==> Encode(items[i]) == Ok(parts[i])
  {
    hide Encode, EncodeItems;
    if items == [] {
      parts := [];
    } else {
      EncodeItemsShape(items);
      var rest := ItemsEncoded(items[1..]);
      parts := [Encode(items[0]).value] + rest;
    }
  }

  /** Entries in ascending order of their keys are written as they are listed. */
  lemma AscendingWritten(sorted: seq<Entry>, values: seq<Bytes>)
    requires AscendingNames(sorted) && |values| == |sorted| && forall i :: 0 <= i < |sorted| ==> Encode(sorted[i].value) == Ok(values[i])
    requires forall i :: 0 <= i < |sorted| ==> |sorted[i].name| < U64_LIMIT
    ensures EncodeEntries(sorted).Ok? && Sort(EncodeEntries(sorted).value) == EncodeEntries(sorted).value
    ensures Join(EncodeEntries(sorted).value) == Flatten(Paired(KeysOf(sorted), values))
  {
    hide Encode, EncodeEntries, KeyBytes, Join, Flatten, Sort, AscendingNames, PartOf;
    EntriesEncode(sorted);
    CanonicalParts(sorted);
    var parts := PartsOf(WithKeys(sorted));
    forall i | 0 <= i < |sorted| ensures parts[i].key + parts[i].value == Paired(KeysOf(sorted), values)[i] {
      PartIs(sorted[i], values[i]);
    }
    JoinIsFlatten(parts, Paired(KeysOf(sorted), values));
  }

  lemma PartIs(x: Entry, value: Bytes)
    requires Encode(x.value) == Ok(value)
    ensures PartOf(Keyed(KeyBytes(x.name), x)) == Keyed(KeyBytes(x.name), value)
  {
    hide Encode, KeyBytes;
  }

  function KeysOf(sorted: seq<Entry>): (keys: seq<Bytes>)
    ensures |keys| == |sorted| && forall i :: 0 <= i < |keys| ==> keys[i] == KeyBytes(sorted[i].name)
  {
    seq(|sorted|, i requires 0 <= i < |sorted| => KeyBytes(sorted[i].name))
  }

  lemma {:induction false} JoinIsFlatten(parts: seq<Keyed<Bytes>>, pieces: seq<Bytes>)
    requires |parts| == |pieces| && forall i :: 0 <= i < |parts| ==> parts[i].key + parts[i].value == pieces[i]
    ensures Join(parts) == Flatten(pieces)
  {
    if parts != [] { JoinIsFlatten(parts[1..], pieces[1..]); }
  }

  lemma AscendingDistinct(sorted: seq<Entry>)
    requires AscendingNames(sorted)
    ensures forall i, j :: 0 <= i < j < |sorted| ==> Less(KeyBytes(sorted[i].name), KeyBytes(sorted[j].name))
    ensures forall i, j :: 0 <= i < j < |sorted| ==> sorted[i].name != sorted[j].name
  {
    hide KeyBytes, Less;
    AscendingFromKeys(sorted);
    forall i, j | 0 <= i < j < |sorted|
      ensures Less(KeyBytes(sorted[i].name), KeyBytes(sorted[j].name)) && sorted[i].name != sorted[j].name
    {
      AscendingAll(WithKeys(sorted), i, j);
      LessAsymmetric(KeyBytes(sorted[i].name), KeyBytes(sorted[j].name));
    }
  }

  /** A dict is written as its entries in ascending order are. */
  lemma DictWritten(entries: seq<Entry>, sorted: seq<Entry>, values: seq<Bytes>)
    requires SameMembers(sorted, entries) && |sorted| == |entries| && AscendingNames(sorted)
    requires forall i, j :: 0 <= i < j < |entries| ==> entries[i].name != entries[j].name
    requires |values| == |sorted| && forall i :: 0 <= i < |sorted| ==> Encode(sorted[i].value) == Ok(values[i])
    requires forall i :: 0 <= i < |sorted| ==> |sorted[i].name| < U64_LIMIT
    ensures Encode(Dict(entries)) ==
      if |entries| < U64_LIMIT then Ok(Head(5, |entries|) + Flatten(Paired(KeysOf(sorted), values))) else Err
  {
    hide Encode, EncodeEntries, KeyBytes, Join, Flatten, Sort, AscendingNames, Head;
    AscendingDistinct(sorted);
    InsertionOrderIrrelevant(entries, sorted);
    AscendingWritten(sorted, values);
    EncodeDictShape(sorted);
  }

  /** The entries in the order in which they are written. */
  lemma SortedForm(utf8: Utf8, entries: seq<Entry>) returns (sorted: seq<Entry>)
    requires IsPrimitive(utf8, Dict(entries))
    ensures SameMembers(sorted, entries) && |sorted| == |entries| && AscendingNames(sorted)
    ensures forall i :: 0 <= i < |sorted| ==> sorted[i] in entries && |sorted[i].name| < U64_LIMIT && IsPrimitive(utf8, sorted[i].value)
  {
    hide KeyBytes, Sort, Less;
    sorted := Values(Sort(WithKeys(entries)));
    SortedEntries(entries);
    forall i | 0 <= i < |entries| ensures |entries[i].name| < U64_LIMIT { assert entries[i] in entries; }
    NamesDistinctKeys(entries);
    SortAscending(WithKeys(entries));
    AscendingFromKeys(sorted);
    forall i | 0 <= i < |sorted| ensures sorted[i] in entries { assert sorted[i] in sorted; }
  }

  /** What the encoder writes is the encoding of the value. */
  lemma {:induction false} WritesEncoding(utf8: Utf8, v: Value, b: Bytes)
    requires IsPrimitive(utf8, v) && Encode(v) == Ok(b)
    ensures IsEncoding(v, b)
    decreases v
  {
    hide EncodeItems, EncodeEntries, Head, IsHead, Framed, Flatten, KeyBytes, Sort, Join, AscendingNames;
    match v {
      case Null =>
      case Bool(x) =>
      case Int(i) => HeadLayout(b, if i >= 0 then 0 else 1, if i >= 0 then i else -1 - i);
      case Blob(bytes) => FramedIff(b, 2, |bytes|, bytes);
      case Text(t) => FramedIff(b, 3, |t|, t);
      case Array(items) =>
        EncodeArrayShape(items);
        var parts := ItemsEncoded(items);
        forall i | 0 <= i < |items| ensures IsEncoding(items[i], parts[i]) {
          assert items[i] in items;
          WritesEncoding(utf8, items[i], parts[i]);
        }
        ItemsFlatten(items, parts);
        FramedIff(b, 4, |items|, Flatten(parts));
        assert AreEncodings(items, parts);
      case Dict(entries) =>
        var sorted := SortedForm(utf8, entries);
        EncodeDictShape(entries);
        EntriesEncode(entries);
        hide Encode;
        forall i | 0 <= i < |sorted| ensures EntryEncodes(sorted[i]) {
          var j :| 0 <= j < |entries| && entries[j] == sorted[i];
          assert EntryEncodes(entries[j]);
        }
        var values := seq(|sorted|, i requires 0 <= i < |sorted| && Encode(sorted[i].value).Ok? => Encode(sorted[i].value).value);
        forall i | 0 <= i < |sorted| ensures IsEncoding(sorted[i].value, values[i]) {
          WritesEncoding(utf8, sorted[i].value, values[i]);
        }
        DictWritten(entries, sorted, values);
        FramedIff(b, 5, |entries|, Flatten(Paired(KeysOf(sorted), values)));
        KeysListed(entries, sorted);
        assert HoldValues(entries, sorted, values);
    }
  }

  lemma KeysListed(entries: seq<Entry>, sorted: seq<Entry>)
    requires SameMembers(sorted, entries) && |sorted| == |entries| && AscendingNames(sorted)
    requires forall i :: 0 <= i < |sorted| ==> |sorted[i].name| < U64_LIMIT
    ensures Listed(entries, sorted, KeysOf(sorted))
  {
    hide Head, Framed, AscendingNames, Less;
    AscendingDistinct(sorted);
    forall i | 0 <= i < |sorted| ensures Framed(KeysOf(sorted)[i], 3, |sorted[i].name|, sorted[i].name) {
      FramedIff(KeyBytes(sorted[i].name), 3, |sorted[i].name|, sorted[i].name);
    }
  }

  lemma ListedKeys(entries: seq<Entry>, sorted: seq<Entry>, keys: seq<Bytes>)
    requires Listed(entries, sorted, keys)
    ensures keys == KeysOf(sorted) && AscendingNames(sorted) && forall i :: 0 <= i < |sorted| ==> |sorted[i].name| < U64_LIMIT
  {
    hide Head, Framed, Less;
    forall i | 0 <= i < |sorted| ensures keys[i] == KeyBytes(sorted[i].name) && |sorted[i].name| < U64_LIMIT {
      FramedIff(keys[i], 3, |sorted[i].name|, sorted[i].name);
    }
  }

  /** The encoding of a value is what the encoder writes. */
  lemma {:induction false} EncodingWritten(utf8: Utf8, v: Value, b: Bytes)
    requires IsPrimitive(utf8, v) && IsEncoding(v, b)
    ensures Encode(v) == Ok(b)
    decreases v
  {
    hide EncodeItems, EncodeEntries, Head, IsHead, Framed, Flatten, KeyBytes, Sort, Join, AscendingNames;
    match v {
      case Null =>
      case Bool(x) =>
      case Int(i) => HeadLayout(b, if i >= 0 then 0 else 1, if i >= 0 then i else -1 - i);
      case Blob(bytes) => FramedIff(b, 2, |bytes|, bytes);
      case Text(t) => FramedIff(b, 3, |t|, t);
      case Array(items) =>
        var parts :| AreEncodings(items, parts) && Framed(b, 4, |items|, Flatten(parts));
        forall i | 0 <= i < |items| ensures Encode(items[i]) == Ok(parts[i]) {
          assert items[i] in items;
          EncodingWritten(utf8, items[i], parts[i]);
        }
        ItemsFlatten(items, parts);
        FramedIff(b, 4, |items|, Flatten(parts));
        EncodeArrayShape(items);
      case Dict(entries) =>
        var sorted: seq<Entry>, keys: seq<Bytes>, values: seq<Bytes> :|
          Listed(entries, sorted, keys) && HoldValues(entries, sorted, values) && Framed(b, 5, |entries|, Flatten(Paired(keys, values)));
        ListedKeys(entries, sorted, keys);
        forall i | 0 <= i < |sorted| ensures Encode(sorted[i].value) == Ok(values[i]) {
          EncodingWritten(utf8, sorted[i].value, values[i]);
        }
        assert SameMembers(sorted, entries) by { ListedMembers(entries, sorted, keys); }
        DictWritten(entries, sorted, values);
        FramedIff(b, 5, |entries|, Flatten(Paired(KeysOf(sorted), values)));
    }
  }

  lemma ListedMembers(entries: seq<Entry>, sorted: seq<Entry>, keys: seq<Bytes>)
    requires Listed(entries, sorted, keys)
    ensures SameMembers(sorted, entries)
  {
  }

  /** The encoder writes exactly the encoding of a value, and has none to write exactly when there is none. */
  lemma EncodesIffLayout(utf8: Utf8, v: Value, b: Bytes)
    requires IsPrimitive(utf8, v)
    ensures Encode(v) == Ok(b) <==> IsEncoding(v, b)
  {
    hide Encode, IsEncoding, IsPrimitive;
    if Encode(v) == Ok(b) { WritesEncoding(utf8, v, b); }
    if IsEncoding(v, b) { EncodingWritten(utf8, v, b); }
  }

  /**
    The decoder reads a value from between two offsets exactly when its encoding stands there,
    and the value is in canonical order with valid text.
    */
  lemma DecodesIffLayout(utf8: Utf8, data: Bytes, offset: nat, v: Value, end: nat)
    requires offset <= end <= |data|
    ensures Decode(utf8, data, offset) == Ok((v, end)) <==> IsCanonical(utf8, v) && IsEncoding(v, data[offset..end])
  {
    hide Encode, Decode, IsEncoding, IsPrimitive, IsCanonical, Normalize;
    var b := data[offset..end];
    if Decode(utf8, data, offset) == Ok((v, end)) {
      DecodeExact(utf8, data, offset);
      CanonicalIsNormal(utf8, v);
      EncodesIffLayout(utf8, v, b);
    }
    if IsCanonical(utf8, v) && IsEncoding(v, b) {
      CanonicalIsNormal(utf8, v);
      EncodesIffLayout(utf8, v, b);
      DecodeEncoded(utf8, data, offset, v, b);
    }
  }

  /** Loading accepts exactly the encodings of values in canonical order with valid text. */
  lemma LoadsIffLayout(utf8: Utf8, data: Bytes, requireCanonical: bool, v: Value)
    ensures Loads(utf8, data, requireCanonical) == Ok(v) <==> IsCanonical(utf8, v) && IsEncoding(v, data)
  {
    hide Encode, Decode, IsEncoding, IsPrimitive, IsCanonical, Normalize, Loads;
    LoadsIffEncoding(utf8, data, requireCanonical, v);
    if IsCanonical(utf8, v) {
      CanonicalIsNormal(utf8, v);
      EncodesIffLayout(utf8, v, data);
    }
  }
}
