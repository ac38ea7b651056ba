/**
  Deterministic CBOR: the restricted encoder and decoder of the signed and addressed bytes,
  with heads as in section 3 and map order as in section 4.2.1 of RFC 8949.

  Text is its UTF-8 bytes; which byte strings are valid UTF-8 is a parameter of the decoder.
  */
module Canonical {
  import opened Wrappers
  import opened Digits
  import opened Lex

  datatype Value =
    | Null
    | Bool(b: bool)
    | Int(i: int)
    | Blob(bytes: Bytes)
    | Text(utf8: Bytes)
    | Array(items: seq<Value>)
    | Dict(entries: seq<Entry>)   // in insertion order, as a Python dict keeps them

  datatype Entry = Entry(name: Bytes, value: Value)

  // ----- the encoder -----

  /** Major type and definite length in shortest form, for arguments below 2^64. */
  function Head(major: nat, n: nat): (h: Bytes)
    requires major < 8
    ensures 1 <= |h| <= 9
  {
    if n < 24 then [32 * major + n]
    else if n <= 0xFF then [32 * major + 24, n]
    else if n <= 0xFFFF then [32 * major + 25] + IntToBytes(n, 2)
    else if n <= 0xFFFF_FFFF then [32 * major + 26] + IntToBytes(n, 4)
    else [32 * major + 27] + IntToBytes(n, 8)
  }

  function EncodeHead(major: nat, n: nat): (h: Result<Bytes>)
    requires major < 8
  {
    if n < U64_LIMIT then Ok(Head(major, n)) else Err
  }

  /** The encoding of a map key, a text string. */
  function KeyBytes(name: Bytes): (k: Bytes) {
    Head(3, |name|) + name
  }

  function Encode(v: Value): (e: Result<Bytes>)
    ensures e.Ok? ==> e.value != []
    decreases v, 1
  {
    match v
    case Null => Ok([0xF6])
    case Bool(b) => Ok([if b then 0xF5 else 0xF4])
    case Int(i) => if i >= 0 then EncodeHead(0, i) else EncodeHead(1, -1 - i)
    case Blob(bytes) =>
      var h :- EncodeHead(2, |bytes|);
      Ok(h + bytes)
    case Text(utf8) =>
      var h :- EncodeHead(3, |utf8|);
      Ok(h + utf8)
    case Array(items) =>
      var body :- EncodeItems(items);
      var h :- EncodeHead(4, |items|);
      Ok(h + body)
    case Dict(entries) =>
      var parts :- EncodeEntries(entries);
      var h :- EncodeHead(5, |entries|);
      Ok(h + Join(Sort(parts)))
  }

  function EncodeItems(items: seq<Value>): (e: Result<Bytes>)
    decreases items, 0
  {
    if items == [] then Ok([])
    else
      var first :- Encode(items[0]);
      var rest :- EncodeItems(items[1..]);
      Ok(first + rest)
  }

  /** The encoded key and value of each entry, in insertion order. */
  function EncodeEntries(entries: seq<Entry>): (parts: Result<seq<Keyed<Bytes>>>)
    ensures parts.Ok? ==> |parts.value| == |entries|
    ensures parts.Ok? ==> forall i :: 0 <= i < |entries| ==> |entries[i].name| < U64_LIMIT && parts.value[i].key == KeyBytes(entries[i].name)
    decreases entries, 0
  {
    if entries == [] then Ok([])
    else
      var h :- EncodeHead(3, |entries[0].name|);
      var value :- Encode(entries[0].value);
      var rest :- EncodeEntries(entries[1..]);
      Ok([Keyed(h + entries[0].name, value)] + rest)
  }

  function Join(parts: seq<Keyed<Bytes>>): (b: Bytes) {
    if parts == [] then [] else parts[0].key + parts[0].value + Join(parts[1..])
  }

  // ----- the decoder -----

  type Utf8 = Bytes -> bool

  function DecodeHead(data: Bytes, offset: nat): (r: Result<(nat, nat, nat)>)
    ensures r.Ok? ==> offset < r.value.2 <= |data| && r.value.0 < 8
  {
    if offset >= |data| then Err
    else
      var major, ai := data[offset] / 32, data[offset] % 32;
      var start := offset + 1;
      if ai < 24 then Ok((major, ai, start))
      else if ai > 27 then Err
      else
        var count := if ai == 24 then 1 else if ai == 25 then 2 else if ai == 26 then 4 else 8;
        if start + count > |data| then Err
        else
          var arg := BytesToInt(data[start..start + count]);
          if (ai == 24 && arg < 24) || (ai == 25 && arg <= 0xFF)
             || (ai == 26 && arg <= 0xFFFF) || (ai == 27 && arg <= 0xFFFF_FFFF) then Err
          else Ok((major, arg, start + count))
  }

  function Decode(utf8: Utf8, data: Bytes, offset: nat): (r: Result<(Value, nat)>)
    ensures r.Ok? ==> offset < r.value.1 <= |data|
    decreases |data| - offset, 0
  {
    var (major, arg, start) :- DecodeHead(data, offset);
    if major == 0 then Ok((Int(arg), start))
    else if major == 1 then Ok((Int(-1 - arg), start))
    else if major == 2 then
      if start + arg > |data| then Err else Ok((Blob(data[start..start + arg]), start + arg))
    else if major == 3 then
      if start + arg > |data| || !utf8(data[start..start + arg]) then Err
      else Ok((Text(data[start..start + arg]), start + arg))
    else if major == 4 then
      var (items, end) :- DecodeItems(utf8, data, start, arg, []);
      Ok((Array(items), end))
    else if major == 5 then
      var (entries, end) :- DecodeEntries(utf8, data, start, arg, [], None);
      Ok((Dict(entries), end))
    else if major == 7 && arg == 20 then Ok((Bool(false), start))
    else if major == 7 && arg == 21 then Ok((Bool(true), start))
    else if major == 7 && arg == 22 then Ok((Null, start))
    else Err
  }

  /** `count` further items; the count comes from the input, but every item consumes a byte. */
  function DecodeItems(utf8: Utf8, data: Bytes, offset: nat, count: nat, out: seq<Value>): (r: Result<(seq<Value>, nat)>)
    requires offset <= |data|
    ensures r.Ok? ==> offset <= r.value.1 <= |data|
    decreases |data| - offset, 1
  {
    if count == 0 then Ok((out, offset))
    else
      var (item, next) :- Decode(utf8, data, offset);
      DecodeItems(utf8, data, next, count - 1, out + [item])
  }

  predicate HasName(entries: seq<Entry>, name: Bytes) {
    exists i :: 0 <= i < |entries| && entries[i].name == name
  }

  function DecodeEntries(utf8: Utf8, data: Bytes, offset: nat, count: nat, out: seq<Entry>, last: Option<Bytes>)
    : (r: Result<(seq<Entry>, nat)>)
    requires offset <= |data|
    ensures r.Ok? ==> offset <= r.value.1 <= |data|
    decreases |data| - offset, 1
  {
    if count == 0 then Ok((out, offset))
    else
      var (key, next) :- Decode(utf8, data, offset);
      var keyEncoding := data[offset..next];
      if !key.Text? || HasName(out, key.utf8) || (last.Some? && Less(keyEncoding, last.value)) then Err
      else
        var (value, end) :- Decode(utf8, data, next);
        DecodeEntries(utf8, data, end, count - 1, out + [Entry(key.utf8, value)], Some(keyEncoding))
  }

  /** The decoder as the program runs it: offsets and containers advance in loops. */
  method DecodeAt(utf8: Utf8, data: Bytes, offset: nat) returns (r: Result<(Value, nat)>)
    ensures r == Decode(utf8, data, offset)
    decreases |data| - offset
  {
    hide DecodeHead, Less, HasName;
    var head :- DecodeHead(data, offset);
    var (major, arg, start) := head;
    if major == 4 {
      var items: seq<Value>, at := [], start;
      for i := 0 to arg
        invariant start <= at <= |data|
        invariant DecodeItems(utf8, data, at, arg - i, items) == DecodeItems(utf8, data, start, arg, [])
      {
        var item :- DecodeAt(utf8, data, at);
        items, at := items + [item.0], item.1;
      }
      return Ok((Array(items), at));
    }
    if major == 5 {
      var entries: seq<Entry>, at := [], start;
      var last := None;
      for i := 0 to arg
        invariant start <= at <= |data|
        invariant DecodeEntries(utf8, data, at, arg - i, entries, last) == DecodeEntries(utf8, data, start, arg, [], None)
      {
        var decodedKey :- DecodeAt(utf8, data, at);
        var (key, next) := decodedKey;
        var keyEncoding := data[at..next];
        if !key.Text? || HasName(entries, key.utf8) || (last.Some? && Less(keyEncoding, last.value)) {
          return Err;
        }
        last := Some(keyEncoding);
        var value :- DecodeAt(utf8, data, next);
        entries, at := entries + [Entry(key.utf8, value.0)], value.1;
      }
      return Ok((Dict(entries), at));
    }
    return Decode(utf8, data, offset);
  }

  // ----- heads -----

  lemma BytesFit(n: nat, count: nat)
    requires n < Power(256, count)
    ensures BytesToInt(IntToBytes(n, count)) == n
  {
    DigitsRoundTrip(256, n, count);
  }

  lemma BytesOfInt(b: Bytes)
    ensures IntToBytes(BytesToInt(b), |b|) == b && BytesToInt(b) < Power(256, |b|)
    ensures |b| == 1 ==> b == [BytesToInt(b)]
  {
    ValueRoundTrip(256, b);
    if |b| == 1 { OneByte(b[0]); }
  }

  lemma OneByte(b: byte)
    ensures BytesToInt([b]) == b
  {
    FromDigitsSnoc(256, [], b);
    assert [] + [b] == [b];
  }

  lemma Powers()
    ensures Power(256, 1) == 0x100 && Power(256, 2) == 0x1_0000
    ensures Power(256, 4) == 0x1_0000_0000 && Power(256, 8) == U64_LIMIT
  {
  }

  /** A head that stands in the data decodes to what was encoded. */
  lemma HeadDecodes(data: Bytes, offset: nat, major: nat, n: nat)
    requires major < 8 && n < U64_LIMIT
    requires offset + |Head(major, n)| <= |data| && data[offset..offset + |Head(major, n)|] == Head(major, n)
    ensures DecodeHead(data, offset) == Ok((major, n, offset + |Head(major, n)|))
  {
    hide BytesToInt, IntToBytes, Power;
    var h := Head(major, n);
    Powers();
    assert data[offset] == h[0];
    assert data[offset + 1..offset + |h|] == h[1..];
    if 24 <= n <= 0xFF {
      OneByte(n);
      assert h[1..] == [n];
    } else if n > 0xFF {
      BytesFit(n, |h| - 1);
    }
  }

  /** A head that decodes is the shortest head of its argument. */
  lemma HeadExact(data: Bytes, offset: nat)
    requires DecodeHead(data, offset).Ok?
    ensures var (major, arg, end) := DecodeHead(data, offset).value;
      arg < U64_LIMIT && data[offset..end] == Head(major, arg)
  {
    hide BytesToInt, IntToBytes, Power, ToDigits, FromDigits;
    var (major, arg, end) := DecodeHead(data, offset).value;
    Powers();
    var tail := data[offset + 1..end];
    BytesOfInt(tail);
    assert data[offset..end] == [data[offset]] + tail;
  }

  lemma KeyBytesInjective(a: Bytes, b: Bytes)
    requires |a| < U64_LIMIT && |b| < U64_LIMIT && KeyBytes(a) == KeyBytes(b)
    ensures a == b
  {
    var k := KeyBytes(a);
    assert k[..|Head(3, |a|)|] == Head(3, |a|) && k[..|Head(3, |b|)|] == Head(3, |b|);
    HeadDecodes(k, 0, 3, |a|);
    HeadDecodes(k, 0, 3, |b|);
    assert k[|Head(3, |a|)|..] == a && k[|Head(3, |b|)|..] == b;
  }

  // ----- canonical values -----

  /** Every dict is listed in ascending order of encoded keys, and all text is valid UTF-8. */
  predicate IsCanonical(utf8: Utf8, v: Value)
    decreases v
  {
    match v
    case Text(t) => utf8(t)
    case Array(items) => forall x <- items :: IsCanonical(utf8, x)
    case Dict(entries) =>
      && (forall x <- entries :: utf8(x.name) && |x.name| < U64_LIMIT && IsCanonical(utf8, x.value))
      && AscendingNames(entries)
    case _ => true
  }

  predicate AscendingNames(entries: seq<Entry>) {
    forall i :: 0 <= i < |entries| - 1 ==> Less(KeyBytes(entries[i].name), KeyBytes(entries[i + 1].name))
  }

  /** What Python guarantees of a value: dict keys are distinct, text encodes to UTF-8. */
  predicate IsPrimitive(utf8: Utf8, v: Value)
    decreases v
  {
    match v
    case Text(t) => utf8(t)
    case Array(items) => forall x <- items :: IsPrimitive(utf8, x)
    case Dict(entries) =>
      && (forall x <- entries :: utf8(x.name) && |x.name| < U64_LIMIT && IsPrimitive(utf8, x.value))
      && (forall i, j :: 0 <= i < j < |entries| ==> entries[i].name != entries[j].name)
    case _ => true
  }

  function WithKeys(entries: seq<Entry>): (s: seq<Keyed<Entry>>)
    ensures |s| == |entries| && forall i :: 0 <= i < |s| ==> s[i] == Keyed(KeyBytes(entries[i].name), entries[i])
  {
    seq(|entries|, i requires 0 <= i < |entries| => Keyed(KeyBytes(entries[i].name), entries[i]))
  }

  function Values(s: seq<Keyed<Entry>>): (entries: seq<Entry>)
    ensures |entries| == |s| && forall i :: 0 <= i < |s| ==> entries[i] == s[i].value
  {
    seq(|s|, i requires 0 <= i < |s| => s[i].value)
  }

  /** The same Python value with every dict listed in canonical order: equality of dicts ignores order. */
  function Normalize(v: Value): (n: Value)
    decreases v, 1
  {
    match v
    case Array(items) => Array(NormalizeItems(items))
    case Dict(entries) => Dict(Values(Sort(WithKeys(NormalizeEntries(entries)))))
    case _ => v
  }

  function NormalizeItems(items: seq<Value>): (r: seq<Value>)
    ensures |r| == |items| && forall i :: 0 <= i < |r| ==> r[i] == Normalize(items[i])
    decreases items, 0
  {
    if items == [] then [] else [Normalize(items[0])] + NormalizeItems(items[1..])
  }

  function NormalizeEntries(entries: seq<Entry>): (r: seq<Entry>)
    ensures |r| == |entries|
    ensures forall i :: 0 <= i < |r| ==> r[i] == Entry(entries[i].name, Normalize(entries[i].value))
    decreases entries, 0
  {
    if entries == [] then []
    else [Entry(entries[0].name, Normalize(entries[0].value))] + NormalizeEntries(entries[1..])
  }

  // ----- encoding and sorting commute -----

  function PartOf(x: Keyed<Entry>): (p: Keyed<Bytes>) {
    Keyed(x.key, match Encode(x.value.value) case Ok(b) => b case Err => [])
  }

  function PartsOf(s: seq<Keyed<Entry>>): (p: seq<Keyed<Bytes>>)
    ensures |p| == |s| && forall i :: 0 <= i < |s| ==> p[i] == PartOf(s[i])
  {
    seq(|s|, i requires 0 <= i < |s| => PartOf(s[i]))
  }

  lemma {:induction false} InsertCommutes(s: seq<Keyed<Entry>>, x: Keyed<Entry>)
    ensures PartsOf(Insert(s, x)) == Insert(PartsOf(s), PartOf(x))
  {
    hide Less, Encode;
    if s != [] {
      var init := s[..|s| - 1];
      InsertCommutes(init, x);
      assert PartsOf(s)[..|s| - 1] == PartsOf(init);
    }
  }

  lemma {:induction false} SortCommutes(s: seq<Keyed<Entry>>)
    ensures PartsOf(Sort(s)) == Sort(PartsOf(s))
  {
    hide Encode;
    if s != [] {
      var init := s[..|s| - 1];
      SortCommutes(init);
      assert PartsOf(s)[..|s| - 1] == PartsOf(init);
      InsertCommutes(Sort(init), s[|s| - 1]);
    }
  }

  predicate EntryEncodes(x: Entry) {
    |x.name| < U64_LIMIT && Encode(x.value).Ok?
  }

  lemma PartsCons(entries: seq<Entry>)
    requires entries != []
    ensures PartsOf(WithKeys(entries)) == [PartOf(Keyed(KeyBytes(entries[0].name), entries[0]))] + PartsOf(WithKeys(entries[1..]))
  {
    hide KeyBytes, Encode, PartOf;
  }

  predicate AllEncode(entries: seq<Entry>) {
    forall i :: 0 <= i < |entries| ==> EntryEncodes(entries[i])
  }

  lemma AllEncodeCons(entries: seq<Entry>)
    requires entries != []
    ensures AllEncode(entries) <==> EntryEncodes(entries[0]) && AllEncode(entries[1..])
  {
    hide EntryEncodes;
    var rest := entries[1..];
    assert forall i :: 0 <= i < |rest| ==> rest[i] == entries[i + 1];
    if EntryEncodes(entries[0]) && AllEncode(rest) {
      forall i | 0 <= i < |entries| ensures EntryEncodes(entries[i]) { if i > 0 { assert EntryEncodes(rest[i - 1]); } }
    }
  }

  /** Entries encode when each of them does, each to its part. */
  lemma {:induction false} EntriesEncode(entries: seq<Entry>)
    ensures EncodeEntries(entries).Ok? <==> AllEncode(entries)
    ensures EncodeEntries(entries).Ok? ==> EncodeEntries(entries).value == PartsOf(WithKeys(entries))
  {
    hide Encode, Head, AllEncode;
    if entries == [] {
      NoneEncode();
    } else {
      EntriesEncode(entries[1..]);
      AllEncodeCons(entries);
      PartsCons(entries);
      hide PartsOf;
    }
  }

  lemma NoneEncode()
    ensures AllEncode([]) && PartsOf(WithKeys([])) == []
  {
  }

  // ----- normal forms -----

  lemma NamesDistinctKeys(entries: seq<Entry>)
    requires forall i, j :: 0 <= i < j < |entries| ==> entries[i].name != entries[j].name
    requires forall i :: 0 <= i < |entries| ==> |entries[i].name| < U64_LIMIT
    ensures DistinctKeys(WithKeys(entries))
  {
    forall i, j | 0 <= i < j < |entries| ensures WithKeys(entries)[i].key != WithKeys(entries)[j].key {
      if KeyBytes(entries[i].name) == KeyBytes(entries[j].name) {
        KeyBytesInjective(entries[i].name, entries[j].name);
      }
    }
  }

  /** Sorting keyed entries keeps each entry's key and the membership. */
  lemma SortedEntries(entries: seq<Entry>)
    ensures WithKeys(Values(Sort(WithKeys(entries)))) == Sort(WithKeys(entries))
    ensures forall x :: x in Values(Sort(WithKeys(entries))) <==> x in entries
  {
    hide KeyBytes, Sort;
    var s, t := WithKeys(entries), Sort(WithKeys(entries));
    SortMembers(s);
    forall i | 0 <= i < |t| ensures t[i].key == KeyBytes(t[i].value.name) && t[i].value in entries {
      assert t[i] in s;
    }
    assert WithKeys(Values(t)) == t;
    forall x | x in entries ensures x in Values(t) {
      var i :| 0 <= i < |entries| && entries[i] == x;
      assert s[i] in t;
      var j :| 0 <= j < |t| && t[j] == s[i];
      assert Values(t)[j] == x;
    }
  }

  /** Normal forms are canonical. */
  lemma {:induction false} NormalizeIsCanonical(utf8: Utf8, v: Value)
    requires IsPrimitive(utf8, v)
    ensures IsCanonical(utf8, Normalize(v))
    decreases v
  {
    match v {
      case Array(items) =>
        forall x | x in NormalizeItems(items) ensures IsCanonical(utf8, x) {
          var i :| 0 <= i < |items| && NormalizeItems(items)[i] == x;
          NormalizeIsCanonical(utf8, items[i]);
        }
      case Dict(entries) =>
        var es := NormalizeEntries(entries);
        var sorted := Values(Sort(WithKeys(es)));
        forall x | x in es ensures utf8(x.name) && |x.name| < U64_LIMIT && IsCanonical(utf8, x.value) {
          var i :| 0 <= i < |es| && es[i] == x;
          assert entries[i] in entries;
          NormalizeIsCanonical(utf8, entries[i].value);
        }
        SortedEntries(es);
        NamesDistinctKeys(es);
        SortAscending(WithKeys(es));
        AscendingFromKeys(sorted);
      case _ =>
    }
  }

  lemma AscendingFromKeys(entries: seq<Entry>)
    ensures AscendingNames(entries) <==> Ascending(WithKeys(entries))
  {
    hide Less;
    var s := WithKeys(entries);
    forall i | 0 <= i < |entries| - 1
      ensures Less(s[i].key, s[i + 1].key) <==> Less(KeyBytes(entries[i].name), KeyBytes(entries[i + 1].name)) {}
  }

  /** A canonical value is a possible Python value, and its own normal form. */
  lemma {:induction false} CanonicalIsNormal(utf8: Utf8, v: Value)
    requires IsCanonical(utf8, v)
    ensures IsPrimitive(utf8, v) && Normalize(v) == v
    decreases v
  {
    hide KeyBytes, Less, Sort;
    match v {
      case Array(items) =>
        forall i | 0 <= i < |items| ensures IsPrimitive(utf8, items[i]) && Normalize(items[i]) == items[i] {
          assert items[i] in items;
          CanonicalIsNormal(utf8, items[i]);
        }
        assert NormalizeItems(items) == items;
      case Dict(entries) =>
        forall i | 0 <= i < |entries|
          ensures IsPrimitive(utf8, entries[i].value) && Normalize(entries[i].value) == entries[i].value
        {
          assert entries[i] in entries;
          CanonicalIsNormal(utf8, entries[i].value);
        }
        assert NormalizeEntries(entries) == entries;
        AscendingFromKeys(entries);
        SortOfAscending(WithKeys(entries));
        assert Values(WithKeys(entries)) == entries;
        forall i, j | 0 <= i < j < |entries| ensures entries[i].name != entries[j].name {
          AscendingAll(WithKeys(entries), i, j);
          LessAsymmetric(KeyBytes(entries[i].name), KeyBytes(entries[j].name));
        }
      case _ =>
    }
  }

  /** The encoding of a value is that of its normal form. */
  lemma {:induction false} EncodeNormalize(utf8: Utf8, v: Value)
    requires IsPrimitive(utf8, v) && Encode(v).Ok?
    ensures Encode(Normalize(v)) == Encode(v)
    decreases v, 1
  {
    hide EncodeEntries, Head, KeyBytes, Join, Sort;
    match v {
      case Array(items) => EncodeNormalizeItems(utf8, items);
      case Dict(entries) =>
        var es := NormalizeEntries(entries);
        EncodeDictShape(entries);
        EntriesEncode(entries);
        forall i | 0 <= i < |es| ensures EntryEncodes(es[i]) && Encode(es[i].value) == Encode(entries[i].value) {
          assert entries[i] in entries && EntryEncodes(entries[i]);
          EncodeNormalize(utf8, entries[i].value);
        }
        EncodeNormalEntries(entries, es);
      case _ =>
    }
  }

  /** Normalising and sorting the entries of a dict keeps its encoding. */
  lemma EncodeNormalEntries(entries: seq<Entry>, es: seq<Entry>)
    requires AllEncode(entries) && AllEncode(es) && |es| == |entries| < U64_LIMIT
    requires forall i :: 0 <= i < |es| ==> es[i].name == entries[i].name && Encode(es[i].value) == Encode(entries[i].value)
    requires forall i, j :: 0 <= i < j < |entries| ==> entries[i].name != entries[j].name
    ensures Encode(Dict(Values(Sort(WithKeys(es))))) == Encode(Dict(entries))
  {
    hide Encode, EncodeEntries, Sort, Join, Head, KeyBytes;
    EntriesEncode(entries);
    EncodeDictShape(entries);
    assert PartsOf(WithKeys(es)) == PartsOf(WithKeys(entries));
    EncodeSorted(es);
    EncodeDictShape(Values(Sort(WithKeys(es))));
  }

  lemma {:induction false} EncodeNormalizeItems(utf8: Utf8, items: seq<Value>)
    requires (forall x <- items :: IsPrimitive(utf8, x)) && EncodeItems(items).Ok?
    ensures EncodeItems(NormalizeItems(items)) == EncodeItems(items)
    decreases items, 0
  {
    if items != [] {
      EncodeNormalize(utf8, items[0]);
      EncodeNormalizeItems(utf8, items[1..]);
      assert NormalizeItems(items)[1..] == NormalizeItems(items[1..]);
    }
  }

  /** Listing entries with distinct names in sorted order does not change their encoding. */
  lemma EncodeSorted(es: seq<Entry>)
    requires AllEncode(es)
    requires forall i, j :: 0 <= i < j < |es| ==> es[i].name != es[j].name
    ensures EncodeEntries(Values(Sort(WithKeys(es)))).Ok?
    ensures Sort(EncodeEntries(Values(Sort(WithKeys(es)))).value) == Sort(PartsOf(WithKeys(es)))
  {
    hide Encode, EncodeEntries;
    var sorted := Values(Sort(WithKeys(es)));
    SortedEntries(es);
    forall i | 0 <= i < |sorted| ensures EntryEncodes(sorted[i]) { assert sorted[i] in sorted; }
    EntriesEncode(sorted);
    SortCommutes(WithKeys(es));
    NamesDistinctKeys(es);
    PartsDistinct(WithKeys(es));
    SortAscending(PartsOf(WithKeys(es)));
    SortOfAscending(Sort(PartsOf(WithKeys(es))));
  }

  lemma PartsDistinct(s: seq<Keyed<Entry>>)
    requires DistinctKeys(s)
    ensures DistinctKeys(PartsOf(s))
  {
    hide Encode;
  }

  // ----- decoding what was encoded -----

  /** `b` stands in `data` at `offset`. */
  predicate At(data: Bytes, offset: nat, b: Bytes) {
    offset + |b| <= |data| && data[offset..offset + |b|] == b
  }

  lemma AtSplit(data: Bytes, offset: nat, a: Bytes, b: Bytes)
    requires At(data, offset, a + b)
    ensures At(data, offset, a) && At(data, offset + |a|, b)
  {
    var s := data[offset..offset + |a + b|];
    assert s[..|a|] == data[offset..offset + |a|];
    assert s[|a|..] == data[offset + |a|..offset + |a| + |b|];
  }

  lemma AtJoin(data: Bytes, offset: nat, mid: nat, end: nat)
    requires offset <= mid <= end <= |data|
    ensures data[offset..end] == data[offset..mid] + data[mid..end]
  {
  }

  lemma SimpleHeads(data: Bytes, offset: nat, n: nat)
    requires 20 <= n <= 22 && At(data, offset, [0xE0 + n])
    ensures DecodeHead(data, offset) == Ok((7, n, offset + 1))
  {
    assert data[offset] == data[offset..offset + 1][0];
  }

  lemma TextDecodes(utf8: Utf8, data: Bytes, offset: nat, name: Bytes)
    requires utf8(name) && |name| < U64_LIMIT && At(data, offset, KeyBytes(name))
    ensures Decode(utf8, data, offset) == Ok((Text(name), offset + |KeyBytes(name)|))
  {
    hide Head, DecodeHead, Decode, At, KeyBytes;
    KeyParts(data, offset, name);
    DecodeTextShape(utf8, data, offset, |name|, offset + |Head(3, |name|)|);
  }

  lemma KeyParts(data: Bytes, offset: nat, name: Bytes)
    requires |name| < U64_LIMIT && At(data, offset, KeyBytes(name))
    ensures var start := offset + |Head(3, |name|)|;
      && DecodeHead(data, offset) == Ok((3, |name|, start)) && offset + |KeyBytes(name)| == start + |name| <= |data|
      && data[start..start + |name|] == name
  {
    hide Head, DecodeHead;
    AtSplit(data, offset, Head(3, |name|), name);
    HeadDecodes(data, offset, 3, |name|);
  }

  lemma DecodeTextShape(utf8: Utf8, data: Bytes, offset: nat, n: nat, start: nat)
    requires DecodeHead(data, offset) == Ok((3, n, start)) && start + n <= |data| && utf8(data[start..start + n])
    ensures Decode(utf8, data, offset) == Ok((Text(data[start..start + n]), start + n))
  {
    hide DecodeHead, DecodeItems, DecodeEntries;
  }

  // The shapes of one encoding or decoding step.

  lemma EncodeArrayShape(items: seq<Value>)
    ensures Encode(Array(items)).Ok? <==> EncodeItems(items).Ok? && |items| < U64_LIMIT
    ensures Encode(Array(items)).Ok? ==> Encode(Array(items)).value == Head(4, |items|) + EncodeItems(items).value
  {
    hide Head, EncodeItems;
  }

  lemma EncodeDictShape(es: seq<Entry>)
    ensures Encode(Dict(es)).Ok? <==> EncodeEntries(es).Ok? && |es| < U64_LIMIT
    ensures Encode(Dict(es)).Ok? ==> Encode(Dict(es)).value == Head(5, |es|) + Join(Sort(EncodeEntries(es).value))
  {
    hide Head, EncodeEntries, Sort, Join;
  }

  lemma EncodeItemsShape(items: seq<Value>)
    requires items != []
    ensures EncodeItems(items).Ok? <==> Encode(items[0]).Ok? && EncodeItems(items[1..]).Ok?
    ensures EncodeItems(items).Ok? ==> EncodeItems(items).value == Encode(items[0]).value + EncodeItems(items[1..]).value
  {
    hide Encode;
  }

  lemma EncodeEntriesShape(es: seq<Entry>)
    requires es != []
    ensures EncodeEntries(es).Ok? <==> EntryEncodes(es[0]) && EncodeEntries(es[1..]).Ok?
    ensures EncodeEntries(es).Ok? ==> EncodeEntries(es).value[1..] == EncodeEntries(es[1..]).value
    ensures EncodeEntries(es).Ok? ==> Join(EncodeEntries(es).value)
                                      == KeyBytes(es[0].name) + Encode(es[0].value).value + Join(EncodeEntries(es[1..]).value)
  {
    hide Encode, Head;
  }

  lemma DecodeArrayShape(utf8: Utf8, data: Bytes, offset: nat, n: nat, start: nat)
    requires DecodeHead(data, offset) == Ok((4, n, start))
    ensures Decode(utf8, data, offset) ==
      match DecodeItems(utf8, data, start, n, []) case Ok(r) => Ok((Array(r.0), r.1)) case Err => Err
  {
    hide DecodeHead, DecodeItems;
  }

  lemma DecodeDictShape(utf8: Utf8, data: Bytes, offset: nat, n: nat, start: nat)
    requires DecodeHead(data, offset) == Ok((5, n, start))
    ensures Decode(utf8, data, offset) ==
      match DecodeEntries(utf8, data, start, n, [], None) case Ok(r) => Ok((Dict(r.0), r.1)) case Err => Err
  {
    hide DecodeHead, DecodeEntries;
  }

  lemma DecodeItemsShape(utf8: Utf8, data: Bytes, offset: nat, count: nat, out: seq<Value>)
    requires offset <= |data| && count > 0
    ensures DecodeItems(utf8, data, offset, count, out) ==
      match Decode(utf8, data, offset)
      case Ok(r) => DecodeItems(utf8, data, r.1, count - 1, out + [r.0])
      case Err => Err
  {
    hide Decode;
  }

  lemma DecodeEntriesShape(utf8: Utf8, data: Bytes, offset: nat, count: nat, out: seq<Entry>, last: Option<Bytes>)
    requires offset <= |data| && count > 0
    ensures DecodeEntries(utf8, data, offset, count, out, last) ==
      match Decode(utf8, data, offset)
      case Err => Err
      case Ok(k) =>
        if !k.0.Text? || HasName(out, k.0.utf8) || (last.Some? && Less(data[offset..k.1], last.value)) then Err
        else match Decode(utf8, data, k.1)
             case Err => Err
             case Ok(v) => DecodeEntries(utf8, data, v.1, count - 1, out + [Entry(k.0.utf8, v.0)], Some(data[offset..k.1]))
  {
    hide Decode, HasName, Less;
  }

  /** Values without parts. */
  lemma DecodeEncodedLeaf(utf8: Utf8, data: Bytes, offset: nat, v: Value, b: Bytes)
    requires IsCanonical(utf8, v) && Encode(v) == Ok(b) && At(data, offset, b) && !v.Array? && !v.Dict?
    ensures Decode(utf8, data, offset) == Ok((v, offset + |b|))
  {
    hide Head, DecodeHead;
    match v {
      case Null => SimpleHeads(data, offset, 22);
      case Bool(x) => SimpleHeads(data, offset, if x then 21 else 20);
      case Int(i) => HeadDecodes(data, offset, if i >= 0 then 0 else 1, if i >= 0 then i else -1 - i);
      case Blob(bytes) =>
        AtSplit(data, offset, Head(2, |bytes|), bytes);
        HeadDecodes(data, offset, 2, |bytes|);
      case Text(t) => TextDecodes(utf8, data, offset, t);
    }
  }

  /**
    Round trip with any surroundings: wherever the encoding of a canonical value stands in the
    data, decoding there gives the value and the offset just behind it.
    */
  lemma {:induction false} DecodeEncoded(utf8: Utf8, data: Bytes, offset: nat, v: Value, b: Bytes)
    requires IsCanonical(utf8, v) && Encode(v) == Ok(b) && At(data, offset, b)
    ensures Decode(utf8, data, offset) == Ok((v, offset + |b|))
    decreases v, 1
  {
    hide Head, DecodeHead, Decode, Encode, EncodeItems, EncodeEntries, DecodeItems, DecodeEntries, Sort, Join, At;
    match v {
      case Array(items) =>
        EncodeArrayShape(items);
        var h, body := Head(4, |items|), EncodeItems(items).value;
        AtSplit(data, offset, h, body);
        HeadAt(data, offset, 4, |items|);
        DecodeEncodedItems(utf8, data, offset + |h|, items, body, []);
        DecodeArrayShape(utf8, data, offset, |items|, offset + |h|);
        assert [] + items == items;
      case Dict(entries) =>
        EncodeDictShape(entries);
        var h, parts := Head(5, |entries|), EncodeEntries(entries).value;
        CanonicalParts(entries);
        AtSplit(data, offset, h, Join(parts));
        HeadAt(data, offset, 5, |entries|);
        assert [] + entries == entries;
        DecodeEncodedEntries(utf8, data, offset + |h|, entries, []);
        DecodeDictShape(utf8, data, offset, |entries|, offset + |h|);
      case _ => DecodeEncodedLeaf(utf8, data, offset, v, b);
    }
  }

  lemma HeadAt(data: Bytes, offset: nat, major: nat, n: nat)
    requires major < 8 && n < U64_LIMIT && At(data, offset, Head(major, n))
    ensures DecodeHead(data, offset) == Ok((major, n, offset + |Head(major, n)|))
    ensures offset + |Head(major, n)| <= |data|
  {
    HeadDecodes(data, offset, major, n);
  }

  /** Entries in canonical order are encoded in the order they are listed. */
  lemma CanonicalParts(entries: seq<Entry>)
    requires AscendingNames(entries) && EncodeEntries(entries).Ok?
    ensures Sort(EncodeEntries(entries).value) == EncodeEntries(entries).value
  {
    hide Encode, EncodeEntries, KeyBytes, Less;
    EntriesEncode(entries);
    AscendingFromKeys(entries);
    SortOfAscending(PartsOf(WithKeys(entries)));
  }

  lemma {:induction false} DecodeEncodedItems(utf8: Utf8, data: Bytes, offset: nat, items: seq<Value>, b: Bytes, out: seq<Value>)
    requires (forall x <- items :: IsCanonical(utf8, x)) && EncodeItems(items) == Ok(b)
    requires At(data, offset, b) && offset <= |data|
    ensures DecodeItems(utf8, data, offset, |items|, out) == Ok((out + items, offset + |b|))
    decreases items, 0
  {
    hide Decode, Encode, IsCanonical, At;
    if items == [] {
      assert out + items == out;
    } else {
      hide DecodeItems, EncodeItems;
      EncodeItemsShape(items);
      var first, rest := Encode(items[0]).value, EncodeItems(items[1..]).value;
      AtSplit(data, offset, first, rest);
      DecodeEncoded(utf8, data, offset, items[0], first);
      DecodeItemsShape(utf8, data, offset, |items|, out);
      DecodeEncodedItems(utf8, data, offset + |first|, items[1..], rest, out + [items[0]]);
      assert out + [items[0]] + items[1..] == out + items;
    }
  }

  /** The decoder's memory of the previous key. */
  function LastKey(out: seq<Entry>): Option<Bytes> {
    if out == [] then None else Some(KeyBytes(out[|out| - 1].name))
  }

  lemma NextNameIsNew(out: seq<Entry>, es: seq<Entry>)
    requires AscendingNames(out + es) && es != []
    ensures !HasName(out, es[0].name)
    ensures LastKey(out).Some? ==> !Less(KeyBytes(es[0].name), LastKey(out).value)
  {
    hide KeyBytes, Less;
    var all := out + es;
    AscendingFromKeys(all);
    forall i | 0 <= i < |out| ensures !Less(KeyBytes(es[0].name), KeyBytes(out[i].name)) && out[i].name != es[0].name {
      AscendingAll(WithKeys(all), i, |out|);
      LessAsymmetric(KeyBytes(out[i].name), KeyBytes(es[0].name));
    }
  }

  /** One step over an entry that is not refused. */
  lemma DecodeEntriesTake(utf8: Utf8, data: Bytes, offset: nat, count: nat, out: seq<Entry>, last: Option<Bytes>,
                          e: Entry, mid: nat, next: nat)
    requires offset <= |data| && count > 0
    requires Decode(utf8, data, offset) == Ok((Text(e.name), mid)) && Decode(utf8, data, mid) == Ok((e.value, next))
    requires !HasName(out, e.name) && (last.Some? ==> !Less(data[offset..mid], last.value))
    ensures DecodeEntries(utf8, data, offset, count, out, last)
      == DecodeEntries(utf8, data, next, count - 1, out + [e], Some(data[offset..mid]))
  {
    hide Decode, DecodeEntries, HasName, Less;
    DecodeEntriesShape(utf8, data, offset, count, out, last);
  }

  /** The bytes of an entry followed by the bytes of the entries behind it. */
  lemma AtEntry(data: Bytes, offset: nat, k: Bytes, b: Bytes, tail: Bytes)
    requires At(data, offset, k + b + tail)
    ensures At(data, offset, k) && data[offset..offset + |k|] == k
    ensures At(data, offset + |k|, b) && At(data, offset + |k| + |b|, tail)
  {
    AtSplit(data, offset, k + b, tail);
    AtSplit(data, offset, k, b);
  }

  lemma {:induction false} DecodeFirstEntry(utf8: Utf8, data: Bytes, offset: nat, es: seq<Entry>, out: seq<Entry>)
    returns (next: nat)
    requires es != [] && utf8(es[0].name) && |es[0].name| < U64_LIMIT && IsCanonical(utf8, es[0].value)
    requires AscendingNames(out + es) && offset <= |data|
    requires EncodeEntries(es).Ok? && At(data, offset, Join(EncodeEntries(es).value))
    ensures offset <= next <= |data| && EncodeEntries(es[1..]).Ok?
    ensures next + |Join(EncodeEntries(es[1..]).value)| == offset + |Join(EncodeEntries(es).value)|
    ensures At(data, next, Join(EncodeEntries(es[1..]).value))
    ensures DecodeEntries(utf8, data, offset, |es|, out, LastKey(out))
      == DecodeEntries(utf8, data, next, |es| - 1, out + [es[0]], LastKey(out + [es[0]]))
    decreases es, 0
  {
    hide Decode, Encode, IsCanonical, KeyBytes, Less, AscendingNames, HasName, DecodeEntries, EncodeEntries, Join;
    var e := es[0];
    EncodeEntriesShape(es);
    NextNameIsNew(out, es);
    var k, b, tail := KeyBytes(e.name), Encode(e.value).value, Join(EncodeEntries(es[1..]).value);
    AtEntry(data, offset, k, b, tail);
    TextDecodes(utf8, data, offset, e.name);
    DecodeEncoded(utf8, data, offset + |k|, e.value, b);
    next := offset + |k| + |b|;
    DecodeEntriesTake(utf8, data, offset, |es|, out, LastKey(out), e, offset + |k|, next);
  }

  lemma NoMoreEntries(utf8: Utf8, data: Bytes, offset: nat, out: seq<Entry>)
    requires offset <= |data|
    ensures EncodeEntries([]) == Ok([]) && Join([]) == []
    ensures DecodeEntries(utf8, data, offset, 0, out, LastKey(out)) == Ok((out + [], offset))
  {
    assert out + [] == out;
  }

  lemma {:induction false} DecodeEncodedEntries(utf8: Utf8, data: Bytes, offset: nat, es: seq<Entry>, out: seq<Entry>)
    requires forall x <- es :: utf8(x.name) && |x.name| < U64_LIMIT && IsCanonical(utf8, x.value)
    requires AscendingNames(out + es) && offset <= |data|
    requires EncodeEntries(es).Ok? && At(data, offset, Join(EncodeEntries(es).value))
    ensures DecodeEntries(utf8, data, offset, |es|, out, LastKey(out))
      == Ok((out + es, offset + |Join(EncodeEntries(es).value)|))
    decreases es, 1
  {
    hide Decode, Encode, IsCanonical, At, KeyBytes, Less, AscendingNames, DecodeEntries, EncodeEntries, Join, LastKey;
    if es == [] {
      NoMoreEntries(utf8, data, offset, out);
    } else {
      var next := DecodeFirstEntry(utf8, data, offset, es, out);
      assert out + [es[0]] + es[1..] == out + es;
      DecodeEncodedEntries(utf8, data, next, es[1..], out + [es[0]]);
    }
  }

  // ----- only encodings decode -----

  lemma DecodeExactLeaf(utf8: Utf8, data: Bytes, offset: nat)
    requires Decode(utf8, data, offset).Ok? && DecodeHead(data, offset).value.0 !in {4, 5}
    ensures var (v, end) := Decode(utf8, data, offset).value;
      IsCanonical(utf8, v) && Encode(v) == Ok(data[offset..end])
  {
    hide DecodeHead, Head, DecodeItems, DecodeEntries, Encode, IsCanonical;
    var (major, arg, start) := DecodeHead(data, offset).value;
    HeadExact(data, offset);
    if major in {2, 3} {
      AtJoin(data, offset, start, start + arg);
      LeafStrings(utf8, data[start..start + arg]);
    } else {
      LeafScalars(utf8, arg);
      SimpleHeadsOf();
    }
  }

  lemma SimpleHeadsOf()
    ensures Head(7, 20) == [0xF4] && Head(7, 21) == [0xF5] && Head(7, 22) == [0xF6]
  {
  }

  lemma LeafStrings(utf8: Utf8, s: Bytes)
    ensures |s| < U64_LIMIT ==> Encode(Blob(s)) == Ok(Head(2, |s|) + s) && Encode(Text(s)) == Ok(Head(3, |s|) + s)
    ensures IsCanonical(utf8, Blob(s)) && (utf8(s) ==> IsCanonical(utf8, Text(s)))
  {
    hide Head;
  }

  lemma LeafScalars(utf8: Utf8, n: nat)
    requires n < U64_LIMIT
    ensures Encode(Int(n)) == Ok(Head(0, n)) && Encode(Int(-1 - n)) == Ok(Head(1, n))
    ensures Encode(Null) == Ok([0xF6]) && Encode(Bool(false)) == Ok([0xF4]) && Encode(Bool(true)) == Ok([0xF5])
    ensures IsCanonical(utf8, Int(n)) && IsCanonical(utf8, Int(-1 - n))
    ensures IsCanonical(utf8, Null) && IsCanonical(utf8, Bool(false)) && IsCanonical(utf8, Bool(true))
  {
    hide Head;
  }

  /**
    Exactness: whatever decodes, at whatever offset, is a canonical value, and the bytes
    consumed are its encoding.
    */
  lemma {:induction false} DecodeExact(utf8: Utf8, data: Bytes, offset: nat)
    requires Decode(utf8, data, offset).Ok?
    ensures var (v, end) := Decode(utf8, data, offset).value;
      IsCanonical(utf8, v) && Encode(v) == Ok(data[offset..end])
    decreases |data| - offset, 0
  {
    HeadOfDecode(utf8, data, offset);
    hide Head, DecodeHead, Decode, Encode, EncodeItems, EncodeEntries, DecodeItems, DecodeEntries, Sort, Join;
    var (major, arg, start) := DecodeHead(data, offset).value;
    hide IsCanonical;
    if major == 4 {
      DecodeArrayShape(utf8, data, offset, arg, start);
      DecodeItemsExact(utf8, data, start, arg, []);
      ArrayExact(utf8, data, offset, arg, start);
    } else if major == 5 {
      DecodeDictShape(utf8, data, offset, arg, start);
      DecodeEntriesExact(utf8, data, start, arg, [], None);
      DictExact(utf8, data, offset, arg, start);
    } else {
      DecodeExactLeaf(utf8, data, offset);
    }
  }

  /** An array whose items were exact is exact. */
  lemma ArrayExact(utf8: Utf8, data: Bytes, offset: nat, arg: nat, start: nat)
    requires DecodeHead(data, offset) == Ok((4, arg, start)) && start <= |data| && DecodeItems(utf8, data, start, arg, []).Ok?
    requires var (items, end) := DecodeItems(utf8, data, start, arg, []).value;
      |items| == arg && (forall i :: 0 <= i < |items| ==> IsCanonical(utf8, items[i]))
      && EncodeItems(items[0..]) == Ok(data[start..end])
    ensures var (items, end) := DecodeItems(utf8, data, start, arg, []).value;
      IsCanonical(utf8, Array(items)) && Encode(Array(items)) == Ok(data[offset..end])
  {
    HeadExact(data, offset);
    hide Head, DecodeHead, Encode, EncodeItems, DecodeItems;
    var (items, end) := DecodeItems(utf8, data, start, arg, []).value;
    AtJoin(data, offset, start, end);
    assert items[0..] == items;
    EncodeArrayShape(items);
  }

  /** A dict whose entries were exact and in order is exact. */
  lemma DictExact(utf8: Utf8, data: Bytes, offset: nat, arg: nat, start: nat)
    requires DecodeHead(data, offset) == Ok((5, arg, start)) && start <= |data| && DecodeEntries(utf8, data, start, arg, [], None).Ok?
    requires var (es, end) := DecodeEntries(utf8, data, start, arg, [], None).value;
      |es| == arg && AscendingNames(es)
      && (forall i :: 0 <= i < |es| ==> utf8(es[i].name) && |es[i].name| < U64_LIMIT && IsCanonical(utf8, es[i].value))
      && EncodeEntries(es[0..]).Ok? && Join(EncodeEntries(es[0..]).value) == data[start..end]
    ensures var (es, end) := DecodeEntries(utf8, data, start, arg, [], None).value;
      IsCanonical(utf8, Dict(es)) && Encode(Dict(es)) == Ok(data[offset..end])
  {
    HeadExact(data, offset);
    hide Head, DecodeHead, Encode, EncodeEntries, DecodeEntries, Sort, Join, AscendingNames;
    var (es, end) := DecodeEntries(utf8, data, start, arg, [], None).value;
    AtJoin(data, offset, start, end);
    assert es[0..] == es;
    EncodeDictShape(es);
    CanonicalParts(es);
  }

  lemma HeadOfDecode(utf8: Utf8, data: Bytes, offset: nat)
    requires Decode(utf8, data, offset).Ok?
    ensures DecodeHead(data, offset).Ok?
  {
    hide DecodeHead;
  }

  lemma {:induction false} DecodeItemsExact(utf8: Utf8, data: Bytes, offset: nat, count: nat, out: seq<Value>)
    requires offset <= |data| && DecodeItems(utf8, data, offset, count, out).Ok?
    ensures var (items, end) := DecodeItems(utf8, data, offset, count, out).value;
      |items| == |out| + count && items[..|out|] == out
      && (forall i :: |out| <= i < |items| ==> IsCanonical(utf8, items[i]))
      && EncodeItems(items[|out|..]) == Ok(data[offset..end])
    decreases |data| - offset, 1
  {
    hide Decode, Encode, IsCanonical;
    var (items, end) := DecodeItems(utf8, data, offset, count, out).value;
    if count == 0 {
      assert items[|out|..] == [];
    } else {
      DecodeItemsShape(utf8, data, offset, count, out);
      hide DecodeItems, EncodeItems;
      var (item, next) := Decode(utf8, data, offset).value;
      DecodeExact(utf8, data, offset);
      DecodeItemsExact(utf8, data, next, count - 1, out + [item]);
      AtJoin(data, offset, next, end);
      PrefixAndItem(items, out, item);
      EncodeItemsShape(items[|out|..]);
    }
  }

  lemma PrefixAndItem<T>(s: seq<T>, out: seq<T>, x: T)
    requires |out| < |s| && s[..|out| + 1] == out + [x]
    ensures s[..|out|] == out && s[|out|] == x
    ensures s[|out|..][0] == x && s[|out|..][1..] == s[|out| + 1..] == s[|out + [x]|..]
  {
    assert s[..|out|] == s[..|out| + 1][..|out|];
    assert s[|out|] == s[..|out| + 1][|out|];
  }

  lemma {:induction false} DecodeEntriesExact(utf8: Utf8, data: Bytes, offset: nat, count: nat, out: seq<Entry>, last: Option<Bytes>)
    requires offset <= |data| && DecodeEntries(utf8, data, offset, count, out, last).Ok?
    requires AscendingNames(out) && (forall x <- out :: |x.name| < U64_LIMIT) && last == LastKey(out)
    ensures var (es, end) := DecodeEntries(utf8, data, offset, count, out, last).value;
      |es| == |out| + count && es[..|out|] == out && AscendingNames(es)
      && (forall i :: |out| <= i < |es| ==> utf8(es[i].name) && |es[i].name| < U64_LIMIT && IsCanonical(utf8, es[i].value))
      && EncodeEntries(es[|out|..]).Ok? && Join(EncodeEntries(es[|out|..]).value) == data[offset..end]
    decreases |data| - offset, 1
  {
    hide Decode, Encode, IsCanonical, AscendingNames, KeyBytes, Less, HasName;
    var (es, end) := DecodeEntries(utf8, data, offset, count, out, last).value;
    if count == 0 {
      assert es[|out|..] == [];
    } else {
      DecodeEntriesShape(utf8, data, offset, count, out, last);
      hide DecodeEntries, EncodeEntries, Join;
      var (key, next) := Decode(utf8, data, offset).value;
      var (value, mid) := Decode(utf8, data, next).value;
      var e := Entry(key.utf8, value);
      DecodeExact(utf8, data, offset);
      CanonicalText(utf8, key);
      DecodeExact(utf8, data, next);
      AppendAscending(out, e);
      DecodeEntriesExact(utf8, data, mid, count - 1, out + [e], Some(data[offset..next]));
      AtJoin(data, offset, next, mid);
      AtJoin(data, offset, mid, end);
      PrefixAndItem(es, out, e);
      EncodeEntriesShape(es[|out|..]);
    }
  }

  lemma CanonicalText(utf8: Utf8, v: Value)
    requires IsCanonical(utf8, v) && Encode(v).Ok? && v.Text?
    ensures utf8(v.utf8) && |v.utf8| < U64_LIMIT && Encode(v) == Ok(KeyBytes(v.utf8))
  {
    hide Head;
  }

  /** A new name that does not sort before the last one sorts after it. */
  lemma AppendAscending(out: seq<Entry>, e: Entry)
    requires AscendingNames(out) && (forall x <- out :: |x.name| < U64_LIMIT) && |e.name| < U64_LIMIT
    requires !HasName(out, e.name)
    requires LastKey(out).Some? ==> !Less(KeyBytes(e.name), LastKey(out).value)
    ensures AscendingNames(out + [e])
  {
    hide KeyBytes, Less;
    if out != [] {
      var last := out[|out| - 1];
      LessTotal(KeyBytes(e.name), KeyBytes(last.name));
      if KeyBytes(e.name) == KeyBytes(last.name) {
        assert last in out;
        KeyBytesInjective(e.name, last.name);
      }
      forall i | 0 <= i < |out| ensures Less(KeyBytes((out + [e])[i].name), KeyBytes((out + [e])[i + 1].name)) {
        if i < |out| - 1 { assert Less(KeyBytes(out[i].name), KeyBytes(out[i + 1].name)); }
      }
    }
  }

  // ----- what the codec promises -----

  /** `canonical_cbor_loads`: one value, no trailing bytes, and optionally the re-encode check. */
  function Loads(utf8: Utf8, data: Bytes, requireCanonical: bool): (r: Result<Value>) {
    var (value, end) :- Decode(utf8, data, 0);
    if end != |data| then Err
    else if requireCanonical && Encode(value) != Ok(data) then Err
    else Ok(value)
  }

  /** The re-encode check can never fire: with it or without it, loading gives the same result. */
  lemma ReencodeCheckNeverFires(utf8: Utf8, data: Bytes)
    ensures Loads(utf8, data, true) == Loads(utf8, data, false)
  {
    hide Decode, Encode;
    if Decode(utf8, data, 0).Ok? {
      DecodeExact(utf8, data, 0);
      assert data[0..|data|] == data;
    }
  }

  /** Loading accepts exactly the encodings of canonical values. */
  lemma LoadsIffEncoding(utf8: Utf8, data: Bytes, requireCanonical: bool, v: Value)
    ensures Loads(utf8, data, requireCanonical) == Ok(v) <==> (IsCanonical(utf8, v) && Encode(v) == Ok(data))
  {
    hide Decode, Encode, IsCanonical;
    assert data[0..|data|] == data;
    if Loads(utf8, data, requireCanonical) == Ok(v) { DecodeExact(utf8, data, 0); }
    if IsCanonical(utf8, v) && Encode(v) == Ok(data) { DecodeEncoded(utf8, data, 0, v, data); }
  }

  /**
    Round trip: any value Python can hold, encoded and followed by anything, decodes to its
    normal form (an equal Python value) and leaves exactly what followed.
    */
  lemma RoundTrip(utf8: Utf8, v: Value, tail: Bytes)
    requires IsPrimitive(utf8, v) && Encode(v).Ok?
    ensures Decode(utf8, Encode(v).value + tail, 0) == Ok((Normalize(v), |Encode(v).value|))
  {
    hide Decode, Encode, IsCanonical, IsPrimitive, Normalize;
    var b := Encode(v).value;
    EncodeNormalize(utf8, v);
    NormalizeIsCanonical(utf8, v);
    assert (b + tail)[0..|b|] == b;
    DecodeEncoded(utf8, b + tail, 0, Normalize(v), b);
  }

  /** Two values have the same encoding exactly when they are equal up to dict order. */
  lemma EncodingsEqualIffValuesEqual(utf8: Utf8, v: Value, w: Value)
    requires IsPrimitive(utf8, v) && IsPrimitive(utf8, w) && Encode(v).Ok? && Encode(w).Ok?
    ensures Encode(v) == Encode(w) <==> Normalize(v) == Normalize(w)
  {
    hide Decode, Encode, IsCanonical, IsPrimitive, Normalize;
    EncodeNormalize(utf8, v);
    EncodeNormalize(utf8, w);
    RoundTrip(utf8, v, []);
    RoundTrip(utf8, w, []);
  }

  /** No encoding is a proper prefix of another. */
  lemma PrefixFree(utf8: Utf8, v: Value, w: Value)
    requires IsPrimitive(utf8, v) && IsPrimitive(utf8, w) && Encode(v).Ok? && Encode(w).Ok?
    requires Encode(v).value <= Encode(w).value
    ensures Encode(v) == Encode(w)
  {
    hide Decode, Encode, IsCanonical, IsPrimitive, Normalize;
    var a, b := Encode(v).value, Encode(w).value;
    assert b == a + b[|a|..] && b + [] == b;
    RoundTrip(utf8, v, b[|a|..]);
    RoundTrip(utf8, w, []);
  }

  /** The order in which a dict's entries were inserted does not reach its bytes. */
  lemma InsertionOrderIrrelevant(es: seq<Entry>, es': seq<Entry>)
    requires SameMembers(es, es')
    requires forall i, j :: 0 <= i < j < |es| ==> es[i].name != es[j].name
    requires forall i, j :: 0 <= i < j < |es'| ==> es'[i].name != es'[j].name
    ensures Encode(Dict(es)) == Encode(Dict(es'))
  {
    hide Encode, EncodeEntries, Sort, Join, Head, KeyBytes, Less;
    EntriesEncode(es); EntriesEncode(es');
    EncodeDictShape(es); EncodeDictShape(es');
    if AllEncode(es) {
      forall i | 0 <= i < |es'| ensures EntryEncodes(es'[i]) { assert es'[i] in es; }
      SameKeyed(es, es'); SameKeyed(es', es);
      assert SameMembers(WithKeys(es), WithKeys(es'));
      NamesDistinctKeys(es); NamesDistinctKeys(es');
      SortForgetsOrder(WithKeys(es), WithKeys(es'));
      SortCommutes(WithKeys(es)); SortCommutes(WithKeys(es'));
      assert |Sort(WithKeys(es))| == |es| && |Sort(WithKeys(es'))| == |es'|;
    } else {
      var i :| 0 <= i < |es| && !EntryEncodes(es[i]);
      assert es[i] in es';
      var j :| 0 <= j < |es'| && es'[j] == es[i];
      assert !EntryEncodes(es'[j]);
    }
  }

  lemma SameKeyed(es: seq<Entry>, es': seq<Entry>)
    requires forall x <- es :: x in es'
    ensures forall x <- WithKeys(es) :: x in WithKeys(es')
  {
    hide KeyBytes;
    forall x | x in WithKeys(es) ensures x in WithKeys(es') {
      assert x.value in es;
      var j :| 0 <= j < |es'| && es'[j] == x.value;
      assert WithKeys(es')[j] == x;
    }
  }

}
