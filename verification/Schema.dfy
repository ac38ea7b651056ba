/**
  Typed records as canonical maps: the dict a record is turned into, with its absent fields
  dropped, and the look-up of a field in what comes back from the wire.
  */
module Schema {
  import opened Wrappers
  import opened Digits
  import opened Lex
  import opened Canonical
  import opened Hashes

  /** `m.get(name)` */
  function Get(m: seq<Entry>, name: Bytes): (v: Option<Value>) {
    if m == [] then None else if m[0].name == name then Some(m[0].value) else Get(m[1..], name)
  }

  /** The same by a name of the program. */
  function Named(m: seq<Entry>, name: Name): (v: Option<Value>) {
    Get(m, Ascii(name))
  }

  predicate Distinct(m: seq<Entry>) {
    forall i, j :: 0 <= i < j < |m| ==> m[i].name != m[j].name
  }

  /** Look-up finds exactly the entries. */
  lemma {:induction false} GetIff(m: seq<Entry>, e: Entry)
    requires Distinct(m)
    ensures Get(m, e.name) == Some(e.value) <==> e in m
  {
    if m != [] {
      assert m == [m[0]] + m[1..];
      if m[0].name != e.name { GetIff(m[1..], e); }
    }
  }

  lemma {:induction false} GetSome(m: seq<Entry>, name: Bytes)
    requires Get(m, name).Some?
    ensures Entry(name, Get(m, name).value) in m
  {
    if m[0].name != name { GetSome(m[1..], name); }
  }

  /** `None` and empty containers. */
  predicate Absent(v: Value) {
    v == Null || v == Array([]) || v == Dict([])
  }

  function DropAbsent(m: seq<Entry>): (r: seq<Entry>)
    ensures forall e :: e in r <==> e in m && !Absent(e.value)
  {
    if m == [] then []
    else
      assert m == [m[0]] + m[1..];
      (if Absent(m[0].value) then [] else [m[0]]) + DropAbsent(m[1..])
  }

  lemma {:induction false} DropKeepsDistinct(m: seq<Entry>)
    requires Distinct(m)
    ensures Distinct(DropAbsent(m)) && |DropAbsent(m)| <= |m|
  {
    if m != [] {
      DropKeepsDistinct(m[1..]);
      var rest := DropAbsent(m[1..]);
      forall i | 0 <= i < |rest| ensures rest[i].name != m[0].name {
        assert rest[i] in m[1..];
        var j :| 0 <= j < |m[1..]| && m[1..][j] == rest[i];
        assert m[j + 1] == rest[i];
      }
    }
  }

  lemma {:induction false} NothingDropped(m: seq<Entry>)
    ensures |DropAbsent(m)| <= |m|
    ensures DropAbsent(m) == m <==> forall e <- m :: !Absent(e.value)
  {
    hide Absent;
    if m != [] {
      assert m == [m[0]] + m[1..];
      NothingDropped(m[1..]);
      if Absent(m[0].value) { assert m[0] in m && |DropAbsent(m)| < |m|; }
    }
  }

  /** The entries that `Dict(m)` comes back as. */
  function Read(m: seq<Entry>): (r: seq<Entry>) {
    Normalize(Dict(m)).entries
  }

  lemma PrimitiveDistinct(utf8: Utf8, v: Value)
    requires IsPrimitive(utf8, v) && v.Dict?
    ensures Distinct(v.entries)
  {
  }

  lemma NormalizeDict(m: seq<Entry>)
    ensures Normalize(Dict(m)) == Dict(Values(Sort(WithKeys(NormalizeEntries(m)))))
    ensures |Read(m)| == |m|
  {
  }

  /** The entries that come back are the normalized entries, in canonical order. */
  lemma NormalMembers(utf8: Utf8, m: seq<Entry>)
    requires IsPrimitive(utf8, Dict(m))
    ensures Normalize(Dict(m)) == Dict(Read(m)) && Distinct(Read(m)) && AscendingNames(Read(m)) && |Read(m)| == |m|
    ensures forall e <- m :: Entry(e.name, Normalize(e.value)) in Read(m)
    ensures forall n <- Read(m) :: exists e :: e in m && n == Entry(e.name, Normalize(e.value))
  {
    NormalizeDict(m);
    NormalizeIsCanonical(utf8, Dict(m));
    CanonicalIsNormal(utf8, Normalize(Dict(m)));
    PrimitiveDistinct(utf8, Normalize(Dict(m)));
    CanonicalAscending(utf8, Normalize(Dict(m)));
    hide Normalize, NormalizeEntries, Sort, Values, WithKeys, IsPrimitive, IsCanonical, AscendingNames;
    var es := NormalizeEntries(m);
    SortedEntries(es);
    forall e | e in m ensures Entry(e.name, Normalize(e.value)) in Read(m) {
      var i :| 0 <= i < |m| && m[i] == e;
      assert es[i] == Entry(e.name, Normalize(e.value));
    }
    forall n | n in Read(m) ensures exists e :: e in m && n == Entry(e.name, Normalize(e.value)) {
      assert n in es;
      var i :| 0 <= i < |es| && es[i] == n;
      assert m[i] in m;
    }
  }

  lemma CanonicalAscending(utf8: Utf8, v: Value)
    requires IsCanonical(utf8, v) && v.Dict?
    ensures AscendingNames(v.entries)
  {
  }

  /** A field of a dict reads back as its canonical value. */
  lemma FieldReads(utf8: Utf8, m: seq<Entry>, e: Entry)
    requires IsPrimitive(utf8, Dict(m)) && e in m
    ensures Get(Read(m), e.name) == Some(Normalize(e.value))
  {
    hide Normalize, IsPrimitive;
    NormalMembers(utf8, m);
    GetIff(Read(m), Entry(e.name, Normalize(e.value)));
  }

  /** What is read back was a field. */
  lemma ReadFrom(utf8: Utf8, m: seq<Entry>, name: Bytes)
    requires IsPrimitive(utf8, Dict(m))
    ensures Get(Read(m), name).Some? ==> exists d <- m :: d.name == name
  {
    hide Normalize, IsPrimitive;
    NormalMembers(utf8, m);
    if Get(Read(m), name).Some? {
      GetSome(Read(m), name);
      var d :| d in m && Entry(name, Get(Read(m), name).value) == Entry(d.name, Normalize(d.value));
    }
  }

  lemma DropKeepsPrimitive(utf8: Utf8, m: seq<Entry>)
    requires IsPrimitive(utf8, Dict(m))
    ensures IsPrimitive(utf8, Dict(DropAbsent(m)))
  {
    hide Absent;
    DropKeepsDistinct(m);
  }

  /**
    A field survives the wire: it reads back as its canonical value, and as nothing when it was
    dropped.
    */
  lemma FieldSurvives(utf8: Utf8, m: seq<Entry>, e: Entry)
    requires IsPrimitive(utf8, Dict(m)) && e in m
    ensures Get(Read(DropAbsent(m)), e.name) == if Absent(e.value) then None else Some(Normalize(e.value))
  {
    hide Normalize, IsPrimitive, DropAbsent;
    DropKeepsPrimitive(utf8, m);
    if Absent(e.value) {
      PrimitiveDistinct(utf8, Dict(m));
      ReadFrom(utf8, DropAbsent(m), e.name);
      SameName(m, e);
    } else {
      FieldReads(utf8, DropAbsent(m), e);
    }
  }

  lemma SameName(m: seq<Entry>, e: Entry)
    requires Distinct(m) && e in m
    ensures forall d <- m :: d.name == e.name ==> d == e
  {
  }

  /** The bytes of a value load as its canonical form. */
  lemma ValueLoads(utf8: Utf8, v: Value)
    requires IsPrimitive(utf8, v) && Encode(v).Ok?
    ensures Loads(utf8, Encode(v).value, true) == Ok(Normalize(v))
  {
    hide Encode, Normalize, IsPrimitive, IsCanonical, Loads;
    EncodeNormalize(utf8, v);
    NormalizeIsCanonical(utf8, v);
    LoadsIffEncoding(utf8, Encode(v).value, true, Normalize(v));
  }

  // ----- canonical order -----

  /** `m` without one key. */
  function Without(m: seq<Entry>, name: Bytes): (r: seq<Entry>)
    ensures forall e :: e in r <==> e in m && e.name != name
  {
    if m == [] then []
    else
      assert m == [m[0]] + m[1..];
      (if m[0].name == name then [] else [m[0]]) + Without(m[1..], name)
  }

  lemma AscendingHead(m: seq<Entry>)
    requires AscendingNames(m) && m != []
    ensures AscendingNames(m[1..]) && forall e <- m[1..] :: Less(KeyBytes(m[0].name), KeyBytes(e.name))
  {
    hide Less, KeyBytes;
    AscendingFromKeys(m);
    forall e | e in m[1..] ensures Less(KeyBytes(m[0].name), KeyBytes(e.name)) {
      var j :| 0 <= j < |m[1..]| && m[1..][j] == e;
      AscendingAll(WithKeys(m), 0, j + 1);
    }
  }

  lemma AscendingCons(e: Entry, rest: seq<Entry>)
    requires AscendingNames(rest) && (rest != [] ==> Less(KeyBytes(e.name), KeyBytes(rest[0].name)))
    ensures AscendingNames([e] + rest)
  {
    hide Less, KeyBytes;
  }

  lemma {:induction false} DropAscending(m: seq<Entry>)
    requires AscendingNames(m)
    ensures AscendingNames(DropAbsent(m))
  {
    hide Less, KeyBytes, AscendingNames, Absent;
    if m != [] {
      AscendingHead(m);
      DropAscending(m[1..]);
      var rest := DropAbsent(m[1..]);
      if rest != [] { assert rest[0] in m[1..]; }
      if Absent(m[0].value) { assert DropAbsent(m) == rest; } else { AscendingCons(m[0], rest); }
    } else {
      assert DropAbsent(m) == m;
    }
  }

  lemma {:induction false} WithoutAscending(m: seq<Entry>, name: Bytes)
    requires AscendingNames(m)
    ensures AscendingNames(Without(m, name))
  {
    hide Less, KeyBytes, AscendingNames;
    if m != [] {
      AscendingHead(m);
      WithoutAscending(m[1..], name);
      var rest := Without(m[1..], name);
      if rest != [] { assert rest[0] in m[1..]; }
      if m[0].name == name { assert Without(m, name) == rest; } else { AscendingCons(m[0], rest); }
    } else {
      assert Without(m, name) == m;
    }
  }

  /** Entries in canonical order are determined by their members. */
  lemma AscendingSame(a: seq<Entry>, b: seq<Entry>)
    requires AscendingNames(a) && AscendingNames(b) && SameMembers(a, b)
    ensures a == b
  {
    hide Less, KeyBytes;
    AscendingFromKeys(a);
    AscendingFromKeys(b);
    SameKeyed(a, b);
    SameKeyed(b, a);
    AscendingUnique(WithKeys(a), WithKeys(b));
    forall i | 0 <= i < |a| ensures a[i] == b[i] { assert WithKeys(a)[i] == WithKeys(b)[i]; }
  }

  // ----- records of a fixed list of fields -----

  /** `{name: value, ...}` */
  function Zip(names: seq<Name>, values: seq<Value>): (m: seq<Entry>)
    requires |names| == |values|
    ensures |m| == |names| && forall i :: 0 <= i < |m| ==> m[i] == Entry(Ascii(names[i]), values[i])
  {
    seq(|names|, i requires 0 <= i < |names| => Entry(Ascii(names[i]), values[i]))
  }

  /** A record with all its fields. */
  function Full(names: seq<Name>, values: seq<Value>): (v: Value)
    requires |names| == |values|
  {
    Dict(Zip(names, values))
  }

  /** A record without its absent fields. */
  function Record(names: seq<Name>, values: seq<Value>): (v: Value)
    requires |names| == |values|
  {
    Dict(DropAbsent(Zip(names, values)))
  }

  /** ASCII text is valid UTF-8. */
  ghost predicate TakesAscii(utf8: Utf8) {
    forall s: Name :: utf8(Ascii(s))
  }

  /** Length, first and last letter. */
  function Tag(s: Name): (t: (nat, char, char)) {
    if s == "" then (0, ' ', ' ') else (|s|, s[0], s[|s| - 1])
  }

  /** Short names that differ in length, first or last letter. */
  predicate Telling(names: seq<Name>) {
    && (forall i :: 0 <= i < |names| ==> Tag(names[i]).0 < 100)
    && forall i, j :: 0 <= i < j < |names| ==> Tag(names[i]) != Tag(names[j])
  }

  lemma TagsTell(s: Name, t: Name)
    requires Ascii(s) == Ascii(t)
    ensures Tag(s) == Tag(t)
  {
    if s != "" {
      assert Ascii(s)[0] == Ascii(t)[0] && Ascii(s)[|s| - 1] == Ascii(t)[|t| - 1];
    }
  }

  lemma ZipDistinct(names: seq<Name>, values: seq<Value>)
    requires |names| == |values| && Telling(names)
    ensures Distinct(Zip(names, values))
  {
    hide Ascii, Tag;
    forall i, j | 0 <= i < j < |names| ensures Ascii(names[i]) != Ascii(names[j]) {
      if Ascii(names[i]) == Ascii(names[j]) { TagsTell(names[i], names[j]); }
    }
  }

  /** `v` is a value the codec can hold, and comes back as `r`. */
  ghost predicate ComesBack(utf8: Utf8, v: Value, r: Value) {
    IsPrimitive(utf8, v) && Normalize(v) == r
  }

  ghost predicate AllComeBack(utf8: Utf8, values: seq<Value>, readings: seq<Value>) {
    |values| == |readings| && forall i :: 0 <= i < |values| ==> ComesBack(utf8, values[i], readings[i])
  }

  /** A canonical value comes back as itself. */
  lemma CanonicalComesBack(utf8: Utf8, v: Value)
    requires IsCanonical(utf8, v)
    ensures ComesBack(utf8, v, v)
  {
    hide IsCanonical, IsPrimitive, Normalize;
    CanonicalIsNormal(utf8, v);
  }

  /** Leaves do. */
  lemma LeafComesBack(utf8: Utf8, o: Option<Bytes>, n: int, b: bool)
    ensures ComesBack(utf8, OptBlob(o), OptBlob(o))
    ensures (o.Some? ==> utf8(o.value)) ==> ComesBack(utf8, OptText(o), OptText(o))
    ensures ComesBack(utf8, Int(n), Int(n)) && ComesBack(utf8, Bool(b), Bool(b)) && ComesBack(utf8, Null, Null)
  {
  }

  lemma ListComesBack(utf8: Utf8, items: seq<Value>, readings: seq<Value>)
    requires AllComeBack(utf8, items, readings)
    ensures ComesBack(utf8, Array(items), Array(readings))
  {
    assert NormalizeItems(items) == readings;
  }

  lemma PrimitiveDict(utf8: Utf8, m: seq<Entry>)
    requires Distinct(m) && forall e <- m :: utf8(e.name) && |e.name| < U64_LIMIT && IsPrimitive(utf8, e.value)
    ensures IsPrimitive(utf8, Dict(m))
  {
  }

  lemma ZipPrimitive(utf8: Utf8, names: seq<Name>, values: seq<Value>, readings: seq<Value>)
    requires TakesAscii(utf8) && Telling(names) && |names| == |values| && AllComeBack(utf8, values, readings)
    ensures IsPrimitive(utf8, Dict(Zip(names, values)))
  {
    hide Ascii, IsPrimitive, Normalize;
    ZipDistinct(names, values);
    var m := Zip(names, values);
    forall e | e in m ensures utf8(e.name) && |e.name| < U64_LIMIT && IsPrimitive(utf8, e.value) {
      var i :| 0 <= i < |m| && m[i] == e;
      assert |Ascii(names[i])| == |names[i]|;
      assert ComesBack(utf8, values[i], readings[i]);
    }
    PrimitiveDict(utf8, m);
  }

  /** Field `name` reads as `v`, or as nothing when `v` counts as absent. */
  predicate Reads(m: seq<Entry>, name: Name, v: Value) {
    Named(m, name) == if Absent(v) then None else Some(v)
  }

  lemma ReadsNotEmpty(m: seq<Entry>, name: Name, v: Value)
    requires Reads(m, name, v) && !Absent(v)
    ensures m != [] && !Absent(Dict(m))
  {
  }

  /** A field reads in one way only. */
  lemma ReadsOne(m: seq<Entry>, name: Name, v: Value, w: Value)
    requires Reads(m, name, v) && Reads(m, name, w)
    ensures v == w || (Absent(v) && Absent(w))
  {
    hide Named;
  }

  lemma ReadsOneOpt(m: seq<Entry>, name: Name, o: Option<Bytes>, p: Option<Bytes>)
    ensures Reads(m, name, OptBlob(o)) && Reads(m, name, OptBlob(p)) ==> o == p
    ensures Reads(m, name, OptText(o)) && Reads(m, name, OptText(p)) ==> o == p
  {
    hide Named;
  }

  lemma AbsentNormal(v: Value)
    ensures Absent(Normalize(v)) <==> Absent(v)
  {
    if v.Dict? { NormalizeDict(v.entries); }
  }

  /** A record comes back with every field as it reads. */
  lemma RecordReads(utf8: Utf8, names: seq<Name>, values: seq<Value>, readings: seq<Value>) returns (m: seq<Entry>)
    requires TakesAscii(utf8) && Telling(names) && |names| == |values| && AllComeBack(utf8, values, readings)
    ensures ComesBack(utf8, Record(names, values), Dict(m))
    ensures forall i :: 0 <= i < |names| ==> Reads(m, names[i], readings[i])
  {
    hide IsPrimitive, Normalize, Get, Telling, Absent, DropAbsent, Ascii, TakesAscii;
    var f := Zip(names, values);
    ZipPrimitive(utf8, names, values, readings);
    DropKeepsPrimitive(utf8, f);
    NormalMembers(utf8, DropAbsent(f));
    m := Read(DropAbsent(f));
    forall i | 0 <= i < |names| ensures Reads(m, names[i], readings[i]) {
      assert ComesBack(utf8, values[i], readings[i]);
      assert f[i] in f;
      FieldSurvives(utf8, f, f[i]);
      AbsentNormal(values[i]);
    }
  }

  /** The same for a record that keeps its absent fields; nothing but its fields comes back. */
  lemma FullReads(utf8: Utf8, names: seq<Name>, values: seq<Value>, readings: seq<Value>) returns (m: seq<Entry>)
    requires TakesAscii(utf8) && Telling(names) && |names| == |values| && AllComeBack(utf8, values, readings)
    ensures ComesBack(utf8, Full(names, values), Dict(m))
    ensures forall i :: 0 <= i < |names| ==> Named(m, names[i]) == Some(readings[i])
    ensures forall s: Name :: Telling(names + [s]) ==> Named(m, s) == None
  {
    hide IsPrimitive, Normalize, Get, Telling, Ascii, TakesAscii;
    var f := Zip(names, values);
    ZipPrimitive(utf8, names, values, readings);
    NormalMembers(utf8, f);
    m := Read(f);
    forall i | 0 <= i < |names| ensures Named(m, names[i]) == Some(readings[i]) {
      assert ComesBack(utf8, values[i], readings[i]);
      assert f[i] in f;
      FieldReads(utf8, f, f[i]);
    }
    forall s: Name | Telling(names + [s]) ensures Named(m, s) == None {
      ReadFrom(utf8, f, Ascii(s));
      ZipDistinct(names + [s], values + [Null]);
      var g := Zip(names + [s], values + [Null]);
      forall i | 0 <= i < |f| ensures f[i].name != Ascii(s) { assert g[i] == f[i] && g[|f|].name == Ascii(s); }
    }
  }

  /** Values that read alike, or that are both dropped. */
  predicate Alike(v: Value, w: Value) {
    Normalize(v) == Normalize(w) || (Absent(v) && Absent(w))
  }

  /** Records with equal readings come back alike, whatever was absent in either. */
  lemma {:induction false} DropSame(m: seq<Entry>, n: seq<Entry>)
    requires |m| == |n|
    requires forall i :: 0 <= i < |m| ==> m[i].name == n[i].name && Alike(m[i].value, n[i].value)
    ensures NormalizeEntries(DropAbsent(m)) == NormalizeEntries(DropAbsent(n))
  {
    hide Normalize, Absent;
    if m != [] {
      AbsentNormal(m[0].value);
      AbsentNormal(n[0].value);
      DropSame(m[1..], n[1..]);
      var r, t := DropAbsent(m[1..]), DropAbsent(n[1..]);
      assert ([m[0]] + r)[1..] == r && ([n[0]] + t)[1..] == t;
      assert [] + r == r && [] + t == t;
    }
  }

  lemma SameRecord(names: seq<Name>, values: seq<Value>, others: seq<Value>)
    requires |names| == |values| == |others|
    requires forall i :: 0 <= i < |names| ==> Alike(values[i], others[i])
    ensures Normalize(Record(names, values)) == Normalize(Record(names, others))
  {
    hide Absent, Ascii;
    NormalizeDict(DropAbsent(Zip(names, values)));
    NormalizeDict(DropAbsent(Zip(names, others)));
    hide Normalize;
    DropSame(Zip(names, values), Zip(names, others));
  }

  lemma SameFull(names: seq<Name>, values: seq<Value>, others: seq<Value>)
    requires |names| == |values| == |others|
    requires forall i :: 0 <= i < |names| ==> Normalize(values[i]) == Normalize(others[i])
    ensures Normalize(Full(names, values)) == Normalize(Full(names, others))
  {
    hide Ascii;
    NormalizeDict(Zip(names, values));
    NormalizeDict(Zip(names, others));
    hide Normalize;
    assert NormalizeEntries(Zip(names, values)) == NormalizeEntries(Zip(names, others));
  }

  // ----- which records have an encoding -----

  predicate AllEncoded(values: seq<Value>) {
    forall i :: 0 <= i < |values| ==> Encode(values[i]).Ok?
  }

  lemma DictEncodes(m: seq<Entry>)
    ensures Encode(Dict(m)).Ok? <==> |m| < U64_LIMIT && AllEncode(m)
  {
    hide AllEncode, EncodeEntries, Sort, Join;
    EntriesEncode(m);
  }

  lemma {:induction false} ArrayEncodes(items: seq<Value>)
    ensures EncodeItems(items).Ok? <==> AllEncoded(items)
    ensures Encode(Array(items)).Ok? <==> |items| < U64_LIMIT && AllEncoded(items)
  {
    EncodeArrayShape(items);
    hide Encode;
    if items != [] {
      ArrayEncodes(items[1..]);
      assert forall i :: 0 < i < |items| ==> items[i] == items[1..][i - 1];
      assert AllEncoded(items) <==> Encode(items[0]).Ok? && AllEncoded(items[1..]);
    }
  }

  lemma LeafEncodes(b: Bytes, n: nat, c: bool)
    requires |b| < U64_LIMIT && n < U64_LIMIT
    ensures Encode(Blob(b)).Ok? && Encode(Text(b)).Ok? && Encode(Int(n)).Ok? && Encode(Bool(c)).Ok?
    ensures Encode(Null).Ok? && Encode(Array([])).Ok? && Encode(Dict([])).Ok?
  {
  }

  lemma AbsentEncodes(v: Value)
    requires Absent(v)
    ensures Encode(v).Ok?
  {
  }

  /** A record has an encoding exactly when its fields have, dropped or not. */
  lemma RecordEncodes(names: seq<Name>, values: seq<Value>)
    requires Telling(names) && |names| == |values| < U64_LIMIT
    ensures Encode(Record(names, values)).Ok? <==> AllEncoded(values)
    ensures Encode(Full(names, values)).Ok? <==> AllEncoded(values)
  {
    hide Encode, Absent, DropAbsent, Ascii;
    var m := Zip(names, values);
    DictEncodes(m);
    DictEncodes(DropAbsent(m));
    NothingDropped(m);
    forall i | 0 <= i < |m| ensures EntryEncodes(m[i]) <==> Encode(values[i]).Ok? {
      assert Tag(names[i]).0 < 100 && |Ascii(names[i])| == |names[i]|;
    }
    forall i | 0 <= i < |m| ensures Absent(values[i]) || m[i] in DropAbsent(m) { assert m[i] in m; }
    forall i | 0 <= i < |m| && Absent(values[i]) ensures Encode(values[i]).Ok? { AbsentEncodes(values[i]); }
    assert AllEncode(m) ==> AllEncode(DropAbsent(m)) by {
      forall e | e in DropAbsent(m) ensures AllEncode(m) ==> EntryEncodes(e) { assert e in m; }
    }
    if AllEncode(DropAbsent(m)) {
      forall i | 0 <= i < |m| ensures Encode(values[i]).Ok? {
        if !Absent(values[i]) {
          var j :| 0 <= j < |DropAbsent(m)| && DropAbsent(m)[j] == m[i];
          assert EntryEncodes(DropAbsent(m)[j]);
        }
      }
    }
  }

  // ----- optional fields, and reading fields -----

  function OptBlob(o: Option<Bytes>): (v: Value) {
    if o.Some? then Blob(o.value) else Null
  }

  function OptText(o: Option<Bytes>): (v: Value) {
    if o.Some? then Text(o.value) else Null
  }

  /** `bytes(value)`: a number gives that many zero bytes, a list its items. */
  function BytesOf(v: Value): (b: Result<Bytes>) {
    match v
    case Blob(b) => Ok(b)
    case Int(n) => if n < 0 then Err else Ok(seq(n, _ => 0))
    case Bool(b) => Ok(if b then [0] else [])
    case Array(items) => BytesOfItems(items)
    case Dict(entries) => if entries == [] then Ok([]) else Err
    case _ => Err
  }

  function BytesOfItems(items: seq<Value>): (b: Result<Bytes>) {
    if items == [] then Ok([])
    else
      var rest :- BytesOfItems(items[1..]);
      match items[0]
      case Int(n) => if 0 <= n < 256 then Ok([n as byte] + rest) else Err
      case Bool(b) => Ok([if b then 1 else 0] + rest)
      case _ => Err
  }

  /** An item of a list read as a byte: a number below 256, or a flag. */
  predicate ReadsAsByte(v: Value, b: byte) {
    v == Int(b) || (b == 1 && v == Bool(true)) || (b == 0 && v == Bool(false))
  }

  lemma {:induction false} ItemBytes(items: seq<Value>, b: Bytes)
    ensures BytesOfItems(items) == Ok(b) <==> |b| == |items| && forall i :: 0 <= i < |b| ==> ReadsAsByte(items[i], b[i])
  {
    if items != [] && b != [] {
      ItemBytes(items[1..], b[1..]);
      assert b == [b[0]] + b[1..];
      if |b| == |items| && ReadsAsByte(items[0], b[0]) && forall i :: 0 <= i < |b[1..]| ==> ReadsAsByte(items[1..][i], b[1..][i]) {
        forall i | 0 <= i < |b| ensures ReadsAsByte(items[i], b[i]) {
          if i > 0 { assert ReadsAsByte(items[1..][i - 1], b[1..][i - 1]); }
        }
      }
    }
  }

  /** What reads as which bytes where an identifier is expected. */
  lemma BytesOfIff(v: Value, b: Bytes)
    ensures BytesOf(v) == Ok(b) <==>
      || v == Blob(b) || (v == Dict([]) && b == []) || (v == Int(|b|) && b == seq(|b|, _ => 0))
      || (v == Bool(true) && b == [0]) || (v == Bool(false) && b == [])
      || (v.Array? && |v.items| == |b| && forall i :: 0 <= i < |b| ==> ReadsAsByte(v.items[i], b[i]))
  {
    hide ReadsAsByte;
    if v.Array? { ItemBytes(v.items, b); }
  }

  /** An optional identifier of a given size. */
  function OptId(v: Option<Value>, lo: nat, hi: nat): (r: Result<Option<Bytes>>) {
    if v.None? || v.value.Null? then Ok(None)
    else
      var raw :- BytesOf(v.value);
      if lo <= |raw| <= hi then Ok(Some(raw)) else Err
  }

  function ItemsOr(v: Option<Value>): (r: Result<seq<Value>>) {
    if v.None? then Ok([]) else if v.value.Array? then Ok(v.value.items) else Err
  }

  function EntriesOr(v: Option<Value>): (r: Result<seq<Entry>>) {
    if v.None? then Ok([]) else if v.value.Dict? then Ok(v.value.entries) else Err
  }

  function OptTextOf(v: Option<Value>): (r: Result<Option<Bytes>>) {
    if v.None? || v.value.Null? then Ok(None) else if v.value.Text? then Ok(Some(v.value.utf8)) else Err
  }

  function OptBlobOf(v: Option<Value>): (r: Result<Option<Bytes>>) {
    if v.None? || v.value.Null? then Ok(None) else if v.value.Blob? then Ok(Some(v.value.bytes)) else Err
  }

  function TextOr(v: Option<Value>, default: Bytes): (r: Result<Bytes>) {
    if v.None? then Ok(default) else if v.value.Text? then Ok(v.value.utf8) else Err
  }

  /** `_require_str` */
  function RequireText(v: Option<Value>): (r: Result<Bytes>) {
    if v.Some? && v.value.Text? && v.value.utf8 != [] then Ok(v.value.utf8) else Err
  }

  /** `_require_bytes` */
  function RequireBlob(v: Option<Value>): (r: Result<Bytes>) {
    if v.Some? && v.value.Blob? then Ok(v.value.bytes) else Err
  }

  /** `_require_mapping` */
  function RequireDict(v: Option<Value>): (r: Result<seq<Entry>>) {
    if v.Some? && v.value.Dict? then Ok(v.value.entries) else Err
  }

  /** `Hash256(_require_bytes(...))` */
  function RequireDigest(v: Option<Value>): (r: Result<Bytes>) {
    var b :- RequireBlob(v);
    if |b| == 32 then Ok(b) else Err
  }

  function OptDigest(v: Option<Value>): (r: Result<Option<Bytes>>) {
    if v.None? || v.value.Null? then Ok(None)
    else
      var b :- RequireDigest(v);
      Ok(Some(b))
  }

  /** `m.get(name)`, whatever it is. */
  function AnyOf(v: Option<Value>): (r: Value) {
    if v.None? then Null else v.value
  }

  /** Absent values read back as nothing. */
  function Settled(v: Value): (r: Value) {
    if Absent(v) then Null else v
  }

  /** A text as decoding takes it. */
  function NonEmpty(t: Bytes): (r: Result<Bytes>) {
    if t != [] then Ok(t) else Err
  }

  /** A text that a constructor demands. */
  ghost predicate Required(utf8: Utf8, t: Bytes) {
    t != [] && utf8(t)
  }

  ghost predicate OptDigestValid(o: Option<Bytes>) {
    o.Some? ==> |o.value| == 32
  }

  // A field that reads as a value of its kind passes the check for that kind.

  lemma ReadsText(m: seq<Entry>, name: Name, t: Bytes, default: Bytes)
    requires Reads(m, name, Text(t))
    ensures RequireText(Named(m, name)) == NonEmpty(t)
    ensures Named(m, name).Some? && TextOr(Named(m, name), default) == Ok(t)
  {
    hide Named;
  }

  lemma ReadsBlob(m: seq<Entry>, name: Name, b: Bytes)
    requires Reads(m, name, Blob(b))
    ensures RequireBlob(Named(m, name)) == Ok(b)
    ensures |b| == 32 ==> RequireDigest(Named(m, name)) == Ok(b)
  {
    hide Named;
  }

  lemma ReadsOptBlob(m: seq<Entry>, name: Name, o: Option<Bytes>)
    requires Reads(m, name, OptBlob(o))
    ensures OptBlobOf(Named(m, name)) == Ok(o)
    ensures OptDigestValid(o) ==> OptDigest(Named(m, name)) == Ok(o)
  {
    hide Named;
  }

  lemma ReadsOptId(m: seq<Entry>, name: Name, o: Option<Bytes>, lo: nat, hi: nat)
    requires Reads(m, name, OptBlob(o)) && (o.Some? ==> lo <= |o.value| <= hi)
    ensures OptId(Named(m, name), lo, hi) == Ok(o)
  {
    hide Named;
  }

  lemma ReadsOptText(m: seq<Entry>, name: Name, o: Option<Bytes>)
    requires Reads(m, name, OptText(o))
    ensures OptTextOf(Named(m, name)) == Ok(o)
  {
    hide Named;
  }

  lemma ReadsDict(m: seq<Entry>, name: Name, es: seq<Entry>)
    requires Reads(m, name, Dict(es))
    ensures EntriesOr(Named(m, name)) == Ok(es)
  {
    hide Named;
  }

  lemma ReadsArray(m: seq<Entry>, name: Name, items: seq<Value>)
    requires Reads(m, name, Array(items))
    ensures ItemsOr(Named(m, name)) == Ok(items)
  {
    hide Named;
  }

  lemma ReadsAny(m: seq<Entry>, name: Name, v: Value)
    requires Reads(m, name, v)
    ensures AnyOf(Named(m, name)) == Settled(v)
  {
    hide Named;
  }

  // ----- lists of records -----

  /** `[decode(x) for x in items]` */
  function DecodeAll<T>(decode: Value -> Result<T>, items: seq<Value>): (r: Result<seq<T>>) {
    if items == [] then Ok([])
    else
      var first :- decode(items[0]);
      var rest :- DecodeAll(decode, items[1..]);
      Ok([first] + rest)
  }

  lemma {:induction false} AllDecode<T>(decode: Value -> Result<T>, items: seq<Value>, xs: seq<T>)
    requires |items| == |xs| && forall i :: 0 <= i < |xs| ==> decode(items[i]) == Ok(xs[i])
    ensures DecodeAll(decode, items) == Ok(xs)
  {
    if xs != [] {
      AllDecode(decode, items[1..], xs[1..]);
      assert xs == [xs[0]] + xs[1..];
    }
  }

  /** One item that does not decode fails the list. */
  lemma {:induction false} OneFails<T>(decode: Value -> Result<T>, items: seq<Value>, i: nat)
    requires i < |items| && decode(items[i]).Err?
    ensures DecodeAll(decode, items).Err?
  {
    if i > 0 { OneFails(decode, items[1..], i - 1); }
  }
}
