/**
  Python objects before their conversion to primitives.  Dropping absent fields looks at the
  object, encoding at what it converts to, and the two do not always agree.
  */
module Objects {
  import opened Digits
  import opened Canonical
  import opened Schema

  /**
    `Custom` is any object with a canonical form of its own that is equal to no primitive: an
    identifier, a date, an enumeration member, another record.
    */
  datatype Object =
    | Nothing
    | Flag(b: bool)
    | Number(i: int)
    | Octets(bytes: Bytes)
    | Words(utf8: Bytes)
    | List(items: seq<Object>)
    | Tuple(items: seq<Object>)
    | Mapping(entries: seq<Item>)
    | Custom(form: Object)

  datatype Item = Item(name: Bytes, content: Object)

  /** `to_canonical_primitive` */
  function ToPrimitive(o: Object): (v: Value)
    decreases o, 1
  {
    match o
    case Nothing => Null
    case Flag(b) => Bool(b)
    case Number(i) => Int(i)
    case Octets(bytes) => Blob(bytes)
    case Words(utf8) => Text(utf8)
    case List(items) => Array(ToPrimitives(items))
    case Tuple(items) => Array(ToPrimitives(items))
    case Mapping(entries) => Dict(ToEntries(entries))
    case Custom(form) => ToPrimitive(form)
  }

  function ToPrimitives(items: seq<Object>): (v: seq<Value>)
    ensures |v| == |items| && forall i :: 0 <= i < |v| ==> v[i] == ToPrimitive(items[i])
    decreases items, 0
  {
    if items == [] then [] else [ToPrimitive(items[0])] + ToPrimitives(items[1..])
  }

  function ToEntries(body: seq<Item>): (m: seq<Entry>)
    ensures |m| == |body| && forall i :: 0 <= i < |m| ==> m[i] == Entry(body[i].name, ToPrimitive(body[i].content))
    decreases body, 0
  {
    if body == [] then [] else [Entry(body[0].name, ToPrimitive(body[0].content))] + ToEntries(body[1..])
  }

  /** The object that a decoded primitive is. */
  function FromPrimitive(v: Value): (o: Object)
    decreases v, 1
  {
    match v
    case Null => Nothing
    case Bool(b) => Flag(b)
    case Int(i) => Number(i)
    case Blob(bytes) => Octets(bytes)
    case Text(utf8) => Words(utf8)
    case Array(items) => List(FromPrimitives(items))
    case Dict(entries) => Mapping(FromEntries(entries))
  }

  function FromPrimitives(items: seq<Value>): (o: seq<Object>)
    ensures |o| == |items| && forall i :: 0 <= i < |o| ==> o[i] == FromPrimitive(items[i])
    decreases items, 0
  {
    if items == [] then [] else [FromPrimitive(items[0])] + FromPrimitives(items[1..])
  }

  function FromEntries(m: seq<Entry>): (body: seq<Item>)
    ensures |body| == |m| && forall i :: 0 <= i < |body| ==> body[i] == Item(m[i].name, FromPrimitive(m[i].value))
    decreases m, 0
  {
    if m == [] then [] else [Item(m[0].name, FromPrimitive(m[0].value))] + FromEntries(m[1..])
  }

  /** A decoded object converts back to the primitive it was decoded from. */
  lemma {:induction false} Converts(v: Value)
    ensures ToPrimitive(FromPrimitive(v)) == v
    decreases v
  {
    match v
    case Array(items) =>
      forall i | 0 <= i < |items| ensures ToPrimitives(FromPrimitives(items))[i] == items[i] { Converts(items[i]); }
      assert ToPrimitives(FromPrimitives(items)) == items;
    case Dict(entries) =>
      forall i | 0 <= i < |entries| ensures ToEntries(FromEntries(entries))[i] == entries[i] { Converts(entries[i].value); }
      assert ToEntries(FromEntries(entries)) == entries;
    case _ =>
  }

  lemma EntriesConvert(m: seq<Entry>)
    ensures ToEntries(FromEntries(m)) == m
  {
    forall i | 0 <= i < |m| ensures ToEntries(FromEntries(m))[i] == m[i] { Converts(m[i].value); }
  }

  /** What `v is not None and v != [] and v != {}` refuses. */
  predicate IsNothing(o: Object) {
    o == Nothing || o == List([]) || o == Mapping([])
  }

  /** `_drop_absent`, on the objects. */
  function DropNothing(body: seq<Item>): (r: seq<Item>)
    ensures |r| <= |body| && forall e :: e in r <==> e in body && !IsNothing(e.content)
  {
    if body == [] then []
    else
      assert body == [body[0]] + body[1..];
      (if IsNothing(body[0].content) then [] else [body[0]]) + DropNothing(body[1..])
  }

  /** Not absent as an object, but as soon as it is converted: an empty tuple, or an object of empty form. */
  predicate Masked(o: Object) {
    match o
    case Tuple(items) => items == []
    case Custom(form) => IsNothing(form) || Masked(form)
    case _ => false
  }

  lemma {:induction false} MaskedIff(o: Object)
    ensures Masked(o) <==> !IsNothing(o) && Absent(ToPrimitive(o))
    ensures Absent(ToPrimitive(o)) <==> IsNothing(o) || Masked(o)
  {
    match o
    case Custom(form) => MaskedIff(form);
    case List(items) => assert Array(ToPrimitives(items)) == Array([]) <==> items == [];
    case Tuple(items) => assert Array(ToPrimitives(items)) == Array([]) <==> items == [];
    case Mapping(entries) => assert Dict(ToEntries(entries)) == Dict([]) <==> entries == [];
    case _ =>
  }

  lemma NeverMasked(v: Value)
    ensures IsNothing(FromPrimitive(v)) <==> Absent(v)
    ensures !Masked(FromPrimitive(v))
  {
    Converts(v);
    MaskedIff(FromPrimitive(v));
  }

  /** On decoded objects the drop is the one on primitives. */
  lemma {:induction false} DropDecoded(m: seq<Entry>)
    ensures ToEntries(DropNothing(FromEntries(m))) == DropAbsent(m)
  {
    hide Absent, IsNothing, ToPrimitive, FromPrimitive;
    if m != [] {
      NeverMasked(m[0].value);
      Converts(m[0].value);
      DropDecoded(m[1..]);
      var first, rest := Item(m[0].name, FromPrimitive(m[0].value)), DropNothing(FromEntries(m[1..]));
      assert FromEntries(m)[1..] == FromEntries(m[1..]);
      assert ([first] + rest)[1..] == rest && [] + rest == rest;
    }
  }
}
