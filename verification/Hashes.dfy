/**
  Domain-separated, length-framed hashing.  The digest itself is foreign: every definition
  takes the hash function as a parameter, and nothing is assumed about it.
  */
module Hashes {
  import opened Wrappers
  import opened Digits

  type Digest = d: Bytes | |d| == 32 witness seq(32, _ => 0)

  /** The bytes of `OProW-FRAME-v1`. */
  const MAGIC: Bytes := [0x4F, 0x50, 0x72, 0x6F, 0x57, 0x2D, 0x46, 0x52, 0x41, 0x4D, 0x45, 0x2D, 0x76, 0x31]

  predicate Framable(parts: seq<Bytes>) {
    forall i :: 0 <= i < |parts| ==> |parts[i]| < U64_LIMIT
  }

  /** One field: its length in eight big-endian bytes, then its content. */
  function Field(part: Bytes): (f: Bytes)
    ensures |f| == 8 + |part| && f[8..] == part
  {
    IntToBytes(|part|, 8) + part
  }

  /** The first eight bytes denote the length. */
  lemma FieldLayout(part: Bytes)
    requires |part| < U64_LIMIT
    ensures |Field(part)| == 8 + |part| && BytesToInt(Field(part)[..8]) == |part| && Field(part)[8..] == part
  {
    assert Power(256, 8) == U64_LIMIT;
    DigitsRoundTrip(256, |part|, 8);
    assert Field(part)[..8] == IntToBytes(|part|, 8);
  }

  function Fields(parts: seq<Bytes>): (f: Bytes)
    ensures parts != [] ==> |f| >= 8
  {
    if parts == [] then [] else Field(parts[0]) + Fields(parts[1..])
  }

  function Frame(domain: Bytes, parts: seq<Bytes>): (f: Bytes) {
    MAGIC + Fields([domain] + parts)
  }

  lemma MagicIsText()
    ensures MAGIC == Ascii("OProW-FRAME-v1")
  {
  }

  /** One more field behind the magic text and some fields. */
  lemma FramedSnoc(parts: seq<Bytes>, part: Bytes)
    ensures MAGIC + Fields(parts + [part]) == MAGIC + Fields(parts) + IntToBytes(|part|, 8) + part
  {
    hide IntToBytes, MAGIC, Fields;
    FieldsSnoc(parts, part);
  }

  lemma NoFields()
    ensures MAGIC + Fields([]) == MAGIC
  {
    hide MAGIC;
  }

  lemma FrameOfTwo(domain: Bytes, a: Bytes, b: Bytes)
    ensures Frame(domain, [a, b]) == MAGIC + IntToBytes(|domain|, 8) + domain + IntToBytes(|a|, 8) + a + IntToBytes(|b|, 8) + b
  {
    hide IntToBytes, MAGIC, Fields;
    NoFields();
    FramedSnoc([], domain);
    FramedSnoc([domain], a);
    FramedSnoc([domain, a], b);
    assert [] + [domain] == [domain] && [domain] + [a] == [domain, a] && [domain, a] + [b] == [domain] + [a, b];
  }

  lemma FrameOfThree(domain: Bytes, a: Bytes, b: Bytes, c: Bytes)
    ensures Frame(domain, [a, b, c]) ==
      MAGIC + IntToBytes(|domain|, 8) + domain + IntToBytes(|a|, 8) + a + IntToBytes(|b|, 8) + b + IntToBytes(|c|, 8) + c
  {
    hide IntToBytes, MAGIC, Fields;
    FramedSnoc([domain, a, b], c);
    FrameOfTwo(domain, a, b);
    assert [domain] + [a, b, c] == [domain, a, b] + [c] && [domain] + [a, b] == [domain, a, b];
  }

  /** Build the framed preimage; a length beyond 64 bits raises. */
  method FrameParts(domain: Bytes, parts: seq<Bytes>) returns (out: Result<Bytes>)
    ensures out.Ok? <==> Framable([domain] + parts)
    ensures out.Ok? ==> out.value == Frame(domain, parts)
  {
    hide FromDigits, ToDigits, IntToBytes;
    assert ([domain] + parts)[0] == domain;
    if |domain| >= U64_LIMIT {
      return Err;
    }
    var bytes := MAGIC + IntToBytes(|domain|, 8) + domain;
    for i := 0 to |parts|
      invariant forall j :: 0 <= j < i ==> |parts[j]| < U64_LIMIT
      invariant bytes == MAGIC + Fields([domain] + parts[..i])
    {
      assert ([domain] + parts)[i + 1] == parts[i];
      if |parts[i]| >= U64_LIMIT {
        return Err;
      }
      FieldsSnoc([domain] + parts[..i], parts[i]);
      assert [domain] + parts[..i] + [parts[i]] == [domain] + parts[..i + 1];
      bytes := bytes + IntToBytes(|parts[i]|, 8) + parts[i];
    }
    assert parts[..|parts|] == parts;
    out := Ok(bytes);
  }

  lemma {:induction false} FieldsSnoc(parts: seq<Bytes>, part: Bytes)
    ensures Fields(parts + [part]) == Fields(parts) + Field(part)
  {
    if parts == [] {
      assert [part][1..] == [];
    } else {
      assert (parts + [part])[1..] == parts[1..] + [part];
      FieldsSnoc(parts[1..], part);
    }
  }

  lemma LengthFieldInjective(m: nat, n: nat)
    requires m < U64_LIMIT && n < U64_LIMIT
    requires IntToBytes(m, 8) == IntToBytes(n, 8)
    ensures m == n
  {
    assert Power(256, 8) == U64_LIMIT;
    DigitsRoundTrip(256, m, 8);
    DigitsRoundTrip(256, n, 8);
  }

  lemma {:induction false} FieldsInjective(a: seq<Bytes>, b: seq<Bytes>)
    requires Framable(a) && Framable(b) && Fields(a) == Fields(b)
    ensures a == b
  {
    if a != [] && b != [] {
      var f := Fields(a);
      assert f[..8] == IntToBytes(|a[0]|, 8) && f[..8] == IntToBytes(|b[0]|, 8);
      LengthFieldInjective(|a[0]|, |b[0]|);
      var n := 8 + |a[0]|;
      assert f[8..n] == a[0] && f[8..n] == b[0];
      assert f[n..] == Fields(a[1..]) && f[n..] == Fields(b[1..]);
      FieldsInjective(a[1..], b[1..]);
      assert a == [a[0]] + a[1..] && b == [b[0]] + b[1..];
    }
  }

  /** Framing is injective in the domain and in the list of parts. */
  lemma FrameInjective(d1: Bytes, p1: seq<Bytes>, d2: Bytes, p2: seq<Bytes>)
    requires Framable([d1] + p1) && Framable([d2] + p2)
    requires Frame(d1, p1) == Frame(d2, p2)
    ensures d1 == d2 && p1 == p2
  {
    assert Frame(d1, p1)[|MAGIC|..] == Fields([d1] + p1);
    assert Frame(d2, p2)[|MAGIC|..] == Fields([d2] + p2);
    FieldsInjective([d1] + p1, [d2] + p2);
    assert ([d1] + p1)[0] == ([d2] + p2)[0];
    assert ([d1] + p1)[1..] == ([d2] + p2)[1..];
  }

  /** An ASCII text constant of the program. */
  type Name = s: string | forall i :: 0 <= i < |s| ==> s[i] < 128 as char

  /** Its UTF-8 bytes. */
  function Ascii(s: Name): (b: Bytes)
    ensures |b| == |s| && forall i :: 0 <= i < |s| ==> b[i] == s[i] as nat
  {
    seq(|s|, i requires 0 <= i < |s| => s[i] as nat)
  }
}
