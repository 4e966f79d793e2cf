/** The Protocol Buffers wire format ("Encoding": base 128 varints, message structure, length-delimited records),
    and the encoding primitives the market code calls. */
module Protobuf {
  import opened Options
  import opened Octets

  const U64_LIMIT: nat := 0x1_0000_0000_0000_0000

  const VARINT: nat := 0
  const LENGTH_DELIMITED: nat := 2

  // ---------- the format ----------

  function Varint(n: nat): (r: Bytes)
    ensures |r| > 0
  {
    if n < 128 then [n] else [128 + n % 128] + Varint(n / 128)
  }

  /** A value and the number of bytes it took. */
  datatype Read<+T> = Read(value: T, used: nat)

  /** Reads a varint of at most `most` bytes. */
  function ReadVarint(b: Bytes, most: nat): (r: Option<Read<nat>>)
    ensures r.Some? ==> 0 < r.value.used <= |b|
    decreases most
  {
    if b == [] || most == 0 then None
    else if b[0] < 128 then Some(Read(b[0], 1))
    else
      match ReadVarint(b[1..], most - 1)
      case None => None
      case Some(r) => Some(Read(b[0] - 128 + 128 * r.value, r.used + 1))
  }

  function Tag(field: nat, wire: nat): Bytes
    requires wire < 8
  {
    Varint(8 * field + wire)
  }

  function ReadTag(b: Bytes): (r: Option<Read<(nat, nat)>>)
    ensures r.Some? ==> 0 < r.value.used <= |b|
  {
    match ReadVarint(b, 10)
    case None => None
    case Some(r) => Some(Read((r.value / 8, r.value % 8), r.used))
  }

  function Delimited(payload: Bytes): Bytes {
    Varint(|payload|) + payload
  }

  function ReadDelimited(b: Bytes): (r: Option<Read<Bytes>>)
    ensures r.Some? ==> 0 < r.value.used <= |b| && |r.value.value| < |b|
  {
    match ReadVarint(b, 10)
    case None => None
    case Some(r) =>
      if r.used + r.value > |b| then None
      else Some(Read(b[r.used..r.used + r.value], r.used + r.value))
  }

  // ---------- reading undoes writing ----------

  /** A value below 2^64 takes at most ten bytes. */
  lemma {:induction false} VarintLength(n: nat, k: nat)
    requires n < Pow128(k) && k > 0
    ensures |Varint(n)| <= k
    decreases n
  {
    if n >= 128 { VarintLength(n / 128, k - 1); }
  }

  function Pow128(k: nat): nat {
    if k == 0 then 1 else 128 * Pow128(k - 1)
  }

  lemma VarintFitsTen(n: nat)
    requires n < U64_LIMIT
    ensures |Varint(n)| <= 10
  {
    assert Pow128(5) == 0x8_0000_0000;
    assert Pow128(10) == 128 * 128 * 128 * 128 * 128 * Pow128(5);
    VarintLength(n, 10);
  }

  lemma {:induction false} ReadVarintBack(n: nat, rest: Bytes, most: nat)
    requires |Varint(n)| <= most
    ensures ReadVarint(Varint(n) + rest, most) == Some(Read(n, |Varint(n)|))
    decreases n
  {
    var b := Varint(n) + rest;
    if n >= 128 {
      assert b[1..] == Varint(n / 128) + rest;
      ReadVarintBack(n / 128, rest, most - 1);
    }
  }

  lemma ReadTagBack(field: nat, wire: nat, rest: Bytes)
    requires wire < 8 && 8 * field + wire < U64_LIMIT
    ensures ReadTag(Tag(field, wire) + rest) == Some(Read((field, wire), |Tag(field, wire)|))
  {
    VarintFitsTen(8 * field + wire);
    ReadVarintBack(8 * field + wire, rest, 10);
  }

  lemma ReadDelimitedBack(payload: Bytes, rest: Bytes)
    requires |payload| < U64_LIMIT
    ensures ReadDelimited(Delimited(payload) + rest) == Some(Read(payload, |Delimited(payload)|))
  {
    VarintFitsTen(|payload|);
    ReadVarintBack(|payload|, payload + rest, 10);
    assert Delimited(payload) + rest == Varint(|payload|) + (payload + rest);
  }

  /** What follows a tag that was read does not matter, so a reader given more bytes than the message reads the same. */
  lemma ReadTagStays(b: Bytes, beyond: Bytes)
    requires ReadTag(b).Some?
    ensures ReadTag(b + beyond) == ReadTag(b)
  {
    ReadVarintStays(b, beyond, 10);
  }

  lemma {:induction false} ReadVarintStays(b: Bytes, beyond: Bytes, most: nat)
    requires ReadVarint(b, most).Some?
    ensures ReadVarint(b + beyond, most) == ReadVarint(b, most)
    decreases most
  {
    if b[0] >= 128 {
      assert (b + beyond)[1..] == b[1..] + beyond;
      ReadVarintStays(b[1..], beyond, most - 1);
    }
  }

  // ---------- cut messages ----------

  lemma {:induction false} CutVarint(n: nat, j: nat, most: nat)
    requires j < |Varint(n)|
    ensures ReadVarint(Varint(n)[..j], most).None?
    decreases most
  {
    if j > 0 && most > 0 {
      assert Varint(n)[..j][1..] == Varint(n / 128)[..j - 1];
      CutVarint(n / 128, j - 1, most - 1);
    }
  }

  /** A record that is cut short cannot be read. */
  lemma CutDelimited(payload: Bytes, j: nat)
    requires |payload| < U64_LIMIT && j < |Delimited(payload)|
    ensures ReadDelimited(Delimited(payload)[..j]).None?
  {
    hide Varint;
    var n, b := |payload|, Delimited(payload)[..j];
    if j < |Varint(n)| {
      assert b == Varint(n)[..j];
      CutVarint(n, j, 10);
    } else {
      assert b == Varint(n) + payload[..j - |Varint(n)|];
      VarintFitsTen(n);
      ReadVarintBack(n, payload[..j - |Varint(n)|], 10);
    }
  }

  // ---------- the primitives, writing into a buffer at an offset with limited room ----------

  ghost predicate Wrote(buffer: Bytes, before: Bytes, offset: nat, data: Bytes) {
    |buffer| == |before| && offset + |data| <= |buffer|
    && buffer[..offset] == before[..offset] && buffer[offset..offset + |data|] == data
  }

  /** Writes `data` if there is room for it. */
  method Put(data: Bytes, buffer: array<Byte>, offset: nat, room: nat) returns (ok: bool)
    requires offset + room <= buffer.Length
    modifies buffer
    ensures ok <==> |data| <= room
    ensures ok ==> Wrote(buffer[..], old(buffer[..]), offset, data)
    ensures buffer[..offset] == old(buffer[..offset])
  {
    ok := |data| <= room;
    if ok {
      for i := 0 to |data|
        invariant buffer[..offset] == old(buffer[..offset])
        invariant buffer[offset..offset + i] == data[..i]
      {
        buffer[offset + i] := data[i];
      }
    }
  }

  /** `protobuf_encode_length_delimited`, and `protobuf_encode_string` on a string's bytes. */
  method PutDelimited(field: nat, payload: Bytes, buffer: array<Byte>, offset: nat, room: nat)
    returns (ok: bool, used: nat)
    requires offset + room <= buffer.Length
    modifies buffer
    ensures ok <==> |Tag(field, LENGTH_DELIMITED) + Delimited(payload)| <= room
    ensures ok ==> used == |Tag(field, LENGTH_DELIMITED) + Delimited(payload)|
                   && Wrote(buffer[..], old(buffer[..]), offset, Tag(field, LENGTH_DELIMITED) + Delimited(payload))
    ensures buffer[..offset] == old(buffer[..offset])
  {
    var data := Tag(field, LENGTH_DELIMITED) + Delimited(payload);
    used := |data|;
    ok := Put(data, buffer, offset, room);
  }

  /** `protobuf_encode_varint`. */
  method PutVarint(field: nat, n: nat, buffer: array<Byte>, offset: nat, room: nat) returns (ok: bool, used: nat)
    requires offset + room <= buffer.Length
    modifies buffer
    ensures ok <==> |Tag(field, VARINT) + Varint(n)| <= room
    ensures ok ==> used == |Tag(field, VARINT) + Varint(n)|
                   && Wrote(buffer[..], old(buffer[..]), offset, Tag(field, VARINT) + Varint(n))
    ensures buffer[..offset] == old(buffer[..offset])
  {
    var data := Tag(field, VARINT) + Varint(n);
    used := |data|;
    ok := Put(data, buffer, offset, room);
  }
}
