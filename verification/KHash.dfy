/** The open-addressing hash table of khash.h, over any key type, value type and hash function. */
module KHashTable {
  import opened Words
  import opened Probing
  import opened Flags
  import opened Tables
  import opened Options

  /** `(khint_t)(n * 0.77 + 0.5)`, exact for the power-of-two sizes that occur. */
  function UpperBound(n: nat): nat {
    (77 * n + 50) / 100
  }

  /** The size `kh_resize` settles on for a requested number of buckets. */
  function RoundedSize(wanted: U32): U32 {
    var n := KRoundUp32(wanted);
    if n < 4 then 4 else n
  }

  /** It is C's `n * 0.77 + 0.5`, cut down to a whole number. */
  lemma BoundIs(n: nat)
    ensures UpperBound(n) as real <= n as real * 0.77 + 0.5 < UpperBound(n) as real + 1.0
  {}

  /** So many elements reach the load bound of n buckets: `count >= (khint_t)(n * 0.77 + 0.5)`. */
  ghost predicate AtLoad(count: nat, n: nat) {
    n == 0 || count as real + 1.0 > n as real * 0.77 + 0.5
  }

  lemma BoundIsLoad(count: nat, n: nat)
    ensures n > 0 ==> (count >= UpperBound(n) <==> AtLoad(count, n))
  {
    BoundIs(n);
  }

  ghost predicate IsTableSize(n: nat) {
    IsPow2(n) && 4 <= n <= 0x8000_0000
  }

  lemma RoundedIsTableSize(wanted: U32)
    ensures IsTableSize(RoundedSize(wanted))
  {
    Pow2Literals();
    if 1 <= wanted <= 0x8000_0000 {
      KRoundUp32Least(wanted);
    } else {
      KRoundUp32Wraps(wanted);
    }
  }

  /** It is the least power of two that is not below 4 and the request, or 4 where `kroundup32` wraps. */
  lemma RoundedSizeIs(wanted: U32)
    ensures wanted <= 4 || wanted > 0x8000_0000 ==> RoundedSize(wanted) == 4
    ensures 4 <= wanted <= 0x8000_0000 ==>
              IsPow2(RoundedSize(wanted)) && wanted <= RoundedSize(wanted) && forall s: nat :: wanted <= Pow2(s) ==> RoundedSize(wanted) <= Pow2(s)
  {
    Pow2Literals();
    if 1 <= wanted <= 0x8000_0000 {
      KRoundUp32Least(wanted);
      if wanted <= 4 { assert KRoundUp32(wanted) <= Pow2(2); }
    } else {
      KRoundUp32Wraps(wanted);
    }
  }

  lemma RoundTo(x: U32, p: nat)
    requires 1 <= x <= 0x8000_0000 && x <= Pow2(p) < 2 * x
    ensures KRoundUp32(x) == Pow2(p)
  {
    KRoundUp32Least(x);
    var q: nat :| KRoundUp32(x) == Pow2(q);
    if q < p { Pow2Monotone(q, p); } else { Pow2Monotone(p, q); }
  }

  /** Asking for one bucket less keeps a table's size; asking for one more doubles it. */
  lemma {:induction false} NextSizes(n: nat)
    requires IsTableSize(n)
    ensures RoundedSize(n - 1) == n
    ensures n < 0x8000_0000 ==> RoundedSize(n + 1) == 2 * n
  {
    var p: nat :| n == Pow2(p);
    RoundTo(n - 1, p);
    if n < 0x8000_0000 { RoundTo(n + 1, p + 1); }
  }

  lemma EmptyRepresents<K, V>(b: seq<Bucket>, keys: seq<K>, vals: seq<V>, hash: K -> U32, m: map<K, V>, pos: map<K, nat>)
    requires Represents(b, keys, vals, hash, m, pos) && |b| == 0
    ensures m.Keys == {}
  {
    assert pos.Keys == {};
  }

  /** Every flag index stays inside the flag words, of which there are no more than needed. */
  lemma FlagsHold(flags: seq<bv32>, n: nat)
    requires n == 0 || IsTableSize(n)
    requires n > 0 ==> |flags| == FlagWords(n)
    ensures Holds(flags, n) && (n > 0 ==> n <= 16 * |flags| < n + 16)
  {
    hide IsTableSize;
    if n >= 16 {
      var q := Sixteenths(n);
      assert n / 16 == q;
    }
  }

  lemma Sixteenths(n: nat) returns (q: nat)
    requires IsTableSize(n) && n >= 16
    ensures n == 16 * q
  {
    var p: nat :| n == Pow2(p);
    if p < 4 { Pow2Monotone(p, 3); }
    q := Pow2(p - 4);
    assert Pow2(p) == 2 * Pow2(p - 1) == 4 * Pow2(p - 2) == 8 * Pow2(p - 3);
  }

  /** The innermost loop of `kh_resize`: the first empty new bucket on the probe path of hash k. */
  method FindFree(newFlags: array<bv32>, k: U32, n: U32, ghost into: seq<Bucket>) returns (i: nat)
    requires IsPow2(n) && |into| == n && Packs(newFlags[..], into) && Count(into, Empty) > 0
    ensures i < n && into[i] == Empty && Reached(into, k, i)
  {
    hide BitAnd, NextIndex, Probe, IsPow2, Count, Packs, Reached, TestEmpty, ShiftOf;
    var mask, step := n - 1, 0;
    i := BitAnd(k, mask);
    ProbeStart(k, n);
    ghost var e := EmptyAhead(into, k);
    PacksReads(newFlags[..], into, i);
    while !TestEmpty(newFlags[i / 16], ShiftOf(i))
      invariant step <= e && i == Probe(k, step, n) && i < n && i / 16 < newFlags.Length
      invariant TestEmpty(newFlags[i / 16], ShiftOf(i)) <==> into[i] == Empty
      invariant forall s: nat | s < step :: into[Probe(k, s, n)] != Empty
      decreases e - step
    {
      ProbeNext(k, step, n);
      step := step + 1;
      i := NextIndex(i, step, mask);
      PacksReads(newFlags[..], into, i);
    }
    ReachedHere(into, k, step);
  }

  lemma ReachedHere(b: seq<Bucket>, h: nat, t: nat)
    requires |b| > 0 && forall s: nat | s < t :: b[Probe(h, s, |b|)] != Empty
    ensures Reached(b, h, Probe(h, t, |b|))
  {
    assert ReachedAt(b, h, Probe(h, t, |b|), t);
  }

  /** The kick-out loop of `kh_resize`: puts the element in hand down in the new table, picking up and
      placing in turn whatever old element it displaces. */
  method KickOut<K(==), V>(flags: array<bv32>, newFlags: array<bv32>, keys: array<K>, vals: array<V>,
                           nBuckets: U32, n: U32, hash: K -> U32, hand: (K, V),
                           ghost st0: Rehash<K, V>, ghost m: map<K, V>, ghost pos0: map<K, nat>)
    returns (ghost st: Rehash<K, V>, ghost pos: map<K, nat>)
    requires flags != newFlags && flags as object != keys && flags as object != vals
    requires newFlags as object != keys && newFlags as object != vals && keys as object != vals
    requires IsPow2(n) && |st0.from| == nBuckets && |st0.into| == n
    requires Packs(flags[..], st0.from) && Packs(newFlags[..], st0.into)
    requires st0.keys == keys[..] && st0.vals == vals[..] && st0.hand == Some(hand)
    requires Conserves(st0, hash, m, pos0) && Total(st0) < n
    modifies flags, newFlags, keys, vals
    ensures |st.from| == nBuckets && |st.into| == n
    ensures Packs(flags[..], st.from) && Packs(newFlags[..], st.into)
    ensures st.keys == keys[..] && st.vals == vals[..] && st.hand.None?
    ensures Conserves(st, hash, m, pos) && Total(st) == Total(st0)
    ensures forall i: nat | i < nBuckets && st0.from[i] != Live :: st.from[i] != Live
  {
    hide IsPow2, Count, Packs, Conserves, Total, Reached, TestEither, ShiftOf, ClearEmpty, SetDeleted;
    var key, val := hand.0, hand.1;
    st, pos := st0, pos0;
    while true
      invariant |st.from| == nBuckets && |st.into| == n
      invariant Packs(flags[..], st.from) && Packs(newFlags[..], st.into)
      invariant st.keys == keys[..] && st.vals == vals[..] && st.hand == Some((key, val))
      invariant Conserves(st, hash, m, pos) && Total(st) == Total(st0)
      invariant forall i: nat | i < nBuckets && st0.from[i] != Live :: st.from[i] != Live
      decreases Count(st.from, Live)
    {
      RoomLeft(st, hash, m, pos);
      var k := hash(key);
      var i := FindFree(newFlags, k, n, st.into);
      ConservesSizes(st, hash, m, pos);
      PutDownConserves(st, hash, m, pos, i);
      PacksNotEmpty(newFlags[..], st.into, i);
      ghost var before := newFlags[..];
      newFlags[i / 16] := ClearEmpty(newFlags[i / 16], ShiftOf(i));
      assert newFlags[..] == before[i / 16 := newFlags[i / 16]];
      if i < nBuckets { PacksReads(flags[..], st.from, i); }
      ghost var next, nextPos := PutDown(st, i), PutDownPos(st, pos, i);
      if i < nBuckets && !TestEither(flags[i / 16], ShiftOf(i)) {
        PacksDeleted(flags[..], st.from, i);
        keys[i], key := key, keys[i];
        vals[i], val := val, vals[i];
        before := flags[..];
        flags[i / 16] := SetDeleted(flags[i / 16], ShiftOf(i));
        assert flags[..] == before[i / 16 := flags[i / 16]];
        st, pos := next, nextPos;
      } else {
        keys[i] := key;
        vals[i] := val;
        st, pos := next, nextPos;
        break;
      }
    }
  }

  lemma ConservesSizes<K, V>(st: Rehash<K, V>, hash: K -> U32, m: map<K, V>, pos: map<K, nat>)
    requires Conserves(st, hash, m, pos)
    ensures |st.from| <= |st.keys| && |st.into| <= |st.keys| && |st.keys| == |st.vals|
  {}

  lemma SizeFacts(n: nat)
    requires IsTableSize(n)
    ensures IsPow2(n) && 4 <= n <= 0x8000_0000 && 0 < UpperBound(n) < n && FlagWords(n) > 0
  {}

  /** The outer loop of `kh_resize`. */
  method MoveAll<K(==), V>(flags: array<bv32>, newFlags: array<bv32>, keys: array<K>, vals: array<V>,
                           nBuckets: U32, n: U32, hash: K -> U32,
                           ghost b: seq<Bucket>, ghost m: map<K, V>, ghost pos: map<K, nat>)
    returns (ghost st: Rehash<K, V>, ghost at: map<K, nat>)
    requires flags != newFlags && flags as object != keys && flags as object != vals
    requires newFlags as object != keys && newFlags as object != vals && keys as object != vals
    requires IsPow2(n) && |b| == nBuckets && Count(b, Live) < n
    requires keys.Length == vals.Length && nBuckets <= keys.Length && n <= keys.Length
    requires Packs(flags[..], b) && Packs(newFlags[..], seq(n, _ => Empty))
    requires Represents(b, keys[..], vals[..], hash, m, pos)
    modifies flags, newFlags, keys, vals
    ensures |st.into| == n && Packs(newFlags[..], st.into)
    ensures Represents(st.into, keys[..], vals[..], hash, m, at)
    ensures Count(st.into, Live) == Count(b, Live) == n - Count(st.into, Empty)
  {
    hide Represents, Count, IsPow2, Packs, Conserves, Total, TestEither, ShiftOf, SetDeleted, PickUp;
    st, at := Rehash(b, seq(n, _ => Empty), keys[..], vals[..], None), pos;
    RehashStart(b, st.into, keys[..], vals[..], hash, m, pos);
    var j := 0;
    while j != nBuckets
      invariant j <= nBuckets
      invariant |st.from| == nBuckets && |st.into| == n
      invariant Packs(flags[..], st.from) && Packs(newFlags[..], st.into)
      invariant st.keys == keys[..] && st.vals == vals[..] && st.hand.None?
      invariant Conserves(st, hash, m, at) && Total(st) == Count(b, Live)
      invariant forall i: nat | i < j :: st.from[i] != Live
      decreases nBuckets - j
    {
      FlagRead(flags, st.from, j);
      if !TestEither(flags[j / 16], ShiftOf(j)) {
        var key, val := keys[j], vals[j];
        PacksDeleted(flags[..], st.from, j);
        PickUpConserves(st, hash, m, at, j);
        PickUpIs(st, hash, m, at, j);
        ghost var before := flags[..];
        flags[j / 16] := SetDeleted(flags[j / 16], ShiftOf(j));
        assert flags[..] == before[j / 16 := flags[j / 16]];
        st, at := KickOut(flags, newFlags, keys, vals, nBuckets, n, hash, (key, val), PickUp(st, j), m, at - {key});
      }
      j := j + 1;
    }
    RehashDone(st, hash, m, at);
  }

  lemma FlagRead(flags: array<bv32>, b: seq<Bucket>, i: nat)
    requires Packs(flags[..], b) && i < |b|
    ensures i / 16 < flags.Length
    ensures TestEither(flags[i / 16], ShiftOf(i)) <==> b[i] != Live
  {
    hide ShiftOf, Packs;
    PacksReads(flags[..], b, i);
  }

  lemma PickUpIs<K, V>(st: Rehash<K, V>, hash: K -> U32, m: map<K, V>, pos: map<K, nat>, j: nat)
    requires Conserves(st, hash, m, pos) && j < |st.from| && st.from[j] == Live
    ensures j < |st.keys| == |st.vals|
    ensures PickUp(st, j) == st.(from := st.from[j := Deleted], hand := Some((st.keys[j], st.vals[j])))
  {}

  /** The resize `kh_put` asks for always rehashes and leaves room, except in a table of 2^31 buckets at least half
      full: there `kroundup32` wraps, the requested size is too small and nothing happens. */
  lemma {:induction false} RoomFacts(n: U32, size: U32)
    requires n == 0 || IsTableSize(n)
    requires n < 0x8000_0000 ==> size <= if n == 0 then 0 else UpperBound(n)
    ensures n > 2 * size ==> n > 0 && RoundedSize(n - 1) == n && size < UpperBound(n)
    ensures n <= 2 * size && n < 0x8000_0000 ==> size < UpperBound(RoundedSize(n + 1))
    ensures n < 0x8000_0000 ==> RoundedSize(n + 1) == if n == 0 then 4 else 2 * n
    ensures n == 0x8000_0000 && n <= 2 * size ==> size >= UpperBound(RoundedSize(n + 1))
  {
    KRoundUp32Wraps(0x8000_0001);
    if n == 0 {
      Pow2Literals();
      RoundTo(1, 0);
    } else {
      NextSizes(n);
    }
  }

  /** The first t probes met live buckets only. */
  ghost predicate PassedLive(b: seq<Bucket>, h: nat, t: nat)
    requires |b| > 0
  {
    forall s: nat | s < t :: b[Probe(h, s, |b|)] == Live
  }

  /** Bucket x ends a probe path without tombstones. */
  ghost predicate FreshAt(b: seq<Bucket>, h: nat, x: nat)
    requires |b| > 0
  {
    exists t: nat :: Probe(h, t, |b|) == x && PassedLive(b, h, t)
  }

  lemma FreshKept(b: seq<Bucket>, h: nat, x: nat)
    requires x < |b| && FreshAt(b, h, x)
    ensures FreshAt(b[x := Live], h, x)
  {
    var t: nat :| Probe(h, t, |b|) == x && PassedLive(b, h, t);
    assert PassedLive(b[x := Live], h, t);
  }

  /** Bucket x is the last tombstone among the first t probes. */
  ghost predicate LastTombstone(b: seq<Bucket>, h: nat, t: nat, x: nat)
    requires |b| > 0
  {
    x < |b| && b[x] == Deleted && exists s: nat :: s < t && Probe(h, s, |b|) == x && NoTombstone(b, h, s + 1, t)
  }

  ghost predicate NoTombstone(b: seq<Bucket>, h: nat, from: nat, t: nat)
    requires |b| > 0
  {
    forall s: nat | from <= s < t :: b[Probe(h, s, |b|)] != Deleted
  }

  lemma TombstoneHere(b: seq<Bucket>, h: nat, t: nat)
    requires |b| > 0 && b[Probe(h, t, |b|)] == Deleted
    ensures LastTombstone(b, h, t + 1, Probe(h, t, |b|))
  {
    assert NoTombstone(b, h, t + 1, t + 1);
  }

  lemma TombstoneKept(b: seq<Bucket>, h: nat, t: nat, x: nat)
    requires |b| > 0 && b[Probe(h, t, |b|)] != Deleted
    ensures LastTombstone(b, h, t, x) ==> LastTombstone(b, h, t + 1, x)
  {
    if LastTombstone(b, h, t, x) {
      var s: nat :| s < t && Probe(h, s, |b|) == x && NoTombstone(b, h, s + 1, t);
      assert NoTombstone(b, h, s + 1, t + 1);
    }
  }

  lemma TombstoneIs(b: seq<Bucket>, h: nat, t: nat, x: nat)
    requires |b| > 0 && LastTombstone(b, h, t, x)
    ensures x < |b| && b[x] == Deleted
  {}

  /** A tombstone that a put reuses is the last one before the empty bucket that ends its search, or of the whole round. */
  ghost predicate ReusesLast(b: seq<Bucket>, h: nat, x: nat)
    requires |b| > 0
  {
    exists t: nat :: LastTombstone(b, h, t, x) && (b[Probe(h, t, |b|)] == Empty || t == 2 * |b| - 1)
  }

  lemma ReusesHere(b: seq<Bucket>, h: nat, t: nat, x: nat)
    requires |b| > 0 && LastTombstone(b, h, t, x) && (b[Probe(h, t, |b|)] == Empty || t == 2 * |b| - 1)
    ensures ReusesLast(b, h, x)
  {}

  lemma PassedNone(b: seq<Bucket>, h: nat)
    requires |b| > 0
    ensures PassedLive(b, h, 0)
  {}

  lemma PassedOne(b: seq<Bucket>, h: nat, t: nat)
    requires |b| > 0
    ensures PassedLive(b, h, t) && b[Probe(h, t, |b|)] == Live ==> PassedLive(b, h, t + 1)
  {}

  /** A whole round of probes that met live buckets only has met them all. */
  lemma {:induction false} AllPassed(b: seq<Bucket>, h: nat, t: nat)
    requires IsPow2(|b|) && |b| <= t && PassedLive(b, h, t)
    ensures Count(b, Live) == |b| && forall i | 0 <= i < |b| :: b[i] == Live
  {
    hide Probe;
    var p: nat :| |b| == Pow2(p);
    forall i: nat | i < |b| ensures b[i] == Live { var s := ProbeHits(h, i, p); }
    CountAll(b, Live);
  }

  lemma EmptyAtLoad(count: nat)
    ensures AtLoad(count, 0)
  {}

  /** The number of buckets `kh_put` asks for. `size << 1` wraps to zero for 2^31 elements. */
  function Wanted(n: U32, size: U32): U32
    requires n < 0x8000_0000 || n == 0x8000_0000
    requires size <= n
  {
    if n > 2 * size % U32_LIMIT then n - 1 else n + 1
  }

  /** The number of buckets after a resize for a put: the first four, the same number, or twice as many once the table is
      half full. */
  function NextBuckets(n: nat, size: nat): nat {
    if n == 0 then 4 else if n > 2 * size then n else 2 * n
  }

  /** The resize is carried out unless the table is a half-full one of 2^31 buckets. */
  lemma {:induction false} WantedFacts(n: U32, size: U32)
    requires (IsTableSize(n) || n == 0) && size <= n
    requires n < 0x8000_0000 ==> size <= if n == 0 then 0 else UpperBound(n)
    ensures size < UpperBound(RoundedSize(Wanted(n, size))) <==> n > 2 * size || n < 0x8000_0000
    ensures RoundedSize(Wanted(n, size)) > 0
    ensures n > 2 * size || n < 0x8000_0000 ==> RoundedSize(Wanted(n, size)) == NextBuckets(n, size)
  {
    hide RoundedSize;
    RoomFacts(n, size);
    RoundedIsTableSize(Wanted(n, size));
    if size < 0x8000_0000 {
      ModUnique(2 * size, U32_LIMIT, 0, 2 * size);
    } else {
      NextSizes(n);
    }
  }

  class KHash<K(==, 0), V(0)> {
    const hash: K -> U32

    var nBuckets: U32
    var size: U32
    var nOccupied: U32
    var upperBound: U32
    var flags: array<bv32>
    var keys: array<K>
    var vals: array<V>

    /** The finite map the table stands for, where each key sits, the bucket states, and the objects
        that make up the table. */
    ghost var M: map<K, V>
    ghost var pos: map<K, nat>
    ghost var B: seq<Bucket>
    ghost var Repr: set<object>

    ghost predicate Shape()
      reads this
    {
      && Repr == {this, flags, keys, vals}
      && flags as object != keys && flags as object != vals && keys as object != vals
      && (nBuckets == 0 || IsTableSize(nBuckets))
      && flags.Length == (if nBuckets == 0 then 0 else FlagWords(nBuckets))
      && keys.Length == vals.Length == nBuckets == |B|
    }

    ghost predicate Counted()
      reads this
    {
      && size == |M| == Count(B, Live)
      && nOccupied == nBuckets - Count(B, Empty)
      && size <= nOccupied && (nOccupied <= upperBound || nBuckets == 0x8000_0000)
      && upperBound == (if nBuckets == 0 then 0 else UpperBound(nBuckets))
    }

    ghost predicate Valid()
      reads this, Repr
      ensures Valid() ==> this in Repr
    {
      && Shape()
      && flags in Repr && keys in Repr && vals in Repr
      && Packs(flags[..], B)
      && Represents(B, keys[..], vals[..], hash, M, pos)
      && Counted()
    }

    /** Bucket x holds `key`. */
    ghost predicate Holding(x: nat, key: K)
      requires Shape()
      reads this, keys
    {
      x < nBuckets && B[x] == Live && keys[x] == key
    }

    // The flag macros, on this table.

    predicate IsEmptyAt(i: nat)
      requires i / 16 < flags.Length
      reads this, flags
    {
      TestEmpty(flags[i / 16], ShiftOf(i))
    }

    predicate IsDeletedAt(i: nat)
      requires i / 16 < flags.Length
      reads this, flags
    {
      TestDeleted(flags[i / 16], ShiftOf(i))
    }

    predicate IsEitherAt(i: nat)
      requires i / 16 < flags.Length
      reads this, flags
    {
      TestEither(flags[i / 16], ShiftOf(i))
    }

    lemma MacrosRead(i: nat)
      requires Packs(flags[..], B) && i < |B|
      ensures i / 16 < flags.Length
      ensures IsEmptyAt(i) <==> B[i] == Empty
      ensures IsDeletedAt(i) <==> B[i] == Deleted
      ensures IsEitherAt(i) <==> B[i] != Live
    {
      hide ShiftOf, Packs;
      PacksReads(flags[..], B, i);
    }

    lemma Load()
      requires Valid()
      ensures size == |M| && size <= nOccupied && (nOccupied <= upperBound || nBuckets == 0x8000_0000)
      ensures Repr == {this, flags, keys, vals}
    {}

    lemma LiveKey(x: nat)
      requires Valid() && x < nBuckets && B[x] == Live
      ensures keys[x] in M
    {
      FoundAt(B, keys[..], vals[..], hash, M, pos, keys[x], x);
    }

    constructor (hash: K -> U32)
      ensures Valid() && fresh(Repr)
      ensures M == map[] && this.hash == hash && nBuckets == 0
    {
      this.hash := hash;
      nBuckets, size, nOccupied, upperBound := 0, 0, 0, 0;
      flags := new bv32[0];
      keys := new K[0];
      vals := new V[0];
      M, pos, B := map[], map[], [];
      new;
      Repr := {this, flags, keys, vals};
    }

    /** `kh_get`: the bucket of the key, or `nBuckets`. */
    method Get(key: K) returns (x: nat)
      requires Valid()
      ensures key in M ==> Holding(x, key) && vals[x] == M[key]
      ensures key !in M ==> x == nBuckets
    {
      hide BitAnd, Probe, IsPow2, Count, Packs, Represents, Missed, IsEitherAt;
      if nBuckets == 0 {
        EmptyRepresents(B, keys[..], vals[..], hash, M, pos);
        return 0;
      }
      var k := hash(key);
      SizeFacts(nBuckets);
      ProbeStart(k, nBuckets);
      ghost var step;
      var i, wrapped;
      i, wrapped, step := Walk(key, BitAnd(k, nBuckets - 1), k);
      MacrosRead(i);
      if wrapped {
        AbsentEverywhere(B, keys[..], vals[..], hash, M, pos, key, step);
        x := nBuckets;
      } else if IsEitherAt(i) {
        AbsentAtEmpty(B, keys[..], vals[..], hash, M, pos, key, step);
        x := nBuckets;
      } else {
        FoundAt(B, keys[..], vals[..], hash, M, pos, key, i);
        x := i;
      }
    }

    /** The loop of `kh_get`: it ends at an empty bucket, at the key, or, only in a table without empty buckets, after a
        whole round where it started. */
    method Walk(key: K, start: nat, k: U32) returns (i: nat, wrapped: bool, ghost step: nat)
      requires Valid() && 0 < nBuckets && start == Probe(k, 0, nBuckets) && k == hash(key)
      ensures i < nBuckets && i == Probe(k, step, nBuckets) && Missed(B, keys[..], k, step, key)
      ensures if wrapped then nBuckets <= step && i == start else B[i] == Empty || (B[i] == Live && keys[i] == key)
      ensures wrapped ==> nOccupied == nBuckets == 0x8000_0000
    {
      hide NextIndex, Probe, IsPow2, Count, Packs, Represents, Missed, IsEmptyAt, IsDeletedAt, UpperBound, FlagWords;
      SizeFacts(nBuckets);
      var mask: U32, next: U32 := nBuckets - 1, 0;
      var last := start;
      i, wrapped, step := start, false, 0;
      MacrosRead(i);
      MissedNone(B, keys[..], k, key);
      while !IsEmptyAt(i) && (IsDeletedAt(i) || keys[i] != key)
        invariant step == next < 2 * nBuckets - 1 && i == Probe(k, step, nBuckets) && i < nBuckets && i / 16 < flags.Length
        invariant IsEmptyAt(i) <==> B[i] == Empty
        invariant IsDeletedAt(i) <==> B[i] == Deleted
        invariant Missed(B, keys[..], k, step, key) && !wrapped
        decreases 2 * nBuckets - next
      {
        ProbeNext(k, step, nBuckets);
        MissedOne(B, keys[..], k, step, key);
        next := next + 1;
        step := next;
        i := NextIndex(i, next, mask);
        MacrosRead(i);
        if i == last { wrapped := true; break; }
      }
      if wrapped { RoundFull(key, step); }
    }

    /** A whole round without the key and without an empty bucket is possible only in the largest table. */
    lemma RoundFull(key: K, step: nat)
      requires Valid() && 0 < nBuckets <= step && Missed(B, keys[..], hash(key), step, key)
      ensures nOccupied == nBuckets == 0x8000_0000
    {
      hide Represents, Missed, Packs;
      RoundIsFull(B, keys[..], hash(key), step, key);
    }

    /** `kh_clear`. */
    method Clear()
      requires Valid()
      modifies Repr
      ensures Valid() && Repr == old(Repr)
      ensures M == map[] && nBuckets == old(nBuckets) && (nBuckets > 0 ==> nOccupied == 0)
    {
      hide Represents, Count, IsPow2;
      if flags.Length == 0 {
        EmptyRepresents(B, keys[..], vals[..], hash, M, pos);
        assert M == map[];
        return;
      }
      for j := 0 to flags.Length
        invariant forall i | 0 <= i < j :: flags[i] == ALL_EMPTY
        modifies flags
      {
        flags[j] := ALL_EMPTY;
      }
      FlagsHold(flags[..], nBuckets);
      PacksFill(flags[..], nBuckets);
      M, pos, B := map[], map[], seq(nBuckets, _ => Empty);
      EmptyTable(B, keys[..], vals[..], hash);
      size, nOccupied := 0, 0;
    }

    /** `kh_del`: makes a live bucket a tombstone; any other bucket index is ignored. */
    method Delete(x: nat)
      requires Valid() && x <= nBuckets
      modifies Repr
      ensures Valid() && Repr == old(Repr)
      ensures nBuckets == old(nBuckets) && nOccupied == old(nOccupied) && keys[..] == old(keys[..])
      ensures M == if x < nBuckets && old(B)[x] == Live then old(M) - {old(keys[x])} else old(M)
    {
      hide Represents, Count, IsTableSize, Packs, IsEitherAt, UpperBound, FlagWords;
      if x != nBuckets {
        MacrosRead(x);
        if !IsEitherAt(x) {
          Bury(x);
          size := size - 1;
        }
      }
    }

    /** Makes a live bucket a tombstone, before the counter follows. */
    method Bury(x: nat)
      requires Valid() && x < nBuckets && B[x] == Live
      modifies flags, this`M, this`pos, this`B
      ensures B == old(B)[x := Deleted] && M == old(M) - {keys[x]}
      ensures keys[..] == old(keys[..]) && vals[..] == old(vals[..])
      ensures Packs(flags[..], B) && Represents(B, keys[..], vals[..], hash, M, pos)
      ensures Count(B, Live) == old(Count(B, Live)) - 1 && |M| == |old(M)| - 1 && Count(B, Empty) == old(Count(B, Empty))
    {
      hide Represents, Count, IsPow2, Packs, ShiftOf, SetDeleted;
      PacksDeleted(flags[..], B, x);
      DeleteRepresents(B, keys[..], vals[..], hash, M, pos, x);
      DeleteCounts(B, x);
      ghost var before := flags[..];
      flags[x / 16] := SetDeleted(flags[x / 16], ShiftOf(x));
      assert flags[..] == before[x / 16 := flags[x / 16]];
      M, pos, B := M - {keys[x]}, pos - {keys[x]}, B[x := Deleted];
    }

    /** `kh_value(h, x) = v` on a live bucket. */
    method SetValue(x: nat, v: V)
      requires Valid() && x < nBuckets && B[x] == Live
      modifies Repr
      ensures Valid() && Repr == old(Repr)
      ensures M == old(M)[old(keys[x]) := v] && keys[..] == old(keys[..])
      ensures nBuckets == old(nBuckets) && nOccupied == old(nOccupied) && size == old(size) && B == old(B)
    {
      hide Represents, Count, IsPow2, Packs;
      FoundAt(B, keys[..], vals[..], hash, M, pos, keys[x], x);
      AssignRepresents(B, keys[..], vals[..], hash, M, pos, x, v);
      ghost var before := vals[..];
      vals[x] := v;
      assert vals[..] == before[x := v];
      M := M[keys[x] := v];
      assert M.Keys == old(M).Keys;
    }

    /** `kh_resize`: rehashes in place into the rounded size, unless the elements would not fit its load bound. */
    method Resize(wanted: U32)
      requires Valid()
      modifies Repr
      ensures Valid() && fresh(Repr - old(Repr))
      ensures M == old(M) && size == old(size)
      ensures if AtLoad(old(size), RoundedSize(wanted))
              then nBuckets == old(nBuckets) && nOccupied == old(nOccupied)
              else nBuckets == RoundedSize(wanted) && nOccupied == size
    {
      hide Represents, Count, IsTableSize, Packs, Conserves, Total, RoundedSize, UpperBound, FlagWords, AtLoad;
      var n := RoundedSize(wanted);
      RoundedIsTableSize(wanted);
      BoundIsLoad(size, n);
      if size >= UpperBound(n) { return; }
      SizeFacts(n);
      var newFlags := new bv32[FlagWords(n)](_ => ALL_EMPTY);
      FlagsHold(newFlags[..], n);
      PacksFill(newFlags[..], n);
      if nBuckets < n { ReallocArrays(n, nBuckets); }
      ghost var st, at := MoveAll(flags, newFlags, keys, vals, nBuckets, n, hash, B, M, pos);
      B, pos := st.into, at;
      if nBuckets > n { ReallocArrays(n, n); }
      Adopt(newFlags, n);
    }

    /** The last assignments of `kh_resize`: the new flags and the new counters. */
    method Adopt(newFlags: array<bv32>, n: U32)
      requires IsTableSize(n) && newFlags.Length == FlagWords(n) && keys.Length == vals.Length == n == |B|
      requires newFlags as object != keys && newFlags as object != vals && keys as object != vals
      requires newFlags as object != this && keys as object != this && vals as object != this
      requires Packs(newFlags[..], B) && Represents(B, keys[..], vals[..], hash, M, pos)
      requires size == |M| == Count(B, Live) == n - Count(B, Empty) && size < UpperBound(n)
      modifies this
      ensures Valid() && Repr == {this, newFlags, keys, vals}
      ensures keys == old(keys) && vals == old(vals) && M == old(M)
      ensures nBuckets == n && nOccupied == size == old(size)
    {
      hide Represents, Count, IsTableSize, Packs, UpperBound, FlagWords;
      SizeFacts(n);
      flags := newFlags;
      nBuckets := n;
      nOccupied := size;
      upperBound := UpperBound(nBuckets);
      Repr := {this, flags, keys, vals};
    }

    /** The two `realloc` calls: key and value arrays of length n with the same first `kept` elements. */
    method ReallocArrays(n: U32, kept: U32)
      requires kept <= n && kept <= keys.Length == vals.Length && |B| == kept
      requires Represents(B, keys[..], vals[..], hash, M, pos)
      modifies this`keys, this`vals
      ensures fresh(keys) && fresh(vals) && keys as object != vals
      ensures keys.Length == vals.Length == n
      ensures Represents(B, keys[..], vals[..], hash, M, pos)
    {
      hide Represents;
      ghost var ks, vs := keys[..], vals[..];
      var newKeys := new K[n];
      for i := 0 to kept
        invariant newKeys[..i] == ks[..i]
        modifies newKeys
      {
        newKeys[i] := keys[i];
      }
      var newVals := new V[n];
      for i := 0 to kept
        invariant newVals[..i] == vs[..i]
        modifies newVals
      {
        newVals[i] := vals[i];
      }
      keys, vals := newKeys, newVals;
      assert keys[..][..kept] == ks[..kept] && vals[..][..kept] == vs[..kept];
      RepresentsPrefix(B, ks, vs, keys[..], vals[..], hash, M, pos);
    }

    /** A put that finds the load at its bound rehashes, unless the table is a half-full one of 2^31 buckets. */
    ghost predicate Rehashes()
      reads this
    {
      AtLoad(nOccupied, nBuckets) && (nBuckets > 2 * size || nBuckets < 0x8000_0000)
    }

    ghost predicate CanGrow()
      reads this
    {
      !AtLoad(nOccupied, nBuckets) || Rehashes()
    }

    lemma LoadMeans()
      requires Valid()
      ensures nOccupied >= upperBound <==> AtLoad(nOccupied, nBuckets)
    {
      hide Represents, Packs, UpperBound, AtLoad, Count;
      BoundIsLoad(nOccupied, nBuckets);
      EmptyAtLoad(nOccupied);
    }

    /** The table has the key or fewer than 2^31 others. */
    ghost predicate CanPut(key: K)
      reads this
    {
      key in M || |M| < 0x8000_0000
    }

    /** The resize decision of `kh_put`: afterwards the load is strictly below its bound, exactly when it was before
        or the resize is carried out. */
    method MakeRoom()
      requires Valid()
      modifies Repr
      ensures Valid() && fresh(Repr - old(Repr))
      ensures M == old(M) && 0 < nBuckets
      ensures !AtLoad(nOccupied, nBuckets) <==> old(CanGrow())
      ensures nOccupied == if old(Rehashes()) then size else old(nOccupied)
      ensures size == old(size) && nBuckets == if old(Rehashes()) then NextBuckets(old(nBuckets), old(size)) else old(nBuckets)
    {
      hide Represents, Count, IsPow2, Packs, RoundedSize, Wanted, UpperBound, FlagWords, AtLoad, NextBuckets;
      Bounds();
      LoadMeans();
      if nOccupied >= upperBound {
        WantedFacts(nBuckets, size);
        BoundIsLoad(size, RoundedSize(Wanted(nBuckets, size)));
        Resize(Wanted(nBuckets, size));
      }
      LoadMeans();
      EmptyAtLoad(nOccupied);
    }

    /** `kh_put`: the bucket of the key, made live if it was not. It fails for a new key in a table of 2^31 others, and
        then reports another key's bucket as the key's own. */
    method Put(key: K) returns (x: nat, ret: int)
      requires Valid()
      modifies Repr
      ensures Valid() && fresh(Repr - old(Repr))
      ensures x < nBuckets && B[x] == Live && (Holding(x, key) <==> old(CanPut(key)))
      ensures M == if old(CanPut(key)) then old(M)[key := vals[x]] else old(M)
      ensures 0 <= ret <= 2 && (ret == 0 <==> key in old(M) || !old(CanPut(key)))
      ensures ret == 0 ==> M == old(M)
      ensures ret == 1 ==> FreshAt(B, hash(key), x)
      ensures size == old(size) + (if ret == 0 then 0 else 1)
      ensures nBuckets == if !old(Rehashes()) then old(nBuckets)
                          else if old(nBuckets) == 0 then 4 else if old(nBuckets) > 2 * old(size) then old(nBuckets) else 2 * old(nBuckets)
      ensures var dead := if old(Rehashes()) then 0 else old(nOccupied) - old(size);
              nOccupied - size == if ret == 2 then dead - 1 else dead
    {
      hide Represents, Count, IsTableSize, Packs, FreshAt, AtLoad, UpperBound;
      MakeRoom();
      Bounds();
      LoadMeans();
      x, ret := PutInRoom(key);
    }

    /** The second half of `kh_put`. */
    method PutInRoom(key: K) returns (x: nat, ret: int)
      requires Valid() && 0 < nBuckets && (nOccupied < upperBound || nBuckets == 0x8000_0000)
      modifies Repr
      ensures Valid() && Repr == old(Repr)
      ensures x < nBuckets && B[x] == Live && (Holding(x, key) <==> old(CanPut(key)))
      ensures M == if old(CanPut(key)) then old(M)[key := vals[x]] else old(M)
      ensures 0 <= ret <= 2 && (ret == 0 <==> key in old(M) || !old(CanPut(key)))
      ensures ret == 0 ==> M == old(M)
      ensures ret == 1 ==> FreshAt(B, hash(key), x)
      ensures ret == 2 ==> ReusesLast(old(B), hash(key), x)
      ensures nBuckets == old(nBuckets) && size == old(size) + (if ret == 0 then 0 else 1)
      ensures nOccupied - size == old(nOccupied) - old(size) - (if ret == 2 then 1 else 0)
    {
      hide Represents, Count, IsTableSize, Packs, IsEmptyAt, IsDeletedAt, Reached, Counted, FreshAt, ReusesLast;
      x := Seek(key);
      MacrosRead(x);
      Bounds();
      if IsEmptyAt(x) {
        FreshKept(B, hash(key), x);
        TakeEmpty(x, key);
        ret := 1;
      } else if IsDeletedAt(x) {
        TakeTombstone(x, key);
        ret := 2;
      } else {
        ret := 0;
      }
    }

    /** There are no more elements than buckets, and as many only if every bucket is live. */
    lemma Bounds()
      requires Valid()
      ensures size == |M| <= nBuckets <= 0x8000_0000
      ensures nBuckets > 0 && nOccupied < upperBound ==> size < nBuckets
      ensures forall i: nat | i < nBuckets && B[i] != Live :: size < nBuckets
    {
      hide Represents, IsPow2, Packs;
      CountTotal(B);
      forall i: nat | i < nBuckets && B[i] != Live ensures size < nBuckets { CountSome(B, i); }
    }

    /** An absent key goes into an empty bucket on its probe path. */
    method TakeEmpty(x: nat, key: K)
      requires Valid() && (nOccupied < upperBound || nBuckets == 0x8000_0000)
      requires x < nBuckets && B[x] == Empty && key !in M && Reached(B, hash(key), x)
      modifies Repr
      ensures Valid() && Repr == old(Repr)
      ensures B == old(B)[x := Live] && keys[x] == key && M == old(M)[key := vals[x]]
      ensures nBuckets == old(nBuckets) && size == old(size) + 1 && nOccupied == old(nOccupied) + 1
    {
      hide Represents, Count, IsTableSize, Packs, Reached, UpperBound, FlagWords;
      Occupy(x, key);
      size, nOccupied := size + 1, nOccupied + 1;
    }

    /** An absent key goes into a tombstone on its probe path. */
    method TakeTombstone(x: nat, key: K)
      requires Valid() && x < nBuckets && B[x] == Deleted && key !in M && Reached(B, hash(key), x)
      modifies Repr
      ensures Valid() && Repr == old(Repr)
      ensures B == old(B)[x := Live] && keys[x] == key && M == old(M)[key := vals[x]]
      ensures nBuckets == old(nBuckets) && size == old(size) + 1 && nOccupied == old(nOccupied)
    {
      hide Represents, Count, IsTableSize, Packs, Reached, UpperBound, FlagWords;
      Occupy(x, key);
      CountTotal(B);
      size := size + 1;
    }

    /** The search of `kh_put`: the bucket of the key or, if absent, a bucket on its probe path that can take it,
        the last tombstone passed if there was one. If every bucket is live it comes back to where it started. */
    method Seek(key: K) returns (x: nat)
      requires Valid() && 0 < nBuckets
      ensures x < nBuckets
      ensures B[x] == Live && keys[x] == key ==> key in M && vals[x] == M[key]
      ensures B[x] == Live && keys[x] != key ==> key !in M && size == nBuckets
      ensures B[x] != Live ==> key !in M && Reached(B, hash(key), x)
      ensures B[x] == Empty ==> FreshAt(B, hash(key), x)
      ensures B[x] == Deleted ==> ReusesLast(B, hash(key), x)
    {
      hide Represents, Count, IsPow2, Packs, IsEmptyAt, IsDeletedAt, BitAnd, Probe, Missed, Reached, PassedLive, LastTombstone, ReusesLast;
      SizeFacts(nBuckets);
      var mask := nBuckets - 1;
      var site: nat := nBuckets;
      x := nBuckets;
      var k := hash(key);
      var i := BitAnd(k, mask);
      ghost var step, wrapped := 0, false;
      ProbeStart(k, nBuckets);
      MacrosRead(i);
      MissedNone(B, keys[..], k, key);
      PassedNone(B, k);
      if IsEmptyAt(i) {
        x := i;
      } else {
        i, x, site, step, wrapped := Search(key, i, k);
        MacrosRead(i);
        if site != nBuckets {
          TombstoneIs(B, k, step, site);
          if wrapped || B[i] == Empty { ReusesHere(B, k, step, site); }
        }
        if x == nBuckets {
          if IsEmptyAt(i) && site != nBuckets { x := site; } else { x := i; }
        }
      }
      MissedReaches(B, keys[..], k, step, key);
      if wrapped {
        AbsentEverywhere(B, keys[..], vals[..], hash, M, pos, key, step);
        MissedFirst(B, keys[..], k, step, key);
        if site == nBuckets { AllPassed(B, k, step); }
      } else if B[i] == Empty {
        AbsentAtEmpty(B, keys[..], vals[..], hash, M, pos, key, step);
      } else {
        FoundAt(B, keys[..], vals[..], hash, M, pos, key, i);
      }
    }

    /** The loop of that search: it ends at an empty bucket, at the key, or, only in a table without empty buckets, after a
        whole round where it started; `site` is the last tombstone passed. */
    method Search(key: K, start: nat, k: U32) returns (i: nat, x: nat, site: nat, ghost step: nat, ghost wrapped: bool)
      requires Valid() && 0 < nBuckets && start == Probe(k, 0, nBuckets) && k == hash(key)
      ensures i < nBuckets && i == Probe(k, step, nBuckets) && Missed(B, keys[..], k, step, key)
      ensures site == nBuckets ==> PassedLive(B, k, step)
      ensures site == nBuckets || (LastTombstone(B, k, step, site) && Reached(B, k, site))
      ensures wrapped ==> nOccupied == nBuckets == 0x8000_0000
      ensures if wrapped then nBuckets <= step == 2 * nBuckets - 1 && x == site && i == start
              else x == nBuckets && (B[i] == Empty || (B[i] == Live && keys[i] == key))
    {
      hide Represents, Count, IsPow2, Packs, IsEmptyAt, IsDeletedAt, NextIndex, Probe, Missed, Reached, PassedLive, LastTombstone, UpperBound, FlagWords;
      SizeFacts(nBuckets);
      var mask: U32, next: U32 := nBuckets - 1, 0;
      var last := start;
      i, x, site, step, wrapped := start, nBuckets, nBuckets, 0, false;
      MacrosRead(i);
      MissedNone(B, keys[..], k, key);
      PassedNone(B, k);
      while !IsEmptyAt(i) && (IsDeletedAt(i) || keys[i] != key)
        invariant step == next < 2 * nBuckets - 1 && i == Probe(k, step, nBuckets) && i < nBuckets && i / 16 < flags.Length
        invariant IsEmptyAt(i) <==> B[i] == Empty
        invariant IsDeletedAt(i) <==> B[i] == Deleted
        invariant Missed(B, keys[..], k, step, key)
        invariant x == nBuckets && !wrapped
        invariant site == nBuckets ==> PassedLive(B, k, step)
        invariant site == nBuckets || (LastTombstone(B, k, step, site) && Reached(B, k, site))
        decreases 2 * nBuckets - next
      {
        if IsDeletedAt(i) {
          site := i;
          MissedReaches(B, keys[..], k, step, key);
          TombstoneHere(B, k, step);
        } else {
          TombstoneKept(B, k, step, site);
        }
        ProbeNext(k, step, nBuckets);
        MissedOne(B, keys[..], k, step, key);
        PassedOne(B, k, step);
        next := next + 1;
        step := next;
        i := NextIndex(i, next, mask);
        MacrosRead(i);
        if i == last { x := site; wrapped := true; break; }
      }
      if wrapped { RoundFull(key, step); }
    }

    /** Writes an absent key into a bucket on its probe path and makes the bucket live, before the counters follow. */
    method Occupy(x: nat, key: K)
      requires Valid() && x < nBuckets && B[x] != Live && key !in M && Reached(B, hash(key), x)
      modifies flags, keys, this`M, this`pos, this`B
      ensures B == old(B)[x := Live] && keys[..] == old(keys[..])[x := key] && M == old(M)[key := vals[x]]
      ensures vals[..] == old(vals[..])
      ensures Packs(flags[..], B) && Represents(B, keys[..], vals[..], hash, M, pos)
      ensures Count(B, Live) == old(Count(B, Live)) + 1 && |M| == |old(M)| + 1
      ensures Count(B, Empty) == old(Count(B, Empty)) - (if old(B)[x] == Empty then 1 else 0)
    {
      hide Represents, Count, IsPow2, Packs, ShiftOf, ClearBoth, Reached;
      PacksLive(flags[..], B, x);
      InsertRepresents(B, keys[..], vals[..], hash, M, pos, key, x);
      FillCounts(B, x);
      ghost var before := keys[..];
      keys[x] := key;
      assert keys[..] == before[x := key];
      before := keys[..];
      ghost var words := flags[..];
      flags[x / 16] := ClearBoth(flags[x / 16], ShiftOf(x));
      assert flags[..] == words[x / 16 := flags[x / 16]];
      M, pos, B := M[key := vals[x]], pos[key := x], B[x := Live];
    }
  }

  /** Three puts of new keys leave a new table at four buckets, a fourth at eight. */
  method FirstPuts<K(==, 0), V(0)>(hash: K -> U32, a: K, b: K, c: K, d: K) returns (three: nat, four: nat)
    requires a != b && a != c && a != d && b != c && b != d && c != d
    ensures three == 4 && four == 8
  {
    hide Represents, Flags.Packs, IsTableSize, Count;
    var table: KHash<K, V> := new KHash(hash);
    var x, ret := table.Put(a);
    table.Load();
    x, ret := table.Put(b);
    table.Load();
    x, ret := table.Put(c);
    table.Load();
    three := table.nBuckets;
    x, ret := table.Put(d);
    four := table.nBuckets;
  }
}
