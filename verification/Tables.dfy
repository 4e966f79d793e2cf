/** What it means for bucket states, keys and values to represent a finite map, and why each
    elementary update of the hash table keeps that meaning. */
module Tables {
  import opened Words
  import opened Probing
  import opened Flags
  import opened Options

  // ---------- counting buckets ----------

  ghost function Count(b: seq<Bucket>, x: Bucket): (c: nat)
    ensures c <= |b|
  {
    if b == [] then 0 else (if b[0] == x then 1 else 0) + Count(b[1..], x)
  }

  lemma {:induction false} CountUpdate(b: seq<Bucket>, i: nat, y: Bucket, x: Bucket)
    requires i < |b|
    ensures Count(b[i := y], x) + (if b[i] == x then 1 else 0) == Count(b, x) + (if y == x then 1 else 0)
  {
    if i == 0 {
      assert b[i := y][1..] == b[1..];
    } else {
      assert b[i := y][1..] == b[1..][i - 1 := y];
      CountUpdate(b[1..], i - 1, y, x);
    }
  }

  lemma {:induction false} CountTotal(b: seq<Bucket>)
    ensures Count(b, Live) + Count(b, Deleted) + Count(b, Empty) == |b|
  {
    if b != [] { CountTotal(b[1..]); }
  }

  lemma {:induction false} CountAll(b: seq<Bucket>, x: Bucket)
    requires forall i | 0 <= i < |b| :: b[i] == x
    ensures Count(b, x) == |b|
  {
    if b != [] { CountAll(b[1..], x); }
  }

  lemma {:induction false} CountNone(b: seq<Bucket>, x: Bucket)
    requires forall i | 0 <= i < |b| :: b[i] != x
    ensures Count(b, x) == 0
  {
    if b != [] { CountNone(b[1..], x); }
  }

  lemma CountSome(b: seq<Bucket>, i: nat)
    requires i < |b| && b[i] != Live
    ensures Count(b, Live) < |b|
  {
    CountUpdate(b, i, Live, Live);
  }

  lemma CountPositive(b: seq<Bucket>, x: Bucket)
    requires Count(b, x) > 0
    ensures exists i: nat | i < |b| :: b[i] == x
  {
    if forall i | 0 <= i < |b| :: b[i] != x { CountNone(b, x); }
  }

  // ---------- the representation invariant ----------

  /** Bucket i is the t-th probe from hash h, and no earlier probe meets an empty bucket. */
  ghost predicate ReachedAt(b: seq<Bucket>, h: nat, i: nat, t: nat)
    requires |b| > 0
  {
    Probe(h, t, |b|) == i && forall s: nat | s < t :: b[Probe(h, s, |b|)] != Empty
  }

  ghost predicate Reached(b: seq<Bucket>, h: nat, i: nat) {
    |b| > 0 && exists t: nat :: ReachedAt(b, h, i, t)
  }

  /** The live buckets hold exactly the pairs of m, each key once at position pos[key], and every
      live key is found by probing. */
  ghost predicate Represents<K, V>(b: seq<Bucket>, keys: seq<K>, vals: seq<V>, hash: K -> U32,
                                   m: map<K, V>, pos: map<K, nat>) {
    && |b| <= |keys| && |b| <= |vals|
    && pos.Keys == m.Keys
    && (forall k | k in pos :: pos[k] < |b| && b[pos[k]] == Live && keys[pos[k]] == k && vals[pos[k]] == m[k])
    && (forall i: nat | i < |b| && b[i] == Live :: keys[i] in pos && pos[keys[i]] == i)
    && (forall i: nat | i < |b| && b[i] == Live :: Reached(b, hash(keys[i]), i))
  }

  /** Filling or deleting a bucket never cuts a probe path. */
  lemma ReachedKept(b: seq<Bucket>, h: nat, i: nat, j: nat, y: Bucket)
    requires j < |b| && y != Empty && Reached(b, h, i)
    ensures Reached(b[j := y], h, i)
  {
    var t: nat :| ReachedAt(b, h, i, t);
    assert ReachedAt(b[j := y], h, i, t);
  }

  /** None of the first t probes for the key meets it or an empty bucket. */
  ghost predicate Missed<K>(b: seq<Bucket>, keys: seq<K>, h: nat, t: nat, key: K)
    requires 0 < |b| <= |keys|
  {
    forall s: nat | s < t :: b[Probe(h, s, |b|)] != Empty && (b[Probe(h, s, |b|)] == Live ==> keys[Probe(h, s, |b|)] != key)
  }

  lemma MissedNone<K>(b: seq<Bucket>, keys: seq<K>, h: nat, key: K)
    requires 0 < |b| <= |keys|
    ensures Missed(b, keys, h, 0, key)
  {}

  lemma MissedOne<K>(b: seq<Bucket>, keys: seq<K>, h: nat, t: nat, key: K)
    requires 0 < |b| <= |keys| && Missed(b, keys, h, t, key)
    requires b[Probe(h, t, |b|)] != Empty && (b[Probe(h, t, |b|)] == Live ==> keys[Probe(h, t, |b|)] != key)
    ensures Missed(b, keys, h, t + 1, key)
  {}

  lemma MissedFirst<K>(b: seq<Bucket>, keys: seq<K>, h: nat, t: nat, key: K)
    requires 0 < |b| <= |keys| && 0 < t && Missed(b, keys, h, t, key)
    ensures b[Probe(h, 0, |b|)] == Live ==> keys[Probe(h, 0, |b|)] != key
  {}

  lemma MissedReaches<K>(b: seq<Bucket>, keys: seq<K>, h: nat, t: nat, key: K)
    requires 0 < |b| <= |keys| && Missed(b, keys, h, t, key)
    ensures Reached(b, h, Probe(h, t, |b|))
  {
    assert ReachedAt(b, h, Probe(h, t, |b|), t);
  }

  /** A probe that meets an empty bucket before the key proves the key absent. */
  lemma AbsentAtEmpty<K, V>(b: seq<Bucket>, keys: seq<K>, vals: seq<V>, hash: K -> U32,
                            m: map<K, V>, pos: map<K, nat>, key: K, t: nat)
    requires Represents(b, keys, vals, hash, m, pos) && |b| > 0
    requires b[Probe(hash(key), t, |b|)] == Empty && Missed(b, keys, hash(key), t, key)
    ensures key !in m
  {
    forall k | k in m
      ensures k != key
    {
      var s: nat :| ReachedAt(b, hash(k), pos[k], s);
      assert b[Probe(hash(k), s, |b|)] == Live;
    }
  }

  /** A whole round of probes that misses the key proves it absent. */
  lemma {:induction false} AbsentEverywhere<K, V>(b: seq<Bucket>, keys: seq<K>, vals: seq<V>, hash: K -> U32,
                                                  m: map<K, V>, pos: map<K, nat>, key: K, t: nat)
    requires Represents(b, keys, vals, hash, m, pos) && IsPow2(|b|) && |b| <= t
    requires Missed(b, keys, hash(key), t, key)
    ensures key !in m
  {
    hide Probe;
    if key in m {
      var p: nat :| |b| == Pow2(p);
      var s := ProbeHits(hash(key), pos[key], p);
    }
  }

  /** A whole round that misses the key has met no empty bucket, so there is none. */
  lemma {:induction false} RoundIsFull<K>(b: seq<Bucket>, keys: seq<K>, h: nat, t: nat, key: K)
    requires IsPow2(|b|) && 0 < |b| <= |keys| && |b| <= t && Missed(b, keys, h, t, key)
    ensures Count(b, Empty) == 0
  {
    hide Probe;
    var p: nat :| |b| == Pow2(p);
    forall i: nat | i < |b| ensures b[i] != Empty { var s := ProbeHits(h, i, p); }
    CountNone(b, Empty);
  }

  /** A live bucket with the key gives the key's value. */
  lemma FoundAt<K, V>(b: seq<Bucket>, keys: seq<K>, vals: seq<V>, hash: K -> U32,
                      m: map<K, V>, pos: map<K, nat>, key: K, x: nat)
    requires Represents(b, keys, vals, hash, m, pos)
    requires x < |b| && b[x] == Live && keys[x] == key
    ensures key in m && vals[x] == m[key] && pos[key] == x
  {
    assert pos[keys[x]] == x;
  }

  /** While some bucket is empty, a probe sequence meets an empty bucket within |b| steps. */
  lemma {:induction false} EmptyAhead(b: seq<Bucket>, h: nat) returns (t: nat)
    requires IsPow2(|b|) && Count(b, Empty) > 0
    ensures t < |b| && b[Probe(h, t, |b|)] == Empty
  {
    CountPositive(b, Empty);
    var i: nat :| i < |b| && b[i] == Empty;
    var p: nat :| |b| == Pow2(p);
    t := ProbeHits(h, i, p);
  }

  /** `kh_put` into a bucket that holds no key, at the end of a probe for the absent key. */
  lemma InsertRepresents<K, V>(b: seq<Bucket>, keys: seq<K>, vals: seq<V>, hash: K -> U32,
                               m: map<K, V>, pos: map<K, nat>, key: K, x: nat)
    requires Represents(b, keys, vals, hash, m, pos)
    requires x < |b| && b[x] != Live && key !in m && Reached(b, hash(key), x)
    ensures Represents(b[x := Live], keys[x := key], vals, hash, m[key := vals[x]], pos[key := x])
  {
    var b', keys', m', pos' := b[x := Live], keys[x := key], m[key := vals[x]], pos[key := x];
    forall k | k in pos'
      ensures pos'[k] < |b'| && b'[pos'[k]] == Live && keys'[pos'[k]] == k && vals[pos'[k]] == m'[k]
    {
      if k != key { assert pos'[k] == pos[k] != x; }
    }
    forall i: nat | i < |b'| && b'[i] == Live
      ensures keys'[i] in pos' && pos'[keys'[i]] == i && Reached(b', hash(keys'[i]), i)
    {
      ReachedKept(b, hash(keys'[i]), i, x, Live);
    }
  }

  /** `kh_del` on a live bucket. */
  lemma DeleteRepresents<K, V>(b: seq<Bucket>, keys: seq<K>, vals: seq<V>, hash: K -> U32,
                               m: map<K, V>, pos: map<K, nat>, x: nat)
    requires Represents(b, keys, vals, hash, m, pos)
    requires x < |b| && b[x] == Live
    ensures Represents(b[x := Deleted], keys, vals, hash, m - {keys[x]}, pos - {keys[x]})
    ensures |m - {keys[x]}| == |m| - 1
  {
    assert keys[x] in m && (m - {keys[x]}).Keys == m.Keys - {keys[x]};
    var b', m', pos' := b[x := Deleted], m - {keys[x]}, pos - {keys[x]};
    forall i: nat | i < |b'| && b'[i] == Live
      ensures keys[i] in pos' && pos'[keys[i]] == i && Reached(b', hash(keys[i]), i)
    {
      ReachedKept(b, hash(keys[i]), i, x, Deleted);
    }
  }

  /** Writing the value of a live bucket changes the map at that bucket's key only. */
  lemma AssignRepresents<K, V>(b: seq<Bucket>, keys: seq<K>, vals: seq<V>, hash: K -> U32,
                               m: map<K, V>, pos: map<K, nat>, x: nat, v: V)
    requires Represents(b, keys, vals, hash, m, pos)
    requires x < |b| && b[x] == Live
    ensures Represents(b, keys, vals[x := v], hash, m[keys[x] := v], pos)
  {
    var m', vals' := m[keys[x] := v], vals[x := v];
    assert m'.Keys == m.Keys;
    forall k | k in pos
      ensures vals'[pos[k]] == m'[k]
    {
      if pos[k] == x { assert k == keys[x]; } else { assert k != keys[x]; }
    }
  }

  /** The live keys of the first n buckets, in bucket order. */
  ghost function LiveKeys<K>(b: seq<Bucket>, keys: seq<K>, n: nat): seq<K>
    requires n <= |b| <= |keys|
  {
    if n == 0 then [] else LiveKeys(b, keys, n - 1) + (if b[n - 1] == Live then [keys[n - 1]] else [])
  }

  /** Going through the buckets meets every key of the map once. */
  lemma {:induction false} LiveKeysOnce<K, V>(b: seq<Bucket>, keys: seq<K>, vals: seq<V>, hash: K -> U32,
                                              m: map<K, V>, pos: map<K, nat>, n: nat)
    requires Represents(b, keys, vals, hash, m, pos) && n <= |b|
    ensures forall k :: k in LiveKeys(b, keys, n) <==> k in m && pos[k] < n
    ensures forall i, j | 0 <= i < j < |LiveKeys(b, keys, n)| :: LiveKeys(b, keys, n)[i] != LiveKeys(b, keys, n)[j]
  {
    if n > 0 { LiveKeysOnce(b, keys, vals, hash, m, pos, n - 1); }
  }

  lemma AllLiveKeysOnce<K, V>(b: seq<Bucket>, keys: seq<K>, vals: seq<V>, hash: K -> U32, m: map<K, V>, pos: map<K, nat>)
    requires Represents(b, keys, vals, hash, m, pos)
    ensures forall k :: k in LiveKeys(b, keys, |b|) <==> k in m
    ensures forall i, j | 0 <= i < j < |LiveKeys(b, keys, |b|)| :: LiveKeys(b, keys, |b|)[i] != LiveKeys(b, keys, |b|)[j]
  {
    LiveKeysOnce(b, keys, vals, hash, m, pos, |b|);
  }

  /** The counts after filling a bucket. */
  lemma FillCounts(b: seq<Bucket>, x: nat)
    requires x < |b| && b[x] != Live
    ensures Count(b[x := Live], Live) == Count(b, Live) + 1
    ensures Count(b[x := Live], Empty) == Count(b, Empty) - (if b[x] == Empty then 1 else 0)
  {
    CountUpdate(b, x, Live, Live);
    CountUpdate(b, x, Live, Empty);
  }

  /** The counts after deleting a live bucket. */
  lemma DeleteCounts(b: seq<Bucket>, x: nat)
    requires x < |b| && b[x] == Live
    ensures Count(b[x := Deleted], Live) == Count(b, Live) - 1
    ensures Count(b[x := Deleted], Empty) == Count(b, Empty)
  {
    CountUpdate(b, x, Deleted, Live);
    CountUpdate(b, x, Deleted, Empty);
  }

  lemma EmptyTable<K, V>(b: seq<Bucket>, keys: seq<K>, vals: seq<V>, hash: K -> U32)
    requires |b| <= |keys| && |b| <= |vals|
    requires forall i | 0 <= i < |b| :: b[i] == Empty
    ensures Represents(b, keys, vals, hash, map[], map[])
    ensures Count(b, Live) == 0 && Count(b, Empty) == |b|
  {
    CountNone(b, Live);
    CountAll(b, Empty);
  }

  /** Only the buckets' own keys and values matter. */
  lemma RepresentsPrefix<K, V>(b: seq<Bucket>, keys: seq<K>, vals: seq<V>, keys': seq<K>, vals': seq<V>,
                               hash: K -> U32, m: map<K, V>, pos: map<K, nat>)
    requires Represents(b, keys, vals, hash, m, pos)
    requires |b| <= |keys'| && |b| <= |vals'|
    requires keys'[..|b|] == keys[..|b|] && vals'[..|b|] == vals[..|b|]
    ensures Represents(b, keys', vals', hash, m, pos)
  {
    assert forall i: nat | i < |b| :: keys'[i] == keys'[..|b|][i] == keys[i];
    assert forall i: nat | i < |b| :: vals'[i] == vals'[..|b|][i] == vals[i];
  }

  // ---------- the in-place rehash ----------

  /** The state of `kh_resize` while it moves elements: the old and the new flags, the shared
      key and value arrays, and the element in hand, if any. */
  datatype Rehash<K, V> = Rehash(from: seq<Bucket>, into: seq<Bucket>, keys: seq<K>, vals: seq<V>, hand: Option<(K, V)>) {
    ghost predicate FromLive(i: nat) { i < |this.from| && this.from[i] == Live }

    ghost predicate IntoLive(i: nat) { i < |this.into| && this.into[i] == Live }
  }

  /** Conservation: the old-live slots, the new-live slots and the hand partition the pairs of m. */
  ghost predicate Conserves<K, V>(st: Rehash<K, V>, hash: K -> U32, m: map<K, V>, pos: map<K, nat>) {
    && |st.from| <= |st.keys| && |st.into| <= |st.keys| && |st.keys| == |st.vals|
    && (forall i: nat | i < |st.into| :: st.into[i] != Deleted)
    && (forall i: nat | st.IntoLive(i) :: !st.FromLive(i))
    && (match st.hand
        case None => pos.Keys == m.Keys
        case Some((k, v)) => k in m && m[k] == v && k !in pos && m.Keys == pos.Keys + {k})
    && (forall k | k in pos :: pos[k] < |st.keys| && (st.FromLive(pos[k]) || st.IntoLive(pos[k]))
                               && st.keys[pos[k]] == k && k in m && st.vals[pos[k]] == m[k])
    && (forall i: nat | st.FromLive(i) :: st.keys[i] in pos && pos[st.keys[i]] == i)
    && (forall i: nat | st.IntoLive(i) :: st.keys[i] in pos && pos[st.keys[i]] == i)
    && (forall i: nat | st.IntoLive(i) :: Reached(st.into, hash(st.keys[i]), i))
  }

  /** How many elements are accounted for. */
  ghost function Total<K, V>(st: Rehash<K, V>): nat {
    Count(st.from, Live) + Count(st.into, Live) + (if st.hand.None? then 0 else 1)
  }

  /** Picking the element of old slot j up. */
  ghost function PickUp<K, V>(st: Rehash<K, V>, j: nat): Rehash<K, V>
    requires st.FromLive(j) && j < |st.keys| && j < |st.vals|
  {
    st.(from := st.from[j := Deleted], hand := Some((st.keys[j], st.vals[j])))
  }

  lemma PickUpConserves<K, V>(st: Rehash<K, V>, hash: K -> U32, m: map<K, V>, pos: map<K, nat>, j: nat)
    requires Conserves(st, hash, m, pos) && st.hand.None? && st.FromLive(j)
    ensures Conserves(PickUp(st, j), hash, m, pos - {st.keys[j]})
    ensures Total(PickUp(st, j)) == Total(st)
  {
    CountUpdate(st.from, j, Deleted, Live);
    var st', pos' := PickUp(st, j), pos - {st.keys[j]};
    assert forall i: nat :: st'.IntoLive(i) <==> st.IntoLive(i);
    assert forall i: nat :: st'.FromLive(i) <==> st.FromLive(i) && i != j;
    assert st.keys[j] in pos && pos[st.keys[j]] == j;
    assert m.Keys == pos'.Keys + {st.keys[j]};
  }

  /** Putting the element in hand down at new slot i; an old element still there is kicked out into the hand. */
  ghost function PutDown<K, V>(st: Rehash<K, V>, i: nat): Rehash<K, V>
    requires st.hand.Some? && i < |st.into| && |st.into| <= |st.keys| == |st.vals|
  {
    var (k, v) := st.hand.value;
    var kicks := st.FromLive(i);
    Rehash(if kicks then st.from[i := Deleted] else st.from, st.into[i := Live], st.keys[i := k], st.vals[i := v],
           if kicks then Some((st.keys[i], st.vals[i])) else None)
  }

  ghost function PutDownPos<K, V>(st: Rehash<K, V>, pos: map<K, nat>, i: nat): map<K, nat>
    requires st.hand.Some? && i < |st.into| <= |st.keys|
  {
    if st.FromLive(i) then (pos - {st.keys[i]})[st.hand.value.0 := i] else pos[st.hand.value.0 := i]
  }

  lemma {:induction false} PutDownConserves<K, V>(st: Rehash<K, V>, hash: K -> U32, m: map<K, V>, pos: map<K, nat>, i: nat)
    requires Conserves(st, hash, m, pos) && st.hand.Some?
    requires i < |st.into| && st.into[i] == Empty && Reached(st.into, hash(st.hand.value.0), i)
    ensures Conserves(PutDown(st, i), hash, m, PutDownPos(st, pos, i))
    ensures Total(PutDown(st, i)) == Total(st)
    ensures PutDown(st, i).hand.Some? ==> Count(PutDown(st, i).from, Live) < Count(st.from, Live)
  {
    hide Reached, Total;
    PutDownTotal(st, i);
    var st', pos' := PutDown(st, i), PutDownPos(st, pos, i);
    var (k, v) := st.hand.value;
    PutDownPositions(st, hash, m, pos, i);
    forall s: nat | st'.IntoLive(s)
      ensures Reached(st'.into, hash(st'.keys[s]), s)
    {
      if s != i { assert st.IntoLive(s); }
      ReachedKept(st.into, hash(st'.keys[s]), s, i, Live);
    }
  }

  lemma PutDownTotal<K, V>(st: Rehash<K, V>, i: nat)
    requires st.hand.Some? && i < |st.into| <= |st.keys| == |st.vals| && st.into[i] == Empty
    ensures Total(PutDown(st, i)) == Total(st)
    ensures PutDown(st, i).hand.Some? ==> Count(PutDown(st, i).from, Live) < Count(st.from, Live)
  {
    CountUpdate(st.into, i, Live, Live);
    if st.FromLive(i) { CountUpdate(st.from, i, Deleted, Live); }
  }

  lemma PutDownPositions<K, V>(st: Rehash<K, V>, hash: K -> U32, m: map<K, V>, pos: map<K, nat>, i: nat)
    requires Conserves(st, hash, m, pos) && st.hand.Some?
    requires i < |st.into| && st.into[i] == Empty
    ensures var st', pos' := PutDown(st, i), PutDownPos(st, pos, i);
            && (forall s: nat | st'.IntoLive(s) :: !st'.FromLive(s))
            && (match st'.hand
                case None => pos'.Keys == m.Keys
                case Some((k, v)) => k in m && m[k] == v && k !in pos' && m.Keys == pos'.Keys + {k})
            && (forall k | k in pos' :: pos'[k] < |st'.keys| && (st'.FromLive(pos'[k]) || st'.IntoLive(pos'[k]))
                                        && st'.keys[pos'[k]] == k && k in m && st'.vals[pos'[k]] == m[k])
            && (forall s: nat | st'.FromLive(s) :: st'.keys[s] in pos' && pos'[st'.keys[s]] == s)
            && (forall s: nat | st'.IntoLive(s) :: st'.keys[s] in pos' && pos'[st'.keys[s]] == s)
  {
    hide Reached;
    var st', pos' := PutDown(st, i), PutDownPos(st, pos, i);
    assert forall s: nat | s != i :: st'.IntoLive(s) <==> st.IntoLive(s);
    assert forall s: nat | s != i :: st'.FromLive(s) <==> st.FromLive(s);
    assert st'.IntoLive(i) && !st'.FromLive(i);
  }

  /** While elements remain to be placed, the new slots have an empty bucket. */
  lemma RoomLeft<K, V>(st: Rehash<K, V>, hash: K -> U32, m: map<K, V>, pos: map<K, nat>)
    requires Conserves(st, hash, m, pos) && Total(st) < |st.into|
    ensures Count(st.into, Empty) > 0
  {
    CountNone(st.into, Deleted);
    CountTotal(st.into);
  }

  /** When nothing is left in the old slots or in the hand, the new slots represent the map. */
  lemma RehashDone<K, V>(st: Rehash<K, V>, hash: K -> U32, m: map<K, V>, pos: map<K, nat>)
    requires Conserves(st, hash, m, pos) && st.hand.None?
    requires forall i: nat | i < |st.from| :: st.from[i] != Live
    ensures Represents(st.into, st.keys, st.vals, hash, m, pos)
    ensures Count(st.into, Live) == Total(st)
    ensures |st.into| - Count(st.into, Empty) == Total(st)
  {
    CountNone(st.from, Live);
    CountNone(st.into, Deleted);
    CountTotal(st.into);
    assert forall i: nat | i < |st.into| && st.into[i] == Live :: st.IntoLive(i);
  }

  /** At the start everything is in the old slots. */
  lemma RehashStart<K, V>(b: seq<Bucket>, into: seq<Bucket>, keys: seq<K>, vals: seq<V>, hash: K -> U32,
                          m: map<K, V>, pos: map<K, nat>)
    requires Represents(b, keys, vals, hash, m, pos) && |keys| == |vals| >= |into|
    requires forall i: nat | i < |into| :: into[i] == Empty
    ensures Conserves(Rehash(b, into, keys, vals, None), hash, m, pos)
    ensures Total(Rehash(b, into, keys, vals, None)) == Count(b, Live)
  {
    CountNone(into, Live);
  }
}
