/** Whole runs of a hash table: every sequence of operations is answered as by a finite map. */
module KHashRuns {
  import opened Words
  import opened Options
  import Flags
  import opened Tables
  import opened KHashTable

  /** What a client does with a table: put a key and set its value, get, get and delete, clear, resize. */
  datatype Op<K, V> = Store(key: K, value: V) | Look(key: K) | Remove(key: K) | Wipe | Resize(wanted: U32)

  /** Whether a put found the key, what a get found. */
  datatype Answer<V> = Stored(found: bool) | Looked(value: Option<V>) | Silent

  // ---------- the finite map ----------

  function Apply<K, V>(m: map<K, V>, op: Op<K, V>): map<K, V> {
    match op
    case Store(k, v) => m[k := v]
    case Look(_) => m
    case Remove(k) => m - {k}
    case Wipe => map[]
    case Resize(_) => m
  }

  function Reply<K, V>(m: map<K, V>, op: Op<K, V>): Answer<V> {
    match op
    case Store(k, _) => Stored(k in m)
    case Look(k) => Looked(if k in m then Some(m[k]) else None)
    case Remove(_) => Silent
    case Wipe => Silent
    case Resize(_) => Silent
  }

  /** The map after a sequence of operations on an empty one. */
  function Contents<K, V>(ops: seq<Op<K, V>>): map<K, V> {
    if ops == [] then map[] else Apply(Contents(ops[..|ops| - 1]), ops[|ops| - 1])
  }

  predicate Touches<K(==), V>(op: Op<K, V>, k: K) {
    op.Wipe? || ((op.Store? || op.Remove?) && op.key == k)
  }

  /** Operation i stores v under k and no later one touches k. */
  ghost predicate LastStore<K, V>(ops: seq<Op<K, V>>, i: nat, k: K, v: V) {
    i < |ops| && ops[i] == Store(k, v) && forall j | i < j < |ops| :: !Touches(ops[j], k)
  }

  /** The map holds exactly the last value stored under each key, unless it was removed or wiped since. */
  lemma {:induction false} ContentsAreLastStores<K, V>(ops: seq<Op<K, V>>, k: K, v: V)
    ensures k in Contents(ops) && Contents(ops)[k] == v <==> exists i: nat :: LastStore(ops, i, k, v)
  {
    if ops != [] {
      var n := |ops| - 1;
      var front := ops[..n];
      ContentsAreLastStores(front, k, v);
      if i: nat :| LastStore(front, i, k, v) && !Touches(ops[n], k) {
        assert LastStore(ops, i, k, v);
      }
      if ops[n] == Store(k, v) { assert LastStore(ops, n, k, v); }
      if i: nat :| LastStore(ops, i, k, v) && i < n {
        assert !Touches(ops[n], k);
        assert LastStore(front, i, k, v);
      }
    }
  }

  lemma {:induction false} ContentsSize<K, V>(ops: seq<Op<K, V>>)
    ensures |Contents(ops)| <= |ops|
  {
    if ops != [] {
      var front, op := ops[..|ops| - 1], ops[|ops| - 1];
      ContentsSize(front);
      if op.Remove? && op.key in Contents(front) {
        assert (Contents(front) - {op.key}).Keys == Contents(front).Keys - {op.key};
        assert |(Contents(front) - {op.key}).Keys| <= |Contents(front).Keys|;
      } else if op.Remove? {
        assert Contents(front) - {op.key} == Contents(front);
      }
    }
  }

  // ---------- the table ----------

  /** A put needs its key in the map or fewer than 2^31 others; nothing else needs anything. */
  predicate Fits<K(==), V>(m: map<K, V>, op: Op<K, V>) {
    op.Store? ==> op.key in m || |m| < 0x8000_0000
  }

  /** Any one operation that fits does on the table what it does on the map. */
  method Perform<K(==, 0), V(0)>(table: KHash<K, V>, op: Op<K, V>) returns (a: Answer<V>)
    requires table.Valid() && Fits(table.M, op)
    modifies table.Repr
    ensures table.Valid() && fresh(table.Repr - old(table.Repr))
    ensures table.M == Apply(old(table.M), op) && a == Reply(old(table.M), op)
  {
    hide Represents, KHash.Counted, Flags.Packs, IsTableSize;
    a := Silent;
    match op {
      case Store(k, v) =>
        var x, ret := table.Put(k);
        table.SetValue(x, v);
        a := Stored(ret == 0);
      case Look(k) =>
        var x := table.Get(k);
        a := Looked(if x == table.nBuckets then None else Some(table.vals[x]));
      case Remove(k) =>
        RemoveKey(table, k);
      case Wipe =>
        table.Clear();
      case Resize(wanted) =>
        table.Resize(wanted);
    }
  }

  /** Get and delete. */
  method RemoveKey<K(==, 0), V(0)>(table: KHash<K, V>, key: K)
    requires table.Valid()
    modifies table.Repr
    ensures table.Valid() && table.Repr == old(table.Repr) && table.M == old(table.M) - {key}
  {
    hide Represents, KHash.Counted, Flags.Packs, IsTableSize;
    var x := table.Get(key);
    table.Delete(x);
  }

  /** From an empty table, every run that stores no more than 2^31 keys at a time, however long, gives the answers the
      finite map gives. */
  method PerformAll<K(==, 0), V(0)>(hash: K -> U32, ops: seq<Op<K, V>>) returns (table: KHash<K, V>, answers: seq<Answer<V>>)
    requires forall i | 0 <= i < |ops| :: Fits(Contents(ops[..i]), ops[i])
    ensures table.Valid() && fresh(table) && fresh(table.Repr) && table.M == Contents(ops)
    ensures |answers| == |ops| && forall i | 0 <= i < |ops| :: answers[i] == Reply(Contents(ops[..i]), ops[i])
    decreases |ops|
  {
    hide KHash.Valid, Apply, Reply, Fits;
    if ops == [] {
      table := new KHash(hash);
      answers := [];
    } else {
      var n := |ops| - 1;
      assert forall i | 0 <= i < n :: ops[..n][..i] == ops[..i];
      table, answers := PerformAll(hash, ops[..n]);
      assert Fits(Contents(ops[..n]), ops[n]);
      var a := Perform(table, ops[n]);
      answers := answers + [a];
    }
  }

  /** In particular every run of up to 2^31 operations fits. */
  lemma ShortRunsFit<K, V>(ops: seq<Op<K, V>>)
    requires |ops| <= 0x8000_0000
    ensures forall i | 0 <= i < |ops| :: Fits(Contents(ops[..i]), ops[i])
  {
    forall i | 0 <= i < |ops| ensures Fits(Contents(ops[..i]), ops[i]) { ContentsSize(ops[..i]); }
  }

  // ---------- a run that reaches the capacity ----------

  /** The first n numbers, stored under themselves. */
  function Numbering(n: nat): (r: seq<Op<nat, nat>>)
    ensures |r| == n && forall i | 0 <= i < n :: r[i] == Store(i, i)
  {
    seq(n, i requires 0 <= i => Store(i, i))
  }

  lemma {:induction false} NumberingContents(n: nat)
    ensures |Contents(Numbering(n))| == n && forall k: nat :: k in Contents(Numbering(n)) <==> k < n
  {
    if n > 0 {
      assert Numbering(n)[..n - 1] == Numbering(n - 1);
      NumberingContents(n - 1);
      var m, last: nat := Contents(Numbering(n - 1)), n - 1;
      assert Contents(Numbering(n)) == m[last := last];
      assert m[last := last].Keys == m.Keys + {last};
    }
  }

  /** A run of 2^31 puts of different keys fits, and one more put of a new key does not. */
  lemma CapacityIsReached(v: nat)
    ensures forall i | 0 <= i < 0x8000_0000 :: Fits(Contents(Numbering(0x8000_0000)[..i]), Numbering(0x8000_0000)[i])
    ensures |Contents(Numbering(0x8000_0000))| == 0x8000_0000
    ensures !Fits(Contents(Numbering(0x8000_0000)), Store(0x8000_0000, v))
  {
    hide Numbering, Fits;
    ShortRunsFit(Numbering(0x8000_0000));
    NumberingContents(0x8000_0000);
    NewKeyIsTooMany(Contents(Numbering(0x8000_0000)), 0x8000_0000, v);
  }

  lemma NewKeyIsTooMany(m: map<nat, nat>, k: nat, v: nat)
    requires k !in m && |m| == 0x8000_0000
    ensures !Fits(m, Store(k, v))
  {}
}
