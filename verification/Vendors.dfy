/** Merging the markets of all vendors into one list without duplicates (`vendor_get_all_trading_pairs`). */
module Vendors {
  import opened Options
  import opened Octets
  import opened Words
  import opened MarketWire
  import opened Markets
  import opened Probing
  import opened Tables
  import opened KHashTable
  import Flags

  class Vendor {
    var currentMarket: Market?

    /** `vendor_new`. */
    constructor ()
      ensures currentMarket == null
    {
      currentMarket := null;
    }
  }

  class VendorNode {
    var vendor: Vendor
    var next: VendorNode?

    constructor (vendor: Vendor)
      ensures this.vendor == vendor && next == null
    {
      this.vendor, next := vendor, null;
    }
  }

  // ---------- keys ----------

  const TILDE: Byte := 126

  function PairKey(base: Bytes, market: Bytes): Bytes {
    base + [TILDE] + market
  }

  predicate HasNames(q: Quote) {
    q.base.Some? && q.market.Some?
  }

  function Name(s: Option<Bytes>): Bytes {
    if s.Some? then s.value else []
  }

  function Key(q: Quote): Bytes {
    PairKey(Name(q.base), Name(q.market))
  }

  /** Two pairs share a key exactly when they are equal or the longer base continues the shorter one behind a tilde. */
  lemma KeyCollision(b1: Bytes, m1: Bytes, b2: Bytes, m2: Bytes)
    requires |b1| <= |b2|
    ensures PairKey(b1, m1) == PairKey(b2, m2) <==>
              (b1 == b2 && m1 == m2)
              || (|b1| < |b2| && b2[..|b1|] == b1 && b2[|b1|] == TILDE && m1 == b2[|b1| + 1..] + [TILDE] + m2)
  {
    var k1, k2 := PairKey(b1, m1), PairKey(b2, m2);
    assert k1[..|b1|] == b1 && k1[|b1|] == TILDE && k1[|b1| + 1..] == m1;
    assert k2[..|b2|] == b2 && k2[|b2|] == TILDE && k2[|b2| + 1..] == m2;
    if k1 == k2 {
      assert b2[..|b1|] == k2[..|b1|];
      if |b1| < |b2| {
        assert b2[|b1|] == k2[|b1|];
        assert k2[|b1| + 1..] == b2[|b1| + 1..] + [TILDE] + m2;
      }
    }
    if |b1| < |b2| && b2[..|b1|] == b1 && b2[|b1|] == TILDE && m1 == b2[|b1| + 1..] + [TILDE] + m2 {
      assert b2 == b1 + [TILDE] + b2[|b1| + 1..];
    }
  }

  /** The base currency of q is that of p, a tilde and something more, and the market of p supplies what is missing. */
  predicate RunTogether(p: Quote, q: Quote)
    requires HasNames(p) && HasNames(q)
  {
    var b1, m1, b2, m2 := p.base.value, p.market.value, q.base.value, q.market.value;
    |b1| < |b2| && b2[..|b1|] == b1 && b2[|b1|] == 126 && m1 == b2[|b1| + 1..] + [126] + m2
  }

  /** Two records share a key exactly when they are of the same pair or run together. */
  lemma KeysMeet(p: Quote, q: Quote)
    requires HasNames(p) && HasNames(q)
    ensures Key(p) == Key(q) <==> (p.base == q.base && p.market == q.market) || RunTogether(p, q) || RunTogether(q, p)
  {
    if |p.base.value| <= |q.base.value| {
      KeyCollision(p.base.value, p.market.value, q.base.value, q.market.value);
    } else {
      KeyCollision(q.base.value, q.market.value, p.base.value, p.market.value);
    }
  }

  /** Without tildes in the base currencies the key identifies the pair. */
  lemma KeyInjective(p: Quote, q: Quote)
    requires HasNames(p) && HasNames(q) && 126 !in p.base.value && 126 !in q.base.value
    ensures Key(p) == Key(q) <==> p.base == q.base && p.market == q.market
  {
    KeysMeet(p, q);
  }

  // ---------- what the merge computes ----------

  /** The most keys a table can hold. */
  const CAPACITY: nat := 0x8000_0000

  /** The first record under each key, for as many keys as a table can hold. */
  ghost function FirstByKey(qs: seq<Quote>): map<Bytes, Quote> {
    if qs == [] then map[]
    else
      var d, last := FirstByKey(qs[..|qs| - 1]), qs[|qs| - 1];
      if Key(last) in d || |d| >= CAPACITY then d else d[Key(last) := last]
  }

  /** No earlier record has the key of record i. */
  ghost predicate IsFirst(qs: seq<Quote>, i: nat) {
    i < |qs| && forall j | 0 <= j < i :: Key(qs[j]) != Key(qs[i])
  }

  ghost function KeysOf(qs: seq<Quote>): set<Bytes> {
    set q | q in qs :: Key(q)
  }

  lemma KeysGrow(front: seq<Quote>, last: Quote)
    ensures KeysOf(front + [last]) == KeysOf(front) + {Key(last)}
  {
    hide Key;
    assert forall q :: q in front + [last] <==> q in front || q == last;
  }

  /** Up to the capacity every key has its record. */
  lemma {:induction false} AllKeysKept(qs: seq<Quote>)
    ensures |FirstByKey(qs)| <= 0x8000_0000
    ensures |KeysOf(qs)| <= 0x8000_0000 ==> FirstByKey(qs).Keys == KeysOf(qs)
    ensures |FirstByKey(qs)| < 0x8000_0000 ==> FirstByKey(qs).Keys == KeysOf(qs)
  {
    hide Key;
    if qs != [] {
      var front, last := qs[..|qs| - 1], qs[|qs| - 1];
      AllKeysKept(front);
      KeysGrow(front, last);
      assert front + [last] == qs;
      SubsetSize(KeysOf(front), KeysOf(qs));
      assert |FirstByKey(front)| == |FirstByKey(front).Keys|;
    }
  }

  /** It holds only records that are the first under their key. */
  lemma {:induction false} FirstByKeyMeans(qs: seq<Quote>)
    ensures forall k | k in FirstByKey(qs) :: exists i: nat :: IsFirst(qs, i) && Key(qs[i]) == k && FirstByKey(qs)[k] == qs[i]
  {
    hide Key;
    if qs != [] {
      var front, last := qs[..|qs| - 1], qs[|qs| - 1];
      FirstByKeyMeans(front);
      forall k | k in FirstByKey(qs)
        ensures exists i: nat :: IsFirst(qs, i) && Key(qs[i]) == k && FirstByKey(qs)[k] == qs[i]
      {
        if k in FirstByKey(front) {
          var i: nat :| IsFirst(front, i) && Key(front[i]) == k && FirstByKey(front)[k] == front[i];
          forall j | 0 <= j < i ensures Key(qs[j]) != Key(qs[i]) { assert qs[j] == front[j]; }
          assert IsFirst(qs, i);
        } else {
          assert front + [last] == qs;
          FirstAfter(front, last);
        }
      }
    }
  }

  /** A record that adds a key is the first under it. */
  lemma FirstAfter(front: seq<Quote>, last: Quote)
    requires Key(last) in FirstByKey(front + [last]) && Key(last) !in FirstByKey(front)
    ensures IsFirst(front + [last], |front|)
  {
    hide Key;
    AllKeysKept(front);
    FirstByKeyStep(front, last);
    assert forall j | 0 <= j < |front| :: Key(front[j]) in KeysOf(front);
  }

  // ---------- the table of markets ----------

  /** Without deletions there are no tombstones. */
  ghost predicate Compact(table: KHash<Bytes, Market?>)
    reads table, table.Repr
  {
    table.Valid() && table.nOccupied == table.size
  }

  /** Under each key of d there is a market of its own with that record, not yet linked. */
  ghost predicate Copies(m: map<Bytes, Market?>, d: map<Bytes, Quote>)
    reads set k | k in m :: m[k]
  {
    && m.Keys == d.Keys
    && (forall k | k in m :: m[k] != null && m[k].Value() == d[k] && IsBare(m[k]) && m[k].next == null)
    && (forall k, k' | k in m && k' in m && k != k' :: m[k] != m[k'])
  }

  /** The loop body of the first phase: puts the market's key and, if it is new and not one too many, a copy of the
      record. */
  method AddMarket(table: KHash<Bytes, Market?>, m: Market, ghost qs: seq<Quote>)
    requires Compact(table) && Copies(table.M, FirstByKey(qs))
    requires HasNames(m.Value())
    modifies table.Repr
    ensures Compact(table) && Copies(table.M, FirstByKey(qs + [m.Value()])) && fresh(table.Repr - old(table.Repr))
    ensures forall k | k in table.M :: fresh(table.M[k]) || (k in old(table.M) && table.M[k] == old(table.M)[k])
  {
    hide KHash.Valid, KHash.Holding, FirstByKey, Copies, Key;
    var key := m.baseCurrency.value + [TILDE] + m.marketCurrency.value;
    ghost var before, d, q := table.M, FirstByKey(qs), m.Value();
    KeyIs(q);
    FirstByKeyStep(qs, q);
    CopiesFacts(before, d);
    table.Load();
    var i, ret := PutKey(table, key);
    if ret == 1 { StoreCopy(table, i, m, before, d); }
  }

  /** Sets the value of a key just put to a copy of the record. */
  method StoreCopy(table: KHash<Bytes, Market?>, i: nat, m: Market, ghost before: map<Bytes, Market?>, ghost d: map<Bytes, Quote>)
    requires Compact(table) && i < table.nBuckets == table.keys.Length == table.vals.Length == |table.B| && table.B[i] == Flags.Live
    requires table.Repr == {table, table.flags, table.keys, table.vals}
    requires table.M == before[table.keys[i] := table.vals[i]] && table.keys[i] !in before && Copies(before, d)
    modifies table.Repr
    ensures Compact(table) && table.Repr == old(table.Repr)
    ensures Copies(table.M, d[old(table.keys[i]) := m.Value()])
    ensures forall k | k in table.M :: fresh(table.M[k]) || (k in before && table.M[k] == before[k])
  {
    hide KHash.Valid, Copies;
    CopiesFacts(before, d);
    ghost var key := table.keys[i];
    var market := CopyOf(m);
    CopiesGrow(before, d, key, market);
    table.SetValue(i, market);
    assert table.M == before[key := market];
  }

  /** The put, on a table without tombstones: the key is reported as present or as fresh, never as a reused bucket. */
  method PutKey(table: KHash<Bytes, Market?>, key: Bytes) returns (i: nat, ret: int)
    requires Compact(table)
    modifies table.Repr
    ensures Compact(table) && fresh(table.Repr - old(table.Repr)) && table.Repr == {table, table.flags, table.keys, table.vals}
    ensures i < table.nBuckets == table.keys.Length == table.vals.Length == |table.B| && table.B[i] == Flags.Live
    ensures ret == 1 ==> table.keys[i] == key
    ensures ret == if key in old(table.M) || |old(table.M)| >= CAPACITY then 0 else 1
    ensures table.M == if ret == 0 then old(table.M) else old(table.M)[key := table.vals[i]]
  {
    hide Represents, Flags.Packs;
    i, ret := table.Put(key);
  }

  /** A new market with the names and the fee of another. */
  method CopyOf(m: Market) returns (market: Market)
    ensures fresh(market) && market.next == null
    ensures market.Value() == m.Value() && market.Listed() == Listing(None, m.marketCurrency, m.baseCurrency, 0.0, m.fee)
  {
    market := new Market();
    market.baseCurrency := m.baseCurrency;
    market.marketCurrency := m.marketCurrency;
    market.fee := m.fee;
  }

  lemma KeyIs(q: Quote)
    requires HasNames(q)
    ensures Key(q) == q.base.value + [TILDE] + q.market.value
  {}

  lemma CopiesFacts(m: map<Bytes, Market?>, d: map<Bytes, Quote>)
    requires Copies(m, d)
    ensures m.Keys == d.Keys && forall k | k in m :: m[k] != null
  {}

  lemma CopiesGrow(m: map<Bytes, Market?>, d: map<Bytes, Quote>, key: Bytes, market: Market)
    requires Copies(m, d) && key !in d && market.next == null && IsBare(market) && forall k | k in m :: m[k] != market
    ensures Copies(m[key := market], d[key := market.Value()])
  {}

  lemma FirstByKeyStep(qs: seq<Quote>, q: Quote)
    ensures FirstByKey(qs + [q]) == if Key(q) in FirstByKey(qs) || |FirstByKey(qs)| >= CAPACITY then FirstByKey(qs) else FirstByKey(qs)[Key(q) := q]
  {
    assert (qs + [q])[..|qs|] == qs;
  }

  // ---------- the loops ----------

  ghost function AllNodes(lists: seq<seq<Market>>): set<Market> {
    set l, m | l in lists && m in l :: m
  }

  /** The records of all lists, in order. */
  ghost function Records(lists: seq<seq<Market>>): seq<Quote>
    reads AllNodes(lists)
  {
    if lists == [] then []
    else
      var last := lists[|lists| - 1];
      assert last in lists && forall m | m in last :: m in AllNodes(lists);
      Records(lists[..|lists| - 1]) + Values(last)
  }

  lemma CompactRepr(table: KHash<Bytes, Market?>)
    requires Compact(table)
    ensures table.Repr == {table, table.flags, table.keys, table.vals}
  {
    table.Load();
  }

  lemma TableFacts(table: KHash<Bytes, Market?>)
    requires Compact(table)
    ensures table.Repr == {table, table.flags, table.keys, table.vals}
    ensures table.keys.Length == table.vals.Length == table.nBuckets == |table.B| && Flags.Packs(table.flags[..], table.B)
    ensures Represents(table.B, table.keys[..], table.vals[..], table.hash, table.M, table.pos)
  {}

  lemma ValuesAre(nodes: seq<Market>)
    ensures |Values(nodes)| == |nodes| && forall i | 0 <= i < |nodes| :: Values(nodes)[i] == nodes[i].Value()
  {}

  lemma OneMore(qs: seq<Quote>, vs: seq<Quote>, i: nat)
    requires i < |vs|
    ensures qs + vs[..i] + [vs[i]] == qs + vs[..i + 1]
  {}

  /** The loop over one vendor's markets. */
  method AddMarkets(table: KHash<Bytes, Market?>, head: Market?, ghost nodes: seq<Market>, ghost qs: seq<Quote>)
    requires Compact(table) && Copies(table.M, FirstByKey(qs))
    requires IsList(head, nodes) && forall m | m in nodes :: HasNames(m.Value())
    modifies table.Repr
    ensures Compact(table) && fresh(table.Repr - old(table.Repr))
    ensures Copies(table.M, FirstByKey(qs + old(Values(nodes))))
    ensures forall k | k in table.M :: fresh(table.M[k]) || (k in old(table.M) && table.M[k] == old(table.M)[k])
  {
    hide Compact, Copies, FirstByKey, IsList, HasNames, Values;
    CompactRepr(table);
    ListHead(head, nodes);
    var current := head;
    ghost var vs := Values(nodes);
    ghost var i := 0;
    ValuesAre(nodes);
    assert qs + vs[..0] == qs;
    while current != null
      invariant i <= |nodes| && current == if i < |nodes| then nodes[i] else null
      invariant forall m | m in nodes :: unchanged(m)
      invariant Compact(table) && fresh(table.Repr - old(table.Repr))
      invariant Copies(table.M, FirstByKey(qs + vs[..i]))
      invariant forall k | k in table.M :: fresh(table.M[k]) || (k in old(table.M) && table.M[k] == old(table.M)[k])
      decreases |nodes| - i
    {
      CompactRepr(table);
      NodeAt(head, nodes, i);
      AddMarket(table, current, qs + vs[..i]);
      OneMore(qs, vs, i);
      current := current.next;
      i := i + 1;
    }
    assert vs[..|nodes|] == vs;
  }

  ghost function Objects(m: map<Bytes, Market?>): set<Market?> {
    set k | k in m :: m[k]
  }

  /** The nodes are the markets of the keys ks, in order, and the markets of no other key are linked. */
  ghost predicate Linked(m: map<Bytes, Market?>, d: map<Bytes, Quote>, ks: seq<Bytes>, head: Market?, last: Market?, nodes: seq<Market>)
    reads Objects(m), nodes
  {
    && m.Keys == d.Keys
    && (forall k | k in m :: m[k] != null && m[k].Value() == d[k] && IsBare(m[k]))
    && (forall k, k' | k in m && k' in m && k != k' :: m[k] != m[k'])
    && (forall k | k in m && k !in ks :: m[k].next == null)
    && |nodes| == |ks| && (forall i | 0 <= i < |ks| :: ks[i] in m && nodes[i] == m[ks[i]])
    && IsList(head, nodes)
    && last == (if nodes == [] then null else nodes[|nodes| - 1])
  }

  /** The keys of d, each once. */
  ghost predicate OncePerKey(d: map<Bytes, Quote>, ks: seq<Bytes>) {
    (forall k :: k in ks <==> k in d) && forall i, j | 0 <= i < j < |ks| :: ks[i] != ks[j]
  }

  /** One record per key of d, in bucket order. */
  ghost function OnceEach(d: map<Bytes, Quote>, ks: seq<Bytes>): (r: seq<Quote>)
    requires forall k | k in ks :: k in d
    ensures |r| == |ks| && forall i | 0 <= i < |ks| :: r[i] == d[ks[i]]
  {
    seq(|ks|, i requires 0 <= i < |ks| => d[ks[i]])
  }

  lemma LinkedNone(m: map<Bytes, Market?>, d: map<Bytes, Quote>, b: seq<Flags.Bucket>, keys: seq<Bytes>)
    requires Copies(m, d) && |b| <= |keys|
    ensures Linked(m, d, LiveKeys(b, keys, 0), null, null, [])
  {}

  lemma LiveKeysStep(b: seq<Flags.Bucket>, keys: seq<Bytes>, i: nat)
    requires i < |b| <= |keys|
    ensures LiveKeys(b, keys, i + 1) == if b[i] == Flags.Live then LiveKeys(b, keys, i) + [keys[i]] else LiveKeys(b, keys, i)
  {}

  /** A live bucket holds a pair of the map whose key no earlier live bucket holds. */
  lemma BucketFacts(b: seq<Flags.Bucket>, keys: seq<Bytes>, vals: seq<Market?>, hash: Bytes -> U32, m: map<Bytes, Market?>,
                    pos: map<Bytes, nat>, i: nat)
    requires Represents(b, keys, vals, hash, m, pos) && i < |b| && b[i] == Flags.Live
    ensures keys[i] in m && m[keys[i]] == vals[i] && keys[i] !in LiveKeys(b, keys, i)
  {
    hide LiveKeys;
    FoundAt(b, keys, vals, hash, m, pos, keys[i], i);
    LiveKeysOnce(b, keys, vals, hash, m, pos, i);
  }

  lemma LastIsOne(m: map<Bytes, Market?>, d: map<Bytes, Quote>, ks: seq<Bytes>, head: Market?, last: Market?, nodes: seq<Market>)
    requires Linked(m, d, ks, head, last, nodes)
    ensures last == null || last in Objects(m)
  {}

  lemma LinkedAll(b: seq<Flags.Bucket>, keys: seq<Bytes>, vals: seq<Market?>, hash: Bytes -> U32, m: map<Bytes, Market?>,
                  pos: map<Bytes, nat>, d: map<Bytes, Quote>, head: Market?, last: Market?, nodes: seq<Market>)
    requires Represents(b, keys, vals, hash, m, pos) && Linked(m, d, LiveKeys(b, keys, |b|), head, last, nodes)
    ensures var ks := LiveKeys(b, keys, |b|);
            && IsList(head, nodes) && (forall n | n in nodes :: n in Objects(m) && IsBare(n))
            && OncePerKey(d, ks) && Values(nodes) == OnceEach(d, ks)
  {
    AllLiveKeysOnce(b, keys, vals, hash, m, pos);
  }

  lemma LinkedLists(m: map<Bytes, Market?>, d: map<Bytes, Quote>, ks: seq<Bytes>, head: Market?, last: Market?, nodes: seq<Market>)
    requires Linked(m, d, ks, head, last, nodes)
    ensures IsList(head, nodes) && last == (if nodes == [] then null else nodes[|nodes| - 1])
  {}

  /** Appends a market to the list through the last node's next field. */
  method Append(current: Market?, ghost m: map<Bytes, Market?>, ghost d: map<Bytes, Quote>, ghost ks: seq<Bytes>, ghost key: Bytes,
                head: Market?, last: Market?, ghost nodes: seq<Market>)
    returns (head': Market?, last': Market?, ghost nodes': seq<Market>)
    requires Linked(m, d, ks, head, last, nodes) && key in m && key !in ks && current == m[key]
    modifies (if last == null then {} else {last})`next
    ensures Linked(m, d, ks + [key], head', last', nodes')
  {
    hide IsList, Values;
    LinkedLists(m, d, ks, head, last, nodes);
    head' := AppendMarket(head, last, nodes, current);
    last', nodes' := current, nodes + [current];
  }

  /** The loop over the buckets: links the markets in bucket order. */
  method LinkAll(table: KHash<Bytes, Market?>, ghost d: map<Bytes, Quote>)
    returns (head: Market?, ghost nodes: seq<Market>, ghost ks: seq<Bytes>)
    requires Compact(table) && Copies(table.M, d)
    modifies Objects(table.M)
    ensures IsList(head, nodes) && forall m | m in nodes :: m in Objects(table.M) && IsBare(m)
    ensures OncePerKey(d, ks) && (forall k | k in ks :: k in d) && Values(nodes) == OnceEach(d, ks)
  {
    hide KHash.Valid, Compact, Copies, Flags.Packs, Represents, Linked, LiveKeys, KHash.IsEitherAt, IsList, OncePerKey, OnceEach, Values;
    ghost var m, b, keys, vals, pos := table.M, table.B, table.keys[..], table.vals[..], table.pos;
    head, nodes, ks := null, [], [];
    var last: Market? := null;
    TableFacts(table);
    LinkedNone(m, d, b, keys);
    for i := 0 to table.nBuckets
      modifies Objects(m)
      invariant Linked(m, d, LiveKeys(b, keys, i), head, last, nodes)
    {
      table.MacrosRead(i);
      LiveKeysStep(b, keys, i);
      if !table.IsEitherAt(i) {
        BucketFacts(b, keys, vals, table.hash, m, pos, i);
        LastIsOne(m, d, LiveKeys(b, keys, i), head, last, nodes);
        head, last, nodes := Append(table.vals[i], m, d, LiveKeys(b, keys, i), keys[i], head, last, nodes);
      }
    }
    ks := LiveKeys(b, keys, |b|);
    LinkedAll(b, keys, vals, table.hash, m, pos, d, head, last, nodes);
  }

  // ---------- the whole merge ----------

  ghost predicate IsSomeFirst(q: Quote, qs: seq<Quote>) {
    exists j: nat :: IsFirst(qs, j) && q == qs[j]
  }

  ghost predicate HasKeyOf(r: seq<Quote>, q: Quote) {
    exists i: nat :: i < |r| && Key(r[i]) == Key(q)
  }

  /** r holds keys that occur in qs, none twice, each with the first record under that key. */
  ghost predicate Picks(r: seq<Quote>, qs: seq<Quote>) {
    && (forall i, j | 0 <= i < j < |r| :: Key(r[i]) != Key(r[j]))
    && (forall i | 0 <= i < |r| :: IsSomeFirst(r[i], qs))
  }

  /** r holds each key that occurs in qs exactly once, with the first record under that key. */
  ghost predicate Merges(r: seq<Quote>, qs: seq<Quote>) {
    Picks(r, qs) && forall q | q in qs :: HasKeyOf(r, q)
  }

  lemma {:induction false} OnceEachMerges(qs: seq<Quote>, ks: seq<Bytes>)
    requires OncePerKey(FirstByKey(qs), ks)
    ensures Picks(OnceEach(FirstByKey(qs), ks), qs)
    ensures Merges(OnceEach(FirstByKey(qs), ks), qs) <==> |KeysOf(qs)| <= 0x8000_0000
  {
    hide Key, FirstByKey, KeysOf;
    FirstByKeyMeans(qs);
    AllKeysKept(qs);
    var d := FirstByKey(qs);
    var r := OnceEach(d, ks);
    forall i | 0 <= i < |r|
      ensures IsSomeFirst(r[i], qs) && Key(r[i]) == ks[i]
    {
      assert ks[i] in d;
      var j: nat :| IsFirst(qs, j) && Key(qs[j]) == ks[i] && d[ks[i]] == qs[j];
    }
    if |KeysOf(qs)| <= CAPACITY { AllCovered(qs, ks, r); }
    if forall q | q in qs :: HasKeyOf(r, q) { CoveredFits(qs, ks, r); }
  }

  lemma {:induction false} AllCovered(qs: seq<Quote>, ks: seq<Bytes>, r: seq<Quote>)
    requires |r| == |ks| && forall i | 0 <= i < |r| :: Key(r[i]) == ks[i]
    requires forall k | k in KeysOf(qs) :: k in ks
    ensures forall q | q in qs :: HasKeyOf(r, q)
  {
    hide Key;
    forall q | q in qs
      ensures HasKeyOf(r, q)
    {
      assert Key(q) in KeysOf(qs);
      var i: nat :| i < |ks| && ks[i] == Key(q);
      assert i < |r| && Key(r[i]) == Key(q);
    }
  }

  lemma {:induction false} CoveredFits(qs: seq<Quote>, ks: seq<Bytes>, r: seq<Quote>)
    requires OncePerKey(FirstByKey(qs), ks) && |r| == |ks| && forall i | 0 <= i < |r| :: Key(r[i]) == ks[i]
    requires forall q | q in qs :: HasKeyOf(r, q)
    ensures |KeysOf(qs)| <= CAPACITY
  {
    hide Key, FirstByKey;
    AllKeysKept(qs);
    forall q | q in qs ensures Key(q) in FirstByKey(qs).Keys {
      assert HasKeyOf(r, q);
      var i: nat :| i < |r| && Key(r[i]) == Key(q);
      assert ks[i] in ks;
    }
    SubsetSize(KeysOf(qs), FirstByKey(qs).Keys);
    assert |FirstByKey(qs)| == |FirstByKey(qs).Keys|;
  }

  /** The merge has the trading pair of q. */
  ghost predicate HasPairOf(r: seq<Quote>, q: Quote) {
    exists i: nat :: i < |r| && r[i].base == q.base && r[i].market == q.market
  }

  /** The pair without base name whose market name is i letters long. */
  function Lettered(i: nat): Quote {
    Quote(Some([]), Some(seq(i, _ => 65)), 0.7)
  }

  function AllLettered(n: nat): (r: seq<Quote>)
    ensures |r| == n && forall i | 0 <= i < n :: r[i] == Lettered(i)
  {
    seq(n, i requires 0 <= i => Lettered(i))
  }

  lemma LetteredKey(i: nat)
    ensures |Key(Lettered(i))| == i + 1
  {}

  lemma LetteredStep(n: nat)
    ensures AllLettered(n + 1) == AllLettered(n) + [Lettered(n)]
  {}

  lemma {:induction false} LetteredKeys(n: nat)
    ensures |KeysOf(AllLettered(n))| == n && forall k | k in KeysOf(AllLettered(n)) :: |k| <= n
  {
    hide Key, Lettered, AllLettered, KeysOf;
    if n > 0 {
      LetteredStep(n - 1);
      LetteredKeys(n - 1);
      LetteredKey(n - 1);
      KeysGrow(AllLettered(n - 1), Lettered(n - 1));
    } else {
      NoKeys();
    }
  }

  lemma NoKeys()
    ensures AllLettered(0) == [] && KeysOf([]) == {}
  {}

  /** One pair more than a table can hold. */
  lemma OnePairTooMany()
    ensures (forall q | q in AllLettered(0x8000_0001) :: HasNames(q)) && |KeysOf(AllLettered(0x8000_0001))| == 0x8000_0001
  {
    hide KeysOf;
    LetteredKeys(0x8000_0001);
  }

  lemma {:induction false} KeysFew(qs: seq<Quote>)
    ensures |KeysOf(qs)| <= |qs|
  {
    hide Key;
    if qs != [] {
      var front, last := qs[..|qs| - 1], qs[|qs| - 1];
      KeysFew(front);
      KeysGrow(front, last);
      assert front + [last] == qs;
    }
  }

  /** Every merge lists only records of the vendors and no trading pair twice. */
  lemma MergesOnce(r: seq<Quote>, qs: seq<Quote>)
    requires Picks(r, qs)
    ensures forall i | 0 <= i < |r| :: r[i] in qs
    ensures forall i, j | 0 <= i < j < |r| :: r[i].base != r[j].base || r[i].market != r[j].market
  {
    forall i | 0 <= i < |r| ensures r[i] in qs {
      assert IsSomeFirst(r[i], qs);
      var j: nat :| IsFirst(qs, j) && r[i] == qs[j];
    }
    forall i, j | 0 <= i < j < |r| ensures r[i].base != r[j].base || r[i].market != r[j].market {
      assert Key(r[i]) != Key(r[j]);
    }
  }

  /** The merge is the union of the trading pairs, every pair of every vendor once, exactly when no two records run
      together: when no base currency continues a shorter one behind a tilde with the markets filling in the rest. */
  lemma MergesPairs(r: seq<Quote>, qs: seq<Quote>)
    requires Merges(r, qs) && forall q | q in qs :: HasNames(q)
    ensures (forall q | q in qs :: HasPairOf(r, q)) <==> (forall p, q | p in qs && q in qs :: !RunTogether(p, q))
  {
    hide Key, RunTogether;
    if forall p, q | p in qs && q in qs :: !RunTogether(p, q) {
      MergesOnce(r, qs);
      forall q | q in qs ensures HasPairOf(r, q) {
        assert HasKeyOf(r, q);
        var i: nat :| i < |r| && Key(r[i]) == Key(q);
        KeysMeet(r[i], q);
        assert !RunTogether(r[i], q) && !RunTogether(q, r[i]);
      }
    }
    if p, q :| p in qs && q in qs && RunTogether(p, q) {
      PairLost(r, qs, p, q);
    }
  }

  lemma PairLost(r: seq<Quote>, qs: seq<Quote>, p: Quote, q: Quote)
    requires Merges(r, qs) && p in qs && q in qs && HasNames(p) && HasNames(q) && RunTogether(p, q)
    ensures !HasPairOf(r, p) || !HasPairOf(r, q)
  {
    KeysMeet(p, q);
    if HasPairOf(r, p) && HasPairOf(r, q) { OnePairPerKey(r, qs, p, q); }
  }

  lemma OnePairPerKey(r: seq<Quote>, qs: seq<Quote>, p: Quote, q: Quote)
    requires Merges(r, qs) && HasPairOf(r, p) && HasPairOf(r, q) && Key(p) == Key(q)
    ensures p.base == q.base
  {
    hide Key;
    var i: nat :| i < |r| && r[i].base == p.base && r[i].market == p.market;
    var j: nat :| j < |r| && r[j].base == q.base && r[j].market == q.market;
    SameNamesSameKey(r[i], p);
    SameNamesSameKey(r[j], q);
    KeyOnce(r, qs, i, j);
  }

  lemma KeyOnce(r: seq<Quote>, qs: seq<Quote>, i: nat, j: nat)
    requires Merges(r, qs) && i < |r| && j < |r| && Key(r[i]) == Key(r[j])
    ensures i == j
  {
    hide Key;
  }

  lemma SameNamesSameKey(p: Quote, q: Quote)
    requires p.base == q.base && p.market == q.market
    ensures Key(p) == Key(q)
  {}

  /** In particular no pair is lost when no base currency contains a tilde. */
  lemma {:induction false} MergesUntilded(r: seq<Quote>, qs: seq<Quote>)
    requires Merges(r, qs) && forall q | q in qs :: HasNames(q) && 126 !in q.base.value
    ensures forall q | q in qs :: HasPairOf(r, q)
  {
    MergesPairs(r, qs);
  }

  /** With a tilde in a base currency two different pairs can share a key, and the merge then keeps only one. */
  lemma TildeLosesPair(fee: real, r: seq<Quote>)
    ensures var p, q := Quote(Some([97, 126, 98]), Some([99]), fee), Quote(Some([97]), Some([98, 126, 99]), fee);
            p.base != q.base && (Merges(r, [p, q]) ==> r == [p])
  {
    var p, q := Quote(Some([97, 126, 98]), Some([99]), fee), Quote(Some([97]), Some([98, 126, 99]), fee);
    SameKey(fee);
    hide Key;
    if Merges(r, [p, q]) {
      assert p in [p, q];
      assert HasKeyOf(r, p);
      forall i | 0 <= i < |r| ensures r[i] == p {
        assert IsSomeFirst(r[i], [p, q]);
        var j: nat :| IsFirst([p, q], j) && r[i] == [p, q][j];
        assert Key([p, q][0]) == Key([p, q][1]);
      }
      FirstTwoDiffer(r);
    }
  }

  lemma FirstTwoDiffer(r: seq<Quote>)
    requires forall i, j | 0 <= i < j < |r| :: Key(r[i]) != Key(r[j])
    ensures |r| > 1 ==> r[0] != r[1]
  {
    hide Key;
    if |r| > 1 { assert Key(r[0]) != Key(r[1]); }
  }

  lemma SameKey(fee: real)
    ensures Key(Quote(Some([97, 126, 98]), Some([99]), fee)) == Key(Quote(Some([97]), Some([98, 126, 99]), fee))
  {
    assert [97, TILDE, 98] + [TILDE] + [99] == [97] + [TILDE] + [98, TILDE, 99];
  }

  // ---------- vendor_get_all_trading_pairs ----------

  /** The vendors' market lists, as the caller hands them over. */
  ghost predicate Inputs(head: VendorNode?, vendors: seq<VendorNode>, lists: seq<seq<Market>>)
    reads vendors, set v | v in vendors :: v.vendor, AllNodes(lists)
  {
    && |lists| == |vendors|
    && head == (if vendors == [] then null else vendors[0])
    && (forall i | 0 <= i < |vendors| :: vendors[i].next == if i + 1 < |vendors| then vendors[i + 1] else null)
    && (forall i | 0 <= i < |vendors| :: (forall m | m in lists[i] :: m in AllNodes(lists) && HasNames(m.Value()))
                                         && IsList(vendors[i].vendor.currentMarket, lists[i]))
  }

  /** The links of the vendor list and the heads of the market lists, as values. */
  lemma InputFacts(head: VendorNode?, vendors: seq<VendorNode>, lists: seq<seq<Market>>)
    returns (nexts: seq<VendorNode?>, heads: seq<Market?>)
    requires Inputs(head, vendors, lists)
    ensures |lists| == |vendors| == |nexts| == |heads| && head == (if vendors == [] then null else vendors[0])
    ensures forall i | 0 <= i < |vendors| ::
              nexts[i] == vendors[i].next && heads[i] == vendors[i].vendor.currentMarket
    ensures forall i | 0 <= i < |vendors| :: nexts[i] == if i + 1 < |vendors| then vendors[i + 1] else null
    ensures forall i | 0 <= i < |vendors| :: IsList(heads[i], lists[i]) && forall m | m in lists[i] :: HasNames(m.Value())
  {
    nexts := seq(|vendors|, i requires 0 <= i < |vendors| reads vendors => vendors[i].next);
    heads := seq(|vendors|, i requires 0 <= i < |vendors| reads vendors, set v | v in vendors :: v.vendor => vendors[i].vendor.currentMarket);
  }

  ghost predicate Extends(upTo: seq<seq<Quote>>, vs: seq<seq<Quote>>, i: nat, most: nat) {
    i < |vs| && i + 1 < |upTo| && upTo[i + 1] == upTo[i] + vs[i] && |upTo[i + 1]| <= most
  }

  /** The records list by list, and all records up to each list. */
  lemma {:induction false} RecordsByList(lists: seq<seq<Market>>) returns (vs: seq<seq<Quote>>, upTo: seq<seq<Quote>>)
    ensures |vs| == |lists| && forall i | 0 <= i < |lists| :: vs[i] == Values(lists[i])
    ensures |upTo| == |lists| + 1 && upTo[0] == [] && upTo[|lists|] == Records(lists)
    ensures forall i | 0 <= i < |lists| :: Extends(upTo, vs, i, |Records(lists)|)
  {
    if lists == [] {
      vs, upTo := [], [[]];
    } else {
      var n := |lists| - 1;
      var vs0, upTo0 := RecordsByList(lists[..n]);
      assert forall i | 0 <= i < n :: lists[..n][i] == lists[i];
      vs, upTo := vs0 + [Values(lists[n])], upTo0 + [Records(lists)];
      forall i | 0 <= i < |lists| ensures Extends(upTo, vs, i, |Records(lists)|) {
        if i < n { assert Extends(upTo0, vs0, i, |Records(lists[..n])|); }
      }
    }
  }

  /** `vendor_get_all_trading_pairs`: an acyclic list of new markets that merges the records of all vendors, exactly when
      a table can hold all their keys. */
  method AllTradingPairs(vendorHead: VendorNode?, hash: Bytes -> U32, ghost vendors: seq<VendorNode>, ghost lists: seq<seq<Market>>)
    returns (head: Market?, ghost nodes: seq<Market>)
    requires Inputs(vendorHead, vendors, lists)
    ensures IsList(head, nodes) && forall m | m in nodes :: fresh(m) && m.marketName == None && m.minTradeSize == 0.0
    ensures Picks(Values(nodes), old(Records(lists)))
    ensures Merges(Values(nodes), old(Records(lists))) <==> |KeysOf(old(Records(lists)))| <= 0x8000_0000
  {
    hide Picks, KeysOf, Compact, Copies, FirstByKey, IsList, HasNames, Values, Merges, OncePerKey, Inputs, Records;
    ghost var vs, upTo := RecordsByList(lists);
    ghost var nexts, heads := InputFacts(vendorHead, vendors, lists);
    var table := NewTable(hash);
    var current := vendorHead;
    ghost var i := 0;
    while current != null
      invariant i <= |vendors| && current == if i < |vendors| then vendors[i] else null
      invariant Compact(table) && fresh(table) && fresh(table.Repr)
      invariant Copies(table.M, FirstByKey(upTo[i]))
      invariant forall k | k in table.M :: fresh(table.M[k])
      decreases |vendors| - i
    {
      assert Extends(upTo, vs, i, |upTo[|lists|]|);
      assert current.next == nexts[i] && current.vendor.currentMarket == heads[i];
      AddMarkets(table, current.vendor.currentMarket, lists[i], upTo[i]);
      assert current.next == nexts[i];
      current := current.next;
      i := i + 1;
    }
    ghost var ks;
    head, nodes, ks := LinkAll(table, FirstByKey(upTo[i]));
    OnceEachMerges(upTo[i], ks);
  }

  method NewTable(hash: Bytes -> U32) returns (table: KHash<Bytes, Market?>)
    ensures Compact(table) && fresh(table) && fresh(table.Repr) && table.M == map[] && Copies(table.M, FirstByKey([]))
  {
    table := new KHash(hash);
    table.Load();
  }
}
