/** Linked lists of markets, and the encoder and decoders of market.c that walk and build them. */
module Markets {
  import opened Options
  import opened Octets
  import opened Protobuf
  import opened MarketWire

  /** A trading pair as its vendor lists it; a name is None for NULL. */
  datatype Listing = Listing(name: Option<Bytes>, market: Option<Bytes>, base: Option<Bytes>, minTrade: real, fee: real)

  /** `struct Market`. */
  class Market {
    var marketName: Option<Bytes>
    var marketCurrency: Option<Bytes>
    var baseCurrency: Option<Bytes>
    var minTradeSize: real
    var fee: real
    var next: Market?

    /** `market_new`. */
    constructor ()
      ensures Listed() == Listing(None, None, None, 0.0, 0.0) && Value() == BLANK && next == null
    {
      baseCurrency, marketCurrency, marketName, next := None, None, None, null;
      minTradeSize, fee := 0.0, 0.0;
    }

    function Listed(): Listing
      reads this
    {
      Listing(marketName, marketCurrency, baseCurrency, minTradeSize, fee)
    }

    /** What the wire carries. */
    function Value(): Quote
      reads this
    {
      Quote(baseCurrency, marketCurrency, fee)
    }
  }

  /** The nodes are an acyclic list that starts at head and ends in null. */
  ghost predicate IsList(head: Market?, nodes: seq<Market>)
    reads nodes
  {
    && (forall i, j | 0 <= i < j < |nodes| :: nodes[i] != nodes[j])
    && head == (if nodes == [] then null else nodes[0])
    && forall i | 0 <= i < |nodes| :: nodes[i].next == if i + 1 < |nodes| then nodes[i + 1] else null
  }

  ghost function Values(nodes: seq<Market>): (r: seq<Quote>)
    reads nodes
    ensures |r| == |nodes| && forall i | 0 <= i < |nodes| :: r[i] == nodes[i].Value()
  {
    seq(|nodes|, i requires 0 <= i < |nodes| reads nodes => nodes[i].Value())
  }

  lemma NodeAt(head: Market?, nodes: seq<Market>, i: nat)
    requires IsList(head, nodes) && i < |nodes|
    ensures nodes[i].next == if i + 1 < |nodes| then nodes[i + 1] else null
  {}

  lemma ListHead(head: Market?, nodes: seq<Market>)
    requires IsList(head, nodes)
    ensures head == if nodes == [] then null else nodes[0]
  {}

  /** `market_protobuf_encode_size`. */
  method MarketEncodeSize(m: Market) returns (size: nat)
    requires m.Value().Named()
    ensures size == SizeEstimate(m.Value()) == |m.baseCurrency.value| + |m.marketCurrency.value| + 33
  {
    size := 0;
    size := size + |m.baseCurrency.value| + 11;
    size := size + |m.marketCurrency.value| + 11;
    size := size + 11;
  }

  /** `market_list_protobuf_encode_size`. */
  method ListEncodeSize(head: Market?, ghost nodes: seq<Market>) returns (size: nat)
    requires IsList(head, nodes) && forall m | m in nodes :: m.Value().Named()
    ensures forall q | q in Values(nodes) :: q.Named()
    ensures size == ListEstimate(Values(nodes))
  {
    hide SizeEstimate;
    size := 0;
    var current := head;
    ghost var qs := Values(nodes);
    ghost var i := 0;
    while current != null
      invariant i <= |nodes| && current == if i < |nodes| then nodes[i] else null
      invariant size == ListEstimate(qs[..i]) && IsList(head, nodes)
      decreases |nodes| - i
    {
      assert current == nodes[i] && current.next == if i + 1 < |nodes| then nodes[i + 1] else null;
      var one := MarketEncodeSize(current);
      size := size + one + 11;
      assert qs[..i + 1][..i] == qs[..i];
      current := current.next;
      i := i + 1;
    }
    assert qs[..|nodes|] == qs;
  }

  /** `market_protobuf_encode`: succeeds exactly when the encoding fits. */
  method EncodeMarket(m: Market, buffer: array<Byte>, room: nat) returns (ok: bool, written: nat)
    requires m.Value().Sendable() && room <= buffer.Length
    modifies buffer
    ensures ok <==> |Encode(m.Value())| <= room
    ensures ok ==> written == |Encode(m.Value())| && buffer[..written] == Encode(m.Value())
  {
    hide Tag, Delimited, Varint, Wrote;
    var q := m.Value();
    ghost var before := buffer[..];
    ghost var f1, f2, f3 := Tag(1, LENGTH_DELIMITED) + Delimited(q.base.value), Tag(2, LENGTH_DELIMITED) + Delimited(q.market.value),
                            Tag(3, VARINT) + Varint(q.Thousandths());
    assert Encode(q) == f1 + f2 + f3;
    written := 0;
    var used;
    ok, used := PutDelimited(1, m.baseCurrency.value, buffer, written, room - written);
    if !ok { return; }
    WroteNext(buffer[..], before, 0, [], f1);
    written := written + used;
    assert buffer[..written] == f1 by { assert [] + f1 == f1; }
    before := buffer[..];
    ok, used := PutDelimited(2, m.marketCurrency.value, buffer, written, room - written);
    if !ok { return; }
    WroteNext(buffer[..], before, written, f1, f2);
    written := written + used;
    before := buffer[..];
    ok, used := PutVarint(3, (m.fee * 1000.0).Floor, buffer, written, room - written);
    if !ok { return; }
    WroteNext(buffer[..], before, written, f1 + f2, f3);
    written := written + used;
  }

  /** One turn of the loop of `market_list_protobuf_encode`: encodes a market into a buffer of its estimated size
      and appends that as a length-delimited record. */
  method EncodeEntry(m: Market, buffer: array<Byte>, offset: nat, room: nat) returns (ok: bool, used: nat)
    requires m.Value().Sendable() && offset + room <= buffer.Length
    modifies buffer
    ensures ok <==> |Entry(m.Value())| <= room
    ensures ok ==> used == |Entry(m.Value())| && Wrote(buffer[..], old(buffer[..]), offset, Entry(m.Value()))
    ensures buffer[..offset] == old(buffer[..offset])
  {
    hide Encode, SizeEstimate;
    ghost var q := m.Value();
    var size := MarketEncodeSize(m);
    var market := new Byte[size];
    EncodeFits(q);
    var fits, len := EncodeMarket(m, market, size);
    assert fits;
    ok, used := PutDelimited(1, market[..len], buffer, offset, room);
  }

  /** `market_list_protobuf_encode`: succeeds exactly when the encoding of the whole list fits. */
  method EncodeMarkets(head: Market?, ghost nodes: seq<Market>, buffer: array<Byte>, room: nat) returns (ok: bool, written: nat)
    requires IsList(head, nodes) && forall m | m in nodes :: m.Value().Sendable()
    requires room <= buffer.Length
    modifies buffer
    ensures forall q | q in Values(nodes) :: q.Sendable()
    ensures ok <==> |EncodeList(Values(nodes))| <= room
    ensures ok ==> written == |EncodeList(Values(nodes))| && buffer[..written] == EncodeList(Values(nodes))
  {
    hide Encode, Entry, EncodeList, Quote.Sendable, Wrote, IsList;
    ListHead(head, nodes);
    written := 0;
    var current := head;
    ghost var qs := Values(nodes);
    ghost var i := 0;
    EncodeNone(qs);
    while current != null
      invariant i <= |nodes| && current == if i < |nodes| then nodes[i] else null
      invariant written == |EncodeList(qs[..i])| <= room && buffer[..written] == EncodeList(qs[..i])
      invariant qs == Values(nodes) && IsList(head, nodes)
      decreases |nodes| - i
    {
      assert current == nodes[i] && qs[i] in qs;
      NodeAt(head, nodes, i);
      EncodeStep(qs, i);
      var used;
      ghost var before := buffer[..];
      ok, used := EncodeEntry(current, buffer, written, room - written);
      if !ok { return; }
      WroteNext(buffer[..], before, written, EncodeList(qs[..i]), Entry(qs[i]));
      written := written + used;
      current := current.next;
      i := i + 1;
    }
    assert qs[..|nodes|] == qs;
    ok := true;
  }

  lemma EncodeNone(qs: seq<Quote>)
    ensures EncodeList(qs[..0]) == []
  {}

  lemma EncodeStep(qs: seq<Quote>, i: nat)
    requires i < |qs| && forall q | q in qs :: q.Sendable()
    ensures EncodeList(qs[..i + 1]) == EncodeList(qs[..i]) + Entry(qs[i])
    ensures |EncodeList(qs[..i + 1])| <= |EncodeList(qs)|
  {
    assert qs[..i + 1][..i] == qs[..i];
    EncodeGrows(qs, i + 1);
  }

  lemma WroteNext(buffer: Bytes, before: Bytes, n: nat, done: Bytes, more: Bytes)
    requires n <= |buffer| && Wrote(buffer, before, n, more) && buffer[..n] == done
    ensures n + |more| <= |buffer| && buffer[..n + |more|] == done + more
  {}

  /** What the wire does not carry is as in a new market. */
  ghost predicate IsBare(m: Market)
    reads m
  {
    m.marketName == None && m.minTradeSize == 0.0
  }

  /** `market_protobuf_decode`. */
  method DecodeMarket(buffer: Bytes) returns (m: Market?)
    ensures match Decode(buffer, BLANK)
            case None => m == null
            case Some(q) => m != null && fresh(m) && m.Value() == q && m.next == null && IsBare(m)
  {
    hide ReadTag, ReadDelimited, ReadVarint;
    var pos := 0;
    var this_ := new Market();
    while pos < |buffer|
      invariant pos <= |buffer| && fresh(this_) && this_.next == null && IsBare(this_)
      invariant Decode(buffer[pos..], this_.Value()) == Decode(buffer, BLANK)
    {
      var b := buffer[pos..];
      var tag := ReadTag(b);
      if tag.None? { return null; }
      ghost var q := this_.Value();
      var used := 0;
      var rest := b[tag.value.used..];
      match tag.value.value.0 {
        case 1 =>
          var s := ReadDelimited(rest);
          if s.None? { return null; }
          this_.baseCurrency, used := Some(s.value.value), s.value.used;
        case 2 =>
          var s := ReadDelimited(rest);
          if s.None? { return null; }
          this_.marketCurrency, used := Some(s.value.value), s.value.used;
        case 3 =>
          var n := ReadVarint(rest, 10);
          if n.None? { return null; }
          this_.fee, used := n.value.value as real / 1000.0, n.value.used;
        case _ =>
      }
      assert ReadField(b, q) == Some(Read(this_.Value(), tag.value.used + used));
      pos := pos + tag.value.used + used;
      assert b[tag.value.used + used..] == buffer[pos..];
    }
    return this_;
  }

  /** Appends a market through the last node's next field. */
  method AppendMarket(head: Market?, last: Market?, ghost nodes: seq<Market>, m: Market) returns (head': Market?)
    requires IsList(head, nodes) && last == if nodes == [] then null else nodes[|nodes| - 1]
    requires m !in nodes && m.next == null
    modifies (if last == null then {} else {last})`next
    ensures IsList(head', nodes + [m]) && Values(nodes + [m]) == old(Values(nodes)) + [m.Value()]
  {
    head' := head;
    if head == null {
      head' := m;
    } else {
      last.next := m;
    }
  }

  /** One turn of the loop of `market_list_protobuf_decode`: an entry, and its market unless the field is unknown. */
  method DecodeEntry(b: Bytes) returns (ok: bool, m: Market?, used: nat)
    ensures match ReadEntry(b)
            case None => !ok
            case Some(r) => ok && used == r.used && if m == null then r.value == [] else r.value == [m.Value()]
    ensures m != null ==> fresh(m) && m.next == null && IsBare(m)
  {
    hide ReadTag, ReadDelimited, Decode;
    ok, m, used := false, null, 0;
    var tag := ReadTag(b);
    if tag.None? { return; }
    used := tag.value.used;
    if tag.value.value.0 == 1 {
      var s := ReadDelimited(b[tag.value.used..]);
      if s.None? { return; }
      m := DecodeMarket(s.value.value);
      if m == null { return; }
      used := s.value.used;
    }
    ok, used := true, tag.value.used + used;
  }

  /** `market_list_protobuf_decode`: appends through the last node's next field. */
  method DecodeMarkets(buffer: Bytes) returns (ok: bool, head: Market?, ghost nodes: seq<Market>)
    ensures match DecodeList(buffer, [])
            case None => !ok
            case Some(qs) => ok && IsList(head, nodes) && Values(nodes) == qs && fresh(set m | m in nodes) && forall m | m in nodes :: IsBare(m)
  {
    hide ReadEntry, DecodeList, IsList, Values;
    var pos := 0;
    head, nodes := null, [];
    var last: Market? := null;
    NoNodes();
    assert Behind(buffer, 0) == buffer;
    while pos < |buffer|
      invariant IsList(head, nodes) && fresh(set m | m in nodes) && forall m | m in nodes :: IsBare(m)
      invariant last == if nodes == [] then null else nodes[|nodes| - 1]
      invariant DecodeList(Behind(buffer, pos), Values(nodes)) == DecodeList(buffer, [])
      decreases |buffer| - pos
    {
      ghost var qs := Values(nodes);
      DecodeListStep(Behind(buffer, pos), qs);
      var m, used;
      ok, m, used := DecodeEntry(buffer[pos..]);
      if !ok { return false, null, []; }
      if m != null {
        head := AppendMarket(head, last, nodes, m);
        last, nodes := m, nodes + [m];
      } else {
        assert qs + [] == qs;
      }
      BehindBehind(buffer, pos, used);
      pos := pos + used;
    }
    ok := true;
    assert Behind(buffer, pos) == [];
    DecodeListEnd(Values(nodes));
  }

  lemma BehindBehind(b: Bytes, pos: nat, used: nat)
    ensures Behind(Behind(b, pos), used) == Behind(b, pos + used)
  {}

  lemma NoNodes()
    ensures IsList(null, []) && Values([]) == []
  {}

  lemma DecodeListStep(b: Bytes, qs: seq<Quote>)
    requires b != []
    ensures DecodeList(b, qs) == match ReadEntry(b)
                                 case None => None
                                 case Some(r) => DecodeList(Behind(b, r.used), qs + r.value)
  {}

  lemma DecodeListEnd(qs: seq<Quote>)
    ensures DecodeList([], qs) == Some(qs)
  {}

  /** The server's answer: `get_trading_pairs` sizes, allocates and fills a buffer, and `do_connect` writes it, or a text
      when there is nothing to write. */
  method Respond(head: Market?, ghost nodes: seq<Market>) returns (reply: Bytes)
    requires IsList(head, nodes) && forall m | m in nodes :: m.Value().Sendable() && SizeEstimate(m.Value()) < U64_LIMIT
    ensures (forall q | q in Values(nodes) :: q.Sendable()) && reply == Reply(Values(nodes))
  {
    hide Encode, SizeEstimate, ListEstimate, EncodeList;
    ghost var qs := Values(nodes);
    assert forall q | q in qs :: q.Sendable() && SizeEstimate(q) < U64_LIMIT;
    if head == null { return NO_RESULTS; }
    var size := ListEncodeSize(head, nodes);
    var buffer := new Byte[size];
    EncodeListFits(qs);
    var sent, written := EncodeMarkets(head, nodes, buffer, size);
    return buffer[..written];
  }

  /** The client's `main` and `parse_markets`: one read into the fixed buffer, and no markets if that does not decode. */
  method Receive(reply: Bytes) returns (head: Market?, ghost nodes: seq<Market>)
    ensures IsList(head, nodes)
    ensures Values(nodes) == match DecodeList(reply[..if |reply| <= 5000 then |reply| else 5000], []) case None => [] case Some(qs) => qs
    ensures forall m | m in nodes :: IsBare(m)
  {
    hide DecodeList, FirstRead;
    FirstReadIs(reply);
    var ok;
    ok, head, nodes := DecodeMarkets(FirstRead(reply));
    if !ok { head, nodes := null, []; }
  }

  /** From the server's list to the client's: it is the same list, fees cut to thousandths, exactly when its encoding fits
      the client's buffer. */
  method Transfer(head: Market?, ghost nodes: seq<Market>) returns (received: Market?, ghost copies: seq<Market>)
    requires IsList(head, nodes) && forall m | m in nodes :: m.Value().Sendable() && SizeEstimate(m.Value()) < U64_LIMIT
    ensures forall q | q in Values(nodes) :: q.Sendable()
    ensures IsList(received, copies) && Values(copies) == ClientList(Values(nodes))
    ensures Values(copies) == ReceivedList(Values(nodes)) <==> |EncodeList(Values(nodes))| <= 5000
    ensures |EncodeList(Values(nodes))| <= 5000 ==> (received == null <==> head == null)
    ensures forall m | m in copies :: IsBare(m)
  {
    hide Encode, SizeEstimate, EncodeList, DecodeList, Reply, FirstRead;
    ghost var qs := Values(nodes);
    var reply := Respond(head, nodes);
    forall q | q in qs ensures |Encode(q)| < U64_LIMIT {
      var i :| 0 <= i < |nodes| && qs[i] == q;
      EncodeFits(q);
    }
    ClientListIsWhole(qs);
    FirstReadIs(reply);
    received, copies := Receive(reply);
  }
}
