/** The `trading_pairs` request end to end: the server merges and encodes, the client decodes. */
module TradingPairs {
  import opened Options
  import opened Octets
  import opened Words
  import opened Protobuf
  import opened MarketWire
  import opened Markets
  import opened Vendors
  import Bittrex
  import MarketRecords
  import MarketText
  import JsonText
  import JsonScans

  /** The server merges and answers, the client reads and decodes: it holds the merged records, in the server's order, with
      fees cut to thousandths, exactly when their encoding fits the client's buffer. */
  method Request(vendorHead: VendorNode?, hash: Bytes -> U32, ghost vendors: seq<VendorNode>, ghost lists: seq<seq<Market>>)
    returns (received: Market?, ghost copies: seq<Market>, ghost merged: seq<Quote>)
    requires Inputs(vendorHead, vendors, lists)
    requires forall q | q in Records(lists) :: q.Sendable() && SizeEstimate(q) < U64_LIMIT
    ensures Picks(merged, old(Records(lists))) && (Merges(merged, old(Records(lists))) <==> |KeysOf(old(Records(lists)))| <= 0x8000_0000)
    ensures forall q | q in merged :: q.Sendable()
    ensures IsList(received, copies) && Values(copies) == ClientList(merged) && forall m | m in copies :: IsBare(m)
    ensures Values(copies) == ReceivedList(merged) <==> |EncodeList(merged)| <= 5000
  {
    hide ClientList, EncodeList, Merges, Picks, KeysOf, Inputs, Records, SizeEstimate, IsList;
    ghost var qs := Records(lists);
    var head; ghost var nodes;
    head, nodes := AllTradingPairs(vendorHead, hash, vendors, lists);
    merged := Values(nodes);
    MergedAreRecords(merged, qs);
    forall m | m in nodes ensures m.Value().Sendable() && SizeEstimate(m.Value()) < U64_LIMIT {
      var i :| 0 <= i < |nodes| && nodes[i] == m;
      assert merged[i] in qs;
    }
    received, copies := Transfer(head, nodes);
  }

  lemma MergedAreRecords(r: seq<Quote>, qs: seq<Quote>)
    requires Picks(r, qs)
    ensures forall i | 0 <= i < |r| :: r[i] in qs
  {
    forall i | 0 <= i < |r| ensures r[i] in qs { assert IsSomeFirst(r[i], qs); }
  }

  // ---------- from the text of a vendor to the client ----------

  /** What listings put on the wire. */
  function QuotesOf(ls: seq<Listing>): (r: seq<Quote>)
    ensures |r| == |ls| && forall i | 0 <= i < |ls| :: r[i] == Quote(ls[i].base, ls[i].market, ls[i].fee)
  {
    seq(|ls|, i requires 0 <= i < |ls| => Quote(ls[i].base, ls[i].market, ls[i].fee))
  }

  /** With one Bittrex vendor whose market text is a document of less than 2^31 characters, the client holds every pair the
      parser lists, once, with the fee in thousandths, exactly when their encoding fits its buffer. */
  method ServeText(js: string, nums: Bittrex.Numbers, hash: Bytes -> U32,
                   ghost before: string, ghost v: JsonText.Json, ghost after: string, ghost rs: seq<MarketRecords.Fields>)
    returns (received: Market?, ghost copies: seq<Market>, ghost merged: seq<Quote>)
    requires js == before + (JsonText.Print(v) + after) && JsonScans.IsBlank(before) && JsonText.Valid(v) && JsonScans.IsBlank(after)
    requires MarketText.IsMarketDocument(v, rs) && JsonText.Nodes(v) < 65535 && |js| < 0x8000_0000
    ensures Merges(merged, QuotesOf(MarketRecords.MarketListings(nums, rs, 0))) && forall q | q in merged :: q.Sendable()
    ensures IsList(received, copies) && Values(copies) == ClientList(merged) && forall m | m in copies :: IsBare(m)
    ensures Values(copies) == ReceivedList(merged) <==> |EncodeList(merged)| <= 5000
    ensures |EncodeList(merged)| <= 5000 ==> (received == null <==> MarketRecords.MarketListings(nums, rs, 0) == [])
    ensures (forall r | r in rs :: MarketRecords.Complete(r)) && |EncodeList(merged)| <= 5000 ==>
              OfferAll(copies, MarketRecords.ActiveRows(nums, rs))
  {
    hide ClientList, EncodeList, MarketText.IsMarketDocument, JsonText.Print, JsonText.Valid, JsonText.Nodes, JsonScans.IsBlank, MarketRecords.MarketListings,
         MarketText.AreModest, Bittrex.IsMarketList, Merges, Picks, KeysOf, IsList, Inputs, Records;
    var vendor := new Vendor();
    ghost var nodes;
    vendor.currentMarket, nodes := MarketText.ParseMarketDocument(js, nums, before, v, after);
    var node := new VendorNode(vendor);
    ghost var ls := MarketRecords.MarketListings(nums, rs, 0);
    OneVendor(node, nodes, ls, |js|);
    KeysFew(QuotesOf(ls));
    received, copies, merged := Request(node, hash, [node], [nodes]);
    MergesSome(merged, QuotesOf(ls));
    ListHead(received, copies);
    if (forall r | r in rs :: MarketRecords.Complete(r)) && |EncodeList(merged)| <= 5000 {
      MarketRecords.AllComplete(nums, rs);
      ClientOffers(copies, merged, nums, rs);
    }
  }

  /** A node at the client offers the pair of a record: its base currency and its market currency. */
  ghost predicate Offers(m: Market, r: MarketRecords.Fields)
    requires MarketRecords.Complete(r)
    reads m
  {
    m.baseCurrency == Some(OctetsOf(r[1].text)) && m.marketCurrency == Some(OctetsOf(r[0].text)) && m.fee == 0.7
  }

  /** The base currency has no tilde (126). */
  predicate Untilded(r: MarketRecords.Fields)
    requires MarketRecords.Complete(r)
  {
    126 !in OctetsOf(r[1].text)
  }

  ghost predicate OffersOne(m: Market, rs: seq<MarketRecords.Fields>)
    requires forall r | r in rs :: MarketRecords.Complete(r)
    reads m
  {
    exists j :: 0 <= j < |rs| && Offers(m, rs[j])
  }

  ghost predicate HasOffer(nodes: seq<Market>, r: MarketRecords.Fields)
    requires MarketRecords.Complete(r)
    reads nodes
  {
    exists i :: 0 <= i < |nodes| && Offers(nodes[i], r)
  }

  /** The nodes offer pairs of these records, none twice, and all of them unless a base currency has a tilde. */
  ghost predicate OfferAll(nodes: seq<Market>, rs: seq<MarketRecords.Fields>)
    requires forall r | r in rs :: MarketRecords.Complete(r)
    reads nodes
  {
    && (forall i | 0 <= i < |nodes| :: OffersOne(nodes[i], rs))
    && (forall i, j | 0 <= i < j < |nodes| :: nodes[i].baseCurrency != nodes[j].baseCurrency || nodes[i].marketCurrency != nodes[j].marketCurrency)
    && ((forall r | r in rs :: Untilded(r)) ==>
          forall j | 0 <= j < |rs| :: HasOffer(nodes, rs[j]))
  }

  /** What the client receives of a listed record. */
  lemma ListedReceived(nums: Bittrex.Numbers, l: Listing, r: MarketRecords.Fields)
    requires MarketRecords.Complete(r) && MarketRecords.Lists(nums, l, r)
    ensures var q := Quote(l.base, l.market, l.fee);
            q == Quote(Some(OctetsOf(r[1].text)), Some(OctetsOf(r[0].text)), 0.7) && HasNames(q)
            && (q.Sendable() ==> Received(q) == q)
  {}

  lemma ClientOffers(copies: seq<Market>, merged: seq<Quote>, nums: Bittrex.Numbers, rs: seq<MarketRecords.Fields>)
    requires forall r | r in rs :: MarketRecords.Complete(r)
    requires Merges(merged, QuotesOf(MarketRecords.Actives(nums, rs))) && forall q | q in merged :: q.Sendable()
    requires Values(copies) == ReceivedList(merged)
    ensures OfferAll(copies, MarketRecords.ActiveRows(nums, rs))
  {
    hide Merges, Picks, MarketRecords.Complete, MarketRecords.Actives, MarketRecords.ActiveRows, MarketRecords.Lists, Quote.Sendable,
         Received, Offers, HasNames, Untilded;
    var rows, ls := MarketRecords.ActiveRows(nums, rs), MarketRecords.Actives(nums, rs);
    MarketRecords.ActivesList(nums, rs);
    OnlyOffers(copies, merged, nums, ls, rows);
    if forall r | r in rows :: Untilded(r) { EachOffered(copies, merged, nums, ls, rows); }
  }

  lemma OnlyOffers(copies: seq<Market>, merged: seq<Quote>, nums: Bittrex.Numbers, ls: seq<Listing>, rows: seq<MarketRecords.Fields>)
    requires |ls| == |rows| && forall r | r in rows :: MarketRecords.Complete(r)
    requires forall j | 0 <= j < |rows| :: MarketRecords.Lists(nums, ls[j], rows[j])
    requires Merges(merged, QuotesOf(ls)) && forall q | q in merged :: q.Sendable()
    requires Values(copies) == ReceivedList(merged)
    ensures Values(copies) == merged
    ensures forall i | 0 <= i < |copies| :: OffersOne(copies[i], rows)
    ensures forall i, j | 0 <= i < j < |copies| ::
              copies[i].baseCurrency != copies[j].baseCurrency || copies[i].marketCurrency != copies[j].marketCurrency
  {
    hide Picks, MarketRecords.Complete, MarketRecords.Lists, OctetsOf, Quote.Sendable, Received, Offers;
    MergesOnce(merged, QuotesOf(ls));
    forall i | 0 <= i < |copies|
      ensures OffersOne(copies[i], rows) && Values(copies)[i] == merged[i]
    {
      var j :| 0 <= j < |ls| && QuotesOf(ls)[j] == merged[i];
      NodeOffers(nums, copies[i], ls[j], rows[j]);
    }
    forall i, j | 0 <= i < j < |copies|
      ensures copies[i].baseCurrency != copies[j].baseCurrency || copies[i].marketCurrency != copies[j].marketCurrency
    {
      assert copies[i].Value() == merged[i] && copies[j].Value() == merged[j];
    }
  }

  lemma EachOffered(copies: seq<Market>, merged: seq<Quote>, nums: Bittrex.Numbers, ls: seq<Listing>, rows: seq<MarketRecords.Fields>)
    requires |ls| == |rows| && (forall r | r in rows :: MarketRecords.Complete(r)) && forall r | r in rows :: Untilded(r)
    requires forall j | 0 <= j < |rows| :: MarketRecords.Lists(nums, ls[j], rows[j])
    requires Merges(merged, QuotesOf(ls)) && Values(copies) == merged && forall i | 0 <= i < |copies| :: OffersOne(copies[i], rows)
    ensures forall j | 0 <= j < |rows| :: HasOffer(copies, rows[j])
  {
    hide Merges, MarketRecords.Complete, MarketRecords.Lists, OctetsOf, HasNames, HasPairOf;
    var qs := QuotesOf(ls);
    forall q | q in qs ensures HasNames(q) && q.base.Some? && 126 !in q.base.value {
      var j :| 0 <= j < |ls| && qs[j] == q;
      ListedReceived(nums, ls[j], rows[j]);
      assert Untilded(rows[j]);
    }
    MergesUntilded(merged, qs);
    forall j | 0 <= j < |rows| ensures HasOffer(copies, rows[j]) {
      assert qs[j] in qs;
      ListedReceived(nums, ls[j], rows[j]);
      var i := PairAt(merged, qs[j]);
      assert copies[i].Value() == merged[i] && OffersOne(copies[i], rows);
      assert Offers(copies[i], rows[j]);
    }
  }

  lemma PairAt(merged: seq<Quote>, q: Quote) returns (i: nat)
    requires HasPairOf(merged, q)
    ensures i < |merged| && merged[i].base == q.base && merged[i].market == q.market
  {
    i :| i < |merged| && merged[i].base == q.base && merged[i].market == q.market;
  }

  lemma NodeOffers(nums: Bittrex.Numbers, m: Market, l: Listing, r: MarketRecords.Fields)
    requires MarketRecords.Complete(r) && MarketRecords.Lists(nums, l, r)
    requires Quote(l.base, l.market, l.fee).Sendable() && m.Value() == Received(Quote(l.base, l.market, l.fee))
    ensures Offers(m, r) && m.Value() == Quote(l.base, l.market, l.fee)
  {
    ListedReceived(nums, l, r);
  }

  lemma MergesSome(r: seq<Quote>, qs: seq<Quote>)
    requires Merges(r, qs)
    ensures r == [] <==> qs == []
  {
    hide Key;
    if qs != [] { assert HasKeyOf(r, qs[0]); }
    if r != [] { assert IsSomeFirst(r[0], qs); }
  }

  /** What a node with a modest listing sends. */
  lemma NodeSends(m: Market, l: Listing, n: nat)
    requires m.Listed() == l && MarketText.IsModest(l, n) && n < 0x8000_0000
    ensures var q := Quote(l.base, l.market, l.fee);
            m.Value() == q && HasNames(q) && q.Sendable() && SizeEstimate(q) < U64_LIMIT
  {}

  /** The records of a single vendor. */
  lemma OneVendor(node: VendorNode, nodes: seq<Market>, ls: seq<Listing>, n: nat)
    requires node.next == null && Bittrex.IsMarketList(node.vendor.currentMarket, nodes, ls)
    requires MarketText.AreModest(ls, n) && n < 0x8000_0000
    ensures Inputs(node, [node], [nodes]) && Records([nodes]) == QuotesOf(ls) && |ls| <= 65535
    ensures forall q | q in Records([nodes]) :: q.Sendable() && SizeEstimate(q) < U64_LIMIT
  {
    hide MarketText.IsModest, SizeEstimate;
    var lists := [nodes];
    assert Records(lists[..0]) == [];
    assert Records(lists) == [] + Values(nodes) == QuotesOf(ls);
    forall i | 0 <= i < |nodes| ensures HasNames(nodes[i].Value()) && QuotesOf(ls)[i].Sendable() && SizeEstimate(QuotesOf(ls)[i]) < U64_LIMIT {
      assert ls[i] in ls;
      NodeSends(nodes[i], ls[i], n);
    }
  }
}
