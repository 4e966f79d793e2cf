/** The Bittrex parsers: the order book, a zip of bids and asks built in place, and the market list. */
module Bittrex {
  import opened Options
  import opened Jsmn
  import opened JsonCursor
  import opened Octets
  import Markets

  /** What the C library makes of a number's text. */
  datatype Numbers = Numbers(atoi: string -> int, atof: string -> real)

  // ---------- the order book as a value ----------

  /** One price level: where its quantity and its rate stand among the tokens. */
  datatype Level = Level(qty: nat, rate: nat)

  function NextLevel(d: Doc, from: nat): (r: Option<Level>)
    requires d.Ok()
    ensures r.Some? ==> from < r.value.qty < r.value.rate <= d.n
  {
    match Value(d, from, "Quantity", Primitive)
    case None => None
    case Some(q) =>
      match Value(d, q, "Rate", Primitive)
      case None => None
      case Some(r) => Some(Level(q, r))
  }

  /** All levels from a position on. */
  function Levels(d: Doc, from: nat): seq<Level>
    requires d.Ok()
    decreases d.n - from
  {
    match NextLevel(d, from)
    case None => []
    case Some(l) => [l] + Levels(d, l.rate)
  }

  /** The leading levels whose rate stands before a position. */
  function Before(ls: seq<Level>, limit: nat): seq<Level> {
    if ls == [] || ls[0].rate >= limit then [] else [ls[0]] + Before(ls[1..], limit)
  }

  datatype Price = Price(qty: real, rate: real)

  const NOTHING := Price(0.0, 0.0)

  function PriceOf(d: Doc, nums: Numbers, l: Level): Price
    requires d.Ok() && l.qty <= d.n && l.rate <= d.n
  {
    Price(RealOf(d.TextOf(d.toks[l.qty]), nums.atof), RealOf(d.TextOf(d.toks[l.rate]), nums.atof))
  }

  function Prices(d: Doc, nums: Numbers, ls: seq<Level>): (r: seq<Price>)
    requires d.Ok() && forall l | l in ls :: l.qty <= d.n && l.rate <= d.n
    ensures |r| == |ls| && forall i | 0 <= i < |ls| :: r[i] == PriceOf(d, nums, ls[i])
  {
    seq(|ls|, i requires 0 <= i < |ls| => PriceOf(d, nums, ls[i]))
  }

  datatype Row = Row(bid: Price, ask: Price)

  function Max(a: nat, b: nat): nat { if a >= b then a else b }

  lemma {:induction false} LevelsInDoc(d: Doc, from: nat)
    requires d.Ok()
    ensures forall l | l in Levels(d, from) :: l.qty <= d.n && l.rate <= d.n
    decreases d.n - from
  {
    match NextLevel(d, from)
    case None =>
    case Some(l) => LevelsInDoc(d, l.rate);
  }

  lemma {:induction false} BeforeInside(ls: seq<Level>, limit: nat)
    ensures forall l | l in Before(ls, limit) :: l in ls && l.rate < limit
  {
    if ls != [] && ls[0].rate < limit { BeforeInside(ls[1..], limit); }
  }

  function BidsOf(d: Doc, nums: Numbers, start: nat, sell: nat): seq<Price>
    requires d.Ok()
  {
    LevelsInDoc(d, start);
    BeforeInside(Levels(d, start), sell);
    Prices(d, nums, Before(Levels(d, start), sell))
  }

  function AsksOf(d: Doc, nums: Numbers, sell: nat): seq<Price>
    requires d.Ok()
  {
    LevelsInDoc(d, sell);
    Prices(d, nums, Levels(d, sell))
  }

  // ---------- the list of book nodes ----------

  class Book {
    var bidQty: real
    var bidPrice: real
    var askQty: real
    var askPrice: real
    var next: Book?

    /** `book_new`. */
    constructor ()
      ensures Value() == Row(NOTHING, NOTHING) && next == null
    {
      bidQty, bidPrice, askQty, askPrice, next := 0.0, 0.0, 0.0, 0.0, null;
    }

    function Value(): Row
      reads this
    {
      Row(Price(bidQty, bidPrice), Price(askQty, askPrice))
    }
  }

  ghost predicate IsList(head: Book?, nodes: seq<Book>)
    reads nodes
  {
    && (forall i, j | 0 <= i < j < |nodes| :: nodes[i] != nodes[j])
    && head == (if nodes == [] then null else nodes[0])
    && forall i | 0 <= i < |nodes| :: nodes[i].next == if i + 1 < |nodes| then nodes[i + 1] else null
  }

  /** The i-th bid beside the i-th ask, zeros for a missing one. */
  function RowAt(bids: seq<Price>, asks: seq<Price>, i: nat): Row {
    Row(if i < |bids| then bids[i] else NOTHING, if i < |asks| then asks[i] else NOTHING)
  }

  /** The list shows the given bids and asks, zeros elsewhere. */
  ghost predicate Shows(nodes: seq<Book>, bids: seq<Price>, asks: seq<Price>)
    reads nodes
  {
    && |nodes| == Max(|bids|, |asks|)
    && forall i | 0 <= i < |nodes| :: nodes[i].Value() == RowAt(bids, asks, i)
  }

  /** The pair of reads both loops begin with: 0 when either key or its value is missing. */
  method ReadLevel(d: Doc, nums: Numbers, from: nat) returns (pos: nat, quantity: real, rate: real)
    requires d.Ok()
    ensures match NextLevel(d, from)
            case None => pos == 0
            case Some(l) => from < pos <= d.n && pos == l.rate && Price(quantity, rate) == PriceOf(d, nums, l)
  {
    quantity, rate := 0.0, 0.0;
    pos, quantity := GetDouble(d, from, "Quantity", nums.atof, quantity);
    if pos == 0 { return; }
    pos, rate := GetDouble(d, pos, "Rate", nums.atof, rate);
  }

  /** The first loop of `book_bittrex_parse_book`. */
  method AddBids(d: Doc, nums: Numbers, start: nat, sell: nat) returns (book: Book?, last: Book?, ghost nodes: seq<Book>)
    requires d.Ok() && start > 0
    ensures IsList(book, nodes) && fresh(set b | b in nodes)
    ensures last == if nodes == [] then null else nodes[|nodes| - 1]
    ensures Shows(nodes, BidsOf(d, nums, start, sell), [])
  {
    hide NextLevel, BidsOf, Prices, PriceOf, IsList, Shows;
    book, last, nodes := null, null, [];
    var pos := start;
    ghost var all := BidsOf(d, nums, start, sell);
    ghost var bids, rest: seq<Price> := [], all;
    NoNodes();
    if start >= sell { BidsStep(d, nums, start, sell); }
    while pos != 0 && pos < sell
      invariant IsList(book, nodes) && fresh(set b | b in nodes)
      invariant last == if nodes == [] then null else nodes[|nodes| - 1]
      invariant Shows(nodes, bids, [])
      invariant bids + rest == all && rest == if pos == 0 || pos >= sell then [] else BidsOf(d, nums, pos, sell)
      decreases if pos == 0 then 0 else if pos > d.n then 1 else d.n + 2 - pos
    {
      BidsStep(d, nums, pos, sell);
      var quantity, rate;
      pos, quantity, rate := ReadLevel(d, nums, pos);
      if pos == 0 { continue; }
      if pos < sell {
        book, last, nodes := AppendBid(book, last, nodes, quantity, rate, bids);
        rest := BidsOf(d, nums, pos, sell);
        MoveOver(bids, Price(quantity, rate), rest);
        bids := bids + [Price(quantity, rate)];
      }
    }
    assert bids + [] == bids;
  }

  lemma MoveOver(done: seq<Price>, p: Price, rest: seq<Price>)
    ensures (done + [p]) + rest == done + ([p] + rest)
  {}

  lemma NoNodes()
    ensures IsList(null, []) && Shows([], [], [])
  {}

  /** Appends a node with a bid through the last node's next field. */
  method AppendBid(book: Book?, last: Book?, ghost nodes: seq<Book>, quantity: real, rate: real, ghost bids: seq<Price>)
    returns (book': Book?, current: Book, ghost nodes': seq<Book>)
    requires IsList(book, nodes) && Shows(nodes, bids, []) && last == if nodes == [] then null else nodes[|nodes| - 1]
    modifies (if last == null then {} else {last})`next
    ensures nodes' == nodes + [current] && fresh(current)
    ensures IsList(book', nodes') && Shows(nodes', bids + [Price(quantity, rate)], [])
  {
    hide IsList;
    Distinct(book, nodes);
    current := new Book();
    current.bidQty := quantity;
    current.bidPrice := rate;
    book' := AppendNode(book, last, nodes, current);
    nodes' := nodes + [current];
  }

  lemma Distinct(book: Book?, nodes: seq<Book>)
    requires IsList(book, nodes)
    ensures forall i, j | 0 <= i < j < |nodes| :: nodes[i] != nodes[j]
  {}

  /** Links a new node behind the last one. */
  method AppendNode(book: Book?, last: Book?, ghost nodes: seq<Book>, node: Book) returns (book': Book?)
    requires IsList(book, nodes) && last == if nodes == [] then null else nodes[|nodes| - 1]
    requires node !in nodes && node.next == null
    modifies (if last == null then {} else {last})`next
    ensures IsList(book', nodes + [node])
  {
    book' := book;
    if last == null {
      book' := node;
    } else {
      last.next := node;
    }
  }

  lemma BidsStep(d: Doc, nums: Numbers, pos: nat, sell: nat)
    requires d.Ok()
    ensures BidsOf(d, nums, pos, sell) ==
            match NextLevel(d, pos)
            case None => []
            case Some(l) => if l.rate >= sell then [] else [PriceOf(d, nums, l)] + BidsOf(d, nums, l.rate, sell)
  {
    hide NextLevel;
    LevelsInDoc(d, pos);
    BeforeInside(Levels(d, pos), sell);
    match NextLevel(d, pos)
    case None =>
    case Some(l) => assert ([l] + Levels(d, l.rate))[1..] == Levels(d, l.rate);
  }

  lemma AsksStep(d: Doc, nums: Numbers, pos: nat)
    requires d.Ok()
    ensures AsksOf(d, nums, pos) ==
            match NextLevel(d, pos)
            case None => []
            case Some(l) => [PriceOf(d, nums, l)] + AsksOf(d, nums, l.rate)
  {
    hide NextLevel;
    LevelsInDoc(d, pos);
  }

  /** The second loop of `book_bittrex_parse_book`: fills in asks from the first node on, and appends nodes when the
      bids run out. */
  method AddAsks(d: Doc, nums: Numbers, sell: nat, book0: Book?, last0: Book?, ghost nodes0: seq<Book>, ghost bids: seq<Price>)
    returns (book: Book?, ghost nodes: seq<Book>)
    requires d.Ok() && sell > 0
    requires IsList(book0, nodes0) && Shows(nodes0, bids, [])
    requires last0 == if nodes0 == [] then null else nodes0[|nodes0| - 1]
    modifies set b | b in nodes0
    ensures IsList(book, nodes) && Shows(nodes, bids, AsksOf(d, nums, sell))
  {
    hide NextLevel, AsksOf, Prices, PriceOf, IsList, Shows, Cursor;
    book, nodes := book0, nodes0;
    var last := last0;
    var current := book;
    var pos := sell;
    ghost var all := AsksOf(d, nums, sell);
    ghost var asks, rest: seq<Price> := [], all;
    FirstNode(book, nodes, last);
    while pos != 0
      invariant IsList(book, nodes) && forall b | b in nodes :: b in nodes0 || fresh(b)
      invariant Shows(nodes, bids, asks)
      invariant Cursor(nodes, |asks|, current, last)
      invariant asks + rest == all && rest == if pos == 0 then [] else AsksOf(d, nums, pos)
      decreases if pos == 0 then 0 else if pos > d.n then 1 else d.n + 2 - pos
    {
      AsksStep(d, nums, pos);
      var quantity, rate;
      pos, quantity, rate := ReadLevel(d, nums, pos);
      if pos == 0 { continue; }
      book, last, nodes := PlaceAsk(book, current, last, nodes, quantity, rate, bids, asks);
      rest := AsksOf(d, nums, pos);
      MoveOver(asks, Price(quantity, rate), rest);
      asks := asks + [Price(quantity, rate)];
      current := last.next;
    }
    assert asks + [] == asks;
  }

  /** Stores an ask in the current node, or in a new one at the end of the list when there is no current node. */
  method PlaceAsk(book: Book?, current: Book?, last: Book?, ghost nodes: seq<Book>, quantity: real, rate: real,
                  ghost bids: seq<Price>, ghost asks: seq<Price>)
    returns (book': Book?, node: Book, ghost nodes': seq<Book>)
    requires IsList(book, nodes) && Shows(nodes, bids, asks)
    requires Cursor(nodes, |asks|, current, last)
    modifies set b | b in nodes
    ensures IsList(book', nodes') && Shows(nodes', bids, asks + [Price(quantity, rate)])
    ensures nodes <= nodes' && forall b | b in nodes' :: b in nodes || fresh(b)
    ensures Cursor(nodes', |asks| + 1, node.next, node)
  {
    hide IsList, Shows;
    if current == null {
      LastOfCursor(nodes, |asks|, last);
      book', node := AppendAsk(book, last, nodes, quantity, rate, bids, asks);
      nodes' := nodes + [node];
    } else {
      node, book', nodes' := current, book, nodes;
      FillAsk(book, node, nodes, quantity, rate, bids, asks);
    }
    NodeAt(book', nodes', |asks|);
  }

  lemma NodeAt(book: Book?, nodes: seq<Book>, i: nat)
    requires IsList(book, nodes) && i < |nodes|
    ensures nodes[i].next == if i + 1 < |nodes| then nodes[i + 1] else null
  {}

  lemma LastOfCursor(nodes: seq<Book>, i: nat, last: Book?)
    requires Cursor(nodes, i, null, last)
    ensures i == |nodes| && last == if nodes == [] then null else nodes[|nodes| - 1]
  {}

  /** A new last node for an ask beyond the last bid. */
  method AppendAsk(book: Book?, last: Book?, ghost nodes: seq<Book>, quantity: real, rate: real,
                   ghost bids: seq<Price>, ghost asks: seq<Price>)
    returns (book': Book?, current: Book)
    requires IsList(book, nodes) && Shows(nodes, bids, asks) && |asks| == |nodes|
    requires last == if nodes == [] then null else nodes[|nodes| - 1]
    modifies (if last == null then {} else {last})`next
    ensures fresh(current) && current.next == null
    ensures IsList(book', nodes + [current]) && Shows(nodes + [current], bids, asks + [Price(quantity, rate)])
  {
    hide IsList;
    Distinct(book, nodes);
    current := new Book();
    current.askQty := quantity;
    current.askPrice := rate;
    book' := AppendNode(book, last, nodes, current);
  }

  /** The ask of the current node. */
  method FillAsk(book: Book?, current: Book, ghost nodes: seq<Book>, quantity: real, rate: real,
                 ghost bids: seq<Price>, ghost asks: seq<Price>)
    requires IsList(book, nodes) && Shows(nodes, bids, asks) && |asks| < |nodes| && current == nodes[|asks|]
    modifies current`askQty, current`askPrice
    ensures IsList(book, nodes) && Shows(nodes, bids, asks + [Price(quantity, rate)])
  {
    current.askQty := quantity;
    current.askPrice := rate;
  }

  /** The next ask belongs into node i: `current` is that node, and `last` the one a new node is linked from. */
  ghost predicate Cursor(nodes: seq<Book>, i: nat, current: Book?, last: Book?) {
    && i <= |nodes|
    && current == (if i < |nodes| then nodes[i] else null)
    && last == if i > 0 then nodes[i - 1] else if nodes == [] then null else nodes[|nodes| - 1]
  }

  lemma FirstNode(book: Book?, nodes: seq<Book>, last: Book?)
    requires IsList(book, nodes) && last == if nodes == [] then null else nodes[|nodes| - 1]
    ensures Cursor(nodes, 0, book, last)
  {}

  /** `book_bittrex_parse_book` on a parsed text in which the "sell" key occurs after a true "success". */
  method ParseBook(d: Doc, nums: Numbers) returns (book: Book?, ghost nodes: seq<Book>)
    requires d.Ok() && (Succeeded(d, nums) > 0 ==> Find(d, Succeeded(d, nums), "sell") >= 0)
    ensures IsList(book, nodes)
    ensures var start := Succeeded(d, nums);
            if start == 0 then nodes == []
            else var sell := Find(d, start, "sell");
                 Shows(nodes, BidsOf(d, nums, start, sell), AsksOf(d, nums, sell))
    ensures var start := Succeeded(d, nums);
            book == null <==> start == 0 || (var sell := Find(d, start, "sell"); BidsOf(d, nums, start, sell) == [] == AsksOf(d, nums, sell))
  {
    hide BidsOf, AsksOf;
    nodes := [];
    var success := 0;
    var start;
    start, success := GetInt(d, 0, "success", nums.atoi, success);
    if start == 0 || success == 0 { return null, []; }
    var sell := FindToken(d, start, "sell");
    var last;
    book, last, nodes := AddBids(d, nums, start, sell);
    book, nodes := AddAsks(d, nums, sell, book, last, nodes, BidsOf(d, nums, start, sell));
  }

  /** The position of a true "success" value, or 0. */
  function Succeeded(d: Doc, nums: Numbers): nat
    requires d.Ok()
  {
    match Value(d, 0, "success", Primitive)
    case None => 0
    case Some(p) => if IntOf(d.TextOf(d.toks[p]), nums.atoi) == 0 then 0 else p
  }

  // ---------- the market list ----------

  type Listing = Markets.Listing

  /** One record read from a position on: the pair, whether it is active, and where reading stopped. */
  datatype Entry = Entry(listing: Listing, active: bool, pos: nat)

  /** The pair that the texts of four fields describe, with the fee the parser assigns. */
  function ListingOf(nums: Numbers, market: string, base: string, minTrade: string, name: string): Listing {
    Markets.Listing(Some(OctetsOf(name)), Some(OctetsOf(market)), Some(OctetsOf(base)), RealOf(minTrade, nums.atof), 0.7)
  }

  function NextEntry(d: Doc, nums: Numbers, from: nat): (r: Option<Entry>)
    requires d.Ok()
    ensures r.Some? ==> from < r.value.pos <= d.n
  {
    var m := Value(d, from, "MarketCurrency", Str);
    if m.None? then None else
    var b := Value(d, m.value, "BaseCurrency", Str);
    if b.None? then None else
    var t := Value(d, b.value, "MinTradeSize", Primitive);
    if t.None? then None else
    var n := Value(d, t.value, "MarketName", Str);
    if n.None? then None else
    var a := Value(d, n.value, "IsActive", Primitive);
    if a.None? then None else
    Some(Entry(ListingOf(nums, d.TextOf(d.toks[m.value]), d.TextOf(d.toks[b.value]), d.TextOf(d.toks[t.value]),
                         d.TextOf(d.toks[n.value])),
               IntOf(d.TextOf(d.toks[a.value]), nums.atoi) != 0, a.value))
  }

  /** The active records, in order, up to the first one with a missing field. */
  function ActiveListings(d: Doc, nums: Numbers, from: nat): seq<Listing>
    requires d.Ok()
    decreases d.n - from
  {
    match NextEntry(d, nums, from)
    case None => []
    case Some(e) => (if e.active then [e.listing] else []) + ActiveListings(d, nums, e.pos)
  }

  ghost predicate IsMarketList(head: Markets.Market?, nodes: seq<Markets.Market>, values: seq<Listing>)
    reads nodes
  {
    Markets.IsList(head, nodes) && |values| == |nodes| && forall i | 0 <= i < |nodes| :: nodes[i].Listed() == values[i]
  }

  /** The reads of one turn of the loop: 0 as soon as a field is missing. */
  method ReadMarket(d: Doc, nums: Numbers, from: nat)
    returns (pos: nat, current: Markets.Market, active: int, ghost at: seq<nat>)
    requires d.Ok()
    ensures fresh(current) && current.next == null
    ensures pos > 0 ==> FieldsAt(d, from, at) && pos == at[4] && IsEntry(d, nums, current.Listed(), active != 0, at)
    ensures match NextEntry(d, nums, from)
            case None => pos == 0
            case Some(e) => from < pos <= d.n && pos == e.pos && current.Listed() == e.listing && (active != 0 <==> e.active)
  {
    hide Value, RealOf, IntOf, OctetsOf, FieldsAt, IsEntry;
    active, at := 0, [];
    current := new Markets.Market();
    var text: Option<string>;
    pos, text := GetString(d, from, "MarketCurrency", None);
    current.marketCurrency := Named(text);
    if pos == 0 { return; }
    pos, text := GetString(d, pos, "BaseCurrency", None);
    current.baseCurrency := Named(text);
    if pos == 0 { return; }
    pos, current.minTradeSize := GetDouble(d, pos, "MinTradeSize", nums.atof, current.minTradeSize);
    if pos == 0 { return; }
    pos, text := GetString(d, pos, "MarketName", None);
    current.marketName := Named(text);
    if pos == 0 { return; }
    pos, active := GetInt(d, pos, "IsActive", nums.atoi, active);
    if pos == 0 { return; }
    current.fee := 0.7;
    at := EntryAt(d, nums, from);
  }

  /** The five values of an entry, each right behind the first string with its key from the value before it on. */
  ghost predicate FieldsAt(d: Doc, from: nat, at: seq<nat>)
    requires d.Ok()
    ensures FieldsAt(d, from, at) ==> |at| == 5 && forall i | 0 <= i < 5 :: at[i] <= d.n
  {
    && |at| == 5
    && BehindFirst(d, from, "MarketCurrency", at[0]) && d.toks[at[0]].kind == Str
    && BehindFirst(d, at[0], "BaseCurrency", at[1]) && d.toks[at[1]].kind == Str
    && BehindFirst(d, at[1], "MinTradeSize", at[2]) && d.toks[at[2]].kind == Primitive
    && BehindFirst(d, at[2], "MarketName", at[3]) && d.toks[at[3]].kind == Str
    && BehindFirst(d, at[3], "IsActive", at[4]) && d.toks[at[4]].kind == Primitive
  }

  /** Their texts are the currencies, the least trade, the name and the activity of the market. */
  ghost predicate IsEntry(d: Doc, nums: Numbers, l: Listing, active: bool, at: seq<nat>)
    requires d.Ok() && |at| == 5 && forall i | 0 <= i < 5 :: at[i] <= d.n
  {
    && l.market == Some(OctetsOf(d.TextOf(d.toks[at[0]]))) && l.base == Some(OctetsOf(d.TextOf(d.toks[at[1]])))
    && (d.TextOf(d.toks[at[2]]) !in ["true", "false", "null"] ==> l.minTrade == nums.atof(d.TextOf(d.toks[at[2]])))
    && l.name == Some(OctetsOf(d.TextOf(d.toks[at[3]]))) && l.fee == 0.7
    && (d.TextOf(d.toks[at[4]]) == "true" ==> active) && (d.TextOf(d.toks[at[4]]) in ["false", "null"] ==> !active)
    && (d.TextOf(d.toks[at[4]]) !in ["true", "false", "null"] ==> (active <==> nums.atoi(d.TextOf(d.toks[at[4]])) != 0))
  }

  lemma EntryAt(d: Doc, nums: Numbers, from: nat) returns (at: seq<nat>)
    requires d.Ok() && NextEntry(d, nums, from).Some?
    ensures var e := NextEntry(d, nums, from).value;
            FieldsAt(d, from, at) && at[4] == e.pos && IsEntry(d, nums, e.listing, e.active, at)
  {
    hide Value, BehindFirst, OctetsOf, Doc.TextOf;
    var m := Value(d, from, "MarketCurrency", Str).value;
    ValueIs(d, from, "MarketCurrency", Str, m);
    var b := Value(d, m, "BaseCurrency", Str).value;
    ValueIs(d, m, "BaseCurrency", Str, b);
    var t := Value(d, b, "MinTradeSize", Primitive).value;
    ValueIs(d, b, "MinTradeSize", Primitive, t);
    var n := Value(d, t, "MarketName", Str).value;
    ValueIs(d, t, "MarketName", Str, n);
    var a := Value(d, n, "IsActive", Primitive).value;
    ValueIs(d, n, "IsActive", Primitive, a);
    at := [m, b, t, n, a];
  }

  function Named(text: Option<string>): Option<Bytes> {
    if text.None? then None else Some(OctetsOf(text.value))
  }

  /** `book_bittrex_parse_market`. */
  method ParseMarkets(d: Doc, nums: Numbers) returns (head: Markets.Market?, ghost nodes: seq<Markets.Market>)
    requires d.Ok()
    ensures IsMarketList(head, nodes, if Succeeded(d, nums) == 0 then [] else ActiveListings(d, nums, Succeeded(d, nums)))
    ensures head == null <==> Succeeded(d, nums) == 0 || ActiveListings(d, nums, Succeeded(d, nums)) == []
    ensures forall m | m in nodes :: fresh(m)
  {
    head, nodes := null, [];
    var success := 0;
    var pos;
    pos, success := GetInt(d, 0, "success", nums.atoi, success);
    if pos == 0 || success == 0 { return null, []; }
    head, nodes := CollectMarkets(d, nums, pos);
  }

  /** The loop of `book_bittrex_parse_market`. */
  method CollectMarkets(d: Doc, nums: Numbers, start: nat) returns (head: Markets.Market?, ghost nodes: seq<Markets.Market>)
    requires d.Ok() && start > 0
    ensures IsMarketList(head, nodes, ActiveListings(d, nums, start)) && (head == null <==> ActiveListings(d, nums, start) == [])
    ensures forall m | m in nodes :: fresh(m)
  {
    hide NextEntry, IsMarketList, ActiveListings, FieldsAt, IsEntry;
    head, nodes := null, [];
    var last: Markets.Market? := null;
    var pos := start;
    ghost var all := ActiveListings(d, nums, start);
    ghost var done, rest: seq<Listing> := [], all;
    NoMarkets();
    while pos != 0
      invariant IsMarketList(head, nodes, done) && fresh(set m | m in nodes)
      invariant last == if nodes == [] then null else nodes[|nodes| - 1]
      invariant done + rest == all && rest == if pos == 0 then [] else ActiveListings(d, nums, pos)
      decreases if pos == 0 then 0 else if pos > d.n then 1 else d.n + 2 - pos
    {
      ListingsStep(d, nums, pos);
      var current, active;
      ghost var at;
      pos, current, active, at := ReadMarket(d, nums, pos);
      if pos == 0 { continue; }
      rest := ActiveListings(d, nums, pos);
      if active == 0 { continue; }
      ghost var value := current.Listed();
      head, last, nodes := AppendMarket(head, last, nodes, done, current);
      ListingOver(done, value, rest);
      done := done + [value];
    }
    assert done + [] == done;
    MarketsHead(head, nodes, done);
  }

  lemma MarketsHead(head: Markets.Market?, nodes: seq<Markets.Market>, values: seq<Listing>)
    requires IsMarketList(head, nodes, values)
    ensures head == null <==> values == []
  {}

  lemma NoMarkets()
    ensures IsMarketList(null, [], [])
  {}

  lemma ListingOver(done: seq<Listing>, l: Listing, rest: seq<Listing>)
    ensures (done + [l]) + rest == done + ([l] + rest)
  {}

  lemma ListingsStep(d: Doc, nums: Numbers, pos: nat)
    requires d.Ok()
    ensures ActiveListings(d, nums, pos) ==
            match NextEntry(d, nums, pos)
            case None => []
            case Some(e) => if e.active then [e.listing] + ActiveListings(d, nums, e.pos) else ActiveListings(d, nums, e.pos)
  {
    hide NextEntry;
  }

  method AppendMarket(head: Markets.Market?, last: Markets.Market?, ghost nodes: seq<Markets.Market>, ghost values: seq<Listing>,
                      current: Markets.Market)
    returns (head': Markets.Market?, last': Markets.Market?, ghost nodes': seq<Markets.Market>)
    requires IsMarketList(head, nodes, values) && last == (if nodes == [] then null else nodes[|nodes| - 1])
    requires current !in nodes && current.next == null
    modifies (if last == null then {} else {last})`next
    ensures nodes' == nodes + [current] && last' == current
    ensures IsMarketList(head', nodes', values + [current.Listed()])
  {
    hide Markets.IsList, Markets.Values;
    head' := Markets.AppendMarket(head, last, nodes, current);
    nodes', last' := nodes + [current], current;
  }
}
