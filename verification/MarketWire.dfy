/** Markets on the wire: the format of one market and of a list, and why decoding undoes encoding. */
module MarketWire {
  import opened Options
  import opened Octets
  import opened Protobuf

  /** What the wire carries of a market; a name is None while it has not been read. */
  datatype Quote = Quote(base: Option<Bytes>, market: Option<Bytes>, fee: real) {
    predicate Named() { base.Some? && market.Some? && |base.value| < U64_LIMIT && |market.value| < U64_LIMIT }

    /** The fee in thousandths, as C converts it, is a 64-bit number. */
    predicate FeeFits() { 0.0 <= fee && fee * 1000.0 < U64_LIMIT as real }

    predicate Sendable() { Named() && FeeFits() }

    function Thousandths(): nat
      requires FeeFits()
    {
      (fee * 1000.0).Floor
    }
  }

  const BLANK := Quote(None, None, 0.0)

  /** The market the receiver sees: the same names, and the fee cut down to whole thousandths. */
  function Received(q: Quote): Quote
    requires q.Sendable()
  {
    q.(fee := q.Thousandths() as real / 1000.0)
  }

  lemma ReceivedFee(q: Quote)
    requires q.Sendable()
    ensures Received(q).Sendable() && Received(q).Thousandths() == q.Thousandths()
    ensures Received(q).fee <= q.fee < Received(q).fee + 0.001
  {
    var r := Received(q);
    assert r.fee * 1000.0 == q.Thousandths() as real;
  }

  // ---------- the format ----------

  function Encode(q: Quote): Bytes
    requires q.Sendable()
  {
    (Tag(1, LENGTH_DELIMITED) + Delimited(q.base.value))
    + (Tag(2, LENGTH_DELIMITED) + Delimited(q.market.value))
    + (Tag(3, VARINT) + Varint(q.Thousandths()))
  }

  function EncodeList(qs: seq<Quote>): Bytes
    requires forall q | q in qs :: q.Sendable()
  {
    if qs == [] then [] else EncodeList(qs[..|qs| - 1]) + Entry(qs[|qs| - 1])
  }

  function Entry(q: Quote): Bytes
    requires q.Sendable()
  {
    Tag(1, LENGTH_DELIMITED) + Delimited(Encode(q))
  }

  /** `market_protobuf_encode_size`. */
  function SizeEstimate(q: Quote): nat
    requires q.Named()
  {
    |q.base.value| + 11 + (|q.market.value| + 11) + 11
  }

  /** `market_list_protobuf_encode_size`. */
  function ListEstimate(qs: seq<Quote>): nat
    requires forall q | q in qs :: q.Named()
  {
    if qs == [] then 0 else ListEstimate(qs[..|qs| - 1]) + SizeEstimate(qs[|qs| - 1]) + 11
  }

  /** The bytes of a market with short names and a fee of a few thousandths. */
  lemma ShortMarket(q: Quote)
    requires q.Sendable() && |q.base.value| < 128 && |q.market.value| < 128 && q.fee < 0.128
    ensures Encode(q) == [10, |q.base.value|] + q.base.value + [18, |q.market.value|] + q.market.value + [24, (q.fee * 1000.0).Floor]
  {
    FieldTags();
  }

  lemma FieldTags()
    ensures Tag(1, LENGTH_DELIMITED) == [10] && Tag(2, LENGTH_DELIMITED) == [18] && Tag(3, VARINT) == [24]
  {}

  /** The bytes of the pair BTC, AAA with the fee 0.7, alone and as a list's entry. */
  lemma OneMarket()
    ensures var q := Quote(Some([66, 84, 67]), Some([65, 65, 65]), 0.7);
            q.Sendable() && Encode(q) == [10, 3, 66, 84, 67, 18, 3, 65, 65, 65, 24, 188, 5]
            && EncodeList([q]) == [10, 13] + [10, 3, 66, 84, 67, 18, 3, 65, 65, 65, 24, 188, 5]
  {
    var q := Quote(Some([66, 84, 67]), Some([65, 65, 65]), 0.7);
    assert q.Sendable() && Encode(q) == [10, 3, 66, 84, 67, 18, 3, 65, 65, 65, 24, 188, 5] by { OneEncoded(); }
    hide Encode, Entry, EncodeList, Quote.Sendable, Tag, Varint;
    OneEntry(q);
    assert |Encode(q)| == 13;
    assert Varint(13) == [13] && Tag(1, LENGTH_DELIMITED) == [10] by { OneVarint(); FieldTags(); }
  }

  lemma OneEntry(q: Quote)
    requires q.Sendable()
    ensures EncodeList([q]) == Tag(1, LENGTH_DELIMITED) + Varint(|Encode(q)|) + Encode(q)
  {
    hide Encode, Tag, Varint;
    assert [q][..0] == [] && EncodeList([q]) == [] + Entry(q) == Entry(q);
  }

  lemma OneEncoded()
    ensures var q := Quote(Some([66, 84, 67]), Some([65, 65, 65]), 0.7);
            q.Sendable() && Encode(q) == [10, 3, 66, 84, 67, 18, 3, 65, 65, 65, 24, 188, 5]
  {
    hide Tag, Varint;
    FieldTags();
    assert Quote(Some([66, 84, 67]), Some([65, 65, 65]), 0.7).Thousandths() == 700;
    assert Varint(700) == [188, 5] && Varint(3) == [3] by { TwoVarints(); }
  }

  lemma OneVarint()
    ensures Varint(13) == [13]
  {}

  lemma TwoVarints()
    ensures Varint(700) == [188, 5] && Varint(3) == [3]
  {}

  /** What the sender takes: names, and fees below 2^64 thousandths. */
  lemma SendableIs(base: Bytes, market: Bytes, fee: real)
    requires |base| < 0x1_0000_0000_0000_0000 && |market| < 0x1_0000_0000_0000_0000
    ensures Quote(Some(base), Some(market), fee).Sendable() <==> 0.0 <= fee < 18446744073709551.616
  {}

  // ---------- decoding ----------

  /** One field of a market read from the front of b: the market so far and the bytes used. A field number other
      than 1, 2 and 3 is stepped over without its payload. */
  function ReadField(b: Bytes, q: Quote): (r: Option<Read<Quote>>)
    ensures r.Some? ==> 0 < r.value.used <= |b|
  {
    match ReadTag(b)
    case None => None
    case Some(tag) =>
      var rest := b[tag.used..];
      if tag.value.0 == 1 then
        match ReadDelimited(rest)
        case None => None
        case Some(s) => Some(Read(q.(base := Some(s.value)), tag.used + s.used))
      else if tag.value.0 == 2 then
        match ReadDelimited(rest)
        case None => None
        case Some(s) => Some(Read(q.(market := Some(s.value)), tag.used + s.used))
      else if tag.value.0 == 3 then
        match ReadVarint(rest, 10)
        case None => None
        case Some(n) => Some(Read(q.(fee := n.value as real / 1000.0), tag.used + n.used))
      else Some(Read(q, tag.used))
  }

  /** `market_protobuf_decode`. */
  function Decode(b: Bytes, q: Quote): Option<Quote>
    decreases |b|
  {
    if b == [] then Some(q)
    else
      match ReadField(b, q)
      case None => None
      case Some(r) => Decode(b[r.used..], r.value)
  }

  /** A one-byte tag of an unknown field of a market is stepped over alone: its payload is read as the next tag. */
  lemma UnknownField(tag: Byte, rest: Bytes, q: Quote)
    requires tag < 8 || 32 <= tag < 128
    ensures Decode([tag] + rest, q) == Decode(rest, q)
  {
    assert ReadTag([tag] + rest) == Some(Read((tag / 8, tag % 8), 1));
    assert ([tag] + rest)[1..] == rest;
  }

  /** One entry of the list: at most one market, and the bytes used. For a field number other than 1 the length of the tag
      is added to the position twice, which may lead past the end. */
  function ReadEntry(b: Bytes): (r: Option<Read<seq<Quote>>>)
    ensures r.Some? ==> 0 < r.value.used
  {
    match ReadTag(b)
    case None => None
    case Some(tag) =>
      if tag.value.0 != 1 then Some(Read([], 2 * tag.used))
      else
        match ReadDelimited(b[tag.used..])
        case None => None
        case Some(s) =>
          match Decode(s.value, BLANK)
          case None => None
          case Some(q) => Some(Read([q], tag.used + s.used))
  }

  /** `market_list_protobuf_decode`. */
  function DecodeList(b: Bytes, qs: seq<Quote>): Option<seq<Quote>>
    decreases |b|
  {
    if b == [] then Some(qs)
    else
      match ReadEntry(b)
      case None => None
      case Some(r) => DecodeList(Behind(b, r.used), qs + r.value)
  }

  function Behind(b: Bytes, used: nat): Bytes {
    if used <= |b| then b[used..] else []
  }

  // ---------- the size estimates are bounds ----------

  /** The estimate of a list: 44 bytes for every market, and its names. */
  lemma ListEstimateGrows(qs: seq<Quote>, q: Quote)
    requires (forall q | q in qs :: q.Named()) && q.Named()
    ensures ListEstimate(qs + [q]) == ListEstimate(qs) + |q.base.value| + |q.market.value| + 44 && ListEstimate([]) == 0
  {
    assert (qs + [q])[..|qs|] == qs;
  }

  lemma EncodeFits(q: Quote)
    requires q.Sendable()
    ensures |Encode(q)| <= SizeEstimate(q)
    ensures SizeEstimate(q) < U64_LIMIT ==> |Entry(q)| <= SizeEstimate(q) + 11
  {
    VarintFitsTen(|q.base.value|);
    VarintFitsTen(|q.market.value|);
    VarintFitsTen(q.Thousandths());
    if SizeEstimate(q) < U64_LIMIT { VarintFitsTen(|Encode(q)|); }
  }

  /** A whole list fits in the buffer the server allocates for it. */
  lemma {:induction false} EncodeListFits(qs: seq<Quote>)
    requires forall q | q in qs :: q.Sendable() && SizeEstimate(q) < U64_LIMIT
    ensures |EncodeList(qs)| <= ListEstimate(qs)
  {
    if qs != [] {
      var front := qs[..|qs| - 1];
      assert forall q | q in front :: q in qs;
      EncodeListFits(front);
      EncodeFits(qs[|qs| - 1]);
    }
  }

  // ---------- decoding undoes encoding ----------

  lemma ReadStringField(field: nat, s: Bytes, rest: Bytes, q: Quote)
    requires (field == 1 || field == 2) && |s| < U64_LIMIT
    ensures var data := Tag(field, LENGTH_DELIMITED) + Delimited(s);
            ReadField(data + rest, q)
            == Some(Read(if field == 1 then q.(base := Some(s)) else q.(market := Some(s)), |data|))
  {
    hide Tag, Delimited, ReadTag, ReadDelimited;
    var tag, data := Tag(field, LENGTH_DELIMITED), Tag(field, LENGTH_DELIMITED) + Delimited(s);
    assert data + rest == tag + (Delimited(s) + rest);
    ReadTagBack(field, LENGTH_DELIMITED, Delimited(s) + rest);
    ReadDelimitedBack(s, rest);
    assert (data + rest)[|tag|..] == Delimited(s) + rest;
  }

  lemma ReadFeeField(n: nat, rest: Bytes, q: Quote)
    requires n < U64_LIMIT
    ensures var data := Tag(3, VARINT) + Varint(n);
            ReadField(data + rest, q) == Some(Read(q.(fee := n as real / 1000.0), |data|))
  {
    hide Tag, Varint, ReadTag, ReadVarint;
    var tag, data := Tag(3, VARINT), Tag(3, VARINT) + Varint(n);
    assert data + rest == tag + (Varint(n) + rest);
    ReadTagBack(3, VARINT, Varint(n) + rest);
    VarintFitsTen(n);
    ReadVarintBack(n, rest, 10);
    assert (data + rest)[|tag|..] == Varint(n) + rest;
  }

  lemma DecodeStep(data: Bytes, rest: Bytes, q: Quote, q': Quote)
    requires data != [] && ReadField(data + rest, q) == Some(Read(q', |data|))
    ensures Decode(data + rest, q) == Decode(rest, q')
  {
    assert (data + rest)[|data|..] == rest;
  }

  /** Decoding one encoded market. */
  lemma DecodeEncoded(q: Quote)
    requires q.Sendable()
    ensures Decode(Encode(q), BLANK) == Some(Received(q))
  {
    hide ReadField, Decode, Tag, Delimited, Varint;
    var f1, f2, f3 := Tag(1, LENGTH_DELIMITED) + Delimited(q.base.value), Tag(2, LENGTH_DELIMITED) + Delimited(q.market.value),
                      Tag(3, VARINT) + Varint(q.Thousandths());
    assert Encode(q) == f1 + (f2 + f3) && f2 + f3 == f2 + (f3 + []) && f3 == f3 + [];
    var q1 := Quote(q.base, None, 0.0);
    var q2 := Quote(q.base, q.market, 0.0);
    ReadStringField(1, q.base.value, f2 + f3, BLANK);
    DecodeStep(f1, f2 + f3, BLANK, q1);
    ReadStringField(2, q.market.value, f3, q1);
    DecodeStep(f2, f3, q1, q2);
    ReadFeeField(q.Thousandths(), [], q2);
    DecodeStep(f3, [], q2, Received(q));
    assert Decode([], Received(q)) == Some(Received(q)) by { DecodeNothing(Received(q)); }
  }

  lemma DecodeNothing(q: Quote)
    ensures Decode([], q) == Some(q)
  {}

  lemma ReadEntryBack(q: Quote, rest: Bytes)
    requires q.Sendable() && |Encode(q)| < U64_LIMIT
    ensures ReadEntry(Entry(q) + rest) == Some(Read([Received(q)], |Entry(q)|))
  {
    hide ReadTag, ReadDelimited, Tag, Delimited, Decode, Encode;
    var tag, body := Tag(1, LENGTH_DELIMITED), Delimited(Encode(q));
    assert Entry(q) + rest == tag + (body + rest);
    ReadTagBack(1, LENGTH_DELIMITED, body + rest);
    assert (Entry(q) + rest)[|tag|..] == body + rest;
    ReadDelimitedBack(Encode(q), rest);
    DecodeEncoded(q);
  }

  /** What the receiver gets of a list. */
  function ReceivedList(qs: seq<Quote>): (r: seq<Quote>)
    requires forall q | q in qs :: q.Sendable()
    ensures |r| == |qs| && forall i | 0 <= i < |qs| :: r[i] == Received(qs[i])
  {
    seq(|qs|, i requires 0 <= i < |qs| => Received(qs[i]))
  }

  /** Decoding the encoding of any list, followed by anything, gives its markets and goes on behind them. */
  lemma {:induction false} DecodeListPrefix(qs: seq<Quote>, rest: Bytes, done: seq<Quote>)
    requires forall q | q in qs :: q.Sendable() && |Encode(q)| < U64_LIMIT
    ensures DecodeList(EncodeList(qs) + rest, done) == DecodeList(rest, done + ReceivedList(qs))
    decreases |qs|
  {
    hide ReadEntry, Encode, Entry, DecodeList;
    if qs == [] {
      assert EncodeList(qs) + rest == rest && done + ReceivedList(qs) == done;
    } else {
      var front, last := qs[..|qs| - 1], qs[|qs| - 1];
      assert forall q | q in front :: q in qs;
      assert EncodeList(qs) + rest == EncodeList(front) + (Entry(last) + rest);
      DecodeListPrefix(front, Entry(last) + rest, done);
      EntryStep(last, rest, done + ReceivedList(front));
      assert done + ReceivedList(front) + [Received(last)] == done + ReceivedList(qs);
    }
  }

  lemma EntryStep(q: Quote, rest: Bytes, done: seq<Quote>)
    requires q.Sendable() && |Encode(q)| < U64_LIMIT
    ensures DecodeList(Entry(q) + rest, done) == DecodeList(rest, done + [Received(q)])
  {
    hide ReadEntry, Encode, Entry, Received;
    ReadEntryBack(q, rest);
    assert (Entry(q) + rest)[|Entry(q)|..] == rest;
    EntryNotEmpty(q);
  }

  lemma EntryNotEmpty(q: Quote)
    requires q.Sendable()
    ensures |Entry(q)| > 0
  {}

  /** The client decodes exactly the list the server encoded, fees cut to thousandths. */
  lemma ListRoundTrip(qs: seq<Quote>)
    requires forall q | q in qs :: q.Sendable() && |Encode(q)| < U64_LIMIT
    ensures DecodeList(EncodeList(qs), []) == Some(ReceivedList(qs))
  {
    assert EncodeList(qs) + [] == EncodeList(qs) && [] + ReceivedList(qs) == ReceivedList(qs);
    DecodeListPrefix(qs, [], []);
  }

  // ---------- cut replies ----------

  /** The number of bytes the client reads (`buffer[5000]`). */
  const CLIENT_ROOM: nat := 5000

  lemma CutEntry(q: Quote, j: nat)
    requires q.Sendable() && |Encode(q)| < U64_LIMIT && 0 < j < |Entry(q)|
    ensures ReadEntry(Entry(q)[..j]).None?
  {
    hide Encode, Delimited, ReadDelimited, Decode;
    var body := Delimited(Encode(q));
    FieldTags();
    var b := Entry(q)[..j];
    assert b == Tag(1, LENGTH_DELIMITED) + body[..j - 1];
    ReadTagBack(1, LENGTH_DELIMITED, body[..j - 1]);
    assert b[1..] == body[..j - 1];
    CutDelimited(Encode(q), j - 1);
  }

  /** A list cut behind its first k entries decodes to these; cut inside the next one, to nothing. */
  lemma CutList(qs: seq<Quote>, k: nat, n: nat)
    requires k < |qs| && forall q | q in qs :: q.Sendable() && |Encode(q)| < U64_LIMIT
    requires |EncodeList(qs[..k])| <= n < |EncodeList(qs[..k + 1])|
    ensures n <= |EncodeList(qs)|
    ensures DecodeList(EncodeList(qs)[..n], [])
            == if n == |EncodeList(qs[..k])| then Some(ReceivedList(qs[..k])) else None
  {
    hide Encode, Entry, ReadEntry;
    var front := qs[..k];
    assert forall q | q in front :: q in qs;
    EncodeGrows(qs, k + 1);
    assert qs[..k + 1][..k] == front;
    var part := Entry(qs[k])[..n - |EncodeList(front)|];
    assert EncodeList(qs)[..n] == EncodeList(qs[..k + 1])[..n] == EncodeList(front) + part;
    DecodeListPrefix(front, part, []);
    assert [] + ReceivedList(front) == ReceivedList(front);
    if part != [] { CutEntry(qs[k], |part|); }
  }

  /** The encoding of a list begins with those of its prefixes. */
  lemma {:induction false} EncodeGrows(qs: seq<Quote>, n: nat)
    requires n <= |qs| && forall q | q in qs :: q.Sendable()
    ensures EncodeList(qs[..n]) <= EncodeList(qs)
    decreases |qs|
  {
    if n < |qs| {
      var front := qs[..|qs| - 1];
      assert front[..n] == qs[..n];
      EncodeGrows(front, n);
    } else {
      assert qs[..n] == qs;
    }
  }

  /** Some entry is the one that a cut of the list falls into. */
  lemma {:induction false} CutPlace(qs: seq<Quote>, n: nat) returns (k: nat)
    requires (forall q | q in qs :: q.Sendable()) && n < |EncodeList(qs)|
    ensures k < |qs| && |EncodeList(qs[..k])| <= n < |EncodeList(qs[..k + 1])|
    decreases |qs|
  {
    hide Entry;
    var front := qs[..|qs| - 1];
    assert forall q | q in front :: q in qs;
    if n < |EncodeList(front)| {
      k := CutPlace(front, n);
      assert front[..k] == qs[..k] && front[..k + 1] == qs[..k + 1];
    } else {
      k := |front|;
      assert qs[..k + 1] == qs;
    }
  }

  // ---------- the reply and what the client makes of it ----------

  /** The ten bytes sent when there is no market. */
  const NO_RESULTS: Bytes := [78, 111, 32, 82, 101, 115, 117, 108, 116, 115]

  /** What the server writes to the socket. */
  function Reply(qs: seq<Quote>): Bytes
    requires forall q | q in qs :: q.Sendable()
  {
    if qs == [] then NO_RESULTS else EncodeList(qs)
  }

  /** What the client reads of it. */
  function FirstRead(reply: Bytes): Bytes {
    if |reply| <= CLIENT_ROOM then reply else reply[..CLIENT_ROOM]
  }

  lemma FirstReadIs(reply: Bytes)
    ensures FirstRead(reply) == reply[..if |reply| <= 5000 then |reply| else 5000]
  {}

  /** The markets the client holds: none if decoding fails. */
  function ClientList(qs: seq<Quote>): seq<Quote>
    requires forall q | q in qs :: q.Sendable()
  {
    match DecodeList(FirstRead(Reply(qs)), [])
    case None => []
    case Some(r) => r
  }

  lemma NoResultsIsEmpty()
    ensures NO_RESULTS == OctetsOf("No Results") && Reply([]) == NO_RESULTS && DecodeList(NO_RESULTS, []) == Some([])
  {
    var b := NO_RESULTS;
    assert NO_RESULTS == OctetsOf("No Results") by { NoResultsText(); }
    hide OctetsOf, DecodeList;
    assert forall i | 0 <= i < |b| && i % 2 == 0 :: b[i] < 128 && b[i] / 8 != 1;
    SkipsBytes(b);
  }

  /** Bytes of which every other one is such a tag hold no market. */
  lemma {:induction false} SkipsBytes(b: Bytes)
    requires |b| % 2 == 0 && forall i | 0 <= i < |b| && i % 2 == 0 :: b[i] < 128 && b[i] / 8 != 1
    ensures DecodeList(b, []) == Some([])
    decreases |b|
  {
    if b == [] {
      DecodeListNothing();
    } else {
      hide DecodeList;
      SkipsByte(b);
      forall i | 0 <= i < |b[2..]| && i % 2 == 0 ensures b[2..][i] < 128 && b[2..][i] / 8 != 1 { assert (i + 2) % 2 == 0; }
      SkipsBytes(b[2..]);
    }
  }

  lemma DecodeListNothing()
    ensures DecodeList([], []) == Some([])
  {}

  lemma NoResultsText()
    ensures NO_RESULTS == OctetsOf("No Results")
  {}

  /** A one-byte tag of an unknown field takes the next byte with it. */
  lemma SkipsByte(b: Bytes)
    requires |b| >= 2 && b[0] < 128 && b[0] / 8 != 1
    ensures DecodeList(b, []) == DecodeList(b[2..], [])
  {
    assert ReadTag(b) == Some(Read((b[0] / 8, b[0] % 8), 1));
    var none: seq<Quote> := [];
    assert ReadEntry(b) == Some(Read(none, 2)) && none + none == none;
  }

  /** The client holds the list, fees in thousandths, exactly when its encoding fits the buffer. */
  lemma ClientListIsWhole(qs: seq<Quote>)
    requires forall q | q in qs :: q.Sendable() && |Encode(q)| < U64_LIMIT
    ensures ClientList(qs) == ReceivedList(qs) <==> |EncodeList(qs)| <= 5000
    ensures |EncodeList(qs)| > 5000 ==> |ClientList(qs)| < |qs|
  {
    hide DecodeList, Encode;
    if qs == [] {
      NoResultsIsEmpty();
    } else if |EncodeList(qs)| <= CLIENT_ROOM {
      ListRoundTrip(qs);
    } else {
      var k := CutPlace(qs, CLIENT_ROOM);
      CutList(qs, k, CLIENT_ROOM);
    }
  }

  // ---------- a list that does not fit ----------

  /** The pair of the base currency BTC with the i-th market name of three letters. */
  function Coin(i: nat): Quote {
    Quote(Some([66, 84, 67]), Some([65 + i / 676 % 26, 65 + i / 26 % 26, 65 + i % 26]), 0.7)
  }

  function Coins(n: nat): (r: seq<Quote>)
    ensures |r| == n && forall i | 0 <= i < n :: r[i] == Coin(i)
  {
    seq(n, i requires 0 <= i => Coin(i))
  }

  lemma CoinEntry(i: nat)
    ensures Coin(i).Sendable() && |Encode(Coin(i))| == 13 && |Entry(Coin(i))| == 15
  {
    hide Tag;
    var q := Coin(i);
    assert q.Thousandths() == 700;
    assert Varint(700) == [188, 5];
    FieldTags();
    assert |Encode(q)| == 13;
  }

  lemma {:induction false} CoinsLength(n: nat)
    ensures forall q | q in Coins(n) :: q.Sendable() && |Encode(q)| < U64_LIMIT
    ensures |EncodeList(Coins(n))| == 15 * n
  {
    hide Encode, Entry, Coin;
    forall q | q in Coins(n) ensures q.Sendable() && |Encode(q)| < U64_LIMIT {
      var i :| 0 <= i < n && Coins(n)[i] == q;
      CoinEntry(i);
    }
    if n > 0 {
      assert Coins(n)[..n - 1] == Coins(n - 1);
      CoinsLength(n - 1);
      CoinEntry(n - 1);
    }
  }

  /** 334 different pairs encode to 5010 bytes, and the client holds none of them. */
  lemma TooManyCoins()
    ensures forall i, j | 0 <= i < j < 334 :: Coin(i) != Coin(j)
    ensures forall q | q in Coins(334) :: q.Sendable()
    ensures |EncodeList(Coins(334))| == 5010 && ClientList(Coins(334)) == []
  {
    hide Encode, Entry, DecodeList;
    CoinsLength(334);
    CoinsLength(333);
    assert Coins(334)[..333] == Coins(333) && Coins(334)[..334] == Coins(334);
    CutList(Coins(334), 333, 5000);
    forall i, j | 0 <= i < j < 334 ensures Coin(i) != Coin(j) { CoinsDiffer(i, j); }
  }

  lemma CoinsDiffer(i: nat, j: nat)
    requires i < j < 676
    ensures Coin(i) != Coin(j)
  {
    assert Coin(i).market.value[2] - 65 == i % 26 && Coin(j).market.value[2] - 65 == j % 26;
    assert Coin(i).market.value[1] - 65 == i / 26 % 26 == i / 26 && Coin(j).market.value[1] - 65 == j / 26 % 26 == j / 26;
  }
}
