/** From the text of a market document to the list of markets: tokenizer, cursor and parser together. */
module MarketText {
  import opened Options
  import opened Jsmn
  import opened JsonScans
  import opened JsonText
  import opened JsonLabels
  import opened JsonCursor
  import opened LabelledDocs
  import opened KeyRows
  import opened KeyTrees
  import opened Bittrex
  import opened MarketRecords
  import opened Octets
  import Markets

  // ---------- documents ----------

  /** One member holds the records; no other has a key in it. */
  ghost predicate HoldsRecords(m: Members, rs: seq<Fields>)
    decreases m
  {
    && m.Member? && KeyIndex(KEYS, m.key) == 5
    && ((m.value.List? && ElemsShow(KEYS, m.value.elems, rs, 0, |rs|) && ArePlain(KEYS, LabelsOfMembers(m.others)))
        || (ArePlain(KEYS, Labels(m.value)) && HoldsRecords(m.others, rs)))
  }

  /** A market document with the given records, with any white space and any other members. */
  ghost predicate IsMarketDocument(v: Json, rs: seq<Fields>) {
    v.Record? && AfterSuccess(v.members).Some? && HoldsRecords(AfterSuccess(v.members).value, rs)
  }

  lemma {:induction false} RecordsShown(labels: seq<Label>, at: nat, m: Members, rs: seq<Fields>)
    requires LabelsAt(labels, at, LabelsOfMembers(m)) && at + |LabelsOfMembers(m)| == |labels| && HoldsRecords(m, rs)
    ensures Shown(KEYS, labels, at, |labels|, rs, 0, 0)
    decreases m
  {
    hide IsPlain, ArePlain, Keyless, LabelsAt, ElemsShow, KeyIndex, Shown;
    var value, rest := m.value, at + 1 + |Labels(m.value)|;
    MemberLabels(labels, at, m);
    if value.List? && ElemsShow(KEYS, value.elems, rs, 0, |rs|) && ArePlain(KEYS, LabelsOfMembers(m.others)) {
      PlainShown(KEYS, labels, rest, LabelsOfMembers(m.others), rs);
      ListShown(KEYS, labels, at + 1, |labels|, value, rs, 0, |rs|);
      PlainKey(KEYS, labels, at, m.key);
      ShownEarlier(KEYS, labels, at, at + 1, |labels|, rs, 0, 0);
    } else {
      RecordsShown(labels, rest, m.others, rs);
      MemberPlain(KEYS, labels, at, |labels|, m, rs, 0, 0);
    }
  }

  // ---------- reading the document ----------

  lemma KeysAre()
    ensures AreKeys(KEYS) && |KEYS| == 5
    ensures KEYS[0] == Key("MarketCurrency", Str) && KEYS[1] == Key("BaseCurrency", Str) && KEYS[2] == Key("MinTradeSize", Primitive)
    ensures KEYS[3] == Key("MarketName", Str) && KEYS[4] == Key("IsActive", Primitive)
  {
    assert |KEYS[0].name| == 14 && |KEYS[1].name| == 12 && |KEYS[2].name| == 12 && |KEYS[3].name| == 10 && |KEYS[4].name| == 8;
    assert KEYS[1].name[0] == 'B' && KEYS[2].name[0] == 'M';
  }

  /** A field is read exactly when the records supply it. */
  lemma ReadsKey(d: Doc, labels: seq<Label>, from: nat, rs: seq<Fields>, i: nat, k: nat) returns (p: nat)
    requires Labelled(d, labels) && AreKeys(KEYS) && i <= |rs| && k < 5 && Shown(KEYS, labels, from, |labels|, rs, i, k)
    ensures d.Ok() && match Taken(rs, i, k)
                      case None => Value(d, from, KEYS[k].name, KEYS[k].kind).None?
                      case Some((j, text)) =>
                        && Value(d, from, KEYS[k].name, KEYS[k].kind) == Some(p) && p < |d.toks| && d.TextOf(d.toks[p]) == text
                        && Shown(KEYS, labels, p, |labels|, rs, j, k + 1)
  {
    hide Find, Labelled, Shown, AreKeys, Taken, Value;
    LabelledSize(d, labels);
    p := ReadsField(d, KEYS, labels, from, |labels|, rs, i, k);
  }

  /** An entry is read from the tokens exactly as from the records. */
  lemma ReadsEntry(d: Doc, nums: Numbers, labels: seq<Label>, from: nat, rs: seq<Fields>, i: nat)
    requires Labelled(d, labels) && i <= |rs| && Shown(KEYS, labels, from, |labels|, rs, i, 0)
    ensures d.Ok() && match NextReading(nums, rs, i)
                      case None => NextEntry(d, nums, from).None?
                      case Some(r) =>
                        var e := NextEntry(d, nums, from);
                        && e.Some? && e.value.listing == r.listing && e.value.active == r.active
                        && Shown(KEYS, labels, e.value.pos, |labels|, rs, r.next, 0)
  {
    hide Find, Labelled, Shown, Value, Taken, ListingOf, IntOf, RealOf, AreKeys;
    LabelledSize(d, labels);
    KeysAre();
    var m := ReadsKey(d, labels, from, rs, i, 0);
    if Taken(rs, i, 0).None? { return; }
    var j := Taken(rs, i, 0).value.0;
    var b := ReadsKey(d, labels, m, rs, j, 1);
    if Taken(rs, j, 1).None? { return; }
    j := Taken(rs, j, 1).value.0;
    var t := ReadsKey(d, labels, b, rs, j, 2);
    if Taken(rs, j, 2).None? { return; }
    j := Taken(rs, j, 2).value.0;
    var n := ReadsKey(d, labels, t, rs, j, 3);
    if Taken(rs, j, 3).None? { return; }
    j := Taken(rs, j, 3).value.0;
    var a := ReadsKey(d, labels, n, rs, j, 4);
    if Taken(rs, j, 4).None? { return; }
    j := Taken(rs, j, 4).value.0;
    ShownRow(KEYS, labels, a, |labels|, rs, j);
  }

  /** So are all listings. */
  lemma {:induction false} ReadsListings(d: Doc, nums: Numbers, labels: seq<Label>, from: nat, rs: seq<Fields>, i: nat)
    requires Labelled(d, labels) && i <= |rs| && Shown(KEYS, labels, from, |labels|, rs, i, 0)
    ensures d.Ok() && ActiveListings(d, nums, from) == MarketListings(nums, rs, i)
    decreases |rs| - i
  {
    hide Labelled, Shown, NextEntry, NextReading;
    LabelledSize(d, labels);
    ReadsEntry(d, nums, labels, from, rs, i);
    match NextReading(nums, rs, i)
    case None =>
    case Some(r) => ReadsListings(d, nums, labels, NextEntry(d, nums, from).value.pos, rs, r.next);
  }

  /** The tokens of a market document read as its records. */
  lemma DocumentReads(d: Doc, nums: Numbers, v: Json, rs: seq<Fields>)
    requires Labelled(d, Labels(v)) && IsMarketDocument(v, rs)
    ensures d.Ok() && Succeeded(d, nums) > 0 && ActiveListings(d, nums, Succeeded(d, nums)) == MarketListings(nums, rs, 0)
  {
    hide Labelled, Shown, HoldsRecords, LabelsAt, Succeeded, AfterSuccess, Labels, LabelsOfMembers;
    var p := RecordReports(d, nums, v);
    RecordsShown(Labels(v), p + 1, AfterSuccess(v.members).value, rs);
    PlainKind(KEYS, Labels(v), p);
    ShownEarlier(KEYS, Labels(v), p, p + 1, |Labels(v)|, rs, 0, 0);
    ReadsListings(d, nums, Labels(v), p, rs, 0);
  }

  // ---------- any document ----------

  /** Behind the last string of the text, if it is a key, there is no token for a value. */
  ghost predicate EndsPlain(labels: seq<Label>) {
    labels != [] && IsPlain(KEYS, labels[|labels| - 1]) && labels[|labels| - 1] != Label(Str, "success")
  }

  /** The rows that the keys in any text fall into: records whose keys come in another order, or strings that happen to be
      keys, begin new rows. */
  ghost function MarketRows(labels: seq<Label>, from: nat): (rs: seq<Fields>)
    requires EndsPlain(labels)
    ensures var rows: seq<KeyRow> := rs; rows == RowsOf(KEYS, labels, from, |labels|)
  {
    var rows := RowsOf(KEYS, labels, from, |labels|);
    seq(|rows|, i requires 0 <= i < |rows| => rows[i])
  }

  /** What the parser lists of any JSON text. */
  ghost function TextListings(nums: Numbers, labels: seq<Label>): seq<Listing>
    requires EndsPlain(labels)
  {
    var p := SuccessAt(labels, nums);
    if p == 0 then [] else MarketListings(nums, MarketRows(labels, p), 0)
  }

  lemma AnyDocumentReads(d: Doc, nums: Numbers, labels: seq<Label>)
    requires Labelled(d, labels) && EndsPlain(labels)
    ensures d.Ok()
    ensures (if Succeeded(d, nums) == 0 then [] else ActiveListings(d, nums, Succeeded(d, nums))) == TextListings(nums, labels)
  {
    hide Labelled, Shown, Succeeded, SuccessAt, IsPlain, FirstOf, RowsOf;
    LabelledSize(d, labels);
    SuccessFound(d, nums, labels);
    var p := SuccessAt(labels, nums);
    if p > 0 {
      SuccessInside(labels, nums);
      RowsShown(KEYS, labels, p, |labels|);
      ReadsListings(d, nums, labels, p, MarketRows(labels, p), 0);
    }
  }

  // ---------- a document whose records run together ----------

  function Entry(key: string, value: Json, others: Members): Members {
    Member("", key, "", "", value, "", others)
  }

  /** Two records, the first without a market name. */
  const MIXED: Json := Record("", Entry("success", Scalar("true"), Entry("result", List("", MIXED_RECORDS), NoMembers)))

  const MIXED_RECORDS: Elems := Elem("", Record("", FIRST_MEMBERS), "", Elem("", Record("", SECOND_MEMBERS), "", NoElems))

  const FIRST_MEMBERS: Members :=
    Entry(KEYS[0].name, Text("A"), Entry(KEYS[1].name, Text("B"), Entry(KEYS[2].name, Scalar("1"), Entry(KEYS[4].name, Scalar("true"), NoMembers))))

  const SECOND_MEMBERS: Members :=
    Entry(KEYS[0].name, Text("C"), Entry(KEYS[1].name, Text("D"), Entry(KEYS[2].name, Scalar("2"), Entry(KEYS[3].name, Text("D-C"),
          Entry(KEYS[4].name, Scalar("true"), NoMembers)))))

  /** The parser lists one market made of both, and neither of the two. */
  lemma MixesDocument(d: Doc, nums: Numbers)
    requires Labelled(d, Labels(MIXED))
    ensures d.Ok() && Succeeded(d, nums) > 0
    ensures ActiveListings(d, nums, Succeeded(d, nums)) 
            == [Markets.Listing(Some(OctetsOf("D-C")), Some(OctetsOf("A")), Some(OctetsOf("B")), nums.atof("1"), 0.7)]
  {
    hide Labelled, Labels, ActiveListings, MarketListings, IsMarketDocument, OctetsOf, Succeeded;
    LabelledSize(d, Labels(MIXED));
    MixedIsDocument();
    DocumentReads(d, nums, MIXED, [UNNAMED, NAMED]);
    MixesTwoRecords(nums);
  }

  lemma MixedIsDocument()
    ensures IsMarketDocument(MIXED, [UNNAMED, NAMED])
  {
    hide MembersShow, KeyIndex, IsPlain;
    var rs := [UNNAMED, NAMED];
    UnnamedShows();
    NamedShows();
    Short("result");
    var last := Elem("", Record("", SECOND_MEMBERS), "", NoElems);
    assert ElemsShow(KEYS, last, rs, 1, 2) by { assert ElemsShow(KEYS, NoElems, rs, 2, 2); }
    assert ElemsShow(KEYS, MIXED_RECORDS, rs, 0, 2);
    assert LabelsOfMembers(NoMembers) == [];
    var result := Entry("result", List("", MIXED_RECORDS), NoMembers);
    assert HoldsRecords(result, rs);
    assert AfterSuccess(Entry("success", Scalar("true"), result)) == Some(result);
  }

  lemma UnnamedShows()
    ensures MembersShow(KEYS, FIRST_MEMBERS, 0, UNNAMED)
  {
    hide KeyIndex;
    KeysIndexed();
    Short("A");
    Short("B");
    var m4 := Entry(KEYS[4].name, Scalar("true"), NoMembers);
    assert MembersShow(KEYS, m4, 3, UNNAMED);
    var m2 := Entry(KEYS[2].name, Scalar("1"), m4);
    assert MembersShow(KEYS, m2, 2, UNNAMED);
    var m1 := Entry(KEYS[1].name, Text("B"), m2);
    assert MembersShow(KEYS, m1, 1, UNNAMED);
  }

  lemma NamedShows()
    ensures MembersShow(KEYS, SECOND_MEMBERS, 0, NAMED)
  {
    hide KeyIndex;
    KeysIndexed();
    Short("C");
    Short("D");
    Short("D-C");
    var m4 := Entry(KEYS[4].name, Scalar("true"), NoMembers);
    assert MembersShow(KEYS, m4, 4, NAMED);
    var m3 := Entry(KEYS[3].name, Text("D-C"), m4);
    assert MembersShow(KEYS, m3, 3, NAMED);
    var m2 := Entry(KEYS[2].name, Scalar("2"), m3);
    assert MembersShow(KEYS, m2, 2, NAMED);
    var m1 := Entry(KEYS[1].name, Text("D"), m2);
    assert MembersShow(KEYS, m1, 1, NAMED);
  }

  lemma KeysIndexed()
    ensures forall k: nat | k < 5 :: KeyIndex(KEYS, KEYS[k].name) == k
  {
    KeysAre();
    forall k: nat | k < 5 ensures KeyIndex(KEYS, KEYS[k].name) == k { OwnIndex(KEYS, k); }
  }

  lemma OwnIndex(keys: seq<Key>, k: nat)
    requires AreKeys(keys) && k < |keys|
    ensures KeyIndex(keys, keys[k].name) == k
  {
    hide KeyIndex;
    var j := KeyIndex(keys, keys[k].name);
    assert j != |keys| by { assert keys[k].name == keys[k].name; }
  }

  lemma Short(s: string)
    requires |s| < 8
    ensures KeyIndex(KEYS, s) == 5
  {
    hide KeyIndex;
    forall j: nat | j < |KEYS| ensures KEYS[j].name != s { LongKeys(j); }
  }

  lemma LongKeys(j: nat)
    requires j < |KEYS|
    ensures |KEYS| == 5 && |KEYS[j].name| >= 8
  {
    assert |KEYS[0].name| == 14 && |KEYS[1].name| == 12 && |KEYS[2].name| == 12 && |KEYS[3].name| == 10 && |KEYS[4].name| == 8;
  }

  // ---------- book_bittrex_parse_market on text ----------

  /** A listing has both names, no longer than n, and the fee the parser assigns. */
  ghost predicate IsModest(l: Listing, n: nat) {
    l.market.Some? && l.base.Some? && |l.market.value| <= n && |l.base.value| <= n && l.fee == 0.7
  }

  /** So have all, and there are fewer of them than tokens. */
  ghost predicate AreModest(ls: seq<Listing>, n: nat) {
    |ls| <= 65535 && forall l | l in ls :: IsModest(l, n)
  }

  lemma ListingsModest(d: Doc, nums: Numbers, from: nat)
    requires d.Ok() && |d.toks| <= 65535
    ensures AreModest(ActiveListings(d, nums, from), |d.data|)
  {
    ListingsBounded(d, nums, from);
  }

  lemma {:induction false} ListingsBounded(d: Doc, nums: Numbers, from: nat)
    requires d.Ok()
    ensures |ActiveListings(d, nums, from)| <= if from <= d.n then d.n - from else 0
    ensures forall l | l in ActiveListings(d, nums, from) :: IsModest(l, |d.data|)
    decreases d.n - from
  {
    hide NextEntry, IsModest;
    match NextEntry(d, nums, from)
    case None =>
    case Some(e) =>
      ListingsBounded(d, nums, e.pos);
      EntryModest(d, nums, from);
  }

  lemma EntryModest(d: Doc, nums: Numbers, from: nat)
    requires d.Ok() && NextEntry(d, nums, from).Some?
    ensures IsModest(NextEntry(d, nums, from).value.listing, |d.data|)
  {
    hide Value, RealOf, IntOf;
  }

  /** The text leaves one token of the array free, if it can be parsed at all. */
  ghost predicate LeavesRoom(js: string) {
    var o := Parse(js, Some(65535), START);
    o.Done? ==> o.count < 65535
  }

  /** `book_bittrex_parse_market`: nothing for a text that cannot be parsed. */
  method ParseMarketText(js: string, nums: Numbers) returns (head: Markets.Market?, ghost nodes: seq<Markets.Market>, ghost count: int, ghost d: Doc)
    requires LeavesRoom(js)
    ensures Parsed(js, count, d) && forall m | m in nodes :: fresh(m)
    ensures count < 0 ==> head == null && nodes == []
    ensures count >= 0 ==>
              d.Ok() && IsMarketList(head, nodes, if Succeeded(d, nums) == 0 then [] else ActiveListings(d, nums, Succeeded(d, nums)))
    ensures head == null <==> nodes == []
  {
    hide IsMarketList, Succeeded, ActiveListings, Parse;
    var n, doc := JsonParse(js);
    count, d := n, doc;
    if n < 0 { return null, [], count, d; }
    head, nodes := ParseMarkets(doc, nums);
    HeadOf(head, nodes, if Succeeded(d, nums) == 0 then [] else ActiveListings(d, nums, Succeeded(d, nums)));
  }

  lemma HeadOf(head: Markets.Market?, nodes: seq<Markets.Market>, values: seq<Listing>)
    requires IsMarketList(head, nodes, values)
    ensures (head == null <==> nodes == []) && |nodes| == |values|
  {}

  /** For every JSON text that leaves one token free, the list has what the rows of its keys supply; for every market
      document what its records supply, and if these are complete exactly the active ones, in order. */
  method ParseMarketDocument(js: string, nums: Numbers, ghost before: string, ghost v: Json, ghost after: string)
    returns (head: Markets.Market?, ghost nodes: seq<Markets.Market>)
    requires js == before + (Print(v) + after) && IsBlank(before) && Valid(v) && IsBlank(after) && Nodes(v) < 65535
    ensures EndsPlain(Labels(v)) ==> IsMarketList(head, nodes, TextListings(nums, Labels(v)))
    ensures forall rs: seq<Fields> | IsMarketDocument(v, rs) ::
              IsMarketList(head, nodes, MarketListings(nums, rs, 0)) && AreModest(MarketListings(nums, rs, 0), |js|)
    ensures forall rs: seq<Fields> | IsMarketDocument(v, rs) && forall r | r in rs :: Complete(r) ::
              IsMarketList(head, nodes, Actives(nums, rs)) && NodesHold(nodes, nums, ActiveRows(nums, rs))
    ensures (head == null <==> nodes == []) && forall m | m in nodes :: fresh(m)
  {
    hide ActiveRows, NodesHold, AreModest, Print, Valid, IsBlank, Labels, Nodes, IsMarketDocument, IsMarketList, Succeeded, Labelled, ActiveListings,
         MarketListings, Actives, Complete, TextListings, Parse, EndsPlain;
    RoomLeft(js, before, v, after);
    ghost var count, d;
    head, nodes, count, d := ParseMarketText(js, nums);
    TextIsLabelled(js, before, v, after, count, d);
    LabelledSize(d, Labels(v));
    ListingsModest(d, nums, Succeeded(d, nums));
    if EndsPlain(Labels(v)) { AnyDocumentReads(d, nums, Labels(v)); }
    forall rs: seq<Fields> | IsMarketDocument(v, rs)
      ensures IsMarketList(head, nodes, MarketListings(nums, rs, 0)) && AreModest(MarketListings(nums, rs, 0), |js|)
      ensures (forall r | r in rs :: Complete(r)) ==> IsMarketList(head, nodes, Actives(nums, rs)) && NodesHold(nodes, nums, ActiveRows(nums, rs))
    {
      DocumentReads(d, nums, v, rs);
      if forall r | r in rs :: Complete(r) {
        AllComplete(nums, rs);
        ListHolds(head, nodes, nums, rs);
      }
    }
  }

  /** Node i has the fields of record i. */
  ghost predicate NodesHold(nodes: seq<Markets.Market>, nums: Numbers, rs: seq<Fields>)
    requires forall r | r in rs :: Complete(r)
    reads nodes
  {
    |nodes| == |rs| && forall i | 0 <= i < |nodes| :: NodeHolds(nodes[i], nums, rs[i])
  }

  ghost predicate NodeHolds(m: Markets.Market, nums: Numbers, r: Fields)
    requires Complete(r)
    reads m
  {
    && m.marketCurrency == Some(OctetsOf(r[0].text)) && m.baseCurrency == Some(OctetsOf(r[1].text))
    && (r[2].text !in ["true", "false", "null"] ==> m.minTradeSize == nums.atof(r[2].text))
    && m.marketName == Some(OctetsOf(r[3].text)) && m.fee == 0.7
  }

  lemma ListHolds(head: Markets.Market?, nodes: seq<Markets.Market>, nums: Numbers, rs: seq<Fields>)
    requires (forall r | r in rs :: Complete(r)) && IsMarketList(head, nodes, Actives(nums, rs))
    ensures NodesHold(nodes, nums, ActiveRows(nums, rs))
  {
    hide Complete, Actives, ActiveRows, OctetsOf;
    ActivesList(nums, rs);
    forall i | 0 <= i < |nodes| ensures NodeHolds(nodes[i], nums, ActiveRows(nums, rs)[i]) {
      assert nodes[i].Listed() == Actives(nums, rs)[i];
    }
  }

  lemma RoomLeft(js: string, before: string, v: Json, after: string)
    requires js == before + (Print(v) + after) && IsBlank(before) && Valid(v) && IsBlank(after) && Nodes(v) < 65535
    ensures LeavesRoom(js)
  {
    hide Print, Valid, IsBlank, Nodes, Parse;
    TokenizesEveryText(before, v, after, TOKEN_ROOM);
  }
}
