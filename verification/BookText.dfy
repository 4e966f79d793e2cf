/** From the text of an order book to the list of book nodes: tokenizer, cursor and zip together. */
module BookText {
  import opened Options
  import opened Jsmn
  import opened JsonScans
  import opened JsonText
  import opened JsonLabels
  import opened JsonCursor
  import opened LabelledDocs
  import opened KeyRows
  import opened KeyTrees
  import opened Bittrex

  /** The lexemes of a level's quantity and rate. */
  datatype Quantum = Quantum(qty: string, rate: string)

  /** The keys of a level, in the order in which they are looked for. */
  const LEVEL_KEYS: seq<Key> := [Key("Quantity", Primitive), Key("Rate", Primitive)]

  type LevelFields = r: KeyRow | |r| == 2 witness [Missing, Missing]

  lemma LevelKeysAre()
    ensures AreKeys(LEVEL_KEYS) && |LEVEL_KEYS| == 2
    ensures LEVEL_KEYS[0] == Key("Quantity", Primitive) && LEVEL_KEYS[1] == Key("Rate", Primitive)
  {
    assert |LEVEL_KEYS[0].name| == 8 && |LEVEL_KEYS[1].name| == 4;
  }

  // ---------- what the parser makes of rows ----------

  /** One level: its lexemes, and the row the search for the next level starts at. */
  function TakenLevel(rs: seq<LevelFields>, i: nat): (r: Option<(Quantum, nat)>)
    requires i <= |rs|
    ensures r.Some? ==> i < r.value.1 <= |rs|
  {
    match Taken(rs, i, 0)
    case None => None
    case Some(q) =>
      match Taken(rs, q.0, 1)
      case None => None
      case Some(r) => Some((Quantum(q.1, r.1), r.0 + 1))
  }

  /** The levels the parser reads from row i on. */
  function RowLevels(rs: seq<LevelFields>, i: nat): seq<Quantum>
    requires i <= |rs|
    decreases |rs| - i
  {
    match TakenLevel(rs, i)
    case None => []
    case Some(t) => [t.0] + RowLevels(rs, t.1)
  }

  /** The rows of levels that have both keys. */
  function LevelRows(ls: seq<Quantum>): (rs: seq<LevelFields>)
    ensures |rs| == |ls| && forall i | 0 <= i < |ls| :: rs[i] == [Given(ls[i].qty), Given(ls[i].rate)]
  {
    seq(|ls|, i requires 0 <= i < |ls| => [Given(ls[i].qty), Given(ls[i].rate)])
  }

  lemma TakesOwn(rs: seq<LevelFields>, i: nat, l: Quantum)
    requires i < |rs| && rs[i] == [Given(l.qty), Given(l.rate)]
    ensures TakenLevel(rs, i) == Some((l, i + 1))
  {}

  lemma TakesNone(rs: seq<LevelFields>)
    ensures TakenLevel(rs, |rs|) == None
  {}

  /** Rows that end with such levels are read as these. */
  lemma {:induction false} ReadsLevelRows(rs: seq<LevelFields>, i: nat, ls: seq<Quantum>)
    requires |rs| == i + |ls| && forall x | 0 <= x < |ls| :: rs[i + x] == LevelRows(ls)[x]
    ensures RowLevels(rs, i) == ls
    decreases |ls|
  {
    hide TakenLevel;
    if ls != [] {
      assert rs[i + 0] == LevelRows(ls)[0];
      TakesOwn(rs, i, ls[0]);
      forall x | 0 <= x < |ls[1..]| ensures rs[i + 1 + x] == LevelRows(ls[1..])[x] { assert rs[i + (1 + x)] == LevelRows(ls)[1 + x]; }
      ReadsLevelRows(rs, i + 1, ls[1..]);
    } else {
      TakesNone(rs);
    }
  }

  /** The prices the lexemes stand for. */
  function PricesOf(nums: Numbers, ls: seq<Quantum>): (r: seq<Price>)
    ensures |r| == |ls| && forall i | 0 <= i < |ls| :: r[i] == Price(RealOf(ls[i].qty, nums.atof), RealOf(ls[i].rate, nums.atof))
  {
    seq(|ls|, i requires 0 <= i < |ls| => Price(RealOf(ls[i].qty, nums.atof), RealOf(ls[i].rate, nums.atof)))
  }

  /** A price is a pair of numbers, except for the literals that stand for 1 and 0. */
  lemma PricesAre(nums: Numbers, ls: seq<Quantum>, i: nat)
    requires i < |ls|
    ensures ls[i].qty !in ["true", "false", "null"] ==> PricesOf(nums, ls)[i].qty == nums.atof(ls[i].qty)
    ensures ls[i].rate !in ["true", "false", "null"] ==> PricesOf(nums, ls)[i].rate == nums.atof(ls[i].rate)
    ensures ls[i].qty == "true" ==> PricesOf(nums, ls)[i].qty == 1.0
    ensures ls[i].rate == "true" ==> PricesOf(nums, ls)[i].rate == 1.0
    ensures ls[i].qty in ["false", "null"] ==> PricesOf(nums, ls)[i].qty == 0.0
    ensures ls[i].rate in ["false", "null"] ==> PricesOf(nums, ls)[i].rate == 0.0
  {}

  // ---------- reading levels from tokens ----------

  /** A level is read exactly when the rows supply it; otherwise none, or one that ends behind `to`. */
  lemma ReadsLevel(d: Doc, labels: seq<Label>, from: nat, to: nat, rs: seq<LevelFields>, i: nat)
    requires Labelled(d, labels) && i <= |rs| && Shown(LEVEL_KEYS, labels, from, to, rs, i, 0)
    ensures d.Ok() && match TakenLevel(rs, i)
                      case None => NextLevel(d, from).None? || to < NextLevel(d, from).value.rate
                      case Some(t) =>
                        var level := NextLevel(d, from);
                        && level.Some? && level.value.rate <= to && level.value.rate < |labels|
                        && labels[level.value.rate].kind == Primitive
                        && d.TextOf(d.toks[level.value.qty]) == t.0.qty && d.TextOf(d.toks[level.value.rate]) == t.0.rate
                        && Shown(LEVEL_KEYS, labels, level.value.rate, to, rs, t.1, 0)
  {
    hide Find, Labelled, Shown, Value, Taken, AreKeys;
    LabelledSize(d, labels);
    LevelKeysAre();
    var q := ReadsField(d, LEVEL_KEYS, labels, from, to, rs, i, 0);
    if Taken(rs, i, 0).None? { return; }
    var j := Taken(rs, i, 0).value.0;
    var r := ReadsField(d, LEVEL_KEYS, labels, q, to, rs, j, 1);
    if Taken(rs, j, 1).None? { return; }
    ShownRow(LEVEL_KEYS, labels, r, to, rs, Taken(rs, j, 1).value.0);
  }

  /** The bids are the levels of the rows before "sell". */
  lemma {:induction false} ReadsBids(d: Doc, nums: Numbers, labels: seq<Label>, from: nat, sell: nat, rs: seq<LevelFields>, i: nat)
    requires Labelled(d, labels) && i <= |rs| && Shown(LEVEL_KEYS, labels, from, sell, rs, i, 0)
    requires sell < |labels| && labels[sell].kind == Str
    ensures d.Ok() && BidsOf(d, nums, from, sell) == PricesOf(nums, RowLevels(rs, i))
    decreases |rs| - i
  {
    hide Labelled, Shown, NextLevel, BidsOf, TakenLevel, RealOf;
    LabelledSize(d, labels);
    ReadsLevel(d, labels, from, sell, rs, i);
    BidsStep(d, nums, from, sell);
    match TakenLevel(rs, i)
    case None =>
    case Some(t) =>
      ReadsBids(d, nums, labels, NextLevel(d, from).value.rate, sell, rs, t.1);
      PricesStep(nums, t.0, RowLevels(rs, t.1));
  }

  lemma PricesStep(nums: Numbers, l: Quantum, ls: seq<Quantum>)
    ensures PricesOf(nums, [l] + ls) == [Price(RealOf(l.qty, nums.atof), RealOf(l.rate, nums.atof))] + PricesOf(nums, ls)
  {}

  /** The asks are the levels of the rows behind it. */
  lemma {:induction false} ReadsAsks(d: Doc, nums: Numbers, labels: seq<Label>, from: nat, rs: seq<LevelFields>, i: nat)
    requires Labelled(d, labels) && i <= |rs| && Shown(LEVEL_KEYS, labels, from, |labels|, rs, i, 0)
    ensures d.Ok() && AsksOf(d, nums, from) == PricesOf(nums, RowLevels(rs, i))
    decreases |rs| - i
  {
    hide Labelled, Shown, NextLevel, AsksOf, TakenLevel, RealOf;
    LabelledSize(d, labels);
    ReadsLevel(d, labels, from, |labels|, rs, i);
    AsksStep(d, nums, from);
    match TakenLevel(rs, i)
    case None =>
    case Some(t) =>
      ReadsAsks(d, nums, labels, NextLevel(d, from).value.rate, rs, t.1);
      PricesStep(nums, t.0, RowLevels(rs, t.1));
  }

  // ---------- any document ----------

  /** Behind the last string of the text, if it is a key, there is no token for a value. */
  ghost predicate EndsPlain(labels: seq<Label>) {
    labels != [] && IsPlain(LEVEL_KEYS, labels[|labels| - 1]) && labels[|labels| - 1] != Label(Str, "success")
  }

  /** The rows that the keys of levels fall into between two positions. */
  ghost function BookRows(labels: seq<Label>, from: nat, to: nat): (rs: seq<LevelFields>)
    requires to < |labels| || (to == |labels| && EndsPlain(labels))
    ensures var rows: seq<KeyRow> := rs; rows == RowsOf(LEVEL_KEYS, labels, from, to)
  {
    var rows := RowsOf(LEVEL_KEYS, labels, from, to);
    seq(|rows|, i requires 0 <= i < |rows| => rows[i])
  }

  /** What the parser reads of any JSON text that reports success and has "sell" behind that: the levels of the rows before
      "sell" are the bids, those of the rows behind it the asks. */
  lemma AnyBookReads(d: Doc, nums: Numbers, labels: seq<Label>)
    requires Labelled(d, labels) && EndsPlain(labels)
    ensures d.Ok() && Succeeded(d, nums) == SuccessAt(labels, nums)
    ensures var p := SuccessAt(labels, nums); var sell := FirstOf(labels, p, "sell");
            p > 0 && sell < |labels| ==>
              && Find(d, p, "sell") == sell
              && BidsOf(d, nums, p, sell) == PricesOf(nums, RowLevels(BookRows(labels, p, sell), 0))
              && AsksOf(d, nums, sell) == PricesOf(nums, RowLevels(BookRows(labels, sell, |labels|), 0))
  {
    hide Labelled, Shown, Succeeded, SuccessAt, IsPlain, FirstOf, RowsOf, Find, BidsOf, AsksOf, RowLevels;
    LabelledSize(d, labels);
    FirstIsInside(labels);
    SuccessFound(d, nums, labels);
    var p := SuccessAt(labels, nums);
    var sell := FirstOf(labels, p, "sell");
    if p > 0 && sell < |labels| {
      SuccessInside(labels, nums);
      FindsFirst(d, labels, p, "sell");
      RowsShown(LEVEL_KEYS, labels, p, sell);
      ReadsBids(d, nums, labels, p, sell, BookRows(labels, p, sell), 0);
      RowsShown(LEVEL_KEYS, labels, sell, |labels|);
      ReadsAsks(d, nums, labels, sell, BookRows(labels, sell, |labels|), 0);
    }
  }

  lemma FirstIsInside(labels: seq<Label>)
    requires EndsPlain(labels)
    ensures FirstOf(labels, 0, "success") + 1 != |labels|
  {}

  // ---------- order-book documents ----------

  /** The pieces of an order book's labels: what comes before "success", between the message and the bids, between the bids
      and "sell", and behind the asks. */
  datatype Parts = Parts(head: seq<Label>, open: seq<Label>, bids: Elems, between: seq<Label>, asks: Elems, tail: seq<Label>)

  /** None of the labels is a key of a level or "sell". */
  ghost predicate NoWord(labels: seq<Label>) {
    ArePlain(LEVEL_KEYS, labels) && Label(Str, "sell") !in labels
  }

  /** The elements are records with these levels, among other members. */
  ghost predicate AreLevels(e: Elems, ls: seq<Quantum>) {
    ElemsShow(LEVEL_KEYS, e, LevelRows(ls), 0, |ls|)
  }

  function ReportLabels(message: string): seq<Label> {
    [Label(Str, "success"), Label(Primitive, "true"), Label(Str, "message"), Label(Str, message)]
  }

  /** `"success": true, "message": m`, then somewhere the bids, then `"sell"` with the asks, in any nesting, with any white
      space, and with any other members without the words looked for. */
  ghost predicate IsBookDocument(v: Json, message: string, buys: seq<Quantum>, sells: seq<Quantum>, x: Parts) {
    && Labels(v) == x.head + (ReportLabels(message) + (x.open + (LabelsOfElems(x.bids) + (x.between
                    + ([Label(Str, "sell"), Label(Array, "")] + (LabelsOfElems(x.asks) + x.tail))))))
    && Label(Str, "success") !in x.head
    && NoWord(x.open) && x.open != [] && x.open[0].kind == Str
    && AreLevels(x.bids, buys) && Label(Str, "sell") !in LabelsOfElems(x.bids)
    && NoWord(x.between) && AreLevels(x.asks, sells) && ArePlain(LEVEL_KEYS, x.tail)
  }

  // ---------- the plainest order book ----------

  /** `{"Quantity": q, "Rate": r}`, with any white space. */
  predicate IsLevelNode(v: Json, l: Quantum) {
    && v.Record? && v.members.Member? && v.members.key == "Quantity" && v.members.value == Scalar(l.qty)
    && v.members.others.Member? && v.members.others.key == "Rate" && v.members.others.value == Scalar(l.rate)
    && v.members.others.others.NoMembers?
  }

  predicate AreLevelNodes(e: Elems, ls: seq<Quantum>) {
    match e
    case NoElems => ls == []
    case Elem(_, value, _, more) => ls != [] && IsLevelNode(value, ls[0]) && AreLevelNodes(more, ls[1..])
  }

  predicate IsBookResult(v: Json, buys: seq<Quantum>, sells: seq<Quantum>) {
    && v.Record? && v.members.Member? && v.members.key == "buy" && v.members.value.List?
    && AreLevelNodes(v.members.value.elems, buys)
    && v.members.others.Member? && v.members.others.key == "sell" && v.members.others.value.List?
    && AreLevelNodes(v.members.others.value.elems, sells)
    && v.members.others.others.NoMembers?
  }

  /** `{"success": true, "message": m, "result": {"buy": [...], "sell": [...]}}`, with any white space. */
  predicate IsPlainestBook(v: Json, message: string, buys: seq<Quantum>, sells: seq<Quantum>) {
    && v.Record? && v.members.Member? && v.members.key == "success" && v.members.value == Scalar("true")
    && v.members.others.Member? && v.members.others.key == "message" && v.members.others.value == Text(message)
    && v.members.others.others.Member? && v.members.others.others.key == "result"
    && IsBookResult(v.members.others.others.value, buys, sells)
    && v.members.others.others.others.NoMembers?
  }

  /** It is an order-book document. */
  lemma PlainestIsDocument(v: Json, message: string, buys: seq<Quantum>, sells: seq<Quantum>) returns (x: Parts)
    requires IsPlainestBook(v, message, buys, sells)
    ensures IsBookDocument(v, message, buys, sells, x)
  {
    hide AreLevelNodes, LabelsOfElems, ElemsShow, KeyIndex, ReportLabels;
    var result := v.members.others.others.value;
    var bids, asks := result.members.value.elems, result.members.others.value.elems;
    x := Parts([Label(Object, "")], OPEN, bids, [], asks, []);
    NodesAreLevels(bids, buys, LevelRows(buys), 0);
    NodesAreLevels(asks, sells, LevelRows(sells), 0);
    NodesLackSell(bids, buys);
    PlainWords();
    PlainestLabels(v, message, buys, sells);
    var s := [Label(Str, "sell"), Label(Array, "")] + LabelsOfElems(asks);
    assert s + x.tail == [Label(Str, "sell"), Label(Array, "")] + (LabelsOfElems(asks) + x.tail) == s;
    assert x.between + s == s;
  }

  const OPEN: seq<Label> := [Label(Str, "result"), Label(Object, ""), Label(Str, "buy"), Label(Array, "")]

  function SidesLabels(v: Json): seq<Label>
    requires v.Record? && v.members.Member? && v.members.value.List? && v.members.others.Member? && v.members.others.value.List?
  {
    LabelsOfElems(v.members.value.elems) + ([Label(Str, "sell"), Label(Array, "")] + LabelsOfElems(v.members.others.value.elems))
  }

  lemma ResultLabels(v: Json, buys: seq<Quantum>, sells: seq<Quantum>)
    requires IsBookResult(v, buys, sells)
    ensures Labels(v) == [Label(Object, ""), Label(Str, "buy"), Label(Array, "")] + SidesLabels(v)
  {
    hide AreLevelNodes, LabelsOfElems;
    var bids, asks := v.members.value.elems, v.members.others.value.elems;
    assert LabelsOfMembers(v.members.others) == [Label(Str, "sell"), Label(Array, "")] + LabelsOfElems(asks);
    assert LabelsOfMembers(v.members) == [Label(Str, "buy")] + (([Label(Array, "")] + LabelsOfElems(bids)) + LabelsOfMembers(v.members.others));
  }

  lemma PlainestLabels(v: Json, message: string, buys: seq<Quantum>, sells: seq<Quantum>)
    requires IsPlainestBook(v, message, buys, sells)
    ensures Labels(v) == [Label(Object, "")] + (ReportLabels(message) + (OPEN + SidesLabels(v.members.others.others.value)))
  {
    hide SidesLabels, AreLevelNodes;
    var m := v.members;
    var result := m.others.others.value;
    ResultLabels(result, buys, sells);
    assert LabelsOfMembers(m.others.others) == [Label(Str, "result")] + Labels(result);
    assert LabelsOfMembers(m.others.others) == OPEN + SidesLabels(result);
    assert LabelsOfMembers(m.others) == [Label(Str, "message"), Label(Str, message)] + LabelsOfMembers(m.others.others);
    assert LabelsOfMembers(m) == [Label(Str, "success"), Label(Primitive, "true")] + LabelsOfMembers(m.others);
  }

  lemma PlainWords()
    ensures KeyIndex(LEVEL_KEYS, "result") == 2 && KeyIndex(LEVEL_KEYS, "buy") == 2
  {
    hide KeyIndex;
    LevelKeysAre();
    assert |"result"| == 6 && |"buy"| == 3 && |"Quantity"| == 8 && |"Rate"| == 4;
  }

  lemma NodeShows(v: Json, l: Quantum)
    requires IsLevelNode(v, l)
    ensures MembersShow(LEVEL_KEYS, v.members, 0, [Given(l.qty), Given(l.rate)])
  {
    hide KeyIndex;
    LevelKeysAre();
    WordsDiffer();
    var r: LevelFields := [Given(l.qty), Given(l.rate)];
    assert MembersShow(LEVEL_KEYS, v.members.others.others, 2, r);
    assert MembersShow(LEVEL_KEYS, v.members.others, 1, r);
  }

  lemma {:induction false} NodesAreLevels(e: Elems, ls: seq<Quantum>, rs: seq<LevelFields>, i: nat)
    requires AreLevelNodes(e, ls) && |rs| == i + |ls| && forall x | 0 <= x < |ls| :: rs[i + x] == LevelRows(ls)[x]
    ensures ElemsShow(LEVEL_KEYS, e, rs, i, |rs|)
    decreases e
  {
    hide IsLevelNode, MembersShow;
    match e
    case NoElems =>
    case Elem(_, value, _, more) =>
      assert rs[i + 0] == LevelRows(ls)[0];
      NodeIsRecord(value, ls[0]);
      NodeShows(value, ls[0]);
      forall x | 0 <= x < |ls[1..]| ensures rs[i + 1 + x] == LevelRows(ls[1..])[x] { assert rs[i + (1 + x)] == LevelRows(ls)[1 + x]; }
      NodesAreLevels(more, ls[1..], rs, i + 1);
  }

  lemma NodeIsRecord(v: Json, l: Quantum)
    requires IsLevelNode(v, l)
    ensures v.Record? && Labels(v) == [Label(Object, ""), Label(Str, "Quantity"), Label(Primitive, l.qty), Label(Str, "Rate"), Label(Primitive, l.rate)]
  {
    var m := v.members;
    assert LabelsOfMembers(m.others) == [Label(Str, "Rate"), Label(Primitive, l.rate)];
    assert LabelsOfMembers(m) == [Label(Str, "Quantity"), Label(Primitive, l.qty)] + LabelsOfMembers(m.others);
  }

  lemma {:induction false} NodesLackSell(e: Elems, ls: seq<Quantum>)
    requires AreLevelNodes(e, ls)
    ensures Label(Str, "sell") !in LabelsOfElems(e)
    decreases e
  {
    hide IsLevelNode;
    match e
    case NoElems =>
    case Elem(_, value, _, more) =>
      NodeIsRecord(value, ls[0]);
      NodesLackSell(more, ls[1..]);
      assert |"sell"| == 4 && |"Quantity"| == 8 && "sell"[0] == 's' && "Rate"[0] == 'R';
  }

  // ---------- where the pieces stand ----------

  ghost predicate HasPieces(labels: seq<Label>, message: string, x: Parts) {
    var o := |x.head| + 4;
    var b := o + |x.open|;
    var a := b + |LabelsOfElems(x.bids)|;
    var s := a + |x.between|;
    var t := s + 2 + |LabelsOfElems(x.asks)|;
    && LabelsAt(labels, 0, x.head) && LabelsAt(labels, |x.head|, ReportLabels(message)) && LabelsAt(labels, o, x.open)
    && LabelsAt(labels, b, LabelsOfElems(x.bids)) && LabelsAt(labels, a, x.between)
    && LabelsAt(labels, s, [Label(Str, "sell"), Label(Array, "")])
    && LabelsAt(labels, s + 2, LabelsOfElems(x.asks)) && LabelsAt(labels, t, x.tail) && |labels| == t + |x.tail|
  }

  lemma Pieces(v: Json, message: string, buys: seq<Quantum>, sells: seq<Quantum>, x: Parts)
    requires IsBookDocument(v, message, buys, sells, x)
    ensures HasPieces(Labels(v), message, x)
  {
    hide LabelsAt, Labels, LabelsOfElems, ReportLabels, NoWord, AreLevels, ArePlain;
    var labels := Labels(v);
    var p5 := x.between + ([Label(Str, "sell"), Label(Array, "")] + (LabelsOfElems(x.asks) + x.tail));
    FrontPieces(labels, message, x, LabelsOfElems(x.bids) + p5);
    var b := |x.head| + 4 + |x.open|;
    PartsAt(labels, b, LabelsOfElems(x.bids), p5);
    BackPieces(labels, b + |LabelsOfElems(x.bids)|, x);
  }

  lemma FrontPieces(labels: seq<Label>, message: string, x: Parts, rest: seq<Label>)
    requires labels == x.head + (ReportLabels(message) + (x.open + rest))
    ensures LabelsAt(labels, 0, x.head) && LabelsAt(labels, |x.head|, ReportLabels(message)) && LabelsAt(labels, |x.head| + 4, x.open)
    ensures LabelsAt(labels, |x.head| + 4 + |x.open|, rest) && |labels| == |x.head| + 4 + |x.open| + |rest|
  {
    hide LabelsAt, ReportLabels;
    ReportSize(message);
    WholeAt(labels);
    PartsAt(labels, 0, x.head, ReportLabels(message) + (x.open + rest));
    PartsAt(labels, |x.head|, ReportLabels(message), x.open + rest);
    PartsAt(labels, |x.head| + 4, x.open, rest);
  }

  lemma BackPieces(labels: seq<Label>, a: nat, x: Parts)
    requires LabelsAt(labels, a, x.between + ([Label(Str, "sell"), Label(Array, "")] + (LabelsOfElems(x.asks) + x.tail)))
    ensures var s := a + |x.between|; var t := s + 2 + |LabelsOfElems(x.asks)|;
            && LabelsAt(labels, a, x.between) && LabelsAt(labels, s, [Label(Str, "sell"), Label(Array, "")])
            && LabelsAt(labels, s + 2, LabelsOfElems(x.asks)) && LabelsAt(labels, t, x.tail)
  {
    hide LabelsAt, LabelsOfElems;
    var sell, rest := [Label(Str, "sell"), Label(Array, "")], LabelsOfElems(x.asks) + x.tail;
    PartsAt(labels, a, x.between, sell + rest);
    PartsAt(labels, a + |x.between|, sell, rest);
    PartsAt(labels, a + |x.between| + 2, LabelsOfElems(x.asks), x.tail);
  }

  lemma ReportSize(message: string)
    ensures |ReportLabels(message)| == 4
  {}

  lemma ReportHas(labels: seq<Label>, h: nat, message: string)
    requires LabelsAt(labels, h, ReportLabels(message))
    ensures h + 4 <= |labels| && labels[h] == Label(Str, "success") && labels[h + 1] == Label(Primitive, "true")
    ensures labels[h + 2] == Label(Str, "message") && labels[h + 3] == Label(Str, message)
  {
    var r := ReportLabels(message);
    assert labels[h + 0] == r[0] && labels[h + 1] == r[1] && labels[h + 2] == r[2] && labels[h + 3] == r[3];
  }

  lemma SellHas(labels: seq<Label>, s: nat)
    requires LabelsAt(labels, s, [Label(Str, "sell"), Label(Array, "")])
    ensures s + 2 <= |labels| && labels[s] == Label(Str, "sell") && labels[s + 1].kind == Array
  {
    var r := [Label(Str, "sell"), Label(Array, "")];
    assert labels[s + 0] == r[0] && labels[s + 1] == r[1];
  }

  lemma LacksIn(labels: seq<Label>, at: nat, part: seq<Label>, tag: string)
    requires LabelsAt(labels, at, part) && Label(Str, tag) !in part
    ensures Lacks(labels, at, at + |part|, tag)
  {
    forall i | at <= i < at + |part| ensures labels[i] != Label(Str, tag) { assert labels[at + (i - at)] == part[i - at]; }
  }

  lemma WordsDiffer()
    ensures KeyIndex(LEVEL_KEYS, "message") == 2 && KeyIndex(LEVEL_KEYS, "sell") == 2
    ensures KeyIndex(LEVEL_KEYS, "Quantity") == 0 && KeyIndex(LEVEL_KEYS, "Rate") == 1
  {
    hide KeyIndex;
    LevelKeysAre();
    assert |"message"| == 7 && |"sell"| == 4 && |"Quantity"| == 8 && |"Rate"| == 4 && "sell"[0] == 's' && "Rate"[0] == 'R';
    assert KeyIndex(LEVEL_KEYS, "Quantity") != 2 by { assert LEVEL_KEYS[0].name == "Quantity"; }
    assert KeyIndex(LEVEL_KEYS, "Rate") != 2 by { assert LEVEL_KEYS[1].name == "Rate"; }
  }

  // ---------- finding "success" and "sell" ----------

  /** Where "sell" is found: with the asks, unless the message is that word. */
  function SellAt(message: string, x: Parts): nat {
    if message == "sell" then |x.head| + 3 else |x.head| + 4 + |x.open| + |LabelsOfElems(x.bids)| + |x.between|
  }

  lemma FindsWords(d: Doc, nums: Numbers, v: Json, message: string, buys: seq<Quantum>, sells: seq<Quantum>, x: Parts)
    requires Labelled(d, Labels(v)) && IsBookDocument(v, message, buys, sells, x) && HasPieces(Labels(v), message, x)
    ensures d.Ok() && Succeeded(d, nums) == |x.head| + 1 && Find(d, |x.head| + 1, "sell") == SellAt(message, x)
  {
    hide LabelsAt, Labels, LabelsOfElems, ReportLabels, AreLevels, ArePlain, Labelled, Find, Lacks, FirstOf, Succeeded;
    var labels, h := Labels(v), |x.head|;
    LabelledSize(d, labels);
    ReportHas(labels, h, message);
    LacksIn(labels, 0, x.head, "success");
    FirstIs(labels, h, "success");
    SuccessFound(d, nums, labels);
    LacksOne(labels, h + 1, "sell");
    LacksWord(labels, h + 2, "message", "sell");
    LacksJoin(labels, h + 1, h + 2, h + 3, "sell");
    if message == "sell" {
      FindsLabel(d, labels, h + 1, h + 3, "sell");
    } else {
      var o := h + 4;
      var b := o + |x.open|;
      var a := b + |LabelsOfElems(x.bids)|;
      var s := a + |x.between|;
      LacksWord(labels, h + 3, message, "sell");
      LacksJoin(labels, h + 1, h + 3, o, "sell");
      LacksIn(labels, o, x.open, "sell");
      LacksJoin(labels, h + 1, o, b, "sell");
      LacksIn(labels, b, LabelsOfElems(x.bids), "sell");
      LacksJoin(labels, h + 1, b, a, "sell");
      LacksIn(labels, a, x.between, "sell");
      LacksJoin(labels, h + 1, a, s, "sell");
      SellHas(labels, s);
      FindsLabel(d, labels, h + 1, s, "sell");
    }
  }

  lemma LacksWord(labels: seq<Label>, at: nat, word: string, tag: string)
    requires at < |labels| && labels[at] == Label(Str, word) && word != tag
    ensures Lacks(labels, at, at + 1, tag)
  {}

  // ---------- what the document shows ----------

  /** The rows before "sell". */
  function RowsBefore(message: string, buys: seq<Quantum>): (rs: seq<LevelFields>) {
    if message == "Quantity" then [[Odd, Missing]] + LevelRows(buys)
    else if message == "Rate" then [[Missing, Odd]] + LevelRows(buys)
    else LevelRows(buys)
  }

  lemma RowsBeforeAre(message: string, buys: seq<Quantum>)
    ensures RowLevels(RowsBefore(message, buys), 0) == if message == "Quantity" then [] else buys
  {
    hide LevelRows, RowLevels;
    var rs := RowsBefore(message, buys);
    if message == "Quantity" {
      NoLevel(rs);
    } else if message == "Rate" {
      ReadsLevelRows(rs, 1, buys);
      SkipsRow(rs);
    } else {
      ReadsLevelRows(rs, 0, buys);
    }
  }

  lemma NoLevel(rs: seq<LevelFields>)
    requires rs != [] && rs[0][0].Odd?
    ensures RowLevels(rs, 0) == []
  {}

  lemma SkipsRow(rs: seq<LevelFields>)
    requires rs != [] && rs[0][0].Missing?
    ensures RowLevels(rs, 0) == RowLevels(rs, 1)
  {
    assert Taken(rs, 0, 0) == Taken(rs, 1, 0);
  }

  /** The labels up to "sell" show the message, if it is a key, and the bids. */
  lemma ShownBefore(labels: seq<Label>, message: string, buys: seq<Quantum>, x: Parts)
    requires HasPieces(labels, message, x) && NoWord(x.open) && x.open != [] && x.open[0].kind == Str
    requires AreLevels(x.bids, buys) && NoWord(x.between) && message != "sell"
    ensures Shown(LEVEL_KEYS, labels, |x.head| + 1, SellAt(message, x), RowsBefore(message, buys), 0, 0)
  {
    hide LabelsAt, LabelsOfElems, ReportLabels, ArePlain, IsPlain, Shown, Keyless, ElemsShow, KeyIndex, RowsBefore;
    var rs, h := LevelRows(buys), |x.head|;
    var o := h + 4;
    var b := o + |x.open|;
    var a := b + |LabelsOfElems(x.bids)|;
    var s := a + |x.between|;
    LevelKeysAre();
    ReportHas(labels, h, message);
    PlainShown(LEVEL_KEYS, labels, a, x.between, rs);
    ElemsShown(LEVEL_KEYS, labels, b, s, x.bids, rs, 0, |rs|);
    PlainPart(LEVEL_KEYS, labels, o, x.open);
    ShownEarlier(LEVEL_KEYS, labels, o, b, s, rs, 0, 0);
    LabelAt(labels, o, x.open, 0);
    MessageShown(labels, h + 3, s, message, buys);
    PlainReport(labels, h);
    ShownEarlier(LEVEL_KEYS, labels, h + 1, h + 3, s, RowsBefore(message, buys), 0, 0);
  }

  lemma PlainReport(labels: seq<Label>, h: nat)
    requires h + 3 <= |labels| && labels[h + 1].kind == Primitive && labels[h + 2] == Label(Str, "message")
    ensures Keyless(LEVEL_KEYS, labels, h + 1, h + 3)
  {
    hide KeyIndex;
    WordsDiffer();
  }

  lemma MessageShown(labels: seq<Label>, at: nat, to: nat, message: string, buys: seq<Quantum>)
    requires at < to && at + 1 < |labels| && labels[at] == Label(Str, message) && labels[at + 1].kind == Str
    requires Shown(LEVEL_KEYS, labels, at + 1, to, LevelRows(buys), 0, 0)
    ensures Shown(LEVEL_KEYS, labels, at, to, RowsBefore(message, buys), 0, 0)
  {
    hide Shown, KeyIndex, LevelRows;
    var rs := LevelRows(buys);
    LevelKeysAre();
    WordsDiffer();
    FirstIsGiven(buys);
    if message == "Quantity" || message == "Rate" {
      var k := if message == "Quantity" then 0 else 1;
      assert LEVEL_KEYS[k].name == message && FieldAt(labels, at + 1, LEVEL_KEYS[k]) == Odd;
      AddShown(LEVEL_KEYS, labels, at, to, k, rs);
      assert Blank(2)[k := Odd] == if k == 0 then [Odd, Missing] else [Missing, Odd];
    } else {
      PlainMessage(message);
      PlainKey(LEVEL_KEYS, labels, at, message);
      ShownEarlier(LEVEL_KEYS, labels, at, at + 1, to, rs, 0, 0);
    }
  }

  lemma PlainMessage(message: string)
    requires message != "Quantity" && message != "Rate"
    ensures KeyIndex(LEVEL_KEYS, message) == 2
  {
    hide KeyIndex;
    LevelKeysAre();
  }

  lemma FirstIsGiven(buys: seq<Quantum>)
    ensures buys != [] ==> LevelRows(buys)[0][0].Given?
  {}

  /** The labels from "sell" on show the asks; if the message is that word, the bids before them. */
  lemma ShownBehind(labels: seq<Label>, message: string, buys: seq<Quantum>, sells: seq<Quantum>, x: Parts)
    requires HasPieces(labels, message, x) && NoWord(x.open) && NoWord(x.between) && ArePlain(LEVEL_KEYS, x.tail)
    requires AreLevels(x.bids, buys) && AreLevels(x.asks, sells)
    ensures Shown(LEVEL_KEYS, labels, SellAt(message, x), |labels|, LevelRows(if message == "sell" then buys + sells else sells), 0, 0)
  {
    hide LabelsAt, LabelsOfElems, ReportLabels, ArePlain, Shown, AreLevels, LevelRows, NoWord;
    var s := |x.head| + 4 + |x.open| + |LabelsOfElems(x.bids)| + |x.between|;
    if message != "sell" {
      AsksShown(labels, s, x, sells, LevelRows(sells), 0);
    } else {
      var rs := LevelRows(buys + sells);
      AsksShown(labels, s, x, sells, rs, |buys|);
      BothShown(labels, buys, sells, x, rs);
    }
  }

  lemma BothShown(labels: seq<Label>, buys: seq<Quantum>, sells: seq<Quantum>, x: Parts, rs: seq<LevelFields>)
    requires HasPieces(labels, "sell", x) && NoWord(x.open) && NoWord(x.between) && AreLevels(x.bids, buys) && rs == LevelRows(buys + sells)
    requires Shown(LEVEL_KEYS, labels, |x.head| + 4 + |x.open| + |LabelsOfElems(x.bids)| + |x.between|, |labels|, rs, |buys|, 0)
    ensures Shown(LEVEL_KEYS, labels, |x.head| + 3, |labels|, rs, 0, 0)
  {
    hide LabelsAt, LabelsOfElems, ReportLabels, ArePlain, IsPlain, Shown, Keyless, ElemsShow, KeyIndex, LevelRows;
    var h := |x.head|;
    var o := h + 4;
    var b := o + |x.open|;
    var a := b + |LabelsOfElems(x.bids)|;
    ReportHas(labels, h, "sell");
    PlainPart(LEVEL_KEYS, labels, a, x.between);
    ShownEarlier(LEVEL_KEYS, labels, a, a + |x.between|, |labels|, rs, |buys|, 0);
    ElemsSame(LEVEL_KEYS, x.bids, LevelRows(buys), 0, |buys|, rs, 0, |buys|);
    ElemsShown(LEVEL_KEYS, labels, b, |labels|, x.bids, rs, 0, |buys|);
    PlainPart(LEVEL_KEYS, labels, o, x.open);
    ShownEarlier(LEVEL_KEYS, labels, o, b, |labels|, rs, 0, 0);
    WordsDiffer();
    PlainKey(LEVEL_KEYS, labels, h + 3, "sell");
    ShownEarlier(LEVEL_KEYS, labels, h + 3, o, |labels|, rs, 0, 0);
  }

  lemma AsksShown(labels: seq<Label>, s: nat, x: Parts, sells: seq<Quantum>, rs: seq<LevelFields>, i: nat)
    requires LabelsAt(labels, s, [Label(Str, "sell"), Label(Array, "")]) && LabelsAt(labels, s + 2, LabelsOfElems(x.asks))
    requires LabelsAt(labels, s + 2 + |LabelsOfElems(x.asks)|, x.tail) && |labels| == s + 2 + |LabelsOfElems(x.asks)| + |x.tail|
    requires ArePlain(LEVEL_KEYS, x.tail) && AreLevels(x.asks, sells)
    requires |rs| == i + |sells| && forall j | 0 <= j < |sells| :: rs[i + j] == LevelRows(sells)[j]
    ensures Shown(LEVEL_KEYS, labels, s, |labels|, rs, i, 0)
  {
    hide LabelsAt, LabelsOfElems, ArePlain, IsPlain, Shown, Keyless, ElemsShow, KeyIndex, LevelRows;
    var t := s + 2 + |LabelsOfElems(x.asks)|;
    PlainShown(LEVEL_KEYS, labels, t, x.tail, rs);
    ElemsSame(LEVEL_KEYS, x.asks, LevelRows(sells), 0, |sells|, rs, i, |rs|);
    ElemsShown(LEVEL_KEYS, labels, s + 2, |labels|, x.asks, rs, i, |rs|);
    SellHas(labels, s);
    PlainKind(LEVEL_KEYS, labels, s + 1);
    ShownEarlier(LEVEL_KEYS, labels, s + 1, s + 2, |labels|, rs, i, 0);
    WordsDiffer();
    PlainKey(LEVEL_KEYS, labels, s, "sell");
    ShownEarlier(LEVEL_KEYS, labels, s, s + 1, |labels|, rs, i, 0);
  }

  // ---------- what the parser reads of it ----------

  predicate IsKeyWord(message: string) {
    message == "Quantity" || message == "sell"
  }

  /** The bids and the asks the parser reads from a document. A message that is a key it looks for costs it the bids;
      the message "sell" also turns them into asks. */
  function BidsRead(nums: Numbers, message: string, buys: seq<Quantum>): seq<Price> {
    if IsKeyWord(message) then [] else PricesOf(nums, buys)
  }

  function AsksRead(nums: Numbers, message: string, buys: seq<Quantum>, sells: seq<Quantum>): seq<Price> {
    if message == "sell" then PricesOf(nums, buys) + PricesOf(nums, sells) else PricesOf(nums, sells)
  }

  lemma DocumentReads(d: Doc, nums: Numbers, v: Json, message: string, buys: seq<Quantum>, sells: seq<Quantum>, x: Parts)
    requires Labelled(d, Labels(v)) && IsBookDocument(v, message, buys, sells, x)
    ensures d.Ok() && Succeeded(d, nums) == |x.head| + 1 && Find(d, |x.head| + 1, "sell") == SellAt(message, x)
    ensures BidsOf(d, nums, |x.head| + 1, SellAt(message, x)) == BidsRead(nums, message, buys)
    ensures AsksOf(d, nums, SellAt(message, x)) == AsksRead(nums, message, buys, sells)
  {
    hide Labels, LabelsOfElems, Labelled, Find, Succeeded, Shown, HasPieces, AreLevels, NoWord, ArePlain, RowLevels, LevelRows, RowsBefore,
         BidsOf, AsksOf, PricesOf;
    var labels := Labels(v);
    Pieces(v, message, buys, sells, x);
    FindsWords(d, nums, v, message, buys, sells, x);
    BidsReadBack(d, nums, v, message, buys, sells, x);
    ShownBehind(labels, message, buys, sells, x);
    var all := if message == "sell" then buys + sells else sells;
    ReadsAsks(d, nums, labels, SellAt(message, x), LevelRows(all), 0);
    ReadsLevelRows(LevelRows(all), 0, all);
    PricesJoin(nums, buys, sells);
  }

  lemma BidsReadBack(d: Doc, nums: Numbers, v: Json, message: string, buys: seq<Quantum>, sells: seq<Quantum>, x: Parts)
    requires Labelled(d, Labels(v)) && IsBookDocument(v, message, buys, sells, x) && HasPieces(Labels(v), message, x)
    ensures d.Ok() && BidsOf(d, nums, |x.head| + 1, SellAt(message, x)) == BidsRead(nums, message, buys)
  {
    hide LabelsAt, Labels, LabelsOfElems, Labelled, Shown, AreLevels, NoWord, ArePlain, RowLevels, LevelRows, RowsBefore, BidsOf, PricesOf, ReportLabels;
    var labels, h := Labels(v), |x.head|;
    ReportHas(labels, h, message);
    NoPrices(nums);
    if message == "sell" {
      PlainReport(labels, h);
      NoRows(labels, h + 1, h + 3);
      ReadsBids(d, nums, labels, h + 1, h + 3, [], 0);
    } else {
      SellHas(labels, SellAt(message, x));
      ShownBefore(labels, message, buys, x);
      ReadsBids(d, nums, labels, h + 1, SellAt(message, x), RowsBefore(message, buys), 0);
      RowsBeforeAre(message, buys);
    }
  }

  lemma NoRows(labels: seq<Label>, from: nat, to: nat)
    requires Keyless(LEVEL_KEYS, labels, from, to)
    ensures Shown(LEVEL_KEYS, labels, from, to, [], 0, 0) && RowLevels([], 0) == []
  {}

  lemma NoPrices(nums: Numbers)
    ensures PricesOf(nums, []) == []
  {}

  lemma PricesJoin(nums: Numbers, a: seq<Quantum>, b: seq<Quantum>)
    ensures PricesOf(nums, a + b) == PricesOf(nums, a) + PricesOf(nums, b)
  {}

  /** A document on which the parser fails: with the message "sell" every bid is read as an ask. */
  lemma SellMessageLosesBids(d: Doc, nums: Numbers, v: Json, buys: seq<Quantum>, sells: seq<Quantum>, x: Parts)
    requires Labelled(d, Labels(v)) && IsBookDocument(v, "sell", buys, sells, x)
    ensures d.Ok() && Find(d, |x.head| + 1, "sell") == |x.head| + 3
    ensures BidsOf(d, nums, |x.head| + 1, |x.head| + 3) == []
    ensures AsksOf(d, nums, |x.head| + 3) == PricesOf(nums, buys) + PricesOf(nums, sells)
  {
    hide Labelled, IsBookDocument, Labels, Find, BidsOf, AsksOf, PricesOf;
    DocumentReads(d, nums, v, "sell", buys, sells, x);
  }

  // ---------- when the list shows the document ----------

  /** The parser's condition on a document: there are no bids, or the message is not a key word, or every bid looks like
      a missing one and the asks read are in the right places. */
  ghost predicate ReadsRight(nums: Numbers, message: string, buys: seq<Quantum>, sells: seq<Quantum>) {
    || buys == []
    || !IsKeyWord(message)
    || ((forall p | p in PricesOf(nums, buys) :: p == NOTHING) && if message == "sell" then sells == [] else |buys| <= |sells|)
  }

  lemma {:induction false} ShowsDocument(nodes: seq<Book>, nums: Numbers, message: string, buys: seq<Quantum>, sells: seq<Quantum>)
    requires Shows(nodes, BidsRead(nums, message, buys), AsksRead(nums, message, buys, sells))
    ensures Shows(nodes, PricesOf(nums, buys), PricesOf(nums, sells)) <==> ReadsRight(nums, message, buys, sells)
  {
    hide PricesOf;
    var bids, asks := PricesOf(nums, buys), PricesOf(nums, sells);
    if IsKeyWord(message) && bids != [] {
      if message == "sell" {
        ZeroBids(nodes, bids, asks, bids + asks);
      } else {
        ZeroBids(nodes, bids, asks, asks);
      }
    }
    if buys == [] { assert bids + asks == asks; }
  }

  /** A list without bids shows the bids given only if they are zeros. */
  lemma {:induction false} ZeroBids(nodes: seq<Book>, bids: seq<Price>, asks: seq<Price>, shown: seq<Price>)
    requires bids != [] && Shows(nodes, [], shown) && (shown == asks || shown == bids + asks)
    ensures Shows(nodes, bids, asks) <==> (forall p | p in bids :: p == NOTHING) && if shown == asks then |bids| <= |asks| else asks == []
  {
    if Shows(nodes, bids, asks) {
      forall i | 0 <= i < |bids| ensures bids[i] == NOTHING { assert nodes[i].Value() == RowAt([], shown, i) == RowAt(bids, asks, i); }
    }
    if (forall p | p in bids :: p == NOTHING) && if shown == asks then |bids| <= |asks| else asks == [] {
      forall i | 0 <= i < |nodes| ensures RowAt([], shown, i) == RowAt(bids, asks, i) {
        if i < |bids| { assert bids[i] in bids; }
      }
    }
  }

  // ---------- book_bittrex_parse_book on text ----------

  /** The text has "sell" behind "success", if it reports that, and ends plainly. */
  ghost predicate IsUsable(labels: seq<Label>, nums: Numbers) {
    EndsPlain(labels) && (SuccessAt(labels, nums) > 0 ==> FirstOf(labels, SuccessAt(labels, nums), "sell") < |labels|)
  }

  /** For every JSON text that leaves one token free, the list shows the levels of the rows before and behind "sell". */
  method ParseBookText(js: string, nums: Numbers, ghost before: string, ghost v: Json, ghost after: string)
    returns (book: Book?, ghost nodes: seq<Book>)
    requires js == before + (Print(v) + after) && IsBlank(before) && Valid(v) && IsBlank(after)
    requires IsUsable(Labels(v), nums) && Nodes(v) < 65535
    ensures IsList(book, nodes)
    ensures var labels := Labels(v); var p := SuccessAt(labels, nums); var sell := FirstOf(labels, p, "sell");
            if p == 0 then nodes == []
            else Shows(nodes, PricesOf(nums, RowLevels(BookRows(labels, p, sell), 0)),
                              PricesOf(nums, RowLevels(BookRows(labels, sell, |labels|), 0)))
    ensures SuccessAt(Labels(v), nums) == 0 ==> book == null
  {
    hide Print, Valid, IsBlank, Labels, Nodes, Shows, BidsOf, AsksOf, PricesOf, Find, Succeeded, Labelled, Parse, EndsPlain, SuccessAt, FirstOf,
         RowLevels, BookRows;
    var count, d := JsonParse(js);
    TextIsLabelled(js, before, v, after, count, d);
    AnyBookReads(d, nums, Labels(v));
    book, nodes := ParseBook(d, nums);
  }

  /** For every order-book document that leaves one token free, the list built from its text shows its bids and asks, the
      i-th of each side by side, exactly when the parser's condition on the document holds. */
  method ParseBookDocument(js: string, nums: Numbers, ghost before: string, ghost v: Json, ghost after: string,
                       ghost message: string, ghost buys: seq<Quantum>, ghost sells: seq<Quantum>, ghost x: Parts)
    returns (book: Book?, ghost nodes: seq<Book>)
    requires js == before + (Print(v) + after) && IsBlank(before) && Valid(v) && IsBlank(after)
    requires IsBookDocument(v, message, buys, sells, x) && Nodes(v) < 65535
    ensures IsList(book, nodes) && Shows(nodes, BidsRead(nums, message, buys), AsksRead(nums, message, buys, sells))
    ensures Shows(nodes, PricesOf(nums, buys), PricesOf(nums, sells)) <==> ReadsRight(nums, message, buys, sells)
    ensures book == null <==> sells == [] && (buys == [] || message == "Quantity")
    ensures buys == [] || (message != "Quantity" && message != "sell") ==>
              |nodes| == (if |buys| >= |sells| then |buys| else |sells|) && forall i | 0 <= i < |nodes| :: HasLevels(nodes[i], nums, buys, sells, i)
  {
    hide HasLevels, IsBookDocument, Print, Valid, IsBlank, Labels, Nodes, Shows, BidsOf, AsksOf, PricesOf, BidsRead, AsksRead, ReadsRight, Find,
         Succeeded, Labelled, Parse;
    var count, d := JsonParse(js);
    TextIsLabelled(js, before, v, after, count, d);
    DocumentReads(d, nums, v, message, buys, sells, x);
    book, nodes := ParseBook(d, nums);
    ShowsDocument(nodes, nums, message, buys, sells);
    NothingRead(nums, message, buys, sells);
    if buys == [] || (message != "Quantity" && message != "sell") {
      PlainMessageReads(nums, message, buys, sells);
      NodesHaveLevels(nodes, nums, buys, sells);
    }
  }

  lemma PlainMessageReads(nums: Numbers, message: string, buys: seq<Quantum>, sells: seq<Quantum>)
    requires buys == [] || (message != "Quantity" && message != "sell")
    ensures ReadsRight(nums, message, buys, sells)
  {}

  /** The four fields of node i: the numbers of the i-th bid and of the i-th ask, and zeros where there is none. */
  ghost predicate HasLevels(node: Book, nums: Numbers, buys: seq<Quantum>, sells: seq<Quantum>, i: nat)
    reads node
  {
    && (i < |buys| && buys[i].qty !in ["true", "false", "null"] ==> node.bidQty == nums.atof(buys[i].qty))
    && (i < |buys| && buys[i].rate !in ["true", "false", "null"] ==> node.bidPrice == nums.atof(buys[i].rate))
    && (i < |sells| && sells[i].qty !in ["true", "false", "null"] ==> node.askQty == nums.atof(sells[i].qty))
    && (i < |sells| && sells[i].rate !in ["true", "false", "null"] ==> node.askPrice == nums.atof(sells[i].rate))
    && (i >= |buys| ==> node.bidQty == 0.0 == node.bidPrice) && (i >= |sells| ==> node.askQty == 0.0 == node.askPrice)
  }

  lemma NodesHaveLevels(nodes: seq<Book>, nums: Numbers, buys: seq<Quantum>, sells: seq<Quantum>)
    requires Shows(nodes, PricesOf(nums, buys), PricesOf(nums, sells))
    ensures |nodes| == if |buys| >= |sells| then |buys| else |sells|
    ensures forall i | 0 <= i < |nodes| :: HasLevels(nodes[i], nums, buys, sells, i)
  {
    hide PricesOf;
    forall i | 0 <= i < |nodes| ensures HasLevels(nodes[i], nums, buys, sells, i) {
      assert nodes[i].Value() == RowAt(PricesOf(nums, buys), PricesOf(nums, sells), i);
      if i < |buys| { PricesAre(nums, buys, i); }
      if i < |sells| { PricesAre(nums, sells, i); }
    }
  }

  lemma NothingRead(nums: Numbers, message: string, buys: seq<Quantum>, sells: seq<Quantum>)
    ensures BidsRead(nums, message, buys) == [] == AsksRead(nums, message, buys, sells)
            <==> sells == [] && (buys == [] || message == "Quantity")
  {
    hide PricesOf;
  }
}
