/** Reading keys from tokens of which only the labels are known. */
module LabelledDocs {
  import opened Options
  import opened Jsmn
  import opened JsonScans
  import opened JsonText
  import opened JsonLabels
  import opened JsonCursor
  import opened JsmnParsing
  import opened JsmnStack

  /** The filled tokens of the document carry the labels. */
  ghost predicate Labelled(d: Doc, labels: seq<Label>) {
    d.Ok() && d.n == |labels| && AllFit(d.data, d.toks[..d.n], labels)
  }

  lemma LabelledAt(d: Doc, labels: seq<Label>, i: nat)
    requires Labelled(d, labels) && i < d.n
    ensures d.toks[i].kind == labels[i].kind
    ensures labels[i].kind == Str || labels[i].kind == Primitive ==> d.TextOf(d.toks[i]) == labels[i].text
    ensures forall tag :: d.IsKey(i, tag) <==> labels[i] == Label(Str, tag)
  {
    assert d.toks[..d.n][i] == d.toks[i];
    assert Fits(d.data, d.toks[i], labels[i]);
  }

  /** No label from `from` up to `to` is the key `tag`. */
  ghost predicate Lacks(labels: seq<Label>, from: nat, to: nat, tag: string) {
    to <= |labels| && forall i | from <= i < to :: labels[i] != Label(Str, tag)
  }

  lemma LacksJoin(labels: seq<Label>, a: nat, b: nat, c: nat, tag: string)
    requires Lacks(labels, a, b, tag) && Lacks(labels, b, c, tag)
    ensures Lacks(labels, a, c, tag)
  {}

  /** A key is found where its label first occurs. */
  lemma FindsLabel(d: Doc, labels: seq<Label>, from: nat, at: nat, tag: string)
    requires Labelled(d, labels) && from <= at < |labels| && labels[at] == Label(Str, tag)
    requires Lacks(labels, from, at, tag)
    ensures Find(d, from, tag) == at
  {
    hide Find;
    LabelledAt(d, labels, at);
    var r := Find(d, from, tag);
    if r >= 0 { LabelledAt(d, labels, r); }
  }

  lemma FindsNothing(d: Doc, labels: seq<Label>, from: nat, tag: string)
    requires Labelled(d, labels) && Lacks(labels, from, |labels|, tag)
    ensures Find(d, from, tag) == -1
  {
    hide Find;
    var r := Find(d, from, tag);
    if r >= 0 { LabelledAt(d, labels, r); }
  }

  ghost predicate LabelsAt(labels: seq<Label>, at: nat, part: seq<Label>) {
    at + |part| <= |labels| && forall i | 0 <= i < |part| :: labels[at + i] == part[i]
  }

  lemma LabelAt(labels: seq<Label>, at: nat, part: seq<Label>, i: nat)
    requires LabelsAt(labels, at, part) && i < |part|
    ensures at + i < |labels| && labels[at + i] == part[i]
  {}

  lemma LacksOne(labels: seq<Label>, at: nat, tag: string)
    requires at < |labels| && labels[at].kind != Str
    ensures Lacks(labels, at, at + 1, tag)
  {}

  lemma LabelledSize(d: Doc, labels: seq<Label>)
    requires Labelled(d, labels)
    ensures d.Ok() && d.n == |labels|
  {}

  lemma PartsAt(labels: seq<Label>, at: nat, a: seq<Label>, b: seq<Label>)
    requires LabelsAt(labels, at, a + b)
    ensures LabelsAt(labels, at, a) && LabelsAt(labels, at + |a|, b)
  {
    forall i | 0 <= i < |a| ensures labels[at + i] == a[i] { assert (a + b)[i] == a[i]; }
    forall i | 0 <= i < |b| ensures labels[at + |a| + i] == b[i] { assert (a + b)[|a| + i] == b[i]; }
  }

  /** `tokens[65535]`. */
  const TOKEN_ROOM: nat := 65535

  /** The first label from `from` on that is the string `tag`, or the number of labels. */
  function FirstOf(labels: seq<Label>, from: nat, tag: string): (r: nat)
    ensures from <= |labels| ==> from <= r <= |labels|
    ensures r < |labels| ==> labels[r] == Label(Str, tag)
    ensures r >= |labels| ==> Lacks(labels, from, |labels|, tag)
    ensures r < |labels| ==> Lacks(labels, from, r, tag)
    decreases |labels| - from
  {
    if from >= |labels| || labels[from] == Label(Str, tag) then from else FirstOf(labels, from + 1, tag)
  }

  /** The cursor finds it. */
  lemma FindsFirst(d: Doc, labels: seq<Label>, from: nat, tag: string)
    requires Labelled(d, labels) && from <= |labels|
    ensures d.Ok() && Find(d, from, tag) == if FirstOf(labels, from, tag) < |labels| then FirstOf(labels, from, tag) else -1
  {
    hide Find, Labelled, Lacks;
    LabelledSize(d, labels);
    if FirstOf(labels, from, tag) < |labels| {
      FindsLabel(d, labels, from, FirstOf(labels, from, tag), tag);
    } else {
      FindsNothing(d, labels, from, tag);
    }
  }

  /** What a parse of a text leaves in the token array. */
  ghost predicate Parsed(js: string, count: int, d: Doc) {
    var o := Parse(js, Some(65535), START);
    && d.data == js && |d.toks| == 65535 && d.n <= 65535
    && if o.Failed? then count < 0 else count == o.count == d.n && d.toks[..d.n] == o.st.toks
  }

  /** `json_parse`. */
  method JsonParse(js: string) returns (count: int, d: Doc)
    ensures Parsed(js, count, d)
  {
    hide Jsmn.Run;
    var tokens := new Token[TOKEN_ROOM];
    var parser := new Parser();
    assert parser.Abs(tokens) == START;
    count := parser.Parse(js, tokens, TOKEN_ROOM);
    SuccessIsWellNested(js, TOKEN_ROOM);
    d := Doc(js, tokens[..], parser.toknext);
    assert d.toks[..d.n] == tokens[..parser.toknext];
  }

  /** The tokens of any JSON text that leaves one of them free carry the labels of its nodes. */
  lemma TextIsLabelled(js: string, before: string, v: Json, after: string, count: int, d: Doc)
    requires js == before + (Print(v) + after) && IsBlank(before) && Valid(v) && IsBlank(after) && Nodes(v) < 65535
    requires Parsed(js, count, d)
    ensures count == Nodes(v) && Labelled(d, Labels(v))
  {
    hide Print, Valid, IsBlank, Labels, Nodes, Jsmn.Run, AllFit;
    TokenizesEveryText(before, v, after, TOKEN_ROOM);
    EveryTextIsLabelled(before, v, after, TOKEN_ROOM);
  }
}
