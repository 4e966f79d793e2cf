/** What the tokens of a JSON text say: every scalar, string and key token spans exactly its own text. */
module JsonLabels {
  import opened Options
  import opened Jsmn
  import opened JsonScans
  import opened JsonText

  /** A token without its position: its kind and, unless it is a container, its text. */
  datatype Label = Label(kind: Kind, text: string)

  function Labels(v: Json): (r: seq<Label>)
    ensures |r| == Nodes(v)
  {
    match v
    case Scalar(text) => [Label(Primitive, text)]
    case Text(body) => [Label(Str, body)]
    case List(_, elems) => [Label(Array, "")] + LabelsOfElems(elems)
    case Record(_, members) => [Label(Object, "")] + LabelsOfMembers(members)
  }

  function LabelsOfElems(e: Elems): (r: seq<Label>)
    ensures |r| == NodesOfElems(e)
  {
    match e
    case NoElems => []
    case Elem(_, value, _, more) => Labels(value) + LabelsOfElems(more)
  }

  function LabelsOfMembers(m: Members): (r: seq<Label>)
    ensures |r| == NodesOfMembers(m)
  {
    match m
    case NoMembers => []
    case Member(_, key, _, _, value, _, others) => [Label(Str, key)] + (Labels(value) + LabelsOfMembers(others))
  }

  /** The token has the label's kind and spans the label's text. */
  ghost predicate Fits(js: string, t: Token, l: Label) {
    && t.kind == l.kind
    && (!IsContainer(t) ==> 0 <= t.start <= t.end <= |js| && js[t.start..t.end] == l.text)
  }

  ghost predicate AllFit(js: string, toks: seq<Token>, labels: seq<Label>) {
    |toks| == |labels| && forall i | 0 <= i < |toks| :: Fits(js, toks[i], labels[i])
  }

  lemma FitConcat(js: string, a: seq<Token>, b: seq<Token>, la: seq<Label>, lb: seq<Label>)
    requires AllFit(js, a, la) && AllFit(js, b, lb)
    ensures AllFit(js, a + b, la + lb)
  {
    forall i | 0 <= i < |a + b| ensures Fits(js, (a + b)[i], (la + lb)[i]) {
      if i >= |a| { assert Fits(js, b[i - |a|], lb[i - |a|]); }
    }
  }

  lemma FitText(js: string, at: nat, body: string, t: Token)
    requires At(js, at, body) && t.start == at && t.end == at + |body| && (t.kind == Str || t.kind == Primitive)
    ensures AllFit(js, [t], [Label(t.kind, body)])
  {}

  lemma FitQuoted(js: string, at: nat, body: string, size: int)
    requires At(js, at, Quote(body))
    ensures AllFit(js, [Token(Str, at + 1, at + 1 + |body|, size)], [Label(Str, body)])
  {
    hide At;
    AtSplit(js, at, "\"", body + "\"");
    AtSplit(js, at + 1, body, "\"");
    FitText(js, at + 1, body, Token(Str, at + 1, at + 1 + |body|, size));
  }

  lemma {:induction false} TokensFit(js: string, at: nat, v: Json)
    requires At(js, at, Print(v))
    ensures AllFit(js, Tokens(v, at), Labels(v))
    decreases v
  {
    hide At, AllFit, PrintElems, PrintMembers, TokensOfElems, TokensOfMembers, LabelsOfElems, LabelsOfMembers;
    match v
    case Scalar(text) => FitText(js, at, text, Token(Primitive, at, at + |text|, 0));
    case Text(body) => FitQuoted(js, at, body, 0);
    case List(ws, elems) =>
      AtSplit(js, at, "[", ws + PrintElems(elems));
      AtSplit(js, at + 1, ws, PrintElems(elems));
      ElemsFit(js, at + 1 + |ws|, elems);
      FitContainer(js, Token(Array, at, at + |Print(v)|, Length(elems)));
      FitConcat(js, [Tokens(v, at)[0]], TokensOfElems(elems, at + 1 + |ws|), [Label(Array, "")], LabelsOfElems(elems));
    case Record(ws, members) =>
      AtSplit(js, at, "{", ws + PrintMembers(members));
      AtSplit(js, at + 1, ws, PrintMembers(members));
      MembersFit(js, at + 1 + |ws|, members);
      FitContainer(js, Token(Object, at, at + |Print(v)|, Entries(members)));
      FitConcat(js, [Tokens(v, at)[0]], TokensOfMembers(members, at + 1 + |ws|), [Label(Object, "")], LabelsOfMembers(members));
  }

  lemma FitContainer(js: string, t: Token)
    requires IsContainer(t)
    ensures AllFit(js, [t], [Label(t.kind, "")])
  {}

  lemma {:induction false} ElemsFit(js: string, at: nat, e: Elems)
    requires At(js, at, PrintElems(e))
    ensures AllFit(js, TokensOfElems(e, at), LabelsOfElems(e))
    decreases e
  {
    hide At, Print, PrintElems, Tokens, Labels;
    match e
    case NoElems =>
    case Elem(pre, value, post, more) =>
      ElemParts(js, at, e);
      TokensFit(js, at + |pre|, value);
      ElemsFit(js, NextElem(e, at), more);
      FitConcat(js, Tokens(value, at + |pre|), TokensOfElems(more, NextElem(e, at)), Labels(value), LabelsOfElems(more));
  }

  lemma {:induction false} MembersFit(js: string, at: nat, m: Members)
    requires At(js, at, PrintMembers(m))
    ensures AllFit(js, TokensOfMembers(m, at), LabelsOfMembers(m))
    decreases m
  {
    hide At, Print, PrintMembers, Tokens, Labels, AllFit;
    match m
    case NoMembers => FitNothing(js);
    case Member(pre, key, mid, gap, value, post, others) =>
      KeyParts(js, at, m);
      MemberParts(js, at, m);
      FitQuoted(js, at + |pre|, key, 1);
      TokensFit(js, ValueAt(m, at), value);
      MembersFit(js, NextMember(m, at), others);
      FitConcat(js, Tokens(value, ValueAt(m, at)), TokensOfMembers(others, NextMember(m, at)), Labels(value), LabelsOfMembers(others));
      FitConcat(js, [Token(Str, at + |pre| + 1, at + |pre| + 1 + |key|, 1)],
                Tokens(value, ValueAt(m, at)) + TokensOfMembers(others, NextMember(m, at)),
                [Label(Str, key)], Labels(value) + LabelsOfMembers(others));
  }

  lemma FitNothing(js: string)
    ensures AllFit(js, [], [])
  {}

  /** The tokens of any JSON text are labelled with its nodes in preorder. */
  lemma EveryTextIsLabelled(before: string, v: Json, after: string, cap: nat)
    requires IsBlank(before) && Valid(v) && IsBlank(after) && Nodes(v) <= cap
    ensures var js := before + (Print(v) + after);
            Parse(js, Some(cap), START).Done? && AllFit(js, Parse(js, Some(cap), START).st.toks, Labels(v))
  {
    hide Parse, AllFit, Valid, Tokens, Labels, Print, IsBlank;
    var js := before + (Print(v) + after);
    TokenizesEveryText(before, v, after, cap);
    assert At(js, 0, js);
    AtSplit(js, 0, before, Print(v) + after);
    AtSplit(js, |before|, Print(v), after);
    TokensFit(js, |before|, v);
  }
}
