/** Tokenizing a JSON text (RFC 8259, sections 2 to 7) yields the preorder of its tree.

    A tree records everything its text says: the white space around every structural character, the lexeme of
    every number or literal, and the escaped body of every string. */
module JsonText {
  import opened Options
  import opened Jsmn
  import opened JsonScans

  datatype Json = Scalar(text: string)
                | Text(body: string)
                | List(ws: string, elems: Elems)
                | Record(ws: string, members: Members)

  /** `pre value post`, and a comma before any further element. */
  datatype Elems = NoElems | Elem(pre: string, value: Json, post: string, more: Elems)

  /** `pre "key" mid : gap value post`, and a comma before any further member. */
  datatype Members = NoMembers
                   | Member(pre: string, key: string, mid: string, gap: string, value: Json, post: string, others: Members)

  // ---------- well-formed trees ----------

  ghost predicate Valid(v: Json) {
    match v
    case Scalar(text) => IsLexeme(text)
    case Text(body) => IsBody(body)
    case List(ws, elems) => IsBlank(ws) && ValidElems(elems)
    case Record(ws, members) => IsBlank(ws) && ValidMembers(members)
  }

  ghost predicate ValidElems(e: Elems) {
    match e
    case NoElems => true
    case Elem(pre, value, post, more) => IsBlank(pre) && Valid(value) && IsBlank(post) && ValidElems(more)
  }

  ghost predicate ValidMembers(m: Members) {
    match m
    case NoMembers => true
    case Member(pre, key, mid, gap, value, post, others) =>
      IsBlank(pre) && IsBody(key) && IsBlank(mid) && IsBlank(gap) && Valid(value) && IsBlank(post) && ValidMembers(others)
  }

  // ---------- the text of a tree ----------

  function Print(v: Json): string {
    match v
    case Scalar(text) => text
    case Text(body) => Quote(body)
    case List(ws, elems) => "[" + (ws + PrintElems(elems))
    case Record(ws, members) => "{" + (ws + PrintMembers(members))
  }

  /** The elements and the closing bracket. */
  function PrintElems(e: Elems): string {
    match e
    case NoElems => "]"
    case Elem(pre, value, post, more) => pre + (Print(value) + (post + (CommaIf(more.Elem?) + PrintElems(more))))
  }

  /** The members and the closing brace. */
  function PrintMembers(m: Members): string {
    match m
    case NoMembers => "}"
    case Member(pre, key, mid, gap, value, post, others) =>
      pre + (Quote(key) + (mid + (":" + (gap + (Print(value) + (post + (CommaIf(others.Member?) + PrintMembers(others))))))))
  }

  function CommaIf(more: bool): string {
    if more then "," else ""
  }

  // ---------- the tokens of a tree ----------

  function Nodes(v: Json): nat {
    match v
    case Scalar(_) => 1
    case Text(_) => 1
    case List(_, elems) => 1 + NodesOfElems(elems)
    case Record(_, members) => 1 + NodesOfMembers(members)
  }

  function NodesOfElems(e: Elems): nat {
    match e
    case NoElems => 0
    case Elem(_, value, _, more) => Nodes(value) + NodesOfElems(more)
  }

  function NodesOfMembers(m: Members): nat {
    match m
    case NoMembers => 0
    case Member(_, _, _, _, value, _, others) => 1 + Nodes(value) + NodesOfMembers(others)
  }

  function Length(e: Elems): nat {
    match e
    case NoElems => 0
    case Elem(_, _, _, more) => 1 + Length(more)
  }

  function Entries(m: Members): nat {
    match m
    case NoMembers => 0
    case Member(_, _, _, _, _, _, others) => 1 + Entries(others)
  }

  /** The preorder of the tree printed at position `at`: every node with its kind, its span (a string without its
      quotes) and its number of children; a key counts its value. */
  function Tokens(v: Json, at: nat): (r: seq<Token>)
    ensures |r| == Nodes(v)
  {
    match v
    case Scalar(text) => [Token(Primitive, at, at + |text|, 0)]
    case Text(body) => [Token(Str, at + 1, at + 1 + |body|, 0)]
    case List(ws, elems) => [Token(Array, at, at + |Print(v)|, Length(elems))] + TokensOfElems(elems, at + 1 + |ws|)
    case Record(ws, members) => [Token(Object, at, at + |Print(v)|, Entries(members))] + TokensOfMembers(members, at + 1 + |ws|)
  }

  function TokensOfElems(e: Elems, at: nat): (r: seq<Token>)
    ensures |r| == NodesOfElems(e)
  {
    match e
    case NoElems => []
    case Elem(pre, value, post, more) => Tokens(value, at + |pre|) + TokensOfElems(more, NextElem(e, at))
  }

  /** Where the text of the further elements begins. */
  function NextElem(e: Elems, at: nat): nat
    requires e.Elem?
  {
    at + |e.pre| + |Print(e.value)| + |e.post| + |CommaIf(e.more.Elem?)|
  }

  function TokensOfMembers(m: Members, at: nat): (r: seq<Token>)
    ensures |r| == NodesOfMembers(m)
  {
    match m
    case NoMembers => []
    case Member(pre, key, _, _, value, _, others) =>
      [Token(Str, at + |pre| + 1, at + |pre| + 1 + |key|, 1)] + (Tokens(value, ValueAt(m, at)) + TokensOfMembers(others, NextMember(m, at)))
  }

  function ValueAt(m: Members, at: nat): nat
    requires m.Member?
  {
    at + |m.pre| + 2 + |m.key| + |m.mid| + 1 + |m.gap|
  }

  function NextMember(m: Members, at: nat): nat
    requires m.Member?
  {
    ValueAt(m, at) + |Print(m.value)| + |m.post| + |CommaIf(m.others.Member?)|
  }

  lemma {:induction false} TokensClosed(v: Json, at: nat)
    ensures forall i | 0 <= i < |Tokens(v, at)| :: !IsOpen(Tokens(v, at)[i])
    decreases v
  {
    match v
    case Scalar(_) =>
    case Text(_) =>
    case List(ws, elems) => ElemsClosed(elems, at + 1 + |ws|);
    case Record(ws, members) => MembersClosed(members, at + 1 + |ws|);
  }

  lemma {:induction false} ElemsClosed(e: Elems, at: nat)
    ensures forall i | 0 <= i < |TokensOfElems(e, at)| :: !IsOpen(TokensOfElems(e, at)[i])
    decreases e
  {
    match e
    case NoElems =>
    case Elem(pre, value, post, more) =>
      TokensClosed(value, at + |pre|);
      ElemsClosed(more, NextElem(e, at));
  }

  lemma {:induction false} MembersClosed(m: Members, at: nat)
    ensures forall i | 0 <= i < |TokensOfMembers(m, at)| :: !IsOpen(TokensOfMembers(m, at)[i])
    decreases m
  {
    match m
    case NoMembers =>
    case Member(_, _, _, _, value, _, others) =>
      TokensClosed(value, ValueAt(m, at));
      MembersClosed(others, NextMember(m, at));
  }

  // ---------- running over the text of a tree ----------

  /** A number or literal ends at `end`, where the text stops or a delimiter follows; other values carry their own end. */
  ghost predicate Ended(js: string, v: Json, end: nat) {
    v.Scalar? ==> Stops(js, end) || IsDelimiter(js[end])
  }

  /** Opening-bracket tokens of a finished container. */
  function Finished(t: Token, n: nat, end: nat): Token {
    t.(size := t.size + n, end := end)
  }

  function SuperAfter(v: Json, toks: seq<Token>, super: int): int {
    if v.List? || v.Record? then LastOpen(toks, |toks|) else super
  }

  lemma OpenedBase(toks: seq<Token>, super: int, t: Token)
    requires -1 <= super < |toks| && IsOpen(t)
    ensures var base := Bump(toks, super) + [t];
            LastOpen(base, |base|) == |toks| && LastOpen(base, |toks|) == LastOpen(toks, |toks|)
  {
    SameScan(Bump(toks, super) + [t], toks, |toks|);
  }

  /** The pieces of an element's text, up to the text of the further elements. */
  lemma ElemParts(js: string, at: nat, e: Elems)
    requires e.Elem? && At(js, at, PrintElems(e))
    ensures var end := at + |e.pre| + |Print(e.value)|;
            && At(js, at, e.pre) && At(js, at + |e.pre|, Print(e.value))
            && At(js, end, e.post) && At(js, end, e.post + (CommaIf(e.more.Elem?) + PrintElems(e.more)))
            && At(js, end + |e.post|, CommaIf(e.more.Elem?)) && At(js, NextElem(e, at), PrintElems(e.more))
    ensures |PrintElems(e)| == NextElem(e, at) - at + |PrintElems(e.more)|
  {
    hide At, Print;
    var sep, tail := CommaIf(e.more.Elem?), PrintElems(e.more);
    AtSplit(js, at, e.pre, Print(e.value) + (e.post + (sep + tail)));
    AtSplit(js, at + |e.pre|, Print(e.value), e.post + (sep + tail));
    AtSplit(js, at + |e.pre| + |Print(e.value)|, e.post, sep + tail);
    AtSplit(js, at + |e.pre| + |Print(e.value)| + |e.post|, sep, tail);
  }

  /** The pieces of a member's text, up to its value. */
  lemma KeyParts(js: string, at: nat, m: Members)
    requires m.Member? && At(js, at, PrintMembers(m))
    ensures At(js, at, m.pre) && At(js, at + |m.pre|, Quote(m.key)) && At(js, at + |m.pre| + |m.key| + 2, m.mid)
    ensures At(js, at + |m.pre| + |m.key| + 2 + |m.mid|, ":") && At(js, at + |m.pre| + |m.key| + 3 + |m.mid|, m.gap)
    ensures At(js, ValueAt(m, at), FromValue(m)) && |PrintMembers(m)| == ValueAt(m, at) - at + |FromValue(m)|
  {
    hide At, Print, FromValue;
    var Member(pre, key, mid, gap, _, _, _) := m;
    PrintMember(m);
    var r2 := gap + FromValue(m);
    var r3 := mid + (":" + r2);
    AtSplit(js, at, pre, Quote(key) + r3);
    AtSplit(js, at + |pre|, Quote(key), r3);
    AtSplit(js, at + |pre| + |key| + 2, mid, ":" + r2);
    AtSplit(js, at + |pre| + |key| + 2 + |mid|, ":", r2);
    AtSplit(js, at + |pre| + |key| + 3 + |mid|, gap, FromValue(m));
  }

  /** A member's text from its value on, with the text of the further members. */
  function FromValue(m: Members): string
    requires m.Member?
  {
    Print(m.value) + (m.post + (CommaIf(m.others.Member?) + PrintMembers(m.others)))
  }

  lemma PrintMember(m: Members)
    requires m.Member?
    ensures PrintMembers(m) == m.pre + (Quote(m.key) + (m.mid + (":" + (m.gap + FromValue(m)))))
  {}

  /** The pieces of a member's text from its value on. */
  lemma MemberParts(js: string, at: nat, m: Members)
    requires m.Member? && At(js, at, PrintMembers(m))
    ensures var after := ValueAt(m, at) + |Print(m.value)|;
            && At(js, ValueAt(m, at), Print(m.value)) && At(js, after, m.post)
            && At(js, after, m.post + (CommaIf(m.others.Member?) + PrintMembers(m.others)))
            && At(js, after + |m.post|, CommaIf(m.others.Member?)) && At(js, NextMember(m, at), PrintMembers(m.others))
    ensures |PrintMembers(m)| == NextMember(m, at) - at + |PrintMembers(m.others)|
  {
    hide At, Print;
    KeyParts(js, at, m);
    var sep, tail := CommaIf(m.others.Member?), PrintMembers(m.others);
    AtSplit(js, ValueAt(m, at), Print(m.value), m.post + (sep + tail));
    AtSplit(js, ValueAt(m, at) + |Print(m.value)|, m.post, sep + tail);
    AtSplit(js, ValueAt(m, at) + |Print(m.value)| + |m.post|, sep, tail);
  }

  /** Running over a member's key and colon stores the key and makes it the superior token. */
  lemma RunKey(js: string, cap: nat, toks: seq<Token>, a: nat, at: nat, m: Members) returns (toks': seq<Token>)
    requires m.Member? && IsBlank(m.pre) && IsBody(m.key) && IsBlank(m.mid) && IsBlank(m.gap)
    requires At(js, at, PrintMembers(m)) && a < |toks| < cap
    ensures toks' == Bump(toks, a) + [Token(Str, at + |m.pre| + 1, at + |m.pre| + 1 + |m.key|, 0)]
    ensures Reaches(js, cap, State(at, toks, a), State(ValueAt(m, at), toks', |toks|))
  {
    hide Run, At, Print, IsBlank, IsBody, PrintMembers, Bump;
    KeyParts(js, at, m);
    var start := at + |m.pre|;
    toks' := Bump(toks, a) + [Token(Str, start + 1, start + 1 + |m.key|, 0)];
    RunBlank(js, cap, State(at, toks, a), m.pre);
    RunText(js, cap, toks, a, start, m.key);
    RunBlank(js, cap, State(start + |m.key| + 2, toks', a), m.mid);
    RunColon(js, cap, State(start + |m.key| + 2 + |m.mid|, toks', a));
    RunBlank(js, cap, State(start + |m.key| + 3 + |m.mid|, toks', |toks|), m.gap);
  }

  /** Running over a value stores its tokens, counts it once in the superior, and returns to the innermost
      open container if it was a container itself. */
  lemma {:induction false} RunValue(js: string, cap: nat, toks: seq<Token>, super: int, at: nat, v: Json)
    requires Valid(v) && At(js, at, Print(v)) && -1 <= super < |toks|
    requires Ended(js, v, at + |Print(v)|) && |toks| + Nodes(v) <= cap
    ensures Reaches(js, cap, State(at, toks, super),
                    State(at + |Print(v)|, Bump(toks, super) + Tokens(v, at), SuperAfter(v, toks, super)))
    decreases v
  {
    hide Run, At, Bump, LastOpen, IsBlank, IsBody, IsLexeme, ValidElems, ValidMembers, PrintElems, PrintMembers;
    var end := at + |Print(v)|;
    match v
    case Scalar(text) => RunScalar(js, cap, toks, super, at, text);
    case Text(body) => RunText(js, cap, toks, super, at, body);
    case List(ws, elems) => RunList(js, cap, toks, super, at, ws, elems);
    case Record(ws, members) => RunRecord(js, cap, toks, super, at, ws, members);
  }

  lemma {:induction false} RunList(js: string, cap: nat, toks: seq<Token>, super: int, at: nat, ws: string, elems: Elems)
    requires IsBlank(ws) && ValidElems(elems) && At(js, at, Print(List(ws, elems))) && -1 <= super < |toks|
    requires |toks| + Nodes(List(ws, elems)) <= cap
    ensures Reaches(js, cap, State(at, toks, super),
                    State(at + |Print(List(ws, elems))|, Bump(toks, super) + Tokens(List(ws, elems), at), LastOpen(toks, |toks|)))
    decreases elems, 2
  {
    hide Run, At, Bump, LastOpen, IsBlank, ValidElems, PrintElems, TokensOfElems, NodesOfElems;
    AtSplit(js, at, "[", ws + PrintElems(elems));
    AtSplit(js, at + 1, ws, PrintElems(elems));
    var end := at + |Print(List(ws, elems))|;
    var t := Token(Array, at, -1, 0);
    var base := Bump(toks, super) + [t];
    RunOpen(js, cap, toks, super, at, Array);
    RunBlank(js, cap, State(at + 1, base, |toks|), ws);
    OpenedBase(toks, super, t);
    RunElems(js, cap, base, |toks|, at + 1 + |ws|, elems);
    FinishedBase(Bump(toks, super), t, Finished(t, Length(elems), end), TokensOfElems(elems, at + 1 + |ws|));
  }

  lemma {:induction false} RunRecord(js: string, cap: nat, toks: seq<Token>, super: int, at: nat, ws: string, members: Members)
    requires IsBlank(ws) && ValidMembers(members) && At(js, at, Print(Record(ws, members))) && -1 <= super < |toks|
    requires |toks| + Nodes(Record(ws, members)) <= cap
    ensures Reaches(js, cap, State(at, toks, super),
                    State(at + |Print(Record(ws, members))|, Bump(toks, super) + Tokens(Record(ws, members), at), LastOpen(toks, |toks|)))
    decreases members, 2
  {
    hide Run, At, Bump, LastOpen, IsBlank, ValidMembers, PrintMembers, TokensOfMembers, NodesOfMembers;
    AtSplit(js, at, "{", ws + PrintMembers(members));
    AtSplit(js, at + 1, ws, PrintMembers(members));
    var end := at + |Print(Record(ws, members))|;
    var t := Token(Object, at, -1, 0);
    var base := Bump(toks, super) + [t];
    RunOpen(js, cap, toks, super, at, Object);
    RunBlank(js, cap, State(at + 1, base, |toks|), ws);
    OpenedBase(toks, super, t);
    RunMembers(js, cap, base, |toks|, at + 1 + |ws|, members);
    FinishedBase(Bump(toks, super), t, Finished(t, Entries(members), end), TokensOfMembers(members, at + 1 + |ws|));
  }

  lemma FinishedBase(toks: seq<Token>, t: Token, t': Token, inner: seq<Token>)
    ensures (toks + [t])[|toks| := t'] + inner == toks + ([t'] + inner)
  {}

  /** Running over the elements of the array opened by token a and its closing bracket. */
  lemma {:induction false} RunElems(js: string, cap: nat, toks: seq<Token>, a: nat, at: nat, e: Elems)
    requires ValidElems(e) && At(js, at, PrintElems(e))
    requires a == LastOpen(toks, |toks|) && toks[a].kind == Array && |toks| + NodesOfElems(e) <= cap
    ensures var end := at + |PrintElems(e)|;
            Reaches(js, cap, State(at, toks, a),
                    State(end, toks[a := Finished(toks[a], Length(e), end)] + TokensOfElems(e, at), LastOpen(toks, a)))
    decreases e, 1
  {
    hide Run, At, LastOpen, IsBlank, Valid, Print, Tokens;
    var end := at + |PrintElems(e)|;
    match e
    case NoElems =>
      RunClose(js, cap, State(at, toks, a), a, Array);
      assert toks[a := Finished(toks[a], 0, end)] + [] == toks[a := toks[a].(end := at + 1)];
    case Elem(pre, value, post, more) =>
      ElemParts(js, at, e);
      var toks1 := RunElem(js, cap, toks, a, at, e);
      RunElems(js, cap, toks1, a, NextElem(e, at), more);
      LastOpenBelow(toks, toks1, a);
      ElemsAssemble(toks, a, at, e, end);
  }

  /** Running over one element, up to the text of the further elements. */
  lemma {:induction false} RunElem(js: string, cap: nat, toks: seq<Token>, a: nat, at: nat, e: Elems) returns (toks1: seq<Token>)
    requires e.Elem? && ValidElems(e) && At(js, at, PrintElems(e))
    requires a == LastOpen(toks, |toks|) && toks[a].kind == Array && |toks| + Nodes(e.value) <= cap
    ensures toks1 == Bump(toks, a) + Tokens(e.value, at + |e.pre|) && LastOpen(toks1, |toks1|) == a
    ensures Reaches(js, cap, State(at, toks, a), State(NextElem(e, at), toks1, a))
    decreases e, 0
  {
    hide Run, At, LastOpen, IsBlank, Valid, Print, Tokens, PrintElems;
    var Elem(pre, value, post, more) := e;
    var mid := at + |pre| + |Print(value)|;
    ElemParts(js, at, e);
    RunBlank(js, cap, State(at, toks, a), pre);
    ElemsEnd(more);
    RestEnds(js, mid, post, more.Elem?, PrintElems(more));
    RunValue(js, cap, toks, a, at + |pre|, value);
    toks1 := Bump(toks, a) + Tokens(value, at + |pre|);
    TokensClosed(value, at + |pre|);
    ClosedKeepScan(toks, a, Tokens(value, at + |pre|));
    RunBlank(js, cap, State(mid, toks1, a), post);
    if more.Elem? { RunComma(js, cap, State(mid + |post|, toks1, a), a); }
  }

  lemma ElemsEnd(e: Elems)
    ensures e.NoElems? ==> PrintElems(e) == "]"
  {}

  lemma LastOpenBelow(toks: seq<Token>, toks': seq<Token>, a: nat)
    requires a < |toks| && a < |toks'| && forall i | 0 <= i < a :: toks'[i] == toks[i]
    ensures LastOpen(toks', a) == LastOpen(toks, a)
  {
    SameScan(toks', toks, a);
  }

  lemma ElemsAssemble(toks: seq<Token>, a: nat, at: nat, e: Elems, end: nat)
    requires e.Elem? && a < |toks|
    ensures var toks1 := Bump(toks, a) + Tokens(e.value, at + |e.pre|);
            toks1[a := Finished(toks1[a], Length(e.more), end)] + TokensOfElems(e.more, NextElem(e, at))
            == toks[a := Finished(toks[a], Length(e), end)] + TokensOfElems(e, at)
  {
    hide Tokens;
  }

  /** After white space comes a comma or the closing bracket, so a primitive ends where its text does. */
  lemma RestEnds(js: string, at: nat, post: string, more: bool, tail: string)
    requires At(js, at, post + (CommaIf(more) + tail)) && IsBlank(post)
    requires !more ==> tail == "]" || tail == "}"
    ensures at < |js| && IsDelimiter(js[at])
  {
    BlankEnds(js, at, post, CommaIf(more) + tail);
  }

  /** Running over the members of the object opened by token a and its closing bracket. */
  lemma {:induction false} RunMembers(js: string, cap: nat, toks: seq<Token>, a: nat, at: nat, m: Members)
    requires ValidMembers(m) && At(js, at, PrintMembers(m))
    requires a == LastOpen(toks, |toks|) && toks[a].kind == Object && |toks| + NodesOfMembers(m) <= cap
    ensures var end := at + |PrintMembers(m)|;
            Reaches(js, cap, State(at, toks, a),
                    State(end, toks[a := Finished(toks[a], Entries(m), end)] + TokensOfMembers(m, at), LastOpen(toks, a)))
    decreases m, 1
  {
    hide Run, At, LastOpen, IsBlank, IsBody, Valid, Print, Tokens;
    var end := at + |PrintMembers(m)|;
    match m
    case NoMembers =>
      RunClose(js, cap, State(at, toks, a), a, Object);
      assert toks[a := Finished(toks[a], 0, end)] + [] == toks[a := toks[a].(end := at + 1)];
    case Member(pre, key, mid, gap, value, post, others) =>
      var k, next := |toks|, NextMember(m, at);
      MemberParts(js, at, m);
      var toks2, super2 := RunMember(js, cap, toks, a, at, m);
      var after := ValueAt(m, at) + |Print(value)| + |post|;
      LastOpenBelow(toks, toks2, a);
      if others.Member? {
        RunComma(js, cap, State(after, toks2, super2), a);
        RunMembers(js, cap, toks2, a, next, others);
      } else {
        RunClose(js, cap, State(after, toks2, super2), a, Object);
        assert toks2[a := Finished(toks2[a], 0, end)] + [] == toks2[a := toks2[a].(end := end)];
      }
      MembersAssemble(toks, a, at, m, end);
  }

  /** The tokens after a whole member: its key, counted by the object and counting the value, and the value. */
  function WithMember(toks: seq<Token>, a: nat, at: nat, m: Members): seq<Token>
    requires m.Member? && a < |toks|
  {
    Bump(toks, a) + [Token(Str, at + |m.pre| + 1, at + |m.pre| + 1 + |m.key|, 1)] + Tokens(m.value, ValueAt(m, at))
  }

  lemma {:induction false} RunMember(js: string, cap: nat, toks: seq<Token>, a: nat, at: nat, m: Members)
    returns (toks2: seq<Token>, super2: int)
    requires m.Member? && ValidMembers(m) && At(js, at, PrintMembers(m))
    requires a == LastOpen(toks, |toks|) && |toks| + 1 + Nodes(m.value) <= cap
    ensures toks2 == WithMember(toks, a, at, m) && LastOpen(toks2, |toks2|) == a
    ensures super2 == a || (super2 == |toks| && toks2[super2].kind == Str)
    ensures Reaches(js, cap, State(at, toks, a), State(ValueAt(m, at) + |Print(m.value)| + |m.post|, toks2, super2))
    decreases m, 0
  {
    hide Run, At, LastOpen, IsBlank, IsBody, Valid, Print, Tokens;
    var k, atValue := |toks|, ValueAt(m, at);
    MemberParts(js, at, m);
    var toks1 := RunKey(js, cap, toks, a, at, m);
    ClosedKeepScan(toks, a, [toks1[k]]);
    RestEnds(js, atValue + |Print(m.value)|, m.post, m.others.Member?, PrintMembers(m.others));
    RunValue(js, cap, toks1, k, atValue, m.value);
    TokensClosed(m.value, atValue);
    ClosedKeepScan(toks1, k, Tokens(m.value, atValue));
    toks2 := Bump(toks1, k) + Tokens(m.value, atValue);
    super2 := SuperAfter(m.value, toks1, k);
    assert toks2 == WithMember(toks, a, at, m);
    RunBlank(js, cap, State(atValue + |Print(m.value)|, toks2, super2), m.post);
  }

  lemma MembersAssemble(toks: seq<Token>, a: nat, at: nat, m: Members, end: nat)
    requires m.Member? && a < |toks|
    ensures var toks2 := WithMember(toks, a, at, m);
            toks2[a := Finished(toks2[a], Entries(m.others), end)] + TokensOfMembers(m.others, NextMember(m, at))
            == toks[a := Finished(toks[a], Entries(m), end)] + TokensOfMembers(m, at)
  {
    hide Tokens;
  }

  /** For every JSON text, with any white space around it, `jsmn_parse` with at least as many tokens as the tree
      has nodes returns the node count and exactly the preorder of the tree. */
  lemma {:induction false} TokenizesEveryText(before: string, v: Json, after: string, cap: nat)
    requires IsBlank(before) && Valid(v) && IsBlank(after) && Nodes(v) <= cap
    ensures var o := Parse(before + (Print(v) + after), Some(cap), START);
            o.Done? && o.count == Nodes(v) && o.st.toks == Tokens(v, |before|)
  {
    hide Run, ParseStep, At, Print, IsBlank, Valid, Tokens, Ended, LastOpen;
    var js := before + (Print(v) + after);
    var end := |before| + |Print(v)|;
    AtWhole(js);
    AtSplit(js, 0, before, Print(v) + after);
    AtSplit(js, |before|, Print(v), after);
    RunBlank(js, cap, START, before);
    BlankAfter(js, v, end, after);
    RunValue(js, cap, [], -1, |before|, v);
    var st := State(end, Tokens(v, |before|), SuperAfter(v, [], -1));
    assert Bump([], -1) + Tokens(v, |before|) == Tokens(v, |before|);
    RunBlank(js, cap, st, after);
    TokensClosed(v, |before|);
    RunEnds(js, cap, st.(pos := |js|));
  }

  lemma BlankAfter(js: string, v: Json, end: nat, after: string)
    requires At(js, end, after) && IsBlank(after) && |js| == end + |after|
    ensures Ended(js, v, end)
  {
    if after != [] { AtIndex(js, end, after, 0); }
  }

  lemma RunEnds(js: string, cap: nat, st: State)
    requires st.Ok() && st.pos == |js| && forall i | 0 <= i < |st.toks| :: !IsOpen(st.toks[i])
    ensures Run(js, Some(cap), st, |st.toks|) == Done(st, |st.toks|)
  {}
}
