/** The backward scans of jsmn simulate a bracket stack, and every run keeps the token array well nested. */
module JsmnStack {
  import opened Options
  import opened Jsmn

  // ---------- the reference machine: the same steps with an explicit stack of open containers ----------

  /** `stack` holds the indices of the open containers; `roots` counts the tokens stored with no superior. */
  datatype Machine = Machine(st: State, stack: seq<nat>, roots: nat)

  datatype Move = Moved(m: Machine) | Stuck(error: Error)

  function Top(stack: seq<nat>): (r: int)
    ensures if stack == [] then r == -1 else r >= 0 && r in stack
  {
    if stack == [] then -1 else stack[|stack| - 1]
  }

  ghost predicate OnStack(m: Machine) {
    m.st.Ok() && forall i | i in m.stack :: i < |m.st.toks|
  }

  function Push(cap: nat, m: Machine, t: Token, pos: nat, opens: bool): Move
    requires m.st.Ok()
  {
    var n := |m.st.toks|;
    if n >= cap then Stuck(NoMem)
    else Moved(Machine(State(pos, Bump(m.st.toks, m.st.super) + [t], if opens then n else m.st.super),
                       if opens then m.stack + [n] else m.stack,
                       if m.st.super == -1 then m.roots + 1 else m.roots))
  }

  function Pop(m: Machine, kind: Kind): Move
    requires OnStack(m)
  {
    var toks, top := m.st.toks, Top(m.stack);
    if top == -1 || toks[top].kind != kind then Stuck(Inval)
    else
      var rest := m.stack[..|m.stack| - 1];
      Moved(Machine(State(m.st.pos + 1, toks[top := toks[top].(end := m.st.pos + 1)], Top(rest)), rest, m.roots))
  }

  function Skip(m: Machine, super: int): Move {
    Moved(m.(st := State(m.st.pos + 1, m.st.toks, super)))
  }

  /** One step with the stack in place of every scan. */
  function StackStep(js: string, cap: nat, m: Machine): (r: Move)
    requires OnStack(m) && !Stops(js, m.st.pos)
    ensures r.Moved? && |m.st.toks| <= cap ==> |r.m.st.toks| <= cap
  {
    var pos, toks, super := m.st.pos, m.st.toks, m.st.super;
    match js[pos]
    case '{' => Push(cap, m, Token(Object, pos, -1, 0), pos + 1, true)
    case '[' => Push(cap, m, Token(Array, pos, -1, 0), pos + 1, true)
    case '}' => Pop(m, Object)
    case ']' => Pop(m, Array)
    case ':' => Skip(m, |toks| - 1)
    case ',' => Skip(m, if super != -1 && !IsContainer(toks[super]) && m.stack != [] then Top(m.stack) else super)
    case '\"' =>
      (match ScanString(js, pos + 1)
       case Open => Stuck(Part)
       case Bad => Stuck(Inval)
       case Closed(at) => Push(cap, m, Token(Str, pos + 1, at, 0), at + 1, false))
    case c =>
      if IsSpace(c) then Skip(m, super)
      else
        match ScanPrimitive(js, pos)
        case None => Stuck(Inval)
        case Some(after) => Push(cap, m, Token(Primitive, pos, after, 0), after, false)
  }

  // ---------- the invariant ----------

  /** The open tokens among the first n, innermost last. */
  function Opens(toks: seq<Token>, n: nat): (s: seq<nat>)
    requires n <= |toks|
    ensures forall i | i in s :: i < n && IsOpen(toks[i])
  {
    if n == 0 then []
    else if IsOpen(toks[n - 1]) then Opens(toks, n - 1) + [n - 1]
    else Opens(toks, n - 1)
  }

  function Sizes(toks: seq<Token>): int {
    if toks == [] then 0 else Sizes(toks[..|toks| - 1]) + toks[|toks| - 1].size
  }

  function Opener(k: Kind): char { if k == Object then '{' else '[' }

  function Closer(k: Kind): char { if k == Object then '}' else ']' }

  /** What a single token says about the text. */
  ghost predicate Spans(js: string, pos: nat, t: Token) {
    && 0 <= t.start < pos <= |js|
    && (t.end != -1 ==> t.start <= t.end <= pos)
    && (match t.kind
        case Str => t.start > 0 && js[t.start - 1] == '\"' && t.start <= t.end < pos && js[t.end] == '\"'
        case Primitive => t.start < t.end
        case Undefined => false
        case _ => js[t.start] == Opener(t.kind) && (t.end != -1 ==> t.start < t.end - 1 && js[t.end - 1] == Closer(t.kind)))
  }

  /** The spans of two tokens, the first created earlier, are nested or disjoint. */
  ghost predicate NestedOrDisjoint(a: Token, b: Token) {
    a.start < b.start && (a.end != -1 ==> (b.end != -1 && b.end <= a.end) || a.end <= b.start)
  }

  ghost predicate WellNested(toks: seq<Token>) {
    forall i, j | 0 <= i < j < |toks| :: NestedOrDisjoint(toks[i], toks[j])
  }

  ghost predicate AllSpan(js: string, pos: nat, toks: seq<Token>) {
    pos <= |js| && forall i | 0 <= i < |toks| :: Spans(js, pos, toks[i])
  }

  /** The invariant of every run: the stack is exactly the open tokens in order, the spans are well nested, and
      sizes and roots together account for every token. */
  ghost predicate Inv(js: string, m: Machine) {
    && OnStack(m)
    && m.stack == Opens(m.st.toks, |m.st.toks|)
    && AllSpan(js, m.st.pos, m.st.toks)
    && WellNested(m.st.toks)
    && Sizes(m.st.toks) + m.roots == |m.st.toks|
  }

  // ---------- lemmas on open tokens ----------

  lemma {:induction false} ScanIsTop(toks: seq<Token>, n: nat)
    requires n <= |toks|
    ensures LastOpen(toks, n) == Top(Opens(toks, n))
  {
    if n > 0 { ScanIsTop(toks, n - 1); }
  }

  lemma {:induction false} ContainerScanIsScan(toks: seq<Token>, n: nat)
    requires n <= |toks|
    requires forall i | 0 <= i < n && IsOpen(toks[i]) :: IsContainer(toks[i])
    ensures LastOpenContainer(toks, n) == LastOpen(toks, n)
  {
    if n > 0 { ContainerScanIsScan(toks, n - 1); }
  }

  lemma {:induction false} OpensSame(a: seq<Token>, b: seq<Token>, n: nat)
    requires n <= |a| && n <= |b|
    requires forall i | 0 <= i < n :: IsOpen(a[i]) <==> IsOpen(b[i])
    ensures Opens(a, n) == Opens(b, n)
  {
    if n > 0 { OpensSame(a, b, n - 1); }
  }

  lemma {:induction false} OpensSkip(toks: seq<Token>, m: nat, n: nat)
    requires m <= n <= |toks|
    requires forall i | m <= i < n :: !IsOpen(toks[i])
    ensures Opens(toks, n) == Opens(toks, m)
    decreases n
  {
    if m < n { OpensSkip(toks, m, n - 1); }
  }

  /** Closing the innermost open token pops the stack. */
  lemma OpensClose(toks: seq<Token>, i: nat, end: nat)
    requires i == LastOpen(toks, |toks|)
    ensures i < |toks|
    ensures var toks' := toks[i := toks[i].(end := end)];
            Opens(toks, |toks|) == Opens(toks', |toks|) + [i] && Opens(toks', i + 1) == Opens(toks', |toks|)
  {
    var toks' := toks[i := toks[i].(end := end)];
    OpensSkip(toks, i + 1, |toks|);
    OpensSkip(toks', i + 1, |toks|);
    OpensSame(toks, toks', i);
  }

  lemma OpensAppend(toks: seq<Token>, super: int, t: Token)
    requires -1 <= super < |toks|
    ensures var toks' := Bump(toks, super) + [t];
            Opens(toks', |toks'|) == Opens(toks, |toks|) + (if IsOpen(t) then [|toks|] else [])
  {
    OpensSame(toks, Bump(toks, super) + [t], |toks|);
  }

  lemma {:induction false} SizesUpdate(toks: seq<Token>, i: nat, t: Token)
    requires i < |toks|
    ensures Sizes(toks[i := t]) == Sizes(toks) - toks[i].size + t.size
  {
    var last := |toks| - 1;
    if i < last {
      SizesUpdate(toks[..last], i, t);
      assert toks[i := t][..last] == toks[..last][i := t];
    } else {
      assert toks[i := t][..last] == toks[..last];
    }
  }

  lemma SizesAppend(toks: seq<Token>, super: int, t: Token)
    requires -1 <= super < |toks|
    ensures Sizes(Bump(toks, super) + [t]) == Sizes(toks) + (if super == -1 then 0 else 1) + t.size
  {
    var b := Bump(toks, super);
    assert (b + [t])[..|b|] == b;
    if super >= 0 { SizesUpdate(toks, super, toks[super].(size := toks[super].size + 1)); }
  }

  // ---------- every step keeps the invariant ----------

  lemma PushKeeps(js: string, cap: nat, m: Machine, t: Token, pos: nat, opens: bool)
    requires Inv(js, m) && m.st.pos <= t.start && m.st.pos < pos <= |js|
    requires Spans(js, pos, t) && t.size == 0 && (opens <==> IsOpen(t))
    ensures Push(cap, m, t, pos, opens).Moved? ==> Inv(js, Push(cap, m, t, pos, opens).m)
  {
    var toks := m.st.toks;
    var toks' := Bump(toks, m.st.super) + [t];
    hide Opens, Sizes, Spans, AllSpan, WellNested;
    OpensAppend(toks, m.st.super, t);
    SizesAppend(toks, m.st.super, t);
    AppendSpans(js, toks, m.st.pos, m.st.super, t, pos);
  }

  /** A new token behind all others spans well and nests. */
  lemma AppendSpans(js: string, toks: seq<Token>, was: nat, super: int, t: Token, pos: nat)
    requires AllSpan(js, was, toks) && WellNested(toks) && -1 <= super < |toks|
    requires was <= t.start && was < pos <= |js| && Spans(js, pos, t)
    ensures AllSpan(js, pos, Bump(toks, super) + [t]) && WellNested(Bump(toks, super) + [t])
  {
    hide Spans;
    var toks' := Bump(toks, super) + [t];
    forall i | 0 <= i < |toks'|
      ensures Spans(js, pos, toks'[i])
    {
      if i < |toks| { SpansLater(js, was, toks[i], pos, toks'[i]); }
    }
    forall i, j | 0 <= i < j < |toks'|
      ensures NestedOrDisjoint(toks'[i], toks'[j])
    {
      if j < |toks| { assert NestedOrDisjoint(toks[i], toks[j]); } else { SpansEarlier(js, was, toks[i], toks'[i], t); }
    }
  }

  lemma SpansLater(js: string, was: nat, t: Token, pos: nat, t': Token)
    requires Spans(js, was, t) && was <= pos <= |js| && t' == t.(size := t'.size)
    ensures Spans(js, pos, t')
  {}

  lemma SpansEarlier(js: string, was: nat, a: Token, a': Token, t: Token)
    requires Spans(js, was, a) && was <= t.start && a' == a.(size := a'.size)
    ensures NestedOrDisjoint(a', t)
  {}

  lemma PopKeeps(js: string, m: Machine, kind: Kind)
    requires Inv(js, m) && m.st.pos < |js| && js[m.st.pos] == Closer(kind) && (kind == Object || kind == Array)
    ensures Pop(m, kind).Moved? ==> Inv(js, Pop(m, kind).m)
  {
    hide AllSpan, WellNested, Opens, Sizes;
    var toks, pos := m.st.toks, m.st.pos;
    ScanIsTop(toks, |toks|);
    var top := Top(m.stack);
    if Pop(m, kind).Moved? {
      OpensClose(toks, top, pos + 1);
      SizesUpdate(toks, top, toks[top].(end := pos + 1));
      CloseSpans(js, toks, pos, top);
      CloseNested(js, toks, pos, top);
    }
  }

  lemma CloseSpans(js: string, toks: seq<Token>, pos: nat, top: nat)
    requires AllSpan(js, pos, toks) && pos < |js| && top < |toks| && IsContainer(toks[top]) && js[pos] == Closer(toks[top].kind)
    ensures AllSpan(js, pos + 1, toks[top := toks[top].(end := pos + 1)])
  {
    var toks' := toks[top := toks[top].(end := pos + 1)];
    forall i | 0 <= i < |toks'|
      ensures Spans(js, pos + 1, toks'[i])
    {
      assert Spans(js, pos, toks[i]);
      if i == top { assert Opener(toks[top].kind) != Closer(toks[top].kind); }
    }
  }

  lemma CloseNested(js: string, toks: seq<Token>, pos: nat, top: nat)
    requires AllSpan(js, pos, toks) && WellNested(toks) && top == LastOpen(toks, |toks|)
    ensures top < |toks| && WellNested(toks[top := toks[top].(end := pos + 1)])
  {
    var toks' := toks[top := toks[top].(end := pos + 1)];
    forall i, j | 0 <= i < j < |toks'|
      ensures NestedOrDisjoint(toks'[i], toks'[j])
    {
      assert NestedOrDisjoint(toks[i], toks[j]);
      assert Spans(js, pos, toks[j]);
    }
  }

  lemma SkipKeeps(js: string, m: Machine, super: int)
    requires Inv(js, m) && m.st.pos < |js| && -1 <= super < |m.st.toks|
    ensures Inv(js, Skip(m, super).m)
  {
    forall i | 0 <= i < |m.st.toks|
      ensures Spans(js, m.st.pos + 1, m.st.toks[i])
    {
      assert Spans(js, m.st.pos, m.st.toks[i]);
    }
  }

  lemma {:induction false} StackStepKeeps(js: string, cap: nat, m: Machine)
    requires Inv(js, m) && !Stops(js, m.st.pos)
    ensures StackStep(js, cap, m).Moved? ==> Inv(js, StackStep(js, cap, m).m) && StackStep(js, cap, m).m.st.pos > m.st.pos
  {
    hide Inv, Opens, Sizes;
    InvFacts(js, m);
    var pos := m.st.pos;
    match js[pos]
    case '{' => PushKeeps(js, cap, m, Token(Object, pos, -1, 0), pos + 1, true);
    case '[' => PushKeeps(js, cap, m, Token(Array, pos, -1, 0), pos + 1, true);
    case '}' => PopKeeps(js, m, Object);
    case ']' => PopKeeps(js, m, Array);
    case ':' => SkipKeeps(js, m, |m.st.toks| - 1);
    case ',' =>
      SkipKeeps(js, m, m.st.super);
      SkipKeeps(js, m, Top(m.stack));
    case '\"' =>
      var q := ScanString(js, pos + 1);
      if q.Closed? { PushKeeps(js, cap, m, Token(Str, pos + 1, q.at, 0), q.at + 1, false); }
    case c =>
      var p := ScanPrimitive(js, pos);
      if IsSpace(c) { SkipKeeps(js, m, m.st.super); }
      else if p.Some? { PushKeeps(js, cap, m, Token(Primitive, pos, p.value, 0), p.value, false); }
  }

  lemma InvFacts(js: string, m: Machine)
    requires Inv(js, m)
    ensures OnStack(m)
  {}

  /** The scans of the code and the stack of the reference machine make the same step. */
  lemma {:induction false} StepSimulates(js: string, cap: nat, m: Machine, count: nat)
    requires Inv(js, m) && !Stops(js, m.st.pos)
    ensures match StackStep(js, cap, m)
            case Moved(m') => ParseStep(js, Some(cap), m.st, count).Next? && ParseStep(js, Some(cap), m.st, count).st == m'.st
                              && ParseStep(js, Some(cap), m.st, count).count == count + |m'.st.toks| - |m.st.toks|
            case Stuck(e) => ParseStep(js, Some(cap), m.st, count) == Fail(m.st, e)
  {
    hide Inv, Opens, LastOpen, LastOpenContainer, CloseBracket, Comma, Pop;
    InvFacts(js, m);
    match js[m.st.pos]
    case '}' => CloseSimulates(js, cap, m, count, Object);
    case ']' => CloseSimulates(js, cap, m, count, Array);
    case ',' => CommaSimulates(js, cap, m, count);
    case _ =>
  }

  lemma CloseSimulates(js: string, cap: nat, m: Machine, count: nat, kind: Kind)
    requires Inv(js, m)
    ensures match Pop(m, kind)
            case Moved(m') => CloseBracket(Some(cap), m.st, count, kind) == Next(m'.st, count) && |m'.st.toks| == |m.st.toks|
            case Stuck(e) => CloseBracket(Some(cap), m.st, count, kind) == Fail(m.st, e)
  {
    hide AllSpan, WellNested, Sizes, Opens, LastOpen;
    ScanIsTop(m.st.toks, |m.st.toks|);
    if m.stack != [] { ScanAfterClose(m.st.toks, m.stack, m.st.pos + 1); }
  }

  /** The second backward scan, from the token just closed, finds the new top of the stack. */
  lemma ScanAfterClose(toks: seq<Token>, stack: seq<nat>, end: nat)
    requires stack == Opens(toks, |toks|) && stack != []
    ensures var top := Top(stack); LastOpen(toks[top := toks[top].(end := end)], top + 1) == Top(stack[..|stack| - 1])
  {
    hide Opens, LastOpen;
    ScanIsTop(toks, |toks|);
    var top := Top(stack);
    OpensClose(toks, top, end);
    var toks' := toks[top := toks[top].(end := end)];
    ScanIsTop(toks', top + 1);
    assert Opens(toks', top + 1) == stack[..|stack| - 1];
  }

  lemma CommaSimulates(js: string, cap: nat, m: Machine, count: nat)
    requires Inv(js, m)
    ensures var s := if m.st.super != -1 && !IsContainer(m.st.toks[m.st.super]) && m.stack != [] then Top(m.stack) else m.st.super;
            Comma(Some(cap), m.st, count) == Next(Skip(m, s).m.st, count)
  {
    var toks := m.st.toks;
    ScanIsTop(toks, |toks|);
    forall i | 0 <= i < |toks| && IsOpen(toks[i]) ensures IsContainer(toks[i]) { assert Spans(js, m.st.pos, toks[i]); }
    ContainerScanIsScan(toks, |toks|);
  }

  // ---------- whole runs ----------

  /** A run of the reference machine; a run that ends with a container open is incomplete. */
  function StackRun(js: string, cap: nat, m: Machine): (r: (Machine, Option<Error>))
    requires Inv(js, m)
    decreases |js| - m.st.pos
  {
    if Stops(js, m.st.pos) then (m, if m.stack == [] then None else Some(Part))
    else
      StackStepKeeps(js, cap, m);
      match StackStep(js, cap, m)
      case Moved(m') => StackRun(js, cap, m')
      case Stuck(e) => (m, Some(e))
  }

  const EMPTY := Machine(START, [], 0)

  lemma EmptyInv(js: string)
    ensures Inv(js, EMPTY)
  {}

  lemma {:induction false} StackRunKeeps(js: string, cap: nat, m: Machine)
    requires Inv(js, m)
    ensures Inv(js, StackRun(js, cap, m).0)
    decreases |js| - m.st.pos
  {
    hide Inv, StackStep;
    if !Stops(js, m.st.pos) {
      StackStepKeeps(js, cap, m);
      InvFacts(js, m);
      match StackStep(js, cap, m)
      case Moved(m') => StackRunKeeps(js, cap, m');
      case Stuck(_) =>
    }
  }

  /** `jsmn_parse` refines the stack machine: same final state, same error or the number of tokens as result. */
  lemma {:induction false} RunSimulates(js: string, cap: nat, m: Machine)
    requires Inv(js, m)
    ensures var (m', e) := StackRun(js, cap, m);
            Run(js, Some(cap), m.st, |m.st.toks|) == if e.Some? then Failed(m'.st, e.value) else Done(m'.st, |m'.st.toks|)
    decreases |js| - m.st.pos
  {
    hide Inv, StackStep, ParseStep;
    InvFacts(js, m);
    if Stops(js, m.st.pos) {
      InvOpens(js, m);
    } else {
      StackStepKeeps(js, cap, m);
      StepSimulates(js, cap, m, |m.st.toks|);
      match StackStep(js, cap, m)
      case Moved(m') => RunSimulates(js, cap, m');
      case Stuck(_) =>
    }
  }

  lemma InvOpens(js: string, m: Machine)
    requires Inv(js, m)
    ensures LastOpen(m.st.toks, |m.st.toks|) == Top(m.stack)
  {
    ScanIsTop(m.st.toks, |m.st.toks|);
  }

  /** What a successful parse of any text guarantees about its tokens. */
  lemma SuccessIsWellNested(js: string, cap: nat)
    ensures var o := Parse(js, Some(cap), START);
            o.Done? ==>
              var toks := o.st.toks;
              && o.count == |toks| <= cap
              && WellNested(toks)
              && (forall i | 0 <= i < |toks| :: toks[i].end != -1 && Spans(js, o.st.pos, toks[i]))
              && o.st.pos <= |js| && -1 <= o.st.super < |toks|
              && Sizes(toks) + StackRun(js, cap, EMPTY).0.roots == |toks|
  {
    hide Opens, Sizes, WellNested, StackStep, StackRun, Run;
    EmptyInv(js);
    RunSimulates(js, cap, EMPTY);
    StackRunKeeps(js, cap, EMPTY);
    CapacityKept(js, cap, EMPTY);
    var o := Parse(js, Some(cap), START);
    if o.Done? { RunClosesAll(js, cap, START, 0); }
  }

  lemma {:induction false} CapacityKept(js: string, cap: nat, m: Machine)
    requires Inv(js, m) && |m.st.toks| <= cap
    ensures |StackRun(js, cap, m).0.st.toks| <= cap
    decreases |js| - m.st.pos
  {
    hide Inv, StackStep;
    InvFacts(js, m);
    if !Stops(js, m.st.pos) {
      StackStepKeeps(js, cap, m);
      match StackStep(js, cap, m)
      case Moved(m') => CapacityKept(js, cap, m');
      case Stuck(_) =>
    }
  }

  lemma {:induction false} RunClosesAll(js: string, cap: nat, st: State, count: nat)
    requires st.Ok() && Run(js, Some(cap), st, count).Done?
    ensures var toks := Run(js, Some(cap), st, count).st.toks; forall i | 0 <= i < |toks| :: !IsOpen(toks[i])
    decreases |js| - st.pos
  {
    hide ParseStep;
    if !Stops(js, st.pos) {
      var s := ParseStep(js, Some(cap), st, count);
      RunClosesAll(js, cap, s.st, s.count);
    }
  }
}
