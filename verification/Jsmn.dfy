/** The jsmn tokenizer (non-strict, without parent links): one step of its main loop, and a whole run, as
    functions of the parser's state and the tokens filled so far. */
module Jsmn {
  import opened Options

  datatype Kind = Undefined | Object | Array | Str | Primitive

  datatype Token = Token(kind: Kind, start: int, end: int, size: int)

  datatype Error = NoMem | Inval | Part

  /** The parser's fields together with the tokens filled so far; `toknext` is |toks|. */
  datatype State = State(pos: nat, toks: seq<Token>, super: int) {
    ghost predicate Ok() { -1 <= super < |toks| }
  }

  datatype Step = Next(st: State, count: nat) | Fail(st: State, error: Error)

  datatype Outcome = Done(st: State, count: nat) | Failed(st: State, error: Error)

  // ---------- characters ----------

  predicate Stops(js: string, pos: nat) {
    pos >= |js| || js[pos] == '\0'
  }

  predicate IsSpace(c: char) {
    c == '\t' || c == '\r' || c == '\n' || c == ' '
  }

  /** The characters that end a primitive. */
  predicate IsDelimiter(c: char) {
    IsSpace(c) || c == ':' || c == ',' || c == ']' || c == '}'
  }

  predicate IsBad(c: char) {
    c < ' ' || c >= 127 as char
  }

  predicate IsHex(c: char) {
    '0' <= c <= '9' || 'A' <= c <= 'F' || 'a' <= c <= 'f'
  }

  predicate IsEscape(c: char) {
    c == '\"' || c == '/' || c == '\\' || c == 'b' || c == 'f' || c == 'r' || c == 'n' || c == 't'
  }

  // ---------- lexemes ----------

  /** Where the primitive that continues at pos ends, or None at a character it may not contain. */
  function ScanPrimitive(js: string, pos: nat): (r: Option<nat>)
    ensures r.Some? ==> pos <= r.value && (pos <= |js| ==> r.value <= |js|)
    ensures r.Some? && !Stops(js, pos) && !IsDelimiter(js[pos]) ==> pos < r.value
    decreases |js| - pos
  {
    if Stops(js, pos) || IsDelimiter(js[pos]) then Some(pos)
    else if IsBad(js[pos]) then None
    else ScanPrimitive(js, pos + 1)
  }

  /** Past at most n hexadecimal digits, or None at another character. */
  function ScanHex(js: string, pos: nat, n: nat): (r: Option<nat>)
    ensures r.Some? ==> pos <= r.value && (pos <= |js| ==> r.value <= |js|)
    decreases n
  {
    if n == 0 || Stops(js, pos) then Some(pos)
    else if !IsHex(js[pos]) then None
    else ScanHex(js, pos + 1, n - 1)
  }

  datatype Quoted = Closed(at: nat) | Open | Bad

  /** The position of the quote that closes the string whose body continues at pos. */
  function ScanString(js: string, pos: nat): (r: Quoted)
    ensures r.Closed? ==> pos <= r.at < |js| && js[r.at] == '\"'
    decreases |js| - pos
  {
    if Stops(js, pos) then Open
    else if js[pos] == '\"' then Closed(pos)
    else if js[pos] == '\\' && pos + 1 < |js| then
      if IsEscape(js[pos + 1]) then ScanString(js, pos + 2)
      else if js[pos + 1] == 'u' then
        match ScanHex(js, pos + 2, 4)
        case None => Bad
        case Some(after) => ScanString(js, after)
      else Bad
    else ScanString(js, pos + 1)
  }

  // ---------- tokens ----------

  predicate IsOpen(t: Token) {
    t.start != -1 && t.end == -1
  }

  predicate IsContainer(t: Token) {
    t.kind == Array || t.kind == Object
  }

  /** The backward scan for an unclosed token: the last one below n, or -1. */
  function LastOpen(toks: seq<Token>, n: nat): (i: int)
    requires n <= |toks|
    ensures -1 <= i < n
    ensures i >= 0 ==> IsOpen(toks[i])
    ensures forall j | i < j < n :: !IsOpen(toks[j])
  {
    if n == 0 then -1 else if IsOpen(toks[n - 1]) then n - 1 else LastOpen(toks, n - 1)
  }

  /** The backward scan of the comma case, which also looks at the kind. */
  function LastOpenContainer(toks: seq<Token>, n: nat): (i: int)
    requires n <= |toks|
    ensures -1 <= i < n
    ensures i >= 0 ==> IsOpen(toks[i]) && IsContainer(toks[i])
    ensures forall j | i < j < n :: !(IsOpen(toks[j]) && IsContainer(toks[j]))
  {
    if n == 0 then -1
    else if IsContainer(toks[n - 1]) && IsOpen(toks[n - 1]) then n - 1
    else LastOpenContainer(toks, n - 1)
  }

  /** `tokens[toksuper].size++`, if there is a superior token. */
  function Bump(toks: seq<Token>, super: int): (r: seq<Token>)
    requires -1 <= super < |toks|
    ensures |r| == |toks|
  {
    if super == -1 then toks else toks[super := toks[super].(size := toks[super].size + 1)]
  }

  // ---------- one step ----------

  /** A new token in the next free slot, counted by its superior. With no token array (`cap` is None) nothing is
      stored; with a full one the step fails and leaves the parser where it was. */
  function Store(cap: Option<nat>, st: State, count: nat, t: Token, pos: nat, super: int): Step
    requires st.Ok()
  {
    if cap.None? then Next(State(pos, st.toks, st.super), count + 1)
    else if |st.toks| >= cap.value then Fail(st, NoMem)
    else Next(State(pos, Bump(st.toks, st.super) + [t], super), count + 1)
  }

  function OpenBracket(cap: Option<nat>, st: State, count: nat, kind: Kind): Step
    requires st.Ok()
  {
    Store(cap, st, count, Token(kind, st.pos, -1, 0), st.pos + 1, |st.toks|)
  }

  function CloseBracket(cap: Option<nat>, st: State, count: nat, kind: Kind): Step
    requires st.Ok()
  {
    if cap.None? then Next(st.(pos := st.pos + 1), count)
    else
      var i := LastOpen(st.toks, |st.toks|);
      if i == -1 || st.toks[i].kind != kind then Fail(st, Inval)
      else
        var toks := st.toks[i := st.toks[i].(end := st.pos + 1)];
        Next(State(st.pos + 1, toks, LastOpen(toks, i + 1)), count)
  }

  function Comma(cap: Option<nat>, st: State, count: nat): Step
    requires st.Ok()
  {
    var i := LastOpenContainer(st.toks, |st.toks|);
    if cap.Some? && st.super != -1 && !IsContainer(st.toks[st.super]) && i >= 0
    then Next(State(st.pos + 1, st.toks, i), count)
    else Next(st.(pos := st.pos + 1), count)
  }

  function StringToken(js: string, cap: Option<nat>, st: State, count: nat): Step
    requires st.Ok()
  {
    match ScanString(js, st.pos + 1)
    case Open => Fail(st, Part)
    case Bad => Fail(st, Inval)
    case Closed(at) => Store(cap, st, count, Token(Str, st.pos + 1, at, 0), at + 1, st.super)
  }

  function PrimitiveToken(js: string, cap: Option<nat>, st: State, count: nat): Step
    requires st.Ok()
  {
    match ScanPrimitive(js, st.pos)
    case None => Fail(st, Inval)
    case Some(after) => Store(cap, st, count, Token(Primitive, st.pos, after, 0), after, st.super)
  }

  /** One iteration of the main loop of `jsmn_parse`. */
  function ParseStep(js: string, cap: Option<nat>, st: State, count: nat): (r: Step)
    requires st.Ok() && !Stops(js, st.pos)
    ensures r.st.Ok()
    ensures r.Next? ==> st.pos < r.st.pos <= |js|
    ensures r.Fail? ==> r.st == st
  {
    match js[st.pos]
    case '{' => OpenBracket(cap, st, count, Object)
    case '[' => OpenBracket(cap, st, count, Array)
    case '}' => CloseBracket(cap, st, count, Object)
    case ']' => CloseBracket(cap, st, count, Array)
    case '\"' => StringToken(js, cap, st, count)
    case '\t' => Next(st.(pos := st.pos + 1), count)
    case '\r' => Next(st.(pos := st.pos + 1), count)
    case '\n' => Next(st.(pos := st.pos + 1), count)
    case ' ' => Next(st.(pos := st.pos + 1), count)
    case ':' => Next(State(st.pos + 1, st.toks, |st.toks| - 1), count)
    case ',' => Comma(cap, st, count)
    case _ => PrimitiveToken(js, cap, st, count)
  }

  /** The rest of a `jsmn_parse` call from a given state. */
  function Run(js: string, cap: Option<nat>, st: State, count: nat): (r: Outcome)
    requires st.Ok()
    ensures r.st.Ok()
    decreases |js| - st.pos
  {
    if Stops(js, st.pos) then
      if cap.Some? && LastOpen(st.toks, |st.toks|) >= 0 then Failed(st, Part) else Done(st, count)
    else
      match ParseStep(js, cap, st, count)
      case Next(st', count') => Run(js, cap, st', count')
      case Fail(st', e) => Failed(st', e)
  }

  /** A whole `jsmn_parse` call: the count starts at the number of tokens already filled. */
  function Parse(js: string, cap: Option<nat>, st: State): Outcome
    requires st.Ok()
  {
    Run(js, cap, st, |st.toks|)
  }

  /** The state that `jsmn_init` sets up. */
  const START := State(0, [], -1)
}
