/** The imperative `jsmn_parser`, proved against the steps of module Jsmn. */
module JsmnParsing {
  import opened Options
  import opened Jsmn

  /** The C return code of an error. */
  function ErrorCode(e: Error): int {
    match e
    case NoMem => -1
    case Inval => -2
    case Part => -3
  }

  function ReturnCode(o: Outcome): int {
    match o
    case Done(_, count) => count
    case Failed(_, e) => ErrorCode(e)
  }

  const BLANK := Token(Undefined, -1, -1, 0)

  ghost function Capacity(tokens: array?<Token>, num: nat): Option<nat> {
    if tokens == null then None else Some(num)
  }

  class Parser {
    var pos: nat
    var toknext: nat
    var toksuper: int

    /** The parser and the tokens it has filled, as a value; a counting parser has no tokens to show. */
    ghost function Abs(tokens: array?<Token>): State
      requires tokens != null ==> toknext <= tokens.Length
      reads this, tokens
    {
      State(pos, if tokens == null then seq(toknext, _ => BLANK) else tokens[..toknext], toksuper)
    }

    ghost predicate Fits(tokens: array?<Token>, num: nat)
      reads this, tokens
    {
      (tokens != null ==> toknext <= tokens.Length && num <= tokens.Length) && Abs(tokens).Ok()
    }

    /** `jsmn_init`. */
    constructor ()
      ensures pos == 0 && toknext == 0 && toksuper == -1
    {
      pos, toknext, toksuper := 0, 0, -1;
    }

    /** `jsmn_alloc_token` followed by `jsmn_fill_token`; `full` is C's NULL. */
    method NewToken(tokens: array<Token>, num: nat, t: Token) returns (full: bool)
      requires Fits(tokens, num)
      modifies this`toknext, tokens
      ensures full == (old(toknext) >= num)
      ensures full ==> toknext == old(toknext) && tokens[..] == old(tokens[..])
      ensures !full ==> toknext == old(toknext) + 1 && tokens[..toknext] == old(tokens[..toknext]) + [t]
    {
      full := toknext >= num;
      if !full {
        tokens[toknext] := t;
        toknext := toknext + 1;
      }
    }

    /** `jsmn_parse_primitive`: on success the cursor is left on the last character of the primitive. */
    method ParsePrimitive(js: string, tokens: array?<Token>, num: nat) returns (r: int)
      requires Fits(tokens, num) && !Stops(js, pos) && !IsDelimiter(js[pos])
      modifies this`pos, this`toknext, tokens
      ensures tokens != null ==> toknext <= tokens.Length
      ensures match ScanPrimitive(js, old(pos))
              case None => r == -2 && Abs(tokens) == old(Abs(tokens))
              case Some(after) =>
                if tokens != null && old(toknext) >= num then r == -1 && Abs(tokens) == old(Abs(tokens))
                else r == 0 && pos == after - 1
                     && Abs(tokens).toks == old(Abs(tokens).toks) + (if tokens == null then [] else [Token(Primitive, old(pos), after, 0)])
    {
      var start := pos;
      while !Stops(js, pos) && !IsDelimiter(js[pos])
        invariant start <= pos && ScanPrimitive(js, pos) == ScanPrimitive(js, start)
        decreases |js| - pos
        modifies this`pos
      {
        if IsBad(js[pos]) {
          pos := start;
          return ErrorCode(Inval);
        }
        pos := pos + 1;
      }
      if tokens == null {
        pos := pos - 1;
        return 0;
      }
      var full := NewToken(tokens, num, Token(Primitive, start, pos, 0));
      if full {
        pos := start;
        return ErrorCode(NoMem);
      }
      pos := pos - 1;
      return 0;
    }

    /** `jsmn_parse_string`: on success the cursor is left on the closing quote. */
    method ParseString(js: string, tokens: array?<Token>, num: nat) returns (r: int)
      requires Fits(tokens, num) && !Stops(js, pos)
      modifies this`pos, this`toknext, tokens
      ensures tokens != null ==> toknext <= tokens.Length
      ensures match ScanString(js, old(pos) + 1)
              case Open => r == -3 && Abs(tokens) == old(Abs(tokens))
              case Bad => r == -2 && Abs(tokens) == old(Abs(tokens))
              case Closed(at) =>
                if tokens != null && old(toknext) >= num then r == -1 && Abs(tokens) == old(Abs(tokens))
                else r == 0 && pos == at
                     && Abs(tokens).toks == old(Abs(tokens).toks) + (if tokens == null then [] else [Token(Str, old(pos) + 1, at, 0)])
    {
      hide ScanString;
      var start := pos;
      r := FindQuote(js);
      if r < 0 {
        pos := start;
        return;
      }
      if tokens == null { return 0; }
      var full := NewToken(tokens, num, Token(Str, start + 1, pos, 0));
      if full {
        pos := start;
        return ErrorCode(NoMem);
      }
      return 0;
    }

    /** The scanning loop of `jsmn_parse_string`. */
    method FindQuote(js: string) returns (r: int)
      modifies this`pos
      ensures match ScanString(js, old(pos) + 1)
              case Open => r == -3
              case Bad => r == -2
              case Closed(at) => r == 0 && pos == at
    {
      var start := pos;
      pos := pos + 1;
      while !Stops(js, pos)
        invariant ScanString(js, pos) == ScanString(js, start + 1)
        decreases |js| - pos
      {
        var c := js[pos];
        if c == '\"' { return 0; }
        if c == '\\' && pos + 1 < |js| {
          pos := pos + 1;
          if IsEscape(js[pos]) {
          } else if js[pos] == 'u' {
            pos := pos + 1;
            var ok := SkipHex(js);
            if !ok { return ErrorCode(Inval); }
            pos := pos - 1;
          } else {
            return ErrorCode(Inval);
          }
        }
        pos := pos + 1;
      }
      return ErrorCode(Part);
    }

    /** The innermost loop of `jsmn_parse_string`: up to four hexadecimal digits. */
    method SkipHex(js: string) returns (ok: bool)
      modifies this`pos
      ensures ok == ScanHex(js, old(pos), 4).Some?
      ensures ok ==> pos == ScanHex(js, old(pos), 4).value
    {
      var first := pos;
      var i: nat := 0;
      while i < 4 && !Stops(js, pos)
        invariant i <= 4 && ScanHex(js, pos, 4 - i) == ScanHex(js, first, 4)
      {
        if !IsHex(js[pos]) { return false; }
        pos := pos + 1;
        i := i + 1;
      }
      return true;
    }

    /** `tokens[toksuper].size++`, when there is a superior token and an array. */
    method CountInSuper(tokens: array?<Token>)
      requires tokens != null ==> toknext <= tokens.Length && toksuper < tokens.Length
      requires -1 <= toksuper
      modifies tokens
      ensures tokens != null && toksuper < toknext ==> tokens[..toknext] == Bump(old(tokens[..toknext]), toksuper)
      ensures tokens != null && toksuper >= 0 ==> tokens[toksuper] == old(tokens[toksuper]).(size := old(tokens[toksuper].size) + 1)
      ensures tokens != null ==> forall i | 0 <= i < tokens.Length && i != toksuper :: tokens[i] == old(tokens[i])
    {
      if toksuper != -1 && tokens != null {
        tokens[toksuper] := tokens[toksuper].(size := tokens[toksuper].size + 1);
      }
    }

    /** The opening-bracket case. */
    method Open(kind: Kind, tokens: array?<Token>, num: nat) returns (r: int)
      requires Fits(tokens, num)
      modifies this`toknext, this`toksuper, tokens
      ensures tokens == null ==> r == 0 && Abs(tokens) == old(Abs(tokens))
      ensures tokens != null && old(toknext) >= num ==> r == -1 && toknext == old(toknext) && Abs(tokens) == old(Abs(tokens))
      ensures tokens != null && old(toknext) < num ==>
                r == 0 && toknext == old(toknext) + 1 <= tokens.Length
                && Abs(tokens) == State(pos, Bump(old(Abs(tokens).toks), old(toksuper)) + [Token(kind, pos, -1, 0)], old(toknext))
    {
      if tokens == null { return 0; }
      ghost var before := tokens[..toknext];
      var full := NewToken(tokens, num, BLANK);
      if full {
        assert tokens[..toknext] == before;
        return ErrorCode(NoMem);
      }
      CountInSuper(tokens);
      tokens[toknext - 1] := tokens[toknext - 1].(kind := kind, start := pos);
      toksuper := toknext - 1;
      assert tokens[..toknext] == Bump(before, old(toksuper)) + [Token(kind, pos, -1, 0)];
      return 0;
    }

    /** The closing-bracket case: two consecutive backward scans, the first for the token to close, the second,
        from there on, for the new superior token. */
    method Close(kind: Kind, tokens: array?<Token>) returns (r: int)
      requires Fits(tokens, 0)
      modifies this`toksuper, tokens
      ensures match CloseBracket(Capacity(tokens, 0), old(Abs(tokens)), 0, kind)
              case Next(st, _) => r == 0 && Abs(tokens) == st.(pos := pos)
              case Fail(st, e) => r == ErrorCode(e) && Abs(tokens) == st
    {
      if tokens == null { return 0; }
      ghost var toks := tokens[..toknext];
      var i := toknext - 1;
      while i >= 0 && !IsOpen(tokens[i])
        invariant -1 <= i < toknext && LastOpen(toks, i + 1) == LastOpen(toks, toknext)
      {
        i := i - 1;
      }
      if i >= 0 {
        if tokens[i].kind != kind { return ErrorCode(Inval); }
        toksuper := -1;
        tokens[i] := tokens[i].(end := pos + 1);
        assert tokens[..toknext] == toks[i := toks[i].(end := pos + 1)];
        toks := tokens[..toknext];
      } else {
        return ErrorCode(Inval);
      }
      ghost var at := i;
      while i >= 0 && !IsOpen(tokens[i])
        invariant -1 <= i < toknext && LastOpen(toks, i + 1) == LastOpen(toks, at + 1)
      {
        i := i - 1;
      }
      if i >= 0 { toksuper := i; }
      return 0;
    }

    /** The comma case: from a key back to the container around it. */
    method Separate(tokens: array?<Token>)
      requires Fits(tokens, 0)
      modifies this`toksuper
      ensures match Comma(Capacity(tokens, 0), old(Abs(tokens)), 0)
              case Next(st, _) => Abs(tokens) == st.(pos := pos)
              case Fail(_, _) => false
    {
      if tokens != null && toksuper != -1 && !IsContainer(tokens[toksuper]) {
        ghost var toks := tokens[..toknext];
        var i := toknext - 1;
        while i >= 0 && !(IsContainer(tokens[i]) && IsOpen(tokens[i]))
          invariant -1 <= i < toknext && LastOpenContainer(toks, i + 1) == LastOpenContainer(toks, toknext)
        {
          i := i - 1;
        }
        if i >= 0 { toksuper := i; }
      }
    }

    /** The quote case. */
    method QuoteCase(js: string, tokens: array?<Token>, num: nat) returns (r: int)
      requires Fits(tokens, num) && !Stops(js, pos)
      modifies this`pos, this`toknext, tokens
      ensures tokens != null ==> toknext <= tokens.Length
      ensures match StringToken(js, Capacity(tokens, num), old(Abs(tokens)), 0)
              case Next(st, _) => r == 0 && Abs(tokens).(pos := pos + 1) == st
              case Fail(st, e) => r == ErrorCode(e) && Abs(tokens) == st
    {
      hide ScanString;
      r := ParseString(js, tokens, num);
      if r < 0 { return; }
      CountInSuper(tokens);
    }

    /** The default case. */
    method PrimitiveCase(js: string, tokens: array?<Token>, num: nat) returns (r: int)
      requires Fits(tokens, num) && !Stops(js, pos) && !IsDelimiter(js[pos])
      modifies this`pos, this`toknext, tokens
      ensures tokens != null ==> toknext <= tokens.Length
      ensures match PrimitiveToken(js, Capacity(tokens, num), old(Abs(tokens)), 0)
              case Next(st, _) => r == 0 && Abs(tokens).(pos := pos + 1) == st
              case Fail(st, e) => r == ErrorCode(e) && Abs(tokens) == st
    {
      hide ScanPrimitive;
      r := ParsePrimitive(js, tokens, num);
      if r < 0 { return; }
      CountInSuper(tokens);
    }

    /** The switch of the main loop, followed by the loop's `pos++` when it does not return. */
    method Advance(js: string, tokens: array?<Token>, num: nat, count: nat) returns (r: int, count': nat)
      requires Fits(tokens, num) && !Stops(js, pos)
      modifies this, tokens
      ensures tokens != null ==> toknext <= tokens.Length
      ensures match ParseStep(js, Capacity(tokens, num), old(Abs(tokens)), count)
              case Next(st, c) => r == 0 && count' == c && Abs(tokens) == st
              case Fail(st, e) => r == ErrorCode(e) && Abs(tokens) == st
    {
      hide LastOpen, LastOpenContainer, ScanString, ScanPrimitive;
      r, count' := 0, count;
      match js[pos] {
        case '{' =>
          count' := count' + 1;
          r := Open(Object, tokens, num);
        case '[' =>
          count' := count' + 1;
          r := Open(Array, tokens, num);
        case '}' =>
          r := Close(Object, tokens);
        case ']' =>
          r := Close(Array, tokens);
        case '\"' =>
          r := QuoteCase(js, tokens, num);
          count' := count' + 1;
        case '\t' =>
        case '\r' =>
        case '\n' =>
        case ' ' =>
        case ':' =>
          toksuper := toknext - 1;
        case ',' =>
          Separate(tokens);
        case _ =>
          r := PrimitiveCase(js, tokens, num);
          count' := count' + 1;
      }
      if r < 0 { return; }
      pos := pos + 1;
    }

    /** `jsmn_parse`. */
    method Parse(js: string, tokens: array?<Token>, num: nat) returns (r: int)
      requires Fits(tokens, num)
      modifies this, tokens
      ensures tokens != null ==> toknext <= tokens.Length
      ensures var o := Jsmn.Parse(js, Capacity(tokens, num), old(Abs(tokens)));
              r == ReturnCode(o) && Abs(tokens) == o.st
      ensures r == match Jsmn.Parse(js, Capacity(tokens, num), old(Abs(tokens)))
                   case Done(_, count) => count
                   case Failed(_, e) => if e == NoMem then -1 else if e == Inval then -2 else -3
    {
      hide ParseStep, LastOpen;
      var count: nat := toknext;
      while !Stops(js, pos)
        invariant Fits(tokens, num)
        invariant Run(js, Capacity(tokens, num), Abs(tokens), count) == Jsmn.Parse(js, Capacity(tokens, num), old(Abs(tokens)))
        decreases |js| - pos
      {
        var c;
        r, c := Advance(js, tokens, num, count);
        if r < 0 { return; }
        count := c;
      }
      if tokens != null {
        var i := toknext - 1;
        while i >= 0
          invariant -1 <= i < toknext && LastOpen(tokens[..toknext], toknext) == LastOpen(tokens[..toknext], i + 1)
        {
          if IsOpen(tokens[i]) { return ErrorCode(Part); }
          i := i - 1;
        }
      }
      return count;
    }
  }
}
