/** Running jsmn over the pieces a JSON text is made of. */
module JsonScans {
  import opened Options
  import opened Jsmn

  // ---------- pieces of text ----------

  predicate IsBlank(ws: string) {
    forall i | 0 <= i < |ws| :: ws[i] == ' ' || ws[i] == '\t' || ws[i] == '\n' || ws[i] == '\r'
  }

  /** A printable ASCII character other than those that end a primitive. */
  predicate IsPrintable(c: char) {
    '!' <= c <= '~' && c != ':' && c != ',' && c != ']' && c != '}'
  }

  /** A number or literal, or any other run of such characters that does not begin like a string or a container. */
  predicate IsLexeme(text: string) {
    && text != [] && text[0] != '{' && text[0] != '[' && text[0] != '\"'
    && forall i | 0 <= i < |text| :: IsPrintable(text[i])
  }

  predicate IsEscaped(c: char) {
    c == '\"' || c == '\\' || c == '/' || c == 'b' || c == 'f' || c == 'n' || c == 'r' || c == 't'
  }

  predicate IsHexDigit(c: char) {
    '0' <= c <= '9' || 'a' <= c <= 'f' || 'A' <= c <= 'F'
  }

  /** The body of a string: any characters but quotes, backslashes and NUL, and well-formed escapes. */
  predicate IsBody(body: string) {
    if body == [] then true
    else if body[0] == '\\' then
      if |body| >= 2 && IsEscaped(body[1]) then IsBody(body[2..])
      else |body| >= 6 && body[1] == 'u' && (forall i | 2 <= i < 6 :: IsHexDigit(body[i])) && IsBody(body[6..])
    else body[0] != '\"' && body[0] != '\0' && IsBody(body[1..])
  }

  function Quote(body: string): string {
    "\"" + (body + "\"")
  }

  /** The text s stands in js at position `at`. */
  ghost predicate At(js: string, at: nat, s: string) {
    at + |s| <= |js| && js[at..at + |s|] == s
  }

  lemma AtWhole(js: string)
    ensures At(js, 0, js)
  {}

  lemma AtSplit(js: string, at: nat, a: string, b: string)
    requires At(js, at, a + b)
    ensures At(js, at, a) && At(js, at + |a|, b)
  {
    var s := js[at..at + |a + b|];
    assert s == a + b;
    assert js[at..at + |a|] == s[..|a|] == a;
    assert js[at + |a|..at + |a| + |b|] == s[|a|..] == b;
  }

  lemma AtIndex(js: string, at: nat, s: string, i: nat)
    requires At(js, at, s) && i < |s|
    ensures at + i < |js| && js[at + i] == s[i]
  {
    assert js[at..at + |s|][i] == s[i];
  }

  lemma {:induction false} ScanLexeme(js: string, at: nat, text: string)
    requires At(js, at, text) && (Stops(js, at + |text|) || IsDelimiter(js[at + |text|]))
    requires forall i | 0 <= i < |text| :: IsPrintable(text[i])
    ensures ScanPrimitive(js, at) == Some(at + |text|)
    decreases |text|
  {
    if text != [] {
      AtIndex(js, at, text, 0);
      assert text == [text[0]] + text[1..];
      AtSplit(js, at, [text[0]], text[1..]);
      ScanLexeme(js, at + 1, text[1..]);
    }
  }

  lemma {:induction false} ScanDigits(js: string, at: nat, k: nat)
    requires at + k <= |js| && forall i | at <= i < at + k :: IsHexDigit(js[i])
    ensures ScanHex(js, at, k) == Some(at + k)
    decreases k
  {
    if k > 0 { ScanDigits(js, at + 1, k - 1); }
  }

  lemma {:induction false} ScanBody(js: string, at: nat, body: string)
    requires IsBody(body) && At(js, at, body + "\"")
    ensures ScanString(js, at) == Closed(at + |body|)
    decreases |body|
  {
    hide At, ScanString, IsBody;
    if body == [] {
      assert body + "\"" == "\"";
      AtIndex(js, at, "\"", 0);
      ScanQuote(js, at);
    } else {
      var n := FirstItem(body);
      assert body + "\"" == body[..n] + (body[n..] + "\"");
      AtSplit(js, at, body[..n], body[n..] + "\"");
      AtIndex(js, at + n, body[n..] + "\"", 0);
      ScanBody(js, at + n, body[n..]);
      ScanItem(js, at, body[..n]);
    }
  }

  lemma ScanQuote(js: string, at: nat)
    requires at < |js| && js[at] == '\"'
    ensures ScanString(js, at) == Closed(at)
  {}

  /** One character of a string body, or one escape. */
  predicate IsItem(s: string) {
    || (|s| == 1 && s[0] != '\\' && s[0] != '\"' && s[0] != '\0')
    || (|s| == 2 && s[0] == '\\' && IsEscaped(s[1]))
    || (|s| == 6 && s[0] == '\\' && s[1] == 'u' && forall i | 2 <= i < 6 :: IsHexDigit(s[i]))
  }

  /** The length of the first item of a body. */
  lemma FirstItem(body: string) returns (n: nat)
    requires IsBody(body) && body != []
    ensures 0 < n <= |body| && IsItem(body[..n]) && IsBody(body[n..])
  {
    n := if body[0] != '\\' then 1 else if IsEscaped(body[1]) then 2 else 6;
  }

  lemma ScanItem(js: string, at: nat, item: string)
    requires IsItem(item) && At(js, at, item) && at + |item| < |js|
    ensures ScanString(js, at) == ScanString(js, at + |item|)
  {
    forall i: nat | i < |item| ensures js[at + i] == item[i] { AtIndex(js, at, item, i); }
    assert js[at + 0] == item[0];
    if |item| >= 2 { assert js[at + 1] == item[1]; }
    if |item| == 6 {
      forall i | at + 2 <= i < at + 6 ensures IsHexDigit(js[i]) { assert js[at + (i - at)] == item[i - at]; }
      ScanDigits(js, at + 2, 4);
    }
  }

  // ---------- exactly what is scanned ----------

  /** A primitive reaches up to the first character that ends it, and every character before that is printable. */
  lemma {:induction false} PrimitiveIs(js: string, pos: nat, end: nat)
    requires pos <= |js|
    ensures ScanPrimitive(js, pos) == Some(end)
            <==> && pos <= end <= |js| && (forall i | pos <= i < end :: IsPrintable(js[i]))
                 && (end == |js| || js[end] == '\0' || js[end] == ' ' || js[end] == '\t' || js[end] == '\n' || js[end] == '\r'
                     || js[end] == ':' || js[end] == ',' || js[end] == ']' || js[end] == '}')
    decreases |js| - pos
  {
    if pos < |js| && !Stops(js, pos) && !IsDelimiter(js[pos]) && !IsBad(js[pos]) { PrimitiveIs(js, pos + 1, end); }
  }

  /** A string is closed by the first quote behind a body. */
  lemma {:induction false} StringIs(js: string, pos: nat, end: nat)
    ensures ScanString(js, pos) == Closed(end) <==> pos <= end < |js| && js[end] == '\"' && IsBody(js[pos..end])
    decreases |js| - pos
  {
    if ScanString(js, pos) == Closed(end) { ClosedIsBody(js, pos, end); }
    if pos <= end < |js| && js[end] == '\"' && IsBody(js[pos..end]) {
      assert js[pos..pos + |js[pos..end] + "\""|] == js[pos..end] + "\"";
      ScanBody(js, pos, js[pos..end]);
    }
  }

  lemma {:induction false} ClosedIsBody(js: string, pos: nat, end: nat)
    requires ScanString(js, pos) == Closed(end)
    ensures pos <= end < |js| && IsBody(js[pos..end])
    decreases |js| - pos
  {
    if pos < end {
      var body := js[pos..end];
      if js[pos] != '\\' {
        ClosedIsBody(js, pos + 1, end);
        assert body[1..] == js[pos + 1..end];
      } else if IsEscape(js[pos + 1]) {
        ClosedIsBody(js, pos + 2, end);
        assert body[2..] == js[pos + 2..end];
      } else {
        var after := ScanHex(js, pos + 2, 4).value;
        HexIsFour(js, pos + 2, 4);
        ClosedIsBody(js, after, end);
        assert body[6..] == js[pos + 6..end];
      }
    }
  }

  /** Hexadecimal digits end after the fourth, or where the text stops. */
  lemma {:induction false} HexIsFour(js: string, pos: nat, n: nat)
    requires ScanHex(js, pos, n).Some?
    ensures var after := ScanHex(js, pos, n).value;
            pos <= after <= pos + n && (after == pos + n || Stops(js, after)) && forall i | pos <= i < after && i < |js| :: IsHexDigit(js[i])
    decreases n
  {
    if n > 0 && !Stops(js, pos) { HexIsFour(js, pos + 1, n - 1); }
  }

  /** White space before a delimiter, or the delimiter itself, ends a primitive. */
  lemma BlankEnds(js: string, at: nat, ws: string, rest: string)
    requires At(js, at, ws + rest) && IsBlank(ws) && rest != [] && IsDelimiter(rest[0])
    ensures at < |js| && IsDelimiter(js[at])
  {
    AtIndex(js, at, ws + rest, 0);
  }

  // ---------- scans ----------

  lemma {:induction false} SameScan(a: seq<Token>, b: seq<Token>, n: nat)
    requires n <= |a| && n <= |b| && forall i | 0 <= i < n :: IsOpen(a[i]) <==> IsOpen(b[i])
    ensures LastOpen(a, n) == LastOpen(b, n)
  {
    if n > 0 { SameScan(a, b, n - 1); }
  }

  lemma {:induction false} SkipScan(toks: seq<Token>, m: nat, n: nat)
    requires m <= n <= |toks| && forall i | m <= i < n :: !IsOpen(toks[i])
    ensures LastOpen(toks, n) == LastOpen(toks, m)
    decreases n
  {
    if m < n { SkipScan(toks, m, n - 1); }
  }

  /** Counting in the superior and appending closed tokens leaves the innermost open token where it was. */
  lemma ClosedKeepScan(toks: seq<Token>, super: int, closed: seq<Token>)
    requires -1 <= super < |toks| && forall i | 0 <= i < |closed| :: !IsOpen(closed[i])
    ensures var toks' := Bump(toks, super) + closed; LastOpen(toks', |toks'|) == LastOpen(toks, |toks|)
  {
    var toks' := Bump(toks, super) + closed;
    SkipScan(toks', |toks|, |toks'|);
    SameScan(toks', toks, |toks|);
  }

  // ---------- runs ----------

  /** Filling from state a comes to the same outcome as filling from state b. */
  ghost predicate Reaches(js: string, cap: nat, a: State, b: State) {
    a.Ok() && b.Ok() && Run(js, Some(cap), a, |a.toks|) == Run(js, Some(cap), b, |b.toks|)
  }

  lemma ReachStep(js: string, cap: nat, a: State, b: State)
    requires a.Ok() && !Stops(js, a.pos) && ParseStep(js, Some(cap), a, |a.toks|) == Next(b, |b.toks|)
    ensures Reaches(js, cap, a, b)
  {
    hide ParseStep;
  }

  lemma {:induction false} RunBlank(js: string, cap: nat, st: State, ws: string)
    requires st.Ok() && At(js, st.pos, ws) && IsBlank(ws)
    ensures Reaches(js, cap, st, st.(pos := st.pos + |ws|))
    decreases |ws|
  {
    hide Run;
    if ws != [] {
      AtIndex(js, st.pos, ws, 0);
      ReachStep(js, cap, st, st.(pos := st.pos + 1));
      assert ws == [ws[0]] + ws[1..];
      AtSplit(js, st.pos, [ws[0]], ws[1..]);
      RunBlank(js, cap, st.(pos := st.pos + 1), ws[1..]);
    }
  }

  lemma RunScalar(js: string, cap: nat, toks: seq<Token>, super: int, at: nat, text: string)
    requires IsLexeme(text) && At(js, at, text) && -1 <= super < |toks| < cap
    requires Stops(js, at + |text|) || IsDelimiter(js[at + |text|])
    ensures Reaches(js, cap, State(at, toks, super),
                    State(at + |text|, Bump(toks, super) + [Token(Primitive, at, at + |text|, 0)], super))
  {
    hide Run, ScanPrimitive;
    ScanLexeme(js, at, text);
    AtIndex(js, at, text, 0);
    ReachStep(js, cap, State(at, toks, super), State(at + |text|, Bump(toks, super) + [Token(Primitive, at, at + |text|, 0)], super));
  }

  lemma RunText(js: string, cap: nat, toks: seq<Token>, super: int, at: nat, body: string)
    requires IsBody(body) && At(js, at, Quote(body)) && -1 <= super < |toks| < cap
    ensures Reaches(js, cap, State(at, toks, super),
                    State(at + |body| + 2, Bump(toks, super) + [Token(Str, at + 1, at + 1 + |body|, 0)], super))
  {
    hide Run, ScanString, IsBody, At, Bump;
    AtSplit(js, at, "\"", body + "\"");
    AtIndex(js, at, "\"", 0);
    ScanBody(js, at + 1, body);
    RunQuoted(js, cap, State(at, toks, super), at + 1 + |body|);
  }

  lemma RunQuoted(js: string, cap: nat, st: State, close: nat)
    requires st.Ok() && |st.toks| < cap && st.pos < |js| && js[st.pos] == '\"' && ScanString(js, st.pos + 1) == Closed(close)
    ensures Reaches(js, cap, st, State(close + 1, Bump(st.toks, st.super) + [Token(Str, st.pos + 1, close, 0)], st.super))
  {
    hide Run, ScanString;
    ReachStep(js, cap, st, State(close + 1, Bump(st.toks, st.super) + [Token(Str, st.pos + 1, close, 0)], st.super));
  }

  lemma RunOpen(js: string, cap: nat, toks: seq<Token>, super: int, at: nat, kind: Kind)
    requires kind == Object || kind == Array
    requires At(js, at, if kind == Object then "{" else "[") && -1 <= super < |toks| < cap
    ensures Reaches(js, cap, State(at, toks, super), State(at + 1, Bump(toks, super) + [Token(kind, at, -1, 0)], |toks|))
  {
    hide Run;
    AtIndex(js, at, if kind == Object then "{" else "[", 0);
    ReachStep(js, cap, State(at, toks, super), State(at + 1, Bump(toks, super) + [Token(kind, at, -1, 0)], |toks|));
  }

  lemma RunClose(js: string, cap: nat, st: State, a: nat, kind: Kind)
    requires kind == Object || kind == Array
    requires At(js, st.pos, if kind == Object then "}" else "]") && st.Ok()
    requires a == LastOpen(st.toks, |st.toks|) && st.toks[a].kind == kind
    ensures Reaches(js, cap, st, State(st.pos + 1, st.toks[a := st.toks[a].(end := st.pos + 1)], LastOpen(st.toks, a)))
  {
    hide Run;
    AtIndex(js, st.pos, if kind == Object then "}" else "]", 0);
    var toks' := st.toks[a := st.toks[a].(end := st.pos + 1)];
    SameScan(toks', st.toks, a);
    ReachStep(js, cap, st, State(st.pos + 1, toks', LastOpen(st.toks, a)));
  }

  lemma RunComma(js: string, cap: nat, st: State, a: nat)
    requires At(js, st.pos, ",") && st.Ok()
    requires a == LastOpen(st.toks, |st.toks|) && IsContainer(st.toks[a])
    requires st.super == a || (st.super >= 0 && !IsContainer(st.toks[st.super]))
    ensures Reaches(js, cap, st, State(st.pos + 1, st.toks, a))
  {
    hide Run, LastOpen, LastOpenContainer;
    AtIndex(js, st.pos, ",", 0);
    assert LastOpenContainer(st.toks, |st.toks|) == a;
    ReachStep(js, cap, st, State(st.pos + 1, st.toks, a));
  }

  lemma RunColon(js: string, cap: nat, st: State)
    requires At(js, st.pos, ":") && st.Ok()
    ensures Reaches(js, cap, st, State(st.pos + 1, st.toks, |st.toks| - 1))
  {
    hide Run;
    AtIndex(js, st.pos, ":", 0);
    ReachStep(js, cap, st, State(st.pos + 1, st.toks, |st.toks| - 1));
  }
}
