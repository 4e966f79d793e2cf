/** The grammar of JSON texts (RFC 8259, sections 2 to 7), character by character. What the tokenizer takes is more than that. */
module JsonGrammar {
  import opened Options
  import opened Jsmn
  import opened JsonScans
  import opened JsonText

  // ---------- numbers and literals (sections 3 and 6) ----------

  predicate IsDigits(s: string) {
    s != "" && forall i | 0 <= i < |s| :: '0' <= s[i] <= '9'
  }

  predicate IsInt(s: string) {
    IsDigits(s) && (s[0] == '0' ==> |s| == 1)
  }

  predicate IsFrac(s: string) {
    s == "" || (s[0] == '.' && IsDigits(s[1..]))
  }

  predicate IsExp(s: string) {
    s == "" || ((s[0] == 'e' || s[0] == 'E')
                && (IsDigits(s[1..]) || (|s| > 1 && (s[1] == '+' || s[1] == '-') && IsDigits(s[2..]))))
  }

  ghost predicate IsNumber(s: string) {
    exists minus, whole, frac, exp :: IsNumberOf(s, minus, whole, frac, exp)
  }

  predicate IsNumberOf(s: string, minus: string, whole: string, frac: string, exp: string) {
    s == minus + whole + frac + exp && (minus == "" || minus == "-") && IsInt(whole) && IsFrac(frac) && IsExp(exp)
  }

  predicate IsLiteral(s: string) {
    s == "true" || s == "false" || s == "null"
  }

  // ---------- strings (section 7) ----------

  /** Unescaped characters, and escapes of one letter or of four hexadecimal digits. */
  predicate IsStringBody(s: string) {
    if s == "" then true
    else if s[0] != '\\' then ' ' <= s[0] && s[0] != '\"' && IsStringBody(s[1..])
    else if |s| >= 2 && (s[1] == '\"' || s[1] == '\\' || s[1] == '/' || s[1] == 'b' || s[1] == 'f' || s[1] == 'n' || s[1] == 'r' || s[1] == 't')
    then IsStringBody(s[2..])
    else |s| >= 6 && s[1] == 'u' && AreHexDigits(s[2..6]) && IsStringBody(s[6..])
  }

  predicate AreHexDigits(s: string) {
    forall i | 0 <= i < |s| :: '0' <= s[i] <= '9' || 'A' <= s[i] <= 'F' || 'a' <= s[i] <= 'f'
  }

  // ---------- values (sections 3 to 5) ----------

  ghost predicate IsJson(v: Json) {
    match v
    case Scalar(text) => IsNumber(text) || IsLiteral(text)
    case Text(body) => IsStringBody(body)
    case List(ws, elems) => IsBlank(ws) && AreJson(elems)
    case Record(ws, members) => IsBlank(ws) && AreJsonMembers(members)
  }

  ghost predicate AreJson(e: Elems) {
    match e
    case NoElems => true
    case Elem(pre, value, post, more) => IsBlank(pre) && IsJson(value) && IsBlank(post) && AreJson(more)
  }

  ghost predicate AreJsonMembers(m: Members) {
    match m
    case NoMembers => true
    case Member(pre, key, mid, gap, value, post, others) =>
      && IsBlank(pre) && IsStringBody(key) && IsBlank(mid) && IsBlank(gap) && IsJson(value) && IsBlank(post)
      && AreJsonMembers(others)
  }

  /** Some numbers and some strings. */
  lemma NumbersAre()
    ensures IsNumber("0") && IsNumber("-10.50") && IsNumber("9E7") && IsNumber("1e+09") && IsNumber("8E-1")
  {
    assert IsNumberOf("0", "", "0", "", "");
    assert IsNumberOf("-10.50", "-", "10", ".50", "");
    assert "E7"[1..] == "7" && IsNumberOf("9E7", "", "9", "", "E7");
    assert "e+09"[2..] == "09" && IsNumberOf("1e+09", "", "1", "", "e+09");
    assert "E-1"[2..] == "1" && IsNumberOf("8E-1", "", "8", "", "E-1");
  }

  lemma StringsAre(c: char)
    requires c in [' ', '!', '#', '[', ']', '~', 255 as char]
    ensures IsStringBody([c]) && IsStringBody("\\u09AF") && IsStringBody("\\uafAf")
    ensures forall e | e in "\"\\/bfnrt" :: IsStringBody(['\\', e])
  {
    assert "\\u09AF"[2..6] == "09AF" && "\\u09AF"[6..] == "";
    assert "\\uafAf"[2..6] == "afAf" && "\\uafAf"[6..] == "";
    forall e | e in "\"\\/bfnrt" ensures IsStringBody(['\\', e]) { assert ['\\', e][2..] == ""; }
  }

  // ---------- the tokenizer takes all of it ----------

  lemma NumberIsLexeme(s: string)
    requires IsNumber(s)
    ensures IsLexeme(s)
  {
    var minus, whole, frac, exp :| IsNumberOf(s, minus, whole, frac, exp);
    IntPrints(whole);
    FracPrints(frac);
    ExpPrints(exp);
    assert s[0] == (minus + whole)[0];
    forall i | 0 <= i < |s| ensures IsPrintable(s[i]) {
      if i < |minus + whole| {
        assert s[i] == (minus + whole)[i];
      } else if i < |minus + whole + frac| {
        assert s[i] == frac[i - |minus + whole|];
      } else {
        assert s[i] == exp[i - |minus + whole + frac|];
      }
    }
  }

  predicate Prints(s: string) {
    forall i | 0 <= i < |s| :: IsPrintable(s[i])
  }

  lemma DigitsPrint(s: string)
    requires IsDigits(s)
    ensures Prints(s)
  {}

  lemma IntPrints(s: string)
    requires IsInt(s)
    ensures Prints(s)
  {}

  lemma FracPrints(s: string)
    requires IsFrac(s)
    ensures Prints(s)
  {
    if s != "" {
      DigitsPrint(s[1..]);
      assert forall i | 1 <= i < |s| :: s[i] == s[1..][i - 1];
    }
  }

  lemma ExpPrints(s: string)
    requires IsExp(s)
    ensures Prints(s)
  {
    if s != "" {
      if IsDigits(s[1..]) {
        DigitsPrint(s[1..]);
        assert forall i | 1 <= i < |s| :: s[i] == s[1..][i - 1];
      } else {
        DigitsPrint(s[2..]);
        assert forall i | 2 <= i < |s| :: s[i] == s[2..][i - 2];
      }
    }
  }

  lemma LiteralIsLexeme(s: string)
    requires IsLiteral(s)
    ensures IsLexeme(s)
  {}

  lemma {:induction false} StringBodyIsBody(s: string)
    requires IsStringBody(s)
    ensures IsBody(s)
  {
    if s == "" {
    } else if s[0] != '\\' {
      StringBodyIsBody(s[1..]);
    } else if IsEscaped(s[1]) {
      StringBodyIsBody(s[2..]);
    } else {
      StringBodyIsBody(s[6..]);
      forall i | 2 <= i < 6 ensures IsHexDigit(s[i]) { assert s[i] == s[2..6][i - 2]; }
    }
  }

  lemma {:induction false} JsonIsValid(v: Json)
    requires IsJson(v)
    ensures Valid(v)
    decreases v
  {
    match v
    case Scalar(text) => if IsLiteral(text) { LiteralIsLexeme(text); } else { NumberIsLexeme(text); }
    case Text(body) => StringBodyIsBody(body);
    case List(_, elems) => ElemsAreValid(elems);
    case Record(_, members) => MembersAreValid(members);
  }

  lemma {:induction false} ElemsAreValid(e: Elems)
    requires AreJson(e)
    ensures ValidElems(e)
    decreases e
  {
    match e
    case NoElems =>
    case Elem(_, value, _, more) =>
      JsonIsValid(value);
      ElemsAreValid(more);
  }

  lemma {:induction false} MembersAreValid(m: Members)
    requires AreJsonMembers(m)
    ensures ValidMembers(m)
    decreases m
  {
    match m
    case NoMembers =>
    case Member(_, key, _, _, value, _, others) =>
      StringBodyIsBody(key);
      JsonIsValid(value);
      MembersAreValid(others);
  }

  /** For every JSON text, `jsmn_parse` with at least as many tokens as the text has nodes returns their number and exactly
      their preorder. */
  lemma TokenizesJson(before: string, v: Json, after: string, cap: nat)
    requires IsBlank(before) && IsJson(v) && IsBlank(after) && Nodes(v) <= cap
    ensures var o := Parse(before + (Print(v) + after), Some(cap), START);
            o.Done? && o.count == Nodes(v) && o.st.toks == Tokens(v, |before|)
  {
    JsonIsValid(v);
    TokenizesEveryText(before, v, after, cap);
  }

  const DECIMAL: Json := List("", Elem("", Scalar("1.5"), "", NoElems))

  /** In particular the array of the number 1.5. */
  lemma TokenizesDecimal(cap: nat)
    requires cap >= 2
    ensures var o := Parse("[1.5]", Some(cap), START);
            o.Done? && o.count == 2 && o.st.toks == [Token(Array, 0, 5, 1), Token(Primitive, 1, 4, 0)]
  {
    hide Parse, IsJson, Print, Nodes, Tokens;
    DecimalIsJson();
    DecimalTokens();
    assert "" + ("[1.5]" + "") == "[1.5]";
    TokenizesJson("", DECIMAL, "", cap);
  }

  lemma DecimalIsJson()
    ensures IsJson(DECIMAL)
  {
    assert IsNumberOf("1.5", "", "1", ".5", "");
    assert AreJson(Elem("", Scalar("1.5"), "", NoElems));
  }

  lemma DecimalTokens()
    ensures Print(DECIMAL) == "[1.5]" && Nodes(DECIMAL) == 2 && Tokens(DECIMAL, 0) == [Token(Array, 0, 5, 1), Token(Primitive, 1, 4, 0)]
  {
    var e := Elem("", Scalar("1.5"), "", NoElems);
    assert PrintElems(e) == "1.5]" && TokensOfElems(e, 1) == [Token(Primitive, 1, 4, 0)];
  }
}
