/** The cursor of json.c: finding a key among the tokens and reading the token after it. */
module JsonCursor {
  import opened Options
  import opened Jsmn

  /** A parsed text: the characters, the tokens and how many of them the parser filled. The array is longer than
      its filled part, since a value is read from the token after a key, filled or not. */
  datatype Doc = Doc(data: string, toks: seq<Token>, n: nat) {
    predicate Ok() { n < |toks| }

    /** The text of a token; a token that spans no text counts as empty. */
    function TextOf(t: Token): string {
      if 0 <= t.start <= t.end <= |data| then data[t.start..t.end] else ""
    }

    predicate IsKey(i: nat, tag: string)
      requires i < |toks|
    {
      toks[i].kind == Str && TextOf(toks[i]) == tag
    }
  }

  /** `json_find_token` as a value: the first filled token from `from` on that is the string `tag`, or -1. */
  function Find(d: Doc, from: nat, tag: string): (r: int)
    requires d.Ok()
    ensures -1 <= r < d.n
    ensures r >= 0 ==> from <= r && d.IsKey(r, tag)
    ensures forall i: nat | from <= i < d.n && (r < 0 || i < r) :: !d.IsKey(i, tag)
    decreases d.n - from
  {
    if from >= d.n then -1
    else if d.IsKey(from, tag) then from
    else Find(d, from + 1, tag)
  }

  /** The position of the value after the first such key, if it has the wanted kind. */
  function Value(d: Doc, from: nat, tag: string, kind: Kind): (r: Option<nat>)
    requires d.Ok()
    ensures r.Some? ==> from < r.value <= d.n
  {
    var key := Find(d, from, tag);
    if key < 0 || d.toks[key + 1].kind != kind then None else Some(key + 1)
  }

  /** Token p stands right behind the first token from `from` on that is the string `tag`. */
  ghost predicate BehindFirst(d: Doc, from: nat, tag: string, p: nat)
    requires d.Ok()
  {
    && from < p <= d.n && d.toks[p - 1].kind == Str && d.TextOf(d.toks[p - 1]) == tag
    && forall i | from <= i < p - 1 :: d.toks[i].kind != Str || d.TextOf(d.toks[i]) != tag
  }

  lemma ValueIs(d: Doc, from: nat, tag: string, kind: Kind, p: nat)
    requires d.Ok()
    ensures Value(d, from, tag, kind) == Some(p) <==> BehindFirst(d, from, tag, p) && d.toks[p].kind == kind
  {
    var key := Find(d, from, tag);
    if key >= 0 {
      forall i | from <= i < key ensures d.toks[i].kind != Str || d.TextOf(d.toks[i]) != tag { assert !d.IsKey(i, tag); }
    }
    if BehindFirst(d, from, tag, p) {
      assert d.IsKey(p - 1, tag) && forall i: nat | from <= i < p - 1 :: !d.IsKey(i, tag);
      assert key == p - 1;
    }
  }

  /** The numbers a primitive stands for: true and 1, false and null and 0, and otherwise what the C library reads. */
  function IntOf(text: string, atoi: string -> int): int {
    if text == "true" then 1 else if text == "false" || text == "null" then 0 else atoi(text)
  }

  function RealOf(text: string, atof: string -> real): real {
    if text == "true" then 1.0 else if text == "false" || text == "null" then 0.0 else atof(text)
  }

  method FindToken(d: Doc, from: nat, tag: string) returns (r: int)
    requires d.Ok()
    ensures r == Find(d, from, tag)
  {
    var i := from;
    while i < d.n
      invariant Find(d, i, tag) == Find(d, from, tag)
      decreases d.n - i
    {
      if d.toks[i].kind == Str {
        if d.TextOf(d.toks[i]) == tag { return i; }
      }
      i := i + 1;
    }
    return -1;
  }

  /** `json_get_string_value`: 0 for failure. The result is None for NULL, which a primitive in the string's place
      leaves behind; any other failure leaves the result as it was. */
  method GetString(d: Doc, from: nat, tag: string, before: Option<string>) returns (pos: nat, result: Option<string>)
    requires d.Ok()
    ensures match Value(d, from, tag, Str)
            case None => pos == 0 && result == if Value(d, from, tag, Primitive).Some? then None else before
            case Some(p) => pos == p && result == Some(d.TextOf(d.toks[p]))
  {
    pos, result := 0, before;
    var key := FindToken(d, from, tag);
    if key < 0 { return; }
    var t := d.toks[key + 1];
    if t.kind == Primitive { result := None; }
    if t.kind != Str { return; }
    return key + 1, Some(d.TextOf(t));
  }

  /** `json_get_int_value`: 0 for failure. */
  method GetInt(d: Doc, from: nat, tag: string, atoi: string -> int, before: int) returns (pos: nat, result: int)
    requires d.Ok()
    ensures match Value(d, from, tag, Primitive)
            case None => pos == 0 && result == before
            case Some(p) =>
              var text := d.TextOf(d.toks[p]);
              && pos == p && result == IntOf(text, atoi)
              && (text == "true" ==> result == 1) && (text == "false" || text == "null" ==> result == 0)
              && (text != "true" && text != "false" && text != "null" ==> result == atoi(text))
  {
    pos, result := 0, before;
    var key := FindToken(d, from, tag);
    if key < 0 { return; }
    var t := d.toks[key + 1];
    if t.kind != Primitive { return; }
    return key + 1, IntOf(d.TextOf(t), atoi);
  }

  /** `json_get_double_value`: 0 for failure. */
  method GetDouble(d: Doc, from: nat, tag: string, atof: string -> real, before: real) returns (pos: nat, result: real)
    requires d.Ok()
    ensures match Value(d, from, tag, Primitive)
            case None => pos == 0 && result == before
            case Some(p) =>
              var text := d.TextOf(d.toks[p]);
              && pos == p && result == RealOf(text, atof)
              && (text == "true" ==> result == 1.0) && (text == "false" || text == "null" ==> result == 0.0)
              && (text != "true" && text != "false" && text != "null" ==> result == atof(text))
  {
    pos, result := 0, before;
    var key := FindToken(d, from, tag);
    if key < 0 { return; }
    var t := d.toks[key + 1];
    if t.kind != Primitive { return; }
    return key + 1, RealOf(d.TextOf(t), atof);
  }
}
