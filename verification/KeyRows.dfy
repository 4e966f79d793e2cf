/** Reading keys in turn, each from the place of the last one on. The strings of a text that are keys fall into rows: a row
    goes on as long as the keys come in the order in which they are looked for. */
module KeyRows {
  import opened Options
  import opened Jsmn
  import opened JsonLabels
  import opened JsonCursor
  import opened LabelledDocs

  /** A key and the kind of value looked for behind it. */
  datatype Key = Key(name: string, kind: Kind)

  /** What a row has for a key: nothing, a value of another kind, or the text of a value of the right kind. */
  datatype Field = Missing | Odd | Given(text: string)

  /** One field for each key. */
  type KeyRow = seq<Field>

  ghost predicate AreRows(rs: seq<KeyRow>, n: nat) {
    forall i | 0 <= i < |rs| :: |rs[i]| == n
  }

  /** The keys have different names, and strings, numbers or literals for values. */
  ghost predicate AreKeys(keys: seq<Key>) {
    && (forall j, k | 0 <= j < k < |keys| :: keys[j].name != keys[k].name)
    && forall k | 0 <= k < |keys| :: keys[k].kind == Str || keys[k].kind == Primitive
  }

  // ---------- reading the rows ----------

  /** The first row from i on that has key k at all. */
  function Supplier(rs: seq<KeyRow>, i: nat, k: nat): (j: nat)
    requires i <= |rs| && forall x | 0 <= x < |rs| :: k < |rs[x]|
    ensures i <= j <= |rs|
    ensures forall x | i <= x < j :: rs[x][k].Missing?
    ensures j < |rs| ==> !rs[j][k].Missing?
    decreases |rs| - i
  {
    if i == |rs| || !rs[i][k].Missing? then i else Supplier(rs, i + 1, k)
  }

  /** Key k looked for from row i on: the row that supplies it and its text. */
  function Taken(rs: seq<KeyRow>, i: nat, k: nat): (r: Option<(nat, string)>)
    requires i <= |rs| && forall x | 0 <= x < |rs| :: k < |rs[x]|
    ensures r.Some? ==> i <= r.value.0 < |rs|
  {
    var j := Supplier(rs, i, k);
    if j < |rs| && rs[j][k].Given? then Some((j, rs[j][k].text)) else None
  }

  // ---------- what labels show ----------

  /** Which key a string is, or the number of keys. */
  function KeyIndex(keys: seq<Key>, s: string): (k: nat)
    ensures k <= |keys| && (k < |keys| ==> s == keys[k].name)
    ensures k == |keys| <==> forall j | 0 <= j < |keys| :: keys[j].name != s
  {
    if keys == [] then 0
    else if keys[0].name == s then 0
    else
      var k := KeyIndex(keys[1..], s);
      assert forall j | 1 <= j < |keys| :: keys[j] == keys[1..][j - 1];
      k + 1
  }

  predicate IsPlain(keys: seq<Key>, l: Label) {
    l.kind == Str ==> KeyIndex(keys, l.text) == |keys|
  }

  /** No label from `from` up to `to` is a key. */
  ghost predicate Keyless(keys: seq<Key>, labels: seq<Label>, from: nat, to: nat) {
    to <= |labels| && forall i | from <= i < to :: IsPlain(keys, labels[i])
  }

  ghost predicate ShowsField(l: Label, key: Key, f: Field) {
    match f
    case Missing => false
    case Odd => l.kind != key.kind
    case Given(t) => l == Label(key.kind, t)
  }

  /** From `from` up to `to`, the labels show the fields of row i from key k on, and then all further rows. */
  ghost predicate Shown(keys: seq<Key>, labels: seq<Label>, from: nat, to: nat, rs: seq<KeyRow>, i: nat, k: nat)
    requires AreRows(rs, |keys|) && i <= |rs| && k <= |keys|
    decreases |rs| - i, |keys| - k, 1
  {
    if i == |rs| then Keyless(keys, labels, from, to)
    else if k == |keys| then Shown(keys, labels, from, to, rs, i + 1, 0)
    else if rs[i][k].Missing? then Shown(keys, labels, from, to, rs, i, k + 1)
    else exists at: nat :: ShownAt(keys, labels, from, to, rs, i, k, at)
  }

  ghost predicate ShownAt(keys: seq<Key>, labels: seq<Label>, from: nat, to: nat, rs: seq<KeyRow>, i: nat, k: nat, at: nat)
    requires AreRows(rs, |keys|) && i < |rs| && k < |keys|
    decreases |rs| - i, |keys| - k, 0
  {
    && from <= at < to && at + 1 < |labels| && Keyless(keys, labels, from, at)
    && labels[at] == Label(Str, keys[k].name) && ShowsField(labels[at + 1], keys[k], rs[i][k])
    && Shown(keys, labels, at + 1, to, rs, i, k + 1)
  }

  lemma {:induction false} ShownEarlier(keys: seq<Key>, labels: seq<Label>, from: nat, mid: nat, to: nat, rs: seq<KeyRow>, i: nat, k: nat)
    requires AreRows(rs, |keys|) && i <= |rs| && k <= |keys|
    requires from <= mid && Keyless(keys, labels, from, mid) && Shown(keys, labels, mid, to, rs, i, k)
    ensures Shown(keys, labels, from, to, rs, i, k)
    decreases |rs| - i, |keys| - k
  {
    hide IsPlain;
    if i < |rs| {
      if k == |keys| {
        ShownEarlier(keys, labels, from, mid, to, rs, i + 1, 0);
      } else if rs[i][k].Missing? {
        ShownEarlier(keys, labels, from, mid, to, rs, i, k + 1);
      } else {
        var at: nat :| ShownAt(keys, labels, mid, to, rs, i, k, at);
        assert ShownAt(keys, labels, from, to, rs, i, k, at);
      }
    }
  }

  /** Missing fields can be passed over, forwards and backwards. */
  lemma {:induction false} SkipMissing(keys: seq<Key>, labels: seq<Label>, from: nat, to: nat, rs: seq<KeyRow>, i: nat, k: nat, j: nat)
    requires AreRows(rs, |keys|) && i < |rs| && k <= j <= |keys| && forall x | k <= x < j :: rs[i][x].Missing?
    ensures Shown(keys, labels, from, to, rs, i, k) <==> Shown(keys, labels, from, to, rs, i, j)
    decreases j - k
  {
    if k < j { SkipMissing(keys, labels, from, to, rs, i, k + 1, j); }
  }

  // ---------- reading from tokens ----------

  /** The row from which on key `want` is looked for, behind key k - 1 of row i. */
  function From(rs: seq<KeyRow>, i: nat, k: nat, want: nat): nat {
    if want < k && i < |rs| then i + 1 else i
  }

  /** Position `at` has key k of row j, and its value and what follows are shown. */
  ghost predicate HasField(keys: seq<Key>, labels: seq<Label>, at: nat, to: nat, rs: seq<KeyRow>, j: nat, k: nat)
    requires AreRows(rs, |keys|) && j < |rs| && k < |keys|
  {
    && at < to && at + 1 < |labels| && ShowsField(labels[at + 1], keys[k], rs[j][k])
    && Shown(keys, labels, at + 1, to, rs, j, k + 1)
  }

  /** Looking for a key finds it in the first row that has it, or not before `to`. */
  lemma {:induction false} FindsField(d: Doc, keys: seq<Key>, labels: seq<Label>, from: nat, to: nat, rs: seq<KeyRow>, i: nat, k: nat, want: nat)
    returns (at: nat)
    requires Labelled(d, labels) && AreKeys(keys) && AreRows(rs, |keys|) && i <= |rs| && k <= |keys| && want < |keys|
    requires Shown(keys, labels, from, to, rs, i, k)
    ensures d.Ok() && var j := Supplier(rs, From(rs, i, k, want), want);
            if j == |rs| then Lacks(labels, from, to, keys[want].name)
            else Find(d, from, keys[want].name) == at && from <= at && HasField(keys, labels, at, to, rs, j, want)
    decreases |rs| - i, |keys| - k
  {
    hide IsPlain, Keyless, Labelled, Find, Lacks, ShowsField, AreKeys;
    LabelledSize(d, labels);
    at := 0;
    if i == |rs| {
      KeylessLacks(keys, labels, from, to, want);
    } else if k == |keys| {
      at := FindsField(d, keys, labels, from, to, rs, i + 1, 0, want);
    } else if rs[i][k].Missing? {
      at := FindsField(d, keys, labels, from, to, rs, i, k + 1, want);
    } else {
      var b: nat :| ShownAt(keys, labels, from, to, rs, i, k, b);
      KeylessLacks(keys, labels, from, b, want);
      if want == k {
        at := b;
        FindsLabel(d, labels, from, b, keys[want].name);
      } else {
        at := FindsField(d, keys, labels, b + 1, to, rs, i, k + 1, want);
        LacksKey(keys, labels, b, k, want);
        LacksJoin(labels, from, b, b + 1, keys[want].name);
        if Supplier(rs, From(rs, i, k, want), want) == |rs| {
          LacksJoin(labels, from, b + 1, to, keys[want].name);
        } else {
          FindSkips(d, labels, from, b + 1, keys[want].name);
        }
      }
    }
  }

  lemma LacksKey(keys: seq<Key>, labels: seq<Label>, at: nat, k: nat, want: nat)
    requires AreKeys(keys) && k < |keys| && want < |keys| && k != want && at < |labels| && labels[at] == Label(Str, keys[k].name)
    ensures Lacks(labels, at, at + 1, keys[want].name)
  {}

  lemma KeylessLacks(keys: seq<Key>, labels: seq<Label>, from: nat, to: nat, want: nat)
    requires want < |keys| && Keyless(keys, labels, from, to)
    ensures Lacks(labels, from, to, keys[want].name)
  {
    hide KeyIndex;
    forall i | from <= i < to ensures labels[i] != Label(Str, keys[want].name) { assert IsPlain(keys, labels[i]); }
  }

  lemma FindSkips(d: Doc, labels: seq<Label>, from: nat, to: nat, tag: string)
    requires Labelled(d, labels) && from <= to && Lacks(labels, from, to, tag)
    ensures d.Ok() && Find(d, from, tag) == Find(d, to, tag)
  {
    hide Find;
    LabelledSize(d, labels);
    var a, b := Find(d, from, tag), Find(d, to, tag);
    if a >= 0 { LabelledAt(d, labels, a); }
    if b >= 0 { LabelledAt(d, labels, b); }
  }

  /** A field is read exactly when the rows supply it; otherwise nothing, or something behind `to`. */
  lemma ReadsField(d: Doc, keys: seq<Key>, labels: seq<Label>, from: nat, to: nat, rs: seq<KeyRow>, i: nat, k: nat) returns (p: nat)
    requires Labelled(d, labels) && AreKeys(keys) && AreRows(rs, |keys|) && i <= |rs| && k < |keys|
    requires Shown(keys, labels, from, to, rs, i, k)
    ensures d.Ok() && var v := Value(d, from, keys[k].name, keys[k].kind);
            match Taken(rs, i, k)
            case None => v.None? || to < v.value
            case Some((j, text)) =>
              && v == Some(p) && from < p <= to && p < |d.toks| && p < |labels| && labels[p].kind == keys[k].kind
              && d.TextOf(d.toks[p]) == text && Shown(keys, labels, p, to, rs, j, k + 1)
  {
    hide Find, Labelled, Shown, AreKeys;
    LabelledSize(d, labels);
    var at := FindsField(d, keys, labels, from, to, rs, i, k, k);
    p := at + 1;
    if Supplier(rs, i, k) < |rs| {
      KeyKind(keys, k);
      LabelledAt(d, labels, p);
    } else {
      FoundBehind(d, labels, from, to, keys[k].name);
    }
  }

  lemma KeyKind(keys: seq<Key>, k: nat)
    requires AreKeys(keys) && k < |keys|
    ensures keys[k].kind == Str || keys[k].kind == Primitive
  {}

  lemma FoundBehind(d: Doc, labels: seq<Label>, from: nat, to: nat, tag: string)
    requires Labelled(d, labels) && Lacks(labels, from, to, tag)
    ensures d.Ok() && (Find(d, from, tag) < 0 || to <= Find(d, from, tag))
  {
    hide Find;
    LabelledSize(d, labels);
    var a := Find(d, from, tag);
    if a >= 0 { LabelledAt(d, labels, a); }
  }

  // ---------- the rows of any labels ----------

  function FieldAt(labels: seq<Label>, at: nat, key: Key): (f: Field)
    requires at < |labels|
    ensures !f.Missing?
  {
    if labels[at].kind == key.kind then Given(labels[at].text) else Odd
  }

  function Blank(n: nat): (r: KeyRow)
    ensures |r| == n && forall x | 0 <= x < n :: r[x].Missing?
  {
    seq(n, _ => Missing)
  }

  /** A key in front of rows: into the first of them, if that begins behind the key, otherwise into a new one. */
  function AddField(n: nat, k: nat, f: Field, rs: seq<KeyRow>): (r: seq<KeyRow>)
    requires k < n && AreRows(rs, n)
    ensures AreRows(r, n)
  {
    if rs != [] && forall x | 0 <= x <= k :: rs[0][x].Missing? then rs[0 := rs[0][k := f]] else [Blank(n)[k := f]] + rs
  }

  /** The rows that the labels from `from` up to `to` fall into. */
  function RowsOf(keys: seq<Key>, labels: seq<Label>, from: nat, to: nat): (rs: seq<KeyRow>)
    requires to < |labels| || (to == |labels| && (to > 0 ==> IsPlain(keys, labels[to - 1])))
    ensures AreRows(rs, |keys|)
    decreases if from < to then to - from else 0
  {
    if from >= to then []
    else if IsPlain(keys, labels[from]) then RowsOf(keys, labels, from + 1, to)
    else
      var k := KeyIndex(keys, labels[from].text);
      AddField(|keys|, k, FieldAt(labels, from + 1, keys[k]), RowsOf(keys, labels, from + 1, to))
  }

  /** They are what the labels show. */
  lemma {:induction false} RowsShown(keys: seq<Key>, labels: seq<Label>, from: nat, to: nat)
    requires from <= to && (to < |labels| || (to == |labels| && (to > 0 ==> IsPlain(keys, labels[to - 1]))))
    ensures Shown(keys, labels, from, to, RowsOf(keys, labels, from, to), 0, 0)
    decreases if from < to then to - from else 0
  {
    hide KeyIndex, IsPlain;
    if from < to {
      var rest := RowsOf(keys, labels, from + 1, to);
      RowsShown(keys, labels, from + 1, to);
      if IsPlain(keys, labels[from]) {
        ShownEarlier(keys, labels, from, from + 1, to, rest, 0, 0);
      } else {
        PlainOrKey(keys, labels[from]);
        AddShown(keys, labels, from, to, KeyIndex(keys, labels[from].text), rest);
      }
    }
  }

  lemma PlainOrKey(keys: seq<Key>, l: Label)
    requires !IsPlain(keys, l)
    ensures KeyIndex(keys, l.text) < |keys| && l == Label(Str, keys[KeyIndex(keys, l.text)].name)
  {}

  lemma AddShown(keys: seq<Key>, labels: seq<Label>, from: nat, to: nat, k: nat, rs: seq<KeyRow>)
    requires AreRows(rs, |keys|) && k < |keys| && from < to && from + 1 < |labels| && labels[from] == Label(Str, keys[k].name)
    requires Shown(keys, labels, from + 1, to, rs, 0, 0)
    ensures Shown(keys, labels, from, to, AddField(|keys|, k, FieldAt(labels, from + 1, keys[k]), rs), 0, 0)
  {
    hide Shown, FieldAt, AddField;
    var n, f := |keys|, FieldAt(labels, from + 1, keys[k]);
    var rs' := AddField(n, k, f, rs);
    AddedShown(keys, labels, from + 1, to, k, f, rs);
    FirstAdded(n, k, f, rs);
    ShownHere(keys, labels, from, to, rs', k);
    SkipMissing(keys, labels, from, to, rs', 0, 0, k);
  }

  lemma FirstAdded(n: nat, k: nat, f: Field, rs: seq<KeyRow>)
    requires k < n && AreRows(rs, n)
    ensures var r := AddField(n, k, f, rs); r != [] && |r[0]| == n && r[0][k] == f && forall x | 0 <= x < k :: r[0][x].Missing?
  {}

  lemma AddedShown(keys: seq<Key>, labels: seq<Label>, from: nat, to: nat, k: nat, f: Field, rs: seq<KeyRow>)
    requires AreRows(rs, |keys|) && k < |keys| && Shown(keys, labels, from, to, rs, 0, 0)
    ensures AddField(|keys|, k, f, rs) != [] && Shown(keys, labels, from, to, AddField(|keys|, k, f, rs), 0, k + 1)
  {
    hide Shown;
    if rs != [] && forall x | 0 <= x <= k :: rs[0][x].Missing? {
      SkipMissing(keys, labels, from, to, rs, 0, 0, k + 1);
      ShownSame(keys, labels, from, to, rs, 0, AddField(|keys|, k, f, rs), 0, k + 1);
    } else {
      NewRowShown(keys, labels, from, to, Blank(|keys|)[k := f], rs, k + 1);
    }
  }

  lemma NewRowShown(keys: seq<Key>, labels: seq<Label>, from: nat, to: nat, row: KeyRow, rs: seq<KeyRow>, k: nat)
    requires AreRows(rs, |keys|) && |row| == |keys| && k <= |keys| && Shown(keys, labels, from, to, rs, 0, 0)
    requires forall x | k <= x < |keys| :: row[x].Missing?
    ensures Shown(keys, labels, from, to, [row] + rs, 0, k)
  {
    hide Shown;
    var rs' := [row] + rs;
    ShownSame(keys, labels, from, to, rs, 0, rs', 1, 0);
    ShownRow(keys, labels, from, to, rs', 0);
    SkipMissing(keys, labels, from, to, rs', 0, k, |keys|);
  }

  lemma ShownRow(keys: seq<Key>, labels: seq<Label>, from: nat, to: nat, rs: seq<KeyRow>, i: nat)
    requires AreRows(rs, |keys|) && i < |rs|
    ensures Shown(keys, labels, from, to, rs, i, |keys|) <==> Shown(keys, labels, from, to, rs, i + 1, 0)
  {}

  lemma ShownHere(keys: seq<Key>, labels: seq<Label>, at: nat, to: nat, rs: seq<KeyRow>, k: nat)
    requires AreRows(rs, |keys|) && rs != [] && k < |keys| && at < to && at + 1 < |labels|
    requires labels[at] == Label(Str, keys[k].name) && rs[0][k] == FieldAt(labels, at + 1, keys[k])
    requires (labels[at + 1].kind == keys[k].kind ==> labels[at + 1] == Label(keys[k].kind, labels[at + 1].text))
    requires Shown(keys, labels, at + 1, to, rs, 0, k + 1)
    ensures Shown(keys, labels, at, to, rs, 0, k)
  {
    assert ShownAt(keys, labels, at, to, rs, 0, k, at);
  }

  /** What is shown depends on the fields still to come only. */
  lemma {:induction false} ShownSame(keys: seq<Key>, labels: seq<Label>, from: nat, to: nat, rs: seq<KeyRow>, i: nat, rs': seq<KeyRow>, i': nat, k: nat)
    requires AreRows(rs, |keys|) && AreRows(rs', |keys|) && i <= |rs| && i' <= |rs'| && |rs| - i == |rs'| - i' && k <= |keys|
    requires forall x | i < x < |rs| :: rs[x] == rs'[x - i + i']
    requires i < |rs| ==> forall x | k <= x < |keys| :: rs[i][x] == rs'[i'][x]
    requires Shown(keys, labels, from, to, rs, i, k)
    ensures Shown(keys, labels, from, to, rs', i', k)
    decreases |rs| - i, |keys| - k
  {
    hide Keyless, ShowsField;
    if i < |rs| {
      if k == |keys| {
        assert i + 1 < |rs| ==> rs[i + 1] == rs'[i' + 1];
        ShownSame(keys, labels, from, to, rs, i + 1, rs', i' + 1, 0);
      } else if rs[i][k].Missing? {
        ShownSame(keys, labels, from, to, rs, i, rs', i', k + 1);
      } else {
        var at: nat :| ShownAt(keys, labels, from, to, rs, i, k, at);
        ShownSame(keys, labels, at + 1, to, rs, i, rs', i', k + 1);
        assert ShownAt(keys, labels, from, to, rs', i', k, at);
      }
    }
  }
}
