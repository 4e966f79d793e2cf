/** JSON trees whose members show rows of keys. */
module KeyTrees {
  import opened Options
  import opened Jsmn
  import opened JsonCursor
  import opened JsonText
  import opened JsonLabels
  import opened LabelledDocs
  import opened KeyRows
  import Bittrex

  // ---------- trees that show rows ----------

  ghost predicate ArePlain(keys: seq<Key>, labels: seq<Label>) {
    forall l | l in labels :: IsPlain(keys, l)
  }

  /** The value shows the field of key k: the text, if it has the kind looked for. */
  ghost predicate ValueShows(keys: seq<Key>, v: Json, k: nat, f: Field)
    requires k < |keys|
  {
    && ArePlain(keys, Labels(v))
    && match f
       case Missing => false
       case Odd => Labels(v)[0].kind != keys[k].kind
       case Given(t) => Labels(v)[0] == Label(keys[k].kind, t)
  }

  /** The members show the fields of the keys from k on, in order, among members without any of the keys. */
  ghost predicate MembersShow(keys: seq<Key>, m: Members, k: nat, r: KeyRow)
    requires k <= |keys| == |r|
    decreases m
  {
    match m
    case NoMembers => forall x | k <= x < |keys| :: r[x].Missing?
    case Member(_, key, _, _, value, _, others) =>
      var j := KeyIndex(keys, key);
      if j == |keys| then ArePlain(keys, Labels(value)) && MembersShow(keys, others, k, r)
      else k <= j && (forall x | k <= x < j :: r[x].Missing?) && ValueShows(keys, value, j, r[j]) && MembersShow(keys, others, j + 1, r)
  }

  /** The elements are the rows from i up to n. */
  ghost predicate ElemsShow(keys: seq<Key>, e: Elems, rs: seq<KeyRow>, i: nat, n: nat)
    requires AreRows(rs, |keys|) && n <= |rs|
    decreases e
  {
    match e
    case NoElems => i == n
    case Elem(_, value, _, more) =>
      i < n && value.Record? && MembersShow(keys, value.members, 0, rs[i]) && ElemsShow(keys, more, rs, i + 1, n)
  }

  /** What elements show depends on their rows only. */
  lemma {:induction false} ElemsSame(keys: seq<Key>, e: Elems, rs: seq<KeyRow>, i: nat, n: nat, rs': seq<KeyRow>, i': nat, n': nat)
    requires AreRows(rs, |keys|) && AreRows(rs', |keys|) && i <= n <= |rs| && i' <= n' <= |rs'| && n - i == n' - i'
    requires forall x | i <= x < n :: rs[x] == rs'[x - i + i']
    requires ElemsShow(keys, e, rs, i, n)
    ensures ElemsShow(keys, e, rs', i', n')
    decreases e
  {
    hide MembersShow;
    match e
    case NoElems =>
    case Elem(_, _, _, more) =>
      assert rs[i] == rs'[i'];
      ElemsSame(keys, more, rs, i + 1, n, rs', i' + 1, n');
  }

  // ---------- from trees to labels ----------

  lemma PlainPart(keys: seq<Key>, labels: seq<Label>, at: nat, part: seq<Label>)
    requires LabelsAt(labels, at, part) && ArePlain(keys, part)
    ensures Keyless(keys, labels, at, at + |part|)
  {
    hide IsPlain;
    forall i | at <= i < at + |part| ensures IsPlain(keys, labels[i]) { assert labels[at + (i - at)] == part[i - at]; }
  }

  lemma MemberLabels(labels: seq<Label>, at: nat, m: Members)
    requires m.Member? && LabelsAt(labels, at, LabelsOfMembers(m))
    ensures at + 1 < |labels| && labels[at] == Label(Str, m.key) && Labels(m.value) != [] && labels[at + 1] == Labels(m.value)[0]
    ensures LabelsAt(labels, at + 1, Labels(m.value)) && LabelsAt(labels, at + 1 + |Labels(m.value)|, LabelsOfMembers(m.others))
    ensures |LabelsOfMembers(m)| == 1 + |Labels(m.value)| + |LabelsOfMembers(m.others)|
  {
    hide LabelsAt, Labels;
    var tail := Labels(m.value) + LabelsOfMembers(m.others);
    PartsAt(labels, at, [Label(Str, m.key)], tail);
    LabelAt(labels, at, [Label(Str, m.key)], 0);
    PartsAt(labels, at + 1, Labels(m.value), LabelsOfMembers(m.others));
    SomeLabel(m.value);
    LabelAt(labels, at + 1, Labels(m.value), 0);
  }

  lemma SomeLabel(v: Json)
    ensures |Labels(v)| > 0
  {}

  lemma PlainKey(keys: seq<Key>, labels: seq<Label>, at: nat, key: string)
    requires at < |labels| && labels[at] == Label(Str, key) && KeyIndex(keys, key) == |keys|
    ensures Keyless(keys, labels, at, at + 1)
  {}

  lemma PlainKind(keys: seq<Key>, labels: seq<Label>, at: nat)
    requires at < |labels| && labels[at].kind != Str
    ensures Keyless(keys, labels, at, at + 1)
  {}

  /** A member without any of the keys can be passed over. */
  lemma MemberPlain(keys: seq<Key>, labels: seq<Label>, at: nat, to: nat, m: Members, rs: seq<KeyRow>, i: nat, k: nat)
    requires AreRows(rs, |keys|) && i <= |rs| && k <= |keys| && m.Member? && LabelsAt(labels, at, LabelsOfMembers(m))
    requires KeyIndex(keys, m.key) == |keys| && ArePlain(keys, Labels(m.value))
    requires Shown(keys, labels, at + 1 + |Labels(m.value)|, to, rs, i, k)
    ensures Shown(keys, labels, at, to, rs, i, k)
  {
    hide KeyIndex, IsPlain, ArePlain, Keyless, LabelsAt, Labels, Shown;
    MemberLabels(labels, at, m);
    PlainPart(keys, labels, at + 1, Labels(m.value));
    ShownEarlier(keys, labels, at + 1, at + 1 + |Labels(m.value)|, to, rs, i, k);
    PlainKey(keys, labels, at, m.key);
    ShownEarlier(keys, labels, at, at + 1, to, rs, i, k);
  }

  lemma FieldShown(keys: seq<Key>, labels: seq<Label>, at: nat, to: nat, v: Json, rs: seq<KeyRow>, i: nat, k: nat)
    requires AreRows(rs, |keys|) && i < |rs| && k < |keys| && at < to && at + 1 < |labels| && labels[at] == Label(Str, keys[k].name)
    requires ValueShows(keys, v, k, rs[i][k]) && LabelsAt(labels, at + 1, Labels(v)) && labels[at + 1] == Labels(v)[0]
    requires Shown(keys, labels, at + 1 + |Labels(v)|, to, rs, i, k + 1)
    ensures Shown(keys, labels, at, to, rs, i, k)
  {
    hide IsPlain, LabelsAt;
    PlainPart(keys, labels, at + 1, Labels(v));
    ShownEarlier(keys, labels, at + 1, at + 1 + |Labels(v)|, to, rs, i, k + 1);
    assert ShownAt(keys, labels, at, to, rs, i, k, at);
  }

  lemma {:induction false} MembersShown(keys: seq<Key>, labels: seq<Label>, at: nat, to: nat, m: Members, k: nat, rs: seq<KeyRow>, i: nat)
    requires AreRows(rs, |keys|) && i < |rs| && k <= |keys| && LabelsAt(labels, at, LabelsOfMembers(m)) && MembersShow(keys, m, k, rs[i])
    requires at + |LabelsOfMembers(m)| <= to && Shown(keys, labels, at + |LabelsOfMembers(m)|, to, rs, i + 1, 0)
    ensures Shown(keys, labels, at, to, rs, i, k)
    decreases m
  {
    hide IsPlain, ArePlain, Labels, Keyless, LabelsAt, KeyIndex, ValueShows, Shown;
    match m
    case NoMembers =>
      ShownRow(keys, labels, at, to, rs, i);
      SkipMissing(keys, labels, at, to, rs, i, k, |keys|);
    case Member(_, key, _, _, value, _, others) =>
      var j, rest := KeyIndex(keys, key), at + 1 + |Labels(value)|;
      MemberLabels(labels, at, m);
      MembersShown(keys, labels, rest, to, others, if j == |keys| then k else j + 1, rs, i);
      if j == |keys| {
        MemberPlain(keys, labels, at, to, m, rs, i, k);
      } else {
        FieldShown(keys, labels, at, to, value, rs, i, j);
        SkipMissing(keys, labels, at, to, rs, i, k, j);
      }
  }

  lemma {:induction false} ElemsShown(keys: seq<Key>, labels: seq<Label>, at: nat, to: nat, e: Elems, rs: seq<KeyRow>, i: nat, n: nat)
    requires AreRows(rs, |keys|) && i <= n <= |rs| && LabelsAt(labels, at, LabelsOfElems(e)) && ElemsShow(keys, e, rs, i, n)
    requires at + |LabelsOfElems(e)| <= to && Shown(keys, labels, at + |LabelsOfElems(e)|, to, rs, n, 0)
    ensures Shown(keys, labels, at, to, rs, i, 0)
    decreases e
  {
    hide IsPlain, Keyless, LabelsAt, MembersShow, Shown;
    match e
    case NoElems =>
    case Elem(_, value, _, more) =>
      ElemLabels(keys, labels, at, e);
      ElemsShown(keys, labels, at + 1 + |LabelsOfMembers(value.members)|, to, more, rs, i + 1, n);
      MembersShown(keys, labels, at + 1, to, value.members, 0, rs, i);
      ShownEarlier(keys, labels, at, at + 1, to, rs, i, 0);
  }

  lemma ElemLabels(keys: seq<Key>, labels: seq<Label>, at: nat, e: Elems)
    requires e.Elem? && e.value.Record? && LabelsAt(labels, at, LabelsOfElems(e))
    ensures Keyless(keys, labels, at, at + 1) && LabelsAt(labels, at + 1, LabelsOfMembers(e.value.members))
    ensures |LabelsOfElems(e)| == 1 + |LabelsOfMembers(e.value.members)| + |LabelsOfElems(e.more)|
    ensures LabelsAt(labels, at + 1 + |LabelsOfMembers(e.value.members)|, LabelsOfElems(e.more))
  {
    hide LabelsAt, LabelsOfMembers;
    var record := [Label(Object, "")] + LabelsOfMembers(e.value.members);
    PartsAt(labels, at, record, LabelsOfElems(e.more));
    PartsAt(labels, at, [Label(Object, "")], LabelsOfMembers(e.value.members));
    LabelAt(labels, at, [Label(Object, "")], 0);
    PlainKind(keys, labels, at);
  }

  /** A list whose elements show rows. */
  lemma ListShown(keys: seq<Key>, labels: seq<Label>, at: nat, to: nat, v: Json, rs: seq<KeyRow>, i: nat, n: nat)
    requires AreRows(rs, |keys|) && i <= n <= |rs| && v.List? && LabelsAt(labels, at, Labels(v)) && ElemsShow(keys, v.elems, rs, i, n)
    requires at + |Labels(v)| <= to && Shown(keys, labels, at + |Labels(v)|, to, rs, n, 0)
    ensures Shown(keys, labels, at, to, rs, i, 0)
  {
    hide LabelsAt, Shown, ElemsShow, Keyless;
    PartsAt(labels, at, [Label(Array, "")], LabelsOfElems(v.elems));
    LabelAt(labels, at, [Label(Array, "")], 0);
    ElemsShown(keys, labels, at + 1, to, v.elems, rs, i, n);
    PlainKind(keys, labels, at);
    ShownEarlier(keys, labels, at, at + 1, to, rs, i, 0);
  }

  /** Labels without keys show no rows. */
  lemma PlainShown(keys: seq<Key>, labels: seq<Label>, at: nat, part: seq<Label>, rs: seq<KeyRow>)
    requires AreRows(rs, |keys|) && LabelsAt(labels, at, part) && ArePlain(keys, part)
    ensures Shown(keys, labels, at, at + |part|, rs, |rs|, 0)
  {
    hide LabelsAt, ArePlain;
    PlainPart(keys, labels, at, part);
  }

  // ---------- "success" ----------

  /** The position of a value behind the first "success" that reports it, or 0. */
  function SuccessAt(labels: seq<Label>, nums: Bittrex.Numbers): nat {
    var p := FirstOf(labels, 0, "success");
    if p + 1 < |labels| && labels[p + 1].kind == Primitive && IntOf(labels[p + 1].text, nums.atoi) != 0 then p + 1 else 0
  }

  lemma SuccessInside(labels: seq<Label>, nums: Bittrex.Numbers)
    ensures SuccessAt(labels, nums) == 0 || SuccessAt(labels, nums) < |labels|
  {}

  /** It is what the parsers find, unless "success" is the last of the text. */
  lemma SuccessFound(d: Doc, nums: Bittrex.Numbers, labels: seq<Label>)
    requires Labelled(d, labels) && FirstOf(labels, 0, "success") + 1 != |labels|
    ensures d.Ok() && Bittrex.Succeeded(d, nums) == SuccessAt(labels, nums)
  {
    hide Find, Labelled, FirstOf, IntOf;
    LabelledSize(d, labels);
    FindsFirst(d, labels, 0, "success");
    var p := FirstOf(labels, 0, "success");
    if p < |labels| { LabelledAt(d, labels, p + 1); }
  }

  /** The members behind `"success": true`, if that is the first "success" of all. */
  function AfterSuccess(m: Members): Option<Members>
    decreases m
  {
    match m
    case NoMembers => None
    case Member(_, key, _, _, value, _, others) =>
      if key == "success" then if value == Scalar("true") then Some(others) else None
      else if Label(Str, "success") in Labels(value) then None
      else AfterSuccess(others)
  }

  lemma {:induction false} MembersReport(labels: seq<Label>, nums: Bittrex.Numbers, at: nat, m: Members) returns (p: nat)
    requires LabelsAt(labels, at, LabelsOfMembers(m)) && AfterSuccess(m).Some? && Lacks(labels, 0, at, "success")
    ensures SuccessAt(labels, nums) == p > 0 && FirstOf(labels, 0, "success") + 1 == p < |labels| && labels[p] == Label(Primitive, "true")
    ensures LabelsAt(labels, p + 1, LabelsOfMembers(AfterSuccess(m).value))
    ensures p + 1 + |LabelsOfMembers(AfterSuccess(m).value)| == at + |LabelsOfMembers(m)|
    decreases m
  {
    hide LabelsAt, Lacks, FirstOf;
    MemberLabels(labels, at, m);
    var rest := at + 1 + |Labels(m.value)|;
    if m.key == "success" {
      p := at + 1;
      FirstIs(labels, at, "success");
    } else {
      LacksPart(labels, at, m.key, m.value, "success");
      LacksJoin(labels, 0, at, rest, "success");
      p := MembersReport(labels, nums, rest, m.others);
    }
  }

  lemma FirstIs(labels: seq<Label>, at: nat, tag: string)
    requires at < |labels| && labels[at] == Label(Str, tag) && Lacks(labels, 0, at, tag)
    ensures FirstOf(labels, 0, tag) == at
  {}

  lemma LacksPart(labels: seq<Label>, at: nat, key: string, v: Json, tag: string)
    requires at < |labels| && labels[at] == Label(Str, key) && key != tag
    requires LabelsAt(labels, at + 1, Labels(v)) && Label(Str, tag) !in Labels(v)
    ensures Lacks(labels, at, at + 1 + |Labels(v)|, tag)
  {
    forall i | at <= i < at + 1 + |Labels(v)| ensures labels[i] != Label(Str, tag) {
      if i > at { assert labels[at + 1 + (i - at - 1)] == Labels(v)[i - at - 1]; }
    }
  }

  /** A record with members that report success. */
  lemma RecordReports(d: Doc, nums: Bittrex.Numbers, v: Json) returns (p: nat)
    requires Labelled(d, Labels(v)) && v.Record? && AfterSuccess(v.members).Some?
    ensures d.Ok() && Bittrex.Succeeded(d, nums) == p > 0 && p < |Labels(v)| && Labels(v)[p] == Label(Primitive, "true")
    ensures LabelsAt(Labels(v), p + 1, LabelsOfMembers(AfterSuccess(v.members).value))
    ensures p + 1 + |LabelsOfMembers(AfterSuccess(v.members).value)| == |Labels(v)|
  {
    hide Labelled, LabelsAt, LabelsOfMembers, AfterSuccess, Lacks, SuccessAt, FirstOf;
    var labels, inner := Labels(v), LabelsOfMembers(v.members);
    assert LabelsAt(labels, 0, [Label(Object, "")] + inner) by { WholeAt(labels); }
    PartsAt(labels, 0, [Label(Object, "")], inner);
    LacksOne(labels, 0, "success");
    p := MembersReport(labels, nums, 1, v.members);
    SuccessFound(d, nums, labels);
  }

  lemma WholeAt(labels: seq<Label>)
    ensures LabelsAt(labels, 0, labels)
  {}
}
