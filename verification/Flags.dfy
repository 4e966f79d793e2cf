/** The two-bit bucket flags of the hash table, packed sixteen to a 32-bit word. */
module Flags {

  datatype Bucket = Live | Deleted | Empty

  /** `(i & 0xf) << 1`, the position of bucket i's two bits inside its word. */
  const SHIFTS: seq<bv32> := [0, 2, 4, 6, 8, 10, 12, 14, 16, 18, 20, 22, 24, 26, 28, 30]

  const ALL_EMPTY: bv32 := 0xaaaa_aaaa

  predicate IsShift(s: bv32) {
    s <= 30 && s & 1 == 0
  }

  function ShiftOf(i: nat): (s: bv32)
    ensures IsShift(s)
  {
    SHIFTS[i % 16]
  }

  lemma ShiftIs(i: nat)
    ensures ShiftOf(i) as int == i % 16 * 2
  {}

  /** In a word with the bits 100100, bucket 0 is live, bucket 1 deleted and bucket 2 empty; an unused word has 1010... */
  lemma WordMeans()
    ensures !TestEither(36, 0) && !TestEmpty(36, 0) && !TestDeleted(36, 0)
    ensures TestEither(36, 2) && !TestEmpty(36, 2) && TestDeleted(36, 2)
    ensures TestEither(36, 4) && TestEmpty(36, 4) && !TestDeleted(36, 4)
    ensures ClearEmpty(63, 2) == 55 && ClearBoth(63, 2) == 51 && SetDeleted(0, 2) == 4 && SetDeleted(12, 2) == 12
    ensures ALL_EMPTY == 2863311530
  {}

  /** `__ac_fsize(m)`: the number of words that hold m buckets. */
  function FlagWords(m: nat): nat {
    if m < 16 then 1 else m / 16
  }

  // The macros, on one word.

  function TestEmpty(w: bv32, s: bv32): bool
    requires IsShift(s)
  {
    (w >> s) & 2 != 0
  }

  function TestDeleted(w: bv32, s: bv32): bool
    requires IsShift(s)
  {
    (w >> s) & 1 != 0
  }

  function TestEither(w: bv32, s: bv32): bool
    requires IsShift(s)
  {
    (w >> s) & 3 != 0
  }

  function ClearEmpty(w: bv32, s: bv32): bv32
    requires IsShift(s)
  {
    w & !(2 << s)
  }

  function ClearBoth(w: bv32, s: bv32): bv32
    requires IsShift(s)
  {
    w & !(3 << s)
  }

  function SetDeleted(w: bv32, s: bv32): bv32
    requires IsShift(s)
  {
    w | (1 << s)
  }

  // The macros, on a flag array.

  predicate Holds(flags: seq<bv32>, m: nat) {
    forall i: nat | i < m :: i / 16 < |flags|
  }

  function Code(w: bv32, s: bv32): bv32
    requires IsShift(s)
  {
    (w >> s) & 3
  }

  function CodeAt(flags: seq<bv32>, i: nat): bv32
    requires i / 16 < |flags|
  {
    Code(flags[i / 16], ShiftOf(i))
  }

  function Decode(c: bv32): Bucket {
    if c & 2 != 0 then Empty else if c & 1 != 0 then Deleted else Live
  }

  /** No bucket carries both bits, the one combination the table never writes. */
  ghost predicate Clean(flags: seq<bv32>, m: nat)
    requires Holds(flags, m)
  {
    forall i: nat | i < m :: CodeAt(flags, i) != 3
  }

  /** The abstract value of a flag array: the state of each of its m buckets. */
  ghost function Buckets(flags: seq<bv32>, m: nat): (b: seq<Bucket>)
    requires Holds(flags, m)
    ensures |b| == m
    ensures forall i: nat | i < m :: b[i] == Decode(CodeAt(flags, i))
  {
    seq(m, i requires 0 <= i < m => Decode(CodeAt(flags, i)))
  }

  lemma TestsMean(w: bv32, s: bv32)
    requires IsShift(s)
    ensures TestEmpty(w, s) <==> Decode(Code(w, s)) == Empty
    ensures TestEither(w, s) <==> Code(w, s) != 0
    ensures Code(w, s) != 3 ==> (TestDeleted(w, s) <==> Decode(Code(w, s)) == Deleted)
    ensures TestEither(w, s) <==> Decode(Code(w, s)) != Live
  {}

  lemma ShiftDistinct(i: nat, j: nat)
    requires i / 16 == j / 16 && i != j
    ensures ShiftOf(i) != ShiftOf(j)
  {}

  lemma ClearBothOther(w: bv32, s: bv32, t: bv32)
    requires IsShift(s) && IsShift(t) && s != t
    ensures Code(ClearBoth(w, s), t) == Code(w, t)
  {}

  lemma ClearEmptyOther(w: bv32, s: bv32, t: bv32)
    requires IsShift(s) && IsShift(t) && s != t
    ensures Code(ClearEmpty(w, s), t) == Code(w, t)
  {}

  lemma SetDeletedOther(w: bv32, s: bv32, t: bv32)
    requires IsShift(s) && IsShift(t) && s != t
    ensures Code(SetDeleted(w, s), t) == Code(w, t)
  {}

  lemma ClearBothSelf(w: bv32, s: bv32)
    requires IsShift(s)
    ensures Code(ClearBoth(w, s), s) == 0
  {}

  lemma ClearEmptySelf(w: bv32, s: bv32)
    requires IsShift(s)
    ensures Code(w, s) == 2 ==> Code(ClearEmpty(w, s), s) == 0
  {}

  lemma SetDeletedSelf(w: bv32, s: bv32)
    requires IsShift(s)
    ensures Code(w, s) == 0 ==> Code(SetDeleted(w, s), s) == 1
  {}

  /** Rewriting one word so that only bucket i's code changes changes only bucket i. */
  lemma WriteWord(flags: seq<bv32>, m: nat, i: nat, w: bv32, b: Bucket)
    requires Holds(flags, m) && i < m && Clean(flags, m)
    requires Code(w, ShiftOf(i)) != 3 && Decode(Code(w, ShiftOf(i))) == b
    requires forall t: bv32 | IsShift(t) && t != ShiftOf(i) :: Code(w, t) == Code(flags[i / 16], t)
    ensures Holds(flags[i / 16 := w], m) && Clean(flags[i / 16 := w], m)
    ensures Buckets(flags[i / 16 := w], m) == Buckets(flags, m)[i := b]
  {
    var flags' := flags[i / 16 := w];
    forall j: nat | j < m
      ensures j / 16 < |flags'| && CodeAt(flags', j) != 3
      ensures Decode(CodeAt(flags', j)) == Buckets(flags, m)[i := b][j]
    {
      if j == i {
        assert CodeAt(flags', j) == Code(w, ShiftOf(i));
      } else {
        if j / 16 == i / 16 { ShiftDistinct(i, j); }
        assert CodeAt(flags', j) == CodeAt(flags, j);
      }
    }
  }

  /** `__ac_set_isdel_true` on a live bucket. */
  lemma MarkDeleted(flags: seq<bv32>, m: nat, i: nat)
    requires Holds(flags, m) && i < m && Clean(flags, m) && Buckets(flags, m)[i] == Live
    ensures var flags' := flags[i / 16 := SetDeleted(flags[i / 16], ShiftOf(i))];
            Holds(flags', m) && Clean(flags', m) && Buckets(flags', m) == Buckets(flags, m)[i := Deleted]
  {
    var w, s := flags[i / 16], ShiftOf(i);
    SetDeletedSelf(w, s);
    forall t | IsShift(t) && t != s ensures Code(SetDeleted(w, s), t) == Code(w, t) { SetDeletedOther(w, s, t); }
    assert Code(w, s) == 0 by { TestsMean(w, s); }
    WriteWord(flags, m, i, SetDeleted(w, s), Deleted);
  }

  /** `__ac_set_isboth_false` on any bucket. */
  lemma MarkLive(flags: seq<bv32>, m: nat, i: nat)
    requires Holds(flags, m) && i < m && Clean(flags, m)
    ensures var flags' := flags[i / 16 := ClearBoth(flags[i / 16], ShiftOf(i))];
            Holds(flags', m) && Clean(flags', m) && Buckets(flags', m) == Buckets(flags, m)[i := Live]
  {
    var w, s := flags[i / 16], ShiftOf(i);
    ClearBothSelf(w, s);
    forall t | IsShift(t) && t != s ensures Code(ClearBoth(w, s), t) == Code(w, t) { ClearBothOther(w, s, t); }
    WriteWord(flags, m, i, ClearBoth(w, s), Live);
  }

  /** `__ac_set_isempty_false` on an empty bucket. */
  lemma MarkNotEmpty(flags: seq<bv32>, m: nat, i: nat)
    requires Holds(flags, m) && i < m && Clean(flags, m) && Buckets(flags, m)[i] == Empty
    ensures var flags' := flags[i / 16 := ClearEmpty(flags[i / 16], ShiftOf(i))];
            Holds(flags', m) && Clean(flags', m) && Buckets(flags', m) == Buckets(flags, m)[i := Live]
  {
    var w, s := flags[i / 16], ShiftOf(i);
    assert Code(w, s) == 2 by { EmptyCode(Code(w, s)); }
    ClearEmptySelf(w, s);
    forall t | IsShift(t) && t != s ensures Code(ClearEmpty(w, s), t) == Code(w, t) { ClearEmptyOther(w, s, t); }
    WriteWord(flags, m, i, ClearEmpty(w, s), Live);
  }

  lemma EmptyCode(c: bv32)
    requires c <= 3 && c != 3 && Decode(c) == Empty
    ensures c == 2
  {}

  /** The 0xaa fill makes every bucket empty. */
  lemma FilledIsEmpty(flags: seq<bv32>, m: nat)
    requires Holds(flags, m)
    requires forall j | 0 <= j < |flags| :: flags[j] == ALL_EMPTY
    ensures Clean(flags, m)
    ensures forall i: nat | i < m :: Buckets(flags, m)[i] == Empty
  {
    forall i: nat | i < m ensures CodeAt(flags, i) == 2 { FillCode(ShiftOf(i)); }
  }

  lemma FillCode(s: bv32)
    requires IsShift(s)
    ensures Code(ALL_EMPTY, s) == 2
  {}

  /** The flag words hold exactly the bucket states b. */
  ghost predicate Packs(flags: seq<bv32>, b: seq<Bucket>) {
    Holds(flags, |b|) && Clean(flags, |b|) && Buckets(flags, |b|) == b
  }

  lemma PacksReads(flags: seq<bv32>, b: seq<Bucket>, i: nat)
    requires Packs(flags, b) && i < |b|
    ensures i / 16 < |flags|
    ensures TestEmpty(flags[i / 16], ShiftOf(i)) <==> b[i] == Empty
    ensures TestDeleted(flags[i / 16], ShiftOf(i)) <==> b[i] == Deleted
    ensures TestEither(flags[i / 16], ShiftOf(i)) <==> b[i] != Live
  {
    hide ShiftOf;
    assert CodeAt(flags, i) != 3;
    TestsMean(flags[i / 16], ShiftOf(i));
  }

  lemma PacksDeleted(flags: seq<bv32>, b: seq<Bucket>, i: nat)
    requires Packs(flags, b) && i < |b| && b[i] == Live
    ensures i / 16 < |flags| && Packs(flags[i / 16 := SetDeleted(flags[i / 16], ShiftOf(i))], b[i := Deleted])
  {
    MarkDeleted(flags, |b|, i);
  }

  lemma PacksLive(flags: seq<bv32>, b: seq<Bucket>, i: nat)
    requires Packs(flags, b) && i < |b|
    ensures i / 16 < |flags| && Packs(flags[i / 16 := ClearBoth(flags[i / 16], ShiftOf(i))], b[i := Live])
  {
    MarkLive(flags, |b|, i);
  }

  lemma PacksNotEmpty(flags: seq<bv32>, b: seq<Bucket>, i: nat)
    requires Packs(flags, b) && i < |b| && b[i] == Empty
    ensures i / 16 < |flags| && Packs(flags[i / 16 := ClearEmpty(flags[i / 16], ShiftOf(i))], b[i := Live])
  {
    MarkNotEmpty(flags, |b|, i);
  }

  lemma PacksFill(flags: seq<bv32>, m: nat)
    requires Holds(flags, m)
    requires forall j | 0 <= j < |flags| :: flags[j] == ALL_EMPTY
    ensures Packs(flags, seq(m, _ => Empty))
  {
    FilledIsEmpty(flags, m);
  }
}
