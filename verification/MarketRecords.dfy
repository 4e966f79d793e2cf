/** What the Bittrex market parser makes of the records of a document. It looks for each of five keys in turn, from the
    value found last to the end of the document, so a key that a record lacks is taken from a later record. */
module MarketRecords {
  import opened Options
  import opened Jsmn
  import opened JsonCursor
  import opened KeyRows
  import opened Bittrex
  import opened Octets
  import Markets

  /** The keys looked for, in the order in which records have them. */
  const KEYS: seq<Key> := [Key("MarketCurrency", Str), Key("BaseCurrency", Str), Key("MinTradeSize", Primitive),
                           Key("MarketName", Str), Key("IsActive", Primitive)]

  /** What a record has for them. */
  type Fields = r: KeyRow | |r| == 5 witness [Missing, Missing, Missing, Missing, Missing]

  /** One entry: the listing, whether it is active, and the record the search for the next entry starts at. */
  datatype Reading = Reading(listing: Listing, active: bool, next: nat)

  function NextReading(nums: Numbers, rs: seq<Fields>, i: nat): (r: Option<Reading>)
    requires i <= |rs|
    ensures r.Some? ==> i < r.value.next <= |rs|
  {
    var m := Taken(rs, i, 0);
    if m.None? then None else
    var b := Taken(rs, m.value.0, 1);
    if b.None? then None else
    var t := Taken(rs, b.value.0, 2);
    if t.None? then None else
    var n := Taken(rs, t.value.0, 3);
    if n.None? then None else
    var a := Taken(rs, n.value.0, 4);
    if a.None? then None else
    Some(Reading(ListingOf(nums, m.value.1, b.value.1, t.value.1, n.value.1), IntOf(a.value.1, nums.atoi) != 0, a.value.0 + 1))
  }

  /** The listings the parser collects from record i on. */
  function MarketListings(nums: Numbers, rs: seq<Fields>, i: nat): seq<Listing>
    requires i <= |rs|
    decreases |rs| - i
  {
    match NextReading(nums, rs, i)
    case None => []
    case Some(r) => (if r.active then [r.listing] else []) + MarketListings(nums, rs, r.next)
  }

  // ---------- what the records say ----------

  predicate Complete(r: Fields) {
    forall k | 0 <= k < 5 :: r[k].Given?
  }

  function ListingIn(nums: Numbers, r: Fields): Listing
    requires Complete(r)
  {
    ListingOf(nums, r[0].text, r[1].text, r[2].text, r[3].text)
  }

  predicate IsActive(nums: Numbers, r: Fields)
    requires Complete(r)
  {
    IntOf(r[4].text, nums.atoi) != 0
  }

  /** The listings of the active records. */
  function Actives(nums: Numbers, rs: seq<Fields>): seq<Listing>
    requires forall r | r in rs :: Complete(r)
  {
    if rs == [] then [] else (if IsActive(nums, rs[0]) then [ListingIn(nums, rs[0])] else []) + Actives(nums, rs[1..])
  }

  /** The records whose last field is the word true, or a number that is not 0. */
  function ActiveRows(nums: Numbers, rs: seq<Fields>): (r: seq<Fields>)
    requires forall r | r in rs :: Complete(r)
    ensures forall a: Fields | a in r :: a in rs
  {
    if rs == [] then [] else
    var others := ActiveRows(nums, rs[1..]);
    assert Complete(rs[0]);
    var text := rs[0][4].text;
    if text == "true" || (text !in ["false", "null"] && nums.atoi(text) != 0) then [rs[0]] + others else others
  }

  /** What a listing says of a complete record. */
  ghost predicate Lists(nums: Numbers, l: Listing, r: Fields)
    requires Complete(r)
  {
    && l.market == Some(OctetsOf(r[0].text)) && l.base == Some(OctetsOf(r[1].text))
    && (r[2].text !in ["true", "false", "null"] ==> l.minTrade == nums.atof(r[2].text))
    && l.name == Some(OctetsOf(r[3].text)) && l.fee == 0.7
  }

  /** The listings of complete records, field by field. */
  lemma {:induction false} ActivesList(nums: Numbers, rs: seq<Fields>)
    requires forall r | r in rs :: Complete(r)
    ensures |Actives(nums, rs)| == |ActiveRows(nums, rs)|
    ensures forall i | 0 <= i < |Actives(nums, rs)| :: Lists(nums, Actives(nums, rs)[i], ActiveRows(nums, rs)[i])
  {
    hide Complete, Lists, OctetsOf;
    if rs != [] {
      ActivesList(nums, rs[1..]);
      RecordListed(nums, rs[0]);
    }
  }

  lemma RecordListed(nums: Numbers, r: Fields)
    requires Complete(r)
    ensures Lists(nums, ListingIn(nums, r), r)
    ensures IsActive(nums, r) <==> r[4].text == "true" || (r[4].text !in ["false", "null"] && nums.atoi(r[4].text) != 0)
  {}

  // ---------- complete records ----------

  lemma CompleteReading(nums: Numbers, rs: seq<Fields>, i: nat)
    requires i < |rs| && Complete(rs[i])
    ensures NextReading(nums, rs, i) == Some(Reading(ListingIn(nums, rs[i]), IsActive(nums, rs[i]), i + 1))
  {
    var r := rs[i];
    assert r[0].Given? && r[1].Given? && r[2].Given? && r[3].Given? && r[4].Given?;
  }

  /** Complete records are read one by one: the active ones are listed, in order. */
  lemma {:induction false} CompletePrefix(nums: Numbers, rs: seq<Fields>, i: nat, p: nat)
    requires i <= p <= |rs| && forall r | r in rs[i..p] :: Complete(r)
    ensures MarketListings(nums, rs, i) == Actives(nums, rs[i..p]) + MarketListings(nums, rs, p)
    decreases p - i
  {
    hide NextReading, Complete, IsActive, ListingIn;
    if i == p {
      assert rs[i..p] == [];
    } else {
      assert rs[i] == rs[i..p][0] && rs[i..p][1..] == rs[i + 1..p];
      CompleteReading(nums, rs, i);
      CompletePrefix(nums, rs, i + 1, p);
      var first := if IsActive(nums, rs[i]) then [ListingIn(nums, rs[i])] else [];
      assert first + (Actives(nums, rs[i + 1..p]) + MarketListings(nums, rs, p))
          == (first + Actives(nums, rs[i + 1..p])) + MarketListings(nums, rs, p);
    }
  }

  lemma AllComplete(nums: Numbers, rs: seq<Fields>)
    requires forall r | r in rs :: Complete(r)
    ensures MarketListings(nums, rs, 0) == Actives(nums, rs)
  {
    assert rs[0..|rs|] == rs;
    CompletePrefix(nums, rs, 0, |rs|);
    assert MarketListings(nums, rs, |rs|) == [];
    assert Actives(nums, rs) + [] == Actives(nums, rs);
  }

  // ---------- incomplete records ----------

  /** Record p has the keys before k with values of the right kind, but not key k. */
  predicate BreaksAt(rs: seq<Fields>, p: nat, k: nat) {
    p < |rs| && k < 5 && (forall x | 0 <= x < k :: rs[p][x].Given?) && !rs[p][k].Given?
  }

  /** The records that supply the five keys of an entry looked for from record i on: each is the first, from the one
      before it on, that has its key, and has it with a value of the right kind. */
  ghost predicate Supply(rs: seq<Fields>, i: nat, js: seq<nat>) {
    && |js| == 5 && Supplies(rs, i, js[0], 0)
    && Supplies(rs, js[0], js[1], 1) && Supplies(rs, js[1], js[2], 2) && Supplies(rs, js[2], js[3], 3) && Supplies(rs, js[3], js[4], 4)
  }

  ghost predicate Supplies(rs: seq<Fields>, i: nat, j: nat, k: nat)
    requires k < 5
  {
    i <= j < |rs| && rs[j][k].Given? && forall x | i <= x < j :: rs[x][k].Missing?
  }

  lemma SupplyIsTaken(rs: seq<Fields>, i: nat, j: nat, k: nat)
    requires k < 5 && Supplies(rs, i, j, k)
    ensures Taken(rs, i, k) == Some((j, rs[j][k].text))
  {
    var s := Supplier(rs, i, k);
    assert s <= j;
  }

  /** The listing put together from the records that supply its fields. */
  function SuppliedListing(nums: Numbers, rs: seq<Fields>, js: seq<nat>): Listing
    requires |js| == 5 && forall k | 0 <= k < 5 :: js[k] < |rs| && rs[js[k]][k].Given?
  {
    ListingOf(nums, rs[js[0]][0].text, rs[js[1]][1].text, rs[js[2]][2].text, rs[js[3]][3].text)
  }

  /** With suppliers, the entry is read from them and the next one is looked for behind the last of them. */
  lemma SupplyGives(nums: Numbers, rs: seq<Fields>, i: nat, js: seq<nat>)
    requires i <= |rs| && Supply(rs, i, js)
    ensures NextReading(nums, rs, i)
            == Some(Reading(SuppliedListing(nums, rs, js), IntOf(rs[js[4]][4].text, nums.atoi) != 0, js[4] + 1))
  {
    hide Taken;
    SupplyIsTaken(rs, i, js[0], 0);
    SupplyIsTaken(rs, js[0], js[1], 1);
    SupplyIsTaken(rs, js[1], js[2], 2);
    SupplyIsTaken(rs, js[2], js[3], 3);
    SupplyIsTaken(rs, js[3], js[4], 4);
  }

  /** An entry is read exactly when there are suppliers for it. */
  lemma ReadingNeedsSupply(nums: Numbers, rs: seq<Fields>, i: nat)
    requires i <= |rs|
    ensures NextReading(nums, rs, i).Some? <==> exists js :: Supply(rs, i, js)
  {
    if NextReading(nums, rs, i).Some? {
      var j0 := Taken(rs, i, 0).value.0;
      var j1 := Taken(rs, j0, 1).value.0;
      var j2 := Taken(rs, j1, 2).value.0;
      var j3 := Taken(rs, j2, 3).value.0;
      var j4 := Taken(rs, j3, 4).value.0;
      assert Supply(rs, i, [j0, j1, j2, j3, j4]);
    }
    if js :| Supply(rs, i, js) { SupplyGives(nums, rs, i, js); }
  }

  /** The suppliers of an entry looked for from an incomplete record: the record itself up to the key it lacks, later
      records from there on, even for keys it has. */
  lemma SupplyBleeds(rs: seq<Fields>, p: nat, k: nat, js: seq<nat>)
    requires BreaksAt(rs, p, k) && Supply(rs, p, js)
    ensures forall x | 0 <= x < k :: js[x] == p
    ensures forall x | k <= x < 5 :: js[x] > p
    ensures rs[p][k].Missing?
  {
    assert p <= js[0] <= js[1] <= js[2] <= js[3] <= js[4];
    OwnFields(rs, p, k, js);
  }

  lemma {:induction false} OwnFields(rs: seq<Fields>, p: nat, k: nat, js: seq<nat>)
    requires p < |rs| && k <= 5 && (forall x | 0 <= x < k :: rs[p][x].Given?) && Supply(rs, p, js)
    ensures forall x | 0 <= x < k :: js[x] == p
    decreases k
  {
    if k > 0 {
      OwnFields(rs, p, k - 1, js);
      assert rs[p][k - 1].Given?;
    }
  }

  /** The first incomplete record either ends the list or takes the missing fields from later records, exactly when
      those supply them. */
  lemma EndsOrBleeds(nums: Numbers, rs: seq<Fields>, p: nat, k: nat)
    requires BreaksAt(rs, p, k) && forall r | r in rs[..p] :: Complete(r)
    ensures (!exists js :: Supply(rs, p, js)) ==> MarketListings(nums, rs, 0) == Actives(nums, rs[..p])
    ensures forall js | Supply(rs, p, js) ::
              MarketListings(nums, rs, 0)
              == Actives(nums, rs[..p])
                 + ((if IntOf(rs[js[4]][4].text, nums.atoi) != 0 then [SuppliedListing(nums, rs, js)] else [])
                    + MarketListings(nums, rs, js[4] + 1))
  {
    hide Supply, NextReading, Complete;
    assert rs[0..p] == rs[..p];
    CompletePrefix(nums, rs, 0, p);
    ReadingNeedsSupply(nums, rs, p);
    assert Actives(nums, rs[..p]) + [] == Actives(nums, rs[..p]);
    forall js | Supply(rs, p, js)
      ensures |js| == 5 && (forall k | 0 <= k < 5 :: js[k] < |rs| && rs[js[k]][k].Given?)
      ensures MarketListings(nums, rs, p)
              == (if IntOf(rs[js[4]][4].text, nums.atoi) != 0 then [SuppliedListing(nums, rs, js)] else []) + MarketListings(nums, rs, js[4] + 1)
    {
      SupplyShape(rs, p, js);
      SupplyGives(nums, rs, p, js);
    }
  }

  lemma SupplyShape(rs: seq<Fields>, p: nat, js: seq<nat>)
    requires Supply(rs, p, js)
    ensures |js| == 5 && forall k | 0 <= k < 5 :: js[k] < |rs| && rs[js[k]][k].Given?
  {}

  /** A value of another kind under a key, such as null, ends the list: what was active before it remains. */
  lemma OddEnds(nums: Numbers, rs: seq<Fields>, p: nat, k: nat)
    requires BreaksAt(rs, p, k) && rs[p][k].Odd? && forall r | r in rs[..p] :: Complete(r)
    ensures MarketListings(nums, rs, 0) == Actives(nums, rs[..p])
  {
    hide Supply;
    if js :| Supply(rs, p, js) { SupplyBleeds(rs, p, k, js); }
    EndsOrBleeds(nums, rs, p, k);
  }

  /** So does a key that neither its record nor a later one has. */
  lemma LastMissingEnds(nums: Numbers, rs: seq<Fields>, p: nat, k: nat)
    requires BreaksAt(rs, p, k) && (forall x | p <= x < |rs| :: rs[x][k].Missing?) && forall r | r in rs[..p] :: Complete(r)
    ensures MarketListings(nums, rs, 0) == Actives(nums, rs[..p])
  {
    hide Supply, MarketListings, Actives, Complete;
    if js :| Supply(rs, p, js) { SupplyHas(rs, p, js, k); }
    EndsOrBleeds(nums, rs, p, k);
  }

  lemma SupplyHas(rs: seq<Fields>, p: nat, js: seq<nat>, k: nat)
    requires Supply(rs, p, js) && k < 5
    ensures exists x :: p <= x < |rs| && rs[x][k].Given?
  {
    assert p <= js[0] <= js[1] <= js[2] <= js[3] <= js[4];
    assert rs[js[k]][k].Given?;
  }

  // ---------- any number of incomplete records ----------

  /** From record p on, the parser comes to look for an entry at record i. */
  ghost predicate Reaches(rs: seq<Fields>, p: nat, i: nat)
    decreases i
  {
    i == p || exists h: nat, js | h < i :: Leads(rs, p, h, js, i)
  }

  ghost predicate Leads(rs: seq<Fields>, p: nat, h: nat, js: seq<nat>, i: nat)
    requires h < i
    decreases i, 0
  {
    Reaches(rs, p, h) && Supply(rs, h, js) && i == js[4] + 1
  }

  ghost predicate SuppliesActive(nums: Numbers, rs: seq<Fields>, i: nat, js: seq<nat>) {
    Supply(rs, i, js) && IntOf(rs[js[4]][4].text, nums.atoi) != 0
  }

  /** The parser lists nothing from record p on exactly when no entry it comes to is supplied with an active "IsActive". */
  lemma ListsNothing(nums: Numbers, rs: seq<Fields>, p: nat)
    requires p <= |rs|
    ensures MarketListings(nums, rs, p) == [] <==> forall i, js | Reaches(rs, p, i) :: !SuppliesActive(nums, rs, i, js)
  {
    hide Supply, MarketListings, Reaches;
    ReachesHere(rs, p);
    if forall i, js | Reaches(rs, p, i) :: !SuppliesActive(nums, rs, i, js) { NothingFrom(nums, rs, p, p); }
    if MarketListings(nums, rs, p) == [] {
      forall i, js | Reaches(rs, p, i) ensures !SuppliesActive(nums, rs, i, js) {
        if SuppliesActive(nums, rs, i, js) {
          NothingReached(nums, rs, p, i);
          SomeListed(nums, rs, i, js);
        }
      }
    }
  }

  lemma ReachesHere(rs: seq<Fields>, p: nat)
    ensures Reaches(rs, p, p)
  {}

  lemma SomeListed(nums: Numbers, rs: seq<Fields>, i: nat, js: seq<nat>)
    requires i <= |rs| && SuppliesActive(nums, rs, i, js)
    ensures MarketListings(nums, rs, i) != []
  {
    SupplyGives(nums, rs, i, js);
  }

  lemma {:induction false} NothingFrom(nums: Numbers, rs: seq<Fields>, p: nat, i: nat)
    requires p <= i <= |rs| && Reaches(rs, p, i)
    requires forall i, js | Reaches(rs, p, i) :: !SuppliesActive(nums, rs, i, js)
    ensures MarketListings(nums, rs, i) == []
    decreases |rs| - i
  {
    hide Supply, NextReading;
    ReadingNeedsSupply(nums, rs, i);
    if js :| Supply(rs, i, js) {
      SupplyGives(nums, rs, i, js);
      SupplyOrder(rs, i, js);
      assert Leads(rs, p, i, js, js[4] + 1);
      assert !SuppliesActive(nums, rs, i, js);
      NothingFrom(nums, rs, p, js[4] + 1);
    }
  }

  lemma SupplyOrder(rs: seq<Fields>, i: nat, js: seq<nat>)
    requires Supply(rs, i, js)
    ensures |js| == 5 && i <= js[4] < |rs| && rs[js[4]][4].Given?
  {}

  lemma {:induction false} NothingReached(nums: Numbers, rs: seq<Fields>, p: nat, i: nat)
    requires p <= |rs| && Reaches(rs, p, i) && MarketListings(nums, rs, p) == []
    ensures i <= |rs| && MarketListings(nums, rs, i) == []
    decreases i
  {
    hide Supply, NextReading;
    if i != p {
      var h: nat, js :| h < i && Leads(rs, p, h, js, i);
      NothingReached(nums, rs, p, h);
      SupplyOrder(rs, h, js);
      SupplyGives(nums, rs, h, js);
    }
  }

  /** The list stops at the first incomplete record exactly when no entry begun there or later is supplied with an active
      "IsActive"; in particular when its field has another kind, or no later record has one. */
  lemma StopsAtBreak(nums: Numbers, rs: seq<Fields>, p: nat, k: nat)
    requires BreaksAt(rs, p, k) && forall r | r in rs[..p] :: Complete(r)
    ensures MarketListings(nums, rs, 0) == Actives(nums, rs[..p])
            <==> forall i, js | Reaches(rs, p, i) :: !SuppliesActive(nums, rs, i, js)
    ensures rs[p][k].Odd? ==> MarketListings(nums, rs, 0) == Actives(nums, rs[..p])
    ensures (forall x | p < x < |rs| :: rs[x][4].Given? ==> IntOf(rs[x][4].text, nums.atoi) == 0) ==>
              MarketListings(nums, rs, 0) == Actives(nums, rs[..p])
  {
    hide Supply, Complete, Reaches;
    assert rs[0..p] == rs[..p];
    CompletePrefix(nums, rs, 0, p);
    ListsNothing(nums, rs, p);
    if rs[p][k].Odd? { OddEnds(nums, rs, p, k); }
    if forall x | p < x < |rs| :: rs[x][4].Given? ==> IntOf(rs[x][4].text, nums.atoi) == 0 {
      forall i, js | Reaches(rs, p, i) ensures !SuppliesActive(nums, rs, i, js) {
        if Supply(rs, i, js) { SupplierBehind(rs, p, k, i, js); }
      }
    }
  }

  lemma {:induction false} SupplierBehind(rs: seq<Fields>, p: nat, k: nat, i: nat, js: seq<nat>)
    requires BreaksAt(rs, p, k) && Reaches(rs, p, i) && Supply(rs, i, js)
    ensures |js| == 5 && p < js[4] < |rs| && rs[js[4]][4].Given?
  {
    hide Supply;
    SupplyOrder(rs, i, js);
    if i == p { SupplyBleeds(rs, p, k, js); } else { ReachesBehind(rs, p, i); }
  }

  lemma {:induction false} ReachesBehind(rs: seq<Fields>, p: nat, i: nat)
    requires Reaches(rs, p, i)
    ensures p <= i
    decreases i
  {
    hide Supply;
    if i != p {
      var h: nat, js :| h < i && Leads(rs, p, h, js, i);
      ReachesBehind(rs, p, h);
    }
  }

  // ---------- one incomplete record ----------

  /** A record with the fields of a before k and of b from k on. */
  function Mixed(a: Fields, b: Fields, k: nat): Fields
    requires k <= 5
  {
    a[..k] + b[k..]
  }

  lemma NextSupplies(rs: seq<Fields>, p: nat, k: nat) returns (js: seq<nat>)
    requires BreaksAt(rs, p, k) && rs[p][k].Missing? && p + 1 < |rs| && Complete(rs[p + 1])
    ensures Supply(rs, p, js) && js[4] == p + 1 && Complete(Mixed(rs[p], rs[p + 1], k))
    ensures forall x | 0 <= x < 5 :: rs[js[x]][x] == Mixed(rs[p], rs[p + 1], k)[x]
  {
    js := seq(5, x requires 0 <= x < 5 => if x < k then p else p + 1);
  }

  /** One incomplete record among complete ones: the list goes on behind the next record, the two of them mixed into one
      listing, unless the record has a value of another kind or is the last. */
  lemma OneIncomplete(nums: Numbers, rs: seq<Fields>, p: nat, k: nat)
    requires BreaksAt(rs, p, k) && (forall r | r in rs[..p] :: Complete(r)) && forall r | r in rs[p + 1..] :: Complete(r)
    ensures rs[p][k].Odd? || p + 1 == |rs| ==> MarketListings(nums, rs, 0) == Actives(nums, rs[..p])
    ensures rs[p][k].Missing? && p + 1 < |rs| ==>
              && Complete(rs[p + 1]) && Complete(Mixed(rs[p], rs[p + 1], k))
              && MarketListings(nums, rs, 0)
                 == Actives(nums, rs[..p])
                    + ((if IsActive(nums, rs[p + 1]) then [ListingIn(nums, Mixed(rs[p], rs[p + 1], k))] else [])
                       + Actives(nums, rs[p + 2..]))
  {
    hide Complete, Supply;
    if rs[p][k].Odd? {
      OddEnds(nums, rs, p, k);
    } else if p + 1 == |rs| {
      LastMissingEnds(nums, rs, p, k);
    } else {
      assert rs[p + 1] == rs[p + 1..][0];
      var js := NextSupplies(rs, p, k);
      SupplyShape(rs, p, js);
      EndsOrBleeds(nums, rs, p, k);
      MixedListing(nums, rs, p, k, js);
      assert rs[p + 2..|rs|] == rs[p + 2..] == rs[p + 1..][1..];
      CompletePrefix(nums, rs, p + 2, |rs|);
      assert MarketListings(nums, rs, |rs|) == [];
      assert Actives(nums, rs[p + 2..]) + [] == Actives(nums, rs[p + 2..]);
    }
  }

  lemma MixedListing(nums: Numbers, rs: seq<Fields>, p: nat, k: nat, js: seq<nat>)
    requires BreaksAt(rs, p, k) && p + 1 < |rs| && |js| == 5 && js[4] == p + 1 && Complete(Mixed(rs[p], rs[p + 1], k)) && Complete(rs[p + 1])
    requires forall x | 0 <= x < 5 :: js[x] < |rs| && rs[js[x]][x].Given? && rs[js[x]][x] == Mixed(rs[p], rs[p + 1], k)[x]
    ensures SuppliedListing(nums, rs, js) == ListingIn(nums, Mixed(rs[p], rs[p + 1], k))
    ensures (IntOf(rs[js[4]][4].text, nums.atoi) != 0) == IsActive(nums, rs[p + 1])
  {
    hide ListingOf;
    assert rs[js[0]][0] == Mixed(rs[p], rs[p + 1], k)[0] && rs[js[1]][1] == Mixed(rs[p], rs[p + 1], k)[1];
    assert rs[js[2]][2] == Mixed(rs[p], rs[p + 1], k)[2] && rs[js[3]][3] == Mixed(rs[p], rs[p + 1], k)[3];
  }

  /** The list stops at the incomplete record exactly when a value of another kind makes it, or no later record is
      active. */
  lemma StopsAtIncomplete(nums: Numbers, rs: seq<Fields>, p: nat, k: nat)
    requires BreaksAt(rs, p, k) && (forall r | r in rs[..p] :: Complete(r)) && forall r | r in rs[p + 1..] :: Complete(r)
    ensures MarketListings(nums, rs, 0) == Actives(nums, rs[..p])
            <==> rs[p][k].Odd? || forall r | r in rs[p + 1..] :: !IsActive(nums, r)
  {
    hide Complete, ListingIn, IsActive, MarketListings;
    OneIncomplete(nums, rs, p, k);
    if rs[p][k].Missing? && p + 1 < |rs| {
      var rest := rs[p + 1..];
      assert rest[0] == rs[p + 1] && rest[1..] == rs[p + 2..];
      ActivesEmpty(nums, rest[1..]);
      assert forall r :: r in rest <==> r == rest[0] || r in rest[1..];
    }
  }

  lemma {:induction false} ActivesEmpty(nums: Numbers, rs: seq<Fields>)
    requires forall r | r in rs :: Complete(r)
    ensures Actives(nums, rs) == [] <==> forall r | r in rs :: !IsActive(nums, r)
  {
    hide Complete, ListingIn, IsActive;
    if rs != [] {
      ActivesEmpty(nums, rs[1..]);
      assert forall r :: r in rs <==> r == rs[0] || r in rs[1..];
    }
  }

  const UNNAMED: Fields := [Given("A"), Given("B"), Given("1"), Missing, Given("true")]
  const NAMED: Fields := [Given("C"), Given("D"), Given("2"), Given("D-C"), Given("true")]

  /** Two records, the first without a market name: the parser makes one listing of them and loses the second. */
  lemma MixesTwoRecords(nums: Numbers)
    ensures MarketListings(nums, [UNNAMED, NAMED], 0)
            == [Markets.Listing(Some(OctetsOf("D-C")), Some(OctetsOf("A")), Some(OctetsOf("B")), nums.atof("1"), 0.7)]
  {
    hide OctetsOf;
    var rs := [UNNAMED, NAMED];
    assert BreaksAt(rs, 0, 3);
    OneIncomplete(nums, rs, 0, 3);
    assert Mixed(UNNAMED, NAMED, 3) == [Given("A"), Given("B"), Given("1"), Given("D-C"), Given("true")];
  }
}
