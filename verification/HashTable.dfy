/** The string map of hashtable.c. */
module HashTables {
  import opened Words
  import opened Options
  import Flags
  import opened Tables
  import opened KHashTable

  /** A value is a C string pointer; None stands for NULL. */
  class HashTable {
    const table: KHash<string, Option<string>>

    ghost function Map(): map<string, Option<string>>
      reads this, table
    {
      table.M
    }

    ghost predicate Valid()
      reads this, table, table.Repr
    {
      this !in table.Repr && table.Valid()
    }

    /** `hashtable_new`. */
    constructor (hash: string -> U32)
      ensures Valid() && Map() == map[] && fresh(table) && fresh(table.Repr)
    {
      table := new KHash(hash);
    }

    /** `hashtable_put`. A new key beside 2^31 others is not stored, and the value goes to one of the others. */
    method Put(key: string, value: Option<string>)
      requires Valid()
      modifies table.Repr
      ensures Valid() && fresh(table.Repr - old(table.Repr))
      ensures old(table.CanPut(key)) ==> Map() == old(Map())[key := value]
      ensures !old(table.CanPut(key)) ==> exists other | other in old(Map()) :: Map() == old(Map())[other := value]
    {
      hide Represents, KHash.Counted, Flags.Packs;
      var k, ret := table.Put(key);
      table.LiveKey(k);
      ghost var other := table.keys[k];
      table.SetValue(k, value);
      assert !old(table.CanPut(key)) ==> other in old(Map()) && Map() == old(Map())[other := value];
    }

    /** `hashtable_get`: the last value put under the key, or NULL. */
    method Get(key: string) returns (value: Option<string>)
      requires Valid()
      ensures value == if key in Map() then Map()[key] else None
    {
      var k := table.Get(key);
      if k == table.nBuckets { return None; }
      return table.vals[k];
    }
  }
}
