/**
 * The class `SimpleDict` of simple_hashtable.py: a dictionary from integer
 * keys to values of type `V`, holding one table array that its methods
 * update in place through the helpers of TableOps.
 *
 * Probing terminates exactly when some bucket is Empty or holds the key
 * probed for, so every operation requires `ProbeStops(table[..], key)`.
 * Nothing in the class ever frees an Empty bucket, so Put and Delete state
 * how many Empty buckets they leave.
 */
module SimpleHashtable {
  import opened TableSpec
  import TableOps

  class SimpleDict<V(0)> {
    var table: array<Bucket<V>>

    /** The table invariant: unique keys, every Occupied bucket reachable by probing for its key. */
    ghost predicate Valid()
      reads this, table
    {
      Wellformed(table[..])
    }

    /** The dictionary the table stands for. */
    ghost function Contents(): map<int, V>
      reads this, table
    {
      TableSpec.Contents(table[..])
    }

    /** The number of Empty buckets left: a bound on how many more keys can be probed for. */
    ghost function EmptySlots(): nat
      reads this, table
    {
      CountStatus(table[..], Empty)
    }

    constructor (size: nat := 8)
      ensures Valid() && fresh(table) && table.Length == size
      ensures Contents() == map[] && EmptySlots() == size && Len() == 0
    {
      var t := TableOps.Init(size);
      table := t;
      new;
      AllEmpty(table[..]);
    }

    method Put(key: int, val: V)
      requires Valid() && ProbeStops(table[..], key)
      modifies table
      ensures Valid()
      ensures Contents() == old(Contents())[key := val]
      ensures EmptySlots() == old(EmptySlots()) - (if key in old(Contents()) then 0 else 1)
      ensures table[..] == AfterPut(old(table[..]), key, val)
    {
      PutCorrect(table[..], key, val);
      PutEmptyCount(table[..], key, val);
      TableOps.Put(key, val, table);
    }

    method Get(key: int, default: V) returns (r: V)
      requires Valid() && ProbeStops(table[..], key)
      ensures r == if key in Contents() then Contents()[key] else default
    {
      r := TableOps.Get(key, table, default);
    }

    method Has(key: int) returns (b: bool)
      requires Valid() && ProbeStops(table[..], key)
      ensures b <==> key in Contents()
    {
      b := TableOps.Has(key, table);
    }

    method Delete(key: int)
      requires Valid() && ProbeStops(table[..], key)
      modifies table
      ensures Valid()
      ensures Contents() == old(Contents()) - {key}
      ensures EmptySlots() == old(EmptySlots()) - (if key in old(Contents()) then 0 else 1)
      ensures Len() == old(Len()) - (if key in old(Contents()) then 1 else 0)
      ensures table[..] == AfterDelete(old(table[..]), key)
    {
      DeleteCorrect(table[..], key);
      DeleteEmptyCount(table[..], key);
      TableOps.Delete(key, table);
    }

    /** `__setitem__`, an alias of Put. */
    method SetItem(key: int, val: V)
      requires Valid() && ProbeStops(table[..], key)
      modifies table
      ensures Valid()
      ensures Contents() == old(Contents())[key := val]
      ensures EmptySlots() == old(EmptySlots()) - (if key in old(Contents()) then 0 else 1)
      ensures table[..] == AfterPut(old(table[..]), key, val)
    {
      Put(key, val);
    }

    /** `__contains__`, an alias of Has. */
    method Contains(key: int) returns (b: bool)
      requires Valid() && ProbeStops(table[..], key)
      ensures b <==> key in Contents()
    {
      b := Has(key);
    }

    /** `__len__`: the number of Occupied buckets, which is the size of the dictionary. */
    function Len(): (n: nat)
      reads this, table
      ensures Valid() ==> n == |Contents()|
    {
      ContentsSize(table[..]);
      CountStatus(table[..], Occupied)
    }
  }
}
