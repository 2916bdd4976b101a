/**
 * The module-level helpers of simple_hashtable.py (`_init`, `_probe`,
 * `_put`, `_get`, `_has`, `_delete`), each working on a table array in place.
 * Every method is proved against the value-level definitions of TableSpec.
 */
module TableOps {
  import opened TableSpec

  /** `_init`: a fresh table of `size` buckets, every one of them Empty. */
  method Init<V(0)>(size: nat := 8) returns (table: array<Bucket<V>>)
    ensures fresh(table) && table.Length == size
    ensures forall j :: 0 <= j < size ==> table[j].status == Empty
  {
    table := new Bucket<V>[size];
    forall j | 0 <= j < size {
      table[j] := table[j].(status := Empty);
    }
  }

  /**
   * `_probe`: linear probing from `key % len(table)`, skipping Deleted buckets
   * and buckets of other keys, up to the first Empty bucket or the bucket
   * holding `key`. The loop has no bound of its own; it stops within
   * `table.Length` rounds exactly when some bucket would stop it.
   */
  method Probe<V>(key: int, table: array<Bucket<V>>) returns (i: int)
    requires ProbeStops(table[..], key)
    ensures 0 <= i < table.Length && Stops(table[i], key)
    ensures i == ProbeIndex(table[..], key)
  {
    var h := key;
    var p := 0;
    var search := true;
    i := 0;
    while search
      invariant 0 <= p <= table.Length
      invariant search ==> p <= ProbeOffset(table[..], key)
      invariant !search ==> p == ProbeOffset(table[..], key) + 1 && i == Slot(key, p - 1, table.Length)
      decreases table.Length - p
    {
      i := (h + p) % table.Length;
      assert table[i] == table[..][Slot(key, p, |table[..]|)];
      if table[i].status == Empty {
        // Found an Empty bucket.
        search := false;
      } else if table[i].status == Occupied && table[i].key == key {
        // Found the bucket holding the key.
        search := false;
      }
      // Otherwise the bucket is Deleted or holds another key: skip it.
      p := p + 1;
    }
  }

  /** `_put`: the probed bucket becomes Occupied with `key` and `val`. */
  method Put<V>(key: int, val: V, table: array<Bucket<V>>)
    requires ProbeStops(table[..], key)
    modifies table
    ensures table[..] == AfterPut(old(table[..]), key, val)
  {
    var i := Probe(key, table);
    table[i] := Bucket(Occupied, key, val);
  }

  /** `_get`: the value stored under `key`, or `default` when the probe stops at a bucket that is not Occupied. */
  method Get<V>(key: int, table: array<Bucket<V>>, default: V) returns (r: V)
    requires ProbeStops(table[..], key)
    ensures Wellformed(table[..]) ==>
              r == if key in Contents(table[..]) then Contents(table[..])[key] else default
  {
    var i := Probe(key, table);
    if table[i].status == Occupied {
      r := table[i].val;
    } else {
      r := default;
    }
    if Wellformed(table[..]) {
      ProbeFinds(table[..], key);
    }
  }

  /** `_has`: whether the probe stops at an Occupied bucket. */
  method Has<V>(key: int, table: array<Bucket<V>>) returns (b: bool)
    requires ProbeStops(table[..], key)
    ensures Wellformed(table[..]) ==> (b <==> key in Contents(table[..]))
  {
    var i := Probe(key, table);
    b := table[i].status == Occupied;
    if Wellformed(table[..]) {
      ProbeFinds(table[..], key);
    }
  }

  /** `_delete`: the probed bucket is marked Deleted, even when it was Empty. */
  method Delete<V>(key: int, table: array<Bucket<V>>)
    requires ProbeStops(table[..], key)
    modifies table
    ensures table[..] == AfterDelete(old(table[..]), key)
  {
    var i := Probe(key, table);
    table[i] := table[i].(status := Deleted);
  }
}
