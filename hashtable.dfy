/**
 * A string-to-string hash table with separate chaining: an array of
 * collision chains indexed by `hash(key) % bucketSize`, an entry counter,
 * and a resize that doubles the array once the load factor reaches 1/2.
 */
module Hashtables {
  import opened Chains
  import opened Buckets

  /** Number of buckets of a new table. */
  const INITIAL_BUCKET_SIZE: nat := 30000

  /** How `remove` ends without returning a value. */
  datatype Failure =
    | KeyNotFound      // the key's bucket is empty: `remove` throws
    | NullDereference  // a one-node chain whose head is not the key: `head.next.value` on null
    | NonTermination   // a longer chain whose first two nodes miss: the scan never advances

  datatype Result<T> = Ok(value: T) | Err(failure: Failure)

  class Hashtable {
    /** The key hash, `Math.abs(key.hashCode())` in the Java `getHash`. */
    const hash: string -> nat
    var bucket: array<Chain>
    var bucketSize: nat
    var entries: int
    /** The map the table represents. */
    ghost var Contents: map<string, string>

    /** The bucket a key is filed under at the current size. */
    function GetHash(key: string): (r: nat)
      reads this
      requires bucketSize > 0
      ensures r < bucketSize
    {
      Slot(hash, key, bucketSize)
    }

    /** The chains represent `Contents` and `entries` counts them; no load bound. */
    ghost predicate Structure()
      reads this, bucket
    {
      && bucketSize >= INITIAL_BUCKET_SIZE
      && bucket.Length == bucketSize
      && Wf(hash, bucket[..], entries, Contents)
    }

    /** The object invariant: the structure, and a load factor below 1/2. */
    ghost predicate Valid()
      reads this, bucket
    {
      Structure() && 2 * entries < bucketSize
    }

    constructor (hashCode: string -> nat)
      ensures Valid() && fresh(bucket)
      ensures hash == hashCode
      ensures bucketSize == INITIAL_BUCKET_SIZE && entries == 0 && Contents == map[]
      ensures forall i :: 0 <= i < bucket.Length ==> bucket[i] == []
    {
      hash := hashCode;
      bucketSize := INITIAL_BUCKET_SIZE;
      bucket := new Chain[INITIAL_BUCKET_SIZE](_ => []);
      entries := 0;
      Contents := map[];
      new;
      EmptyWf(hash, bucket[..]);
    }

    /** Whether the key's bucket holds any node, whichever keys they have. */
    method ContainsKey(key: string) returns (b: bool)
      requires Valid()
      ensures b <==> bucket[GetHash(key)] != []
      ensures key in Contents ==> b
    {
      assert Find(hash, bucket[..], key) == MapGet(Contents, key);
      b := bucket[GetHash(key)] != [];
    }

    /** The value of the first node with this key in its chain, or None (null). */
    method Get(key: string) returns (r: Option<string>)
      requires Valid()
      ensures r == Lookup(bucket[GetHash(key)], key)
      ensures r == MapGet(Contents, key)
    {
      var head := bucket[GetHash(key)];
      var j := 0;
      while j < |head|
        invariant 0 <= j <= |head|
        invariant forall i :: 0 <= i < j ==> head[i].key != key
      {
        if head[j].key == key {
          r := Some(head[j].value);
          assert Find(hash, bucket[..], key) == MapGet(Contents, key);
          return;
        }
        j := j + 1;
      }
      r := None;
      assert Find(hash, bucket[..], key) == MapGet(Contents, key);
    }

    /**
     * Binds `key` to `value`. A key already present has its node's value
     * overwritten in place and nothing else changes; an absent key gets a
     * new node at the head of its chain, one more entry, and a doubling of
     * the bucket array when the load factor reaches 1/2.
     */
    method Put(key: string, value: string)
      requires Valid()
      modifies this, bucket
      decreases if 2 * (entries + 1) >= bucketSize then 2 else 0
      ensures Valid()
      ensures Contents == old(Contents)[key := value]
      ensures key in old(Contents) ==>
                && entries == old(entries)
                && bucketSize == old(bucketSize) && bucket == old(bucket)
                && (exists j :: 0 <= j < |old(bucket[GetHash(key)])| &&
                                old(bucket[GetHash(key)])[j].key == key &&
                                bucket[GetHash(key)] == old(bucket[GetHash(key)])[j := Entry(key, value)])
                && (forall i :: 0 <= i < bucket.Length && i != GetHash(key) ==> bucket[i] == old(bucket[i]))
      ensures key !in old(Contents) ==> entries == old(entries) + 1
      ensures key !in old(Contents) && 2 * (old(entries) + 1) < old(bucketSize) ==>
                && bucketSize == old(bucketSize) && bucket == old(bucket)
                && bucket[GetHash(key)] == [Entry(key, value)] + old(bucket[GetHash(key)])
                && (forall i :: 0 <= i < bucket.Length && i != GetHash(key) ==> bucket[i] == old(bucket[i]))
      ensures key !in old(Contents) && 2 * (old(entries) + 1) >= old(bucketSize) ==>
                bucketSize == 2 * old(bucketSize) && fresh(bucket)
    {
      var idx := GetHash(key);
      var head := bucket[idx];
      if head == [] {
        assert Find(hash, bucket[..], key) == MapGet(Contents, key);
        PutNewWf(hash, bucket[..], entries, Contents, key, value);
        bucket[idx] := [Entry(key, value)];
        assert bucket[idx] == [Entry(key, value)] + head;
      } else {
        var j := 0;
        while j < |head| && head[j].key != key
          invariant 0 <= j <= |head|
          invariant forall i :: 0 <= i < j ==> head[i].key != key
        {
          j := j + 1;
        }
        if j < |head| {
          // the key is present: overwrite its value and return
          PutOverwriteWf(hash, bucket[..], entries, Contents, key, value, j);
          bucket[idx] := head[j := Entry(key, value)];
          Contents := Contents[key := value];
          assert bucket[..] == old(bucket[..])[idx := head[j := Entry(key, value)]];
          return;
        }
        assert Find(hash, bucket[..], key) == MapGet(Contents, key);
        PutNewWf(hash, bucket[..], entries, Contents, key, value);
        bucket[idx] := [Entry(key, value)] + head;
      }
      assert bucket[..] == old(bucket[..])[idx := [Entry(key, value)] + head];
      entries := entries + 1;
      Contents := Contents[key := value];
      if 2 * entries >= bucketSize {
        IncreaseBucketSize();
      }
    }

    /**
     * `remove` as written. An empty bucket fails with KeyNotFound; a key at
     * the head of its chain, or at the second node, is unlinked and its value
     * returned. Every other case fails with the state untouched: a one-node
     * chain dereferences null, and a longer chain is scanned by a loop that
     * never advances, so a key at the third node or later, or an absent key,
     * never returns.
     */
    method Remove(key: string) returns (r: Result<string>)
      requires Valid()
      modifies this, bucket
      ensures Valid() && bucket == old(bucket) && bucketSize == old(bucketSize)
      ensures var c := old(bucket[GetHash(key)]);
              r == if c == [] then Err(KeyNotFound)
                   else if c[0].key == key then Ok(c[0].value)
                   else if |c| == 1 then Err(NullDereference)
                   else if c[1].key == key then Ok(c[1].value)
                   else Err(NonTermination)
      ensures r.Ok? ==>
                && key in old(Contents) && r.value == old(Contents)[key]
                && Contents == old(Contents) - {key} && entries == old(entries) - 1
                && (forall i :: 0 <= i < bucket.Length && i != GetHash(key) ==> bucket[i] == old(bucket[i]))
      ensures r.Ok? ==>
                var c := old(bucket[GetHash(key)]);
                bucket[GetHash(key)] == if c[0].key == key then c[1..] else [c[0]] + c[2..]
      ensures r.Err? ==> Contents == old(Contents) && entries == old(entries) && bucket[..] == old(bucket[..])
      ensures r.Err? && key in old(Contents) ==> r.failure == NonTermination
    {
      var idx := GetHash(key);
      var head := bucket[idx];
      assert Find(hash, bucket[..], key) == MapGet(Contents, key);
      if head == [] {
        return Err(KeyNotFound);
      }
      if head[0].key == key {
        // bucket[idx] := head.next
        var v := Unlink(idx, 0);
        return Ok(v);
      }
      if |head| == 1 {
        return Err(NullDereference);
      }
      if head[1].key == key {
        // head.next := head.next.next
        var v := Unlink(idx, 1);
        return Ok(v);
      }
      return Err(NonTermination);
    }

    /**
     * `remove` with the scan advancing along the chain: the key is unbound,
     * its value returned when it was bound, KeyNotFound otherwise.
     */
    method RemoveScanning(key: string) returns (r: Result<string>)
      requires Valid()
      modifies this, bucket
      ensures Valid() && bucket == old(bucket) && bucketSize == old(bucketSize)
      ensures r == if key in old(Contents) then Ok(old(Contents)[key]) else Err(KeyNotFound)
      ensures Contents == old(Contents) - {key}
      ensures entries == if key in old(Contents) then old(entries) - 1 else old(entries)
    {
      var idx := GetHash(key);
      var head := bucket[idx];
      var j := 0;
      while j < |head| && head[j].key != key
        invariant 0 <= j <= |head|
        invariant forall i :: 0 <= i < j ==> head[i].key != key
      {
        j := j + 1;
      }
      if j == |head| {
        assert Find(hash, bucket[..], key) == MapGet(Contents, key);
        assert Contents - {key} == Contents;
        return Err(KeyNotFound);
      }
      var v := Unlink(idx, j);
      r := Ok(v);
    }

    /**
     * Unlinks node `j` of chain `idx`, returning its value: its key leaves
     * the map and the table has one entry fewer.
     */
    method Unlink(idx: nat, j: nat) returns (v: string)
      requires Valid() && idx < bucket.Length && j < |bucket[idx]|
      modifies this, bucket
      ensures Valid() && bucket == old(bucket) && bucketSize == old(bucketSize)
      ensures var e := old(bucket[idx][j]);
              && e.key in old(Contents) && v == e.value == old(Contents)[e.key]
              && Contents == old(Contents) - {e.key}
      ensures entries == old(entries) - 1
      ensures bucket[idx] == old(bucket[idx][..j] + bucket[idx][j + 1..])
      ensures forall i :: 0 <= i < bucket.Length && i != idx ==> bucket[i] == old(bucket[i])
    {
      var head := bucket[idx];
      UnlinkWf(hash, bucket[..], entries, Contents, idx, j);
      bucket[idx] := head[..j] + head[j + 1..];
      entries := entries - 1;
      Contents := Contents - {head[j].key};
      assert bucket[..] == old(bucket[..])[idx := head[..j] + head[j + 1..]];
      v := head[j].value;
    }

    /** `containsKey` scanning the chain: whether the key itself is bound. */
    method ContainsKeyScanning(key: string) returns (b: bool)
      requires Valid()
      ensures b <==> key in Contents
    {
      var v := Get(key);
      b := v.Some?;
    }

    /**
     * Doubles the bucket array and re-files every node of the old array
     * through `Put`, head to tail, bucket by bucket. The map and the entry
     * count come out as they went in, and none of the re-filing `Put`s
     * resizes again.
     */
    method IncreaseBucketSize()
      requires Structure() && entries < bucketSize
      modifies this
      decreases 1
      ensures Valid() && fresh(bucket)
      ensures bucketSize == 2 * old(bucketSize)
      ensures Contents == old(Contents) && entries == old(entries)
    {
      var temp := bucket[..];
      ghost var oldSize := bucketSize;
      ghost var oldContents := Contents;
      bucketSize := bucketSize * 2;
      bucket := new Chain[bucketSize](_ => []);
      entries := 0;
      Contents := map[];
      EmptyWf(hash, bucket[..]);
      for i := 0 to |temp|
        invariant Valid() && fresh(bucket) && bucketSize == 2 * oldSize
        invariant Refiled(hash, oldSize, oldContents, i, [], Contents)
      {
        var head := temp[i];
        var j := 0;
        while j < |head|
          invariant j <= |head|
          invariant Valid() && fresh(bucket) && bucketSize == 2 * oldSize
          invariant Refiled(hash, oldSize, oldContents, i, head[..j], Contents)
        {
          RefileNode(hash, temp, |oldContents|, oldContents, i, j, Contents);
          Put(head[j].key, head[j].value);
          j := j + 1;
        }
        assert head[..j] == head;
        RefileChain(hash, temp, |oldContents|, oldContents, i, Contents);
      }
      RefileDone(hash, temp, oldContents, Contents);
    }
  }
}
