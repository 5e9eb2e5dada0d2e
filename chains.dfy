/**
 * Collision chains. A chain is the singly-linked list of `HashNode`s hanging
 * off one bucket, written here as a sequence read from the head: the node
 * that follows `c[j]` through its `next` link is `c[j + 1]`, and the last
 * node's `next` is null.
 */
module Chains {

  datatype Option<T> = None | Some(value: T)

  /** The key/value part of a `HashNode`; its `next` link is its position in the chain. */
  datatype Entry = Entry(key: string, value: string)

  type Chain = seq<Entry>

  /**
   * The value of the first entry whose key is `k`, scanning from the head,
   * or None when the chain holds no such entry (the loop of `get`).
   */
  function Lookup(c: Chain, k: string): (r: Option<string>)
    ensures r.None? <==> forall j :: 0 <= j < |c| ==> c[j].key != k
    ensures r.Some? ==>
              exists j :: 0 <= j < |c| && c[j] == Entry(k, r.value) &&
                          forall i :: 0 <= i < j ==> c[i].key != k
  {
    if c == [] then None
    else if c[0].key == k then Some(c[0].value)
    else
      var r := Lookup(c[1..], k);
      assert r.Some? ==> exists j :: 1 <= j < |c| && c[j] == Entry(k, r.value) &&
                                     forall i :: 0 <= i < j ==> c[i].key != k by {
        if r.Some? {
          var j :| 0 <= j < |c[1..]| && c[1..][j] == Entry(k, r.value) &&
                   forall i :: 0 <= i < j ==> c[1..][i].key != k;
          assert c[j + 1] == Entry(k, r.value);
        }
      }
      r
  }

  /** No two entries of a chain share a key. */
  ghost predicate DistinctKeys(c: Chain) {
    forall i, j :: 0 <= i < j < |c| ==> c[i].key != c[j].key
  }

  /** In a chain without repeated keys, every entry is the one `Lookup` finds for its key. */
  lemma LookupAt(c: Chain, j: nat)
    requires DistinctKeys(c) && j < |c|
    ensures Lookup(c, c[j].key) == Some(c[j].value)
  {
  }

  /**
   * Overwriting the value of entry `j` in place changes what `Lookup` finds
   * for that entry's key and for no other key.
   */
  lemma {:induction false} LookupOverwrite(c: Chain, j: nat, v: string, k: string)
    requires j < |c|
    requires forall i :: 0 <= i < j ==> c[i].key != c[j].key
    ensures Lookup(c[j := Entry(c[j].key, v)], k) == if k == c[j].key then Some(v) else Lookup(c, k)
  {
    var c' := c[j := Entry(c[j].key, v)];
    if c[0].key == k {
    } else if j == 0 {
      assert c'[1..] == c[1..];
    } else {
      assert c'[1..] == c[1..][j - 1 := Entry(c[j].key, v)];
      LookupOverwrite(c[1..], j - 1, v, k);
    }
  }

  /**
   * Unlinking entry `j` from a chain without repeated keys: its key is no
   * longer found, and every other key is found as before.
   */
  lemma {:induction false} LookupUnlink(c: Chain, j: nat, k: string)
    requires DistinctKeys(c) && j < |c|
    ensures Lookup(c[..j] + c[j + 1..], k) == if k == c[j].key then None else Lookup(c, k)
  {
    var c' := c[..j] + c[j + 1..];
    if j == 0 {
      assert c' == c[1..];
      if k == c[0].key {
        assert forall i :: 0 <= i < |c'| ==> c'[i] == c[i + 1];
      }
    } else {
      assert c'[0] == c[0];
      assert c'[1..] == c[1..][..j - 1] + c[1..][j..];
      LookupUnlink(c[1..], j - 1, k);
    }
  }

  /** Unlinking an entry keeps the keys of the chain distinct. */
  lemma UnlinkDistinct(c: Chain, j: nat)
    requires DistinctKeys(c) && j < |c|
    ensures DistinctKeys(c[..j] + c[j + 1..])
    ensures forall i :: 0 <= i < j ==> (c[..j] + c[j + 1..])[i] == c[i]
    ensures forall i :: j < i < |c| ==> (c[..j] + c[j + 1..])[i - 1] == c[i]
  {
  }

  /** The number of entries over all chains of a bucket array. */
  function TotalLength(s: seq<Chain>): nat {
    if s == [] then 0 else |s[0]| + TotalLength(s[1..])
  }

  /** Replacing one chain changes the total by the difference of the two lengths. */
  lemma {:induction false} TotalLengthUpdate(s: seq<Chain>, i: nat, c: Chain)
    requires i < |s|
    ensures TotalLength(s[i := c]) == TotalLength(s) - |s[i]| + |c|
  {
    if i == 0 {
      assert s[i := c][1..] == s[1..];
    } else {
      assert s[i := c][1..] == s[1..][i - 1 := c];
      TotalLengthUpdate(s[1..], i - 1, c);
    }
  }

  /** A bucket array whose chains are all empty holds no entry. */
  lemma {:induction false} TotalLengthAllEmpty(s: seq<Chain>)
    requires forall i :: 0 <= i < |s| ==> s[i] == []
    ensures TotalLength(s) == 0
  {
    if s != [] {
      TotalLengthAllEmpty(s[1..]);
    }
  }
}
