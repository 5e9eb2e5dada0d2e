/**
 * The bucket array as a value: a sequence of chains, filed by
 * `hash(key) % number of buckets`, and the invariant that makes it represent
 * a map from keys to values.
 */
module Buckets {
  import opened Chains

  /**
   * The bucket a key is filed under among `n` buckets (`getHash`), for a
   * non-negative hash function `h`.
   */
  function Slot(h: string -> nat, k: string, n: nat): (r: nat)
    requires n > 0
    ensures r < n
  {
    h(k) % n
  }

  /** Map lookup with absence as None: the abstract `get`. */
  function MapGet(m: map<string, string>, k: string): Option<string> {
    if k in m then Some(m[k]) else None
  }

  /** What a concrete `get` finds: the first match in the key's chain. */
  function Find(h: string -> nat, s: seq<Chain>, k: string): Option<string>
    requires |s| > 0
  {
    Lookup(s[Slot(h, k, |s|)], k)
  }

  /**
   * The bucket array `s` represents the map `m` and `count` counts its
   * entries: every node sits in the bucket its key hashes to, the keys of a
   * chain are pairwise distinct, the first match in a key's chain is the
   * key's value in `m`, and `count` is both the number of keys of `m` and
   * the number of nodes over all chains.
   */
  ghost predicate Wf(h: string -> nat, s: seq<Chain>, count: int, m: map<string, string>) {
    && |s| > 0
    && (forall i, j :: 0 <= i < |s| && 0 <= j < |s[i]| ==> Slot(h, s[i][j].key, |s|) == i)
    && (forall i :: 0 <= i < |s| ==> DistinctKeys(s[i]))
    && (forall k :: Find(h, s, k) == MapGet(m, k))
    && count == |m| == TotalLength(s)
  }

  /** A bucket array of empty chains represents the empty map with no entries. */
  lemma EmptyWf(h: string -> nat, s: seq<Chain>)
    requires |s| > 0
    requires forall i :: 0 <= i < |s| ==> s[i] == []
    ensures Wf(h, s, 0, map[])
  {
    TotalLengthAllEmpty(s);
  }

  /**
   * Replacing chain `idx` by `c` keeps the invariant when `c` holds only keys
   * of that bucket, without repeats, and finds exactly the new map's values
   * for that bucket's keys, the other keys keeping their values.
   */
  lemma ReplaceChainWf(h: string -> nat, s: seq<Chain>, count: int, m: map<string, string>,
                       idx: nat, c: Chain, count': int, m': map<string, string>)
    requires Wf(h, s, count, m) && idx < |s|
    requires forall j :: 0 <= j < |c| ==> Slot(h, c[j].key, |s|) == idx
    requires DistinctKeys(c)
    requires forall k :: Slot(h, k, |s|) == idx ==> Lookup(c, k) == MapGet(m', k)
    requires forall k :: Slot(h, k, |s|) != idx ==> MapGet(m', k) == MapGet(m, k)
    requires count' == |m'| == count - |s[idx]| + |c|
    ensures Wf(h, s[idx := c], count', m')
  {
    var t: seq<Chain> := s[idx := c];
    TotalLengthUpdate(s, idx, c);
    assert |t| == |s|;
    forall i: nat, j: nat | i < |t| && j < |t[i]| ensures Slot(h, t[i][j].key, |t|) == i {
      if i != idx {
        assert t[i] == s[i];
      }
    }
    forall i: nat | i < |t| ensures DistinctKeys(t[i]) {
      if i != idx {
        assert t[i] == s[i];
      }
    }
    forall k ensures Find(h, t, k) == MapGet(m', k) {
      var i := Slot(h, k, |s|);
      if i != idx {
        assert t[i] == s[i];
        assert Find(h, s, k) == MapGet(m, k);
      }
    }
  }

  /**
   * `put` of a key that is absent: the node prepended to the key's chain
   * adds exactly that binding and one entry.
   */
  lemma PutNewWf(h: string -> nat, s: seq<Chain>, count: int, m: map<string, string>,
                 key: string, value: string)
    requires Wf(h, s, count, m)
    requires key !in m
    ensures var i := Slot(h, key, |s|);
            Wf(h, s[i := [Entry(key, value)] + s[i]], count + 1, m[key := value])
  {
    var i := Slot(h, key, |s|);
    var c := [Entry(key, value)] + s[i];
    var m' := m[key := value];
    assert c[1..] == s[i];
    assert Find(h, s, key) == None;
    forall k | Slot(h, k, |s|) == i ensures Lookup(c, k) == MapGet(m', k) {
      if k != key {
        assert Find(h, s, k) == MapGet(m, k);
      }
    }
    forall k | Slot(h, k, |s|) != i ensures MapGet(m', k) == MapGet(m, k) {
      assert k != key;
    }
    ReplaceChainWf(h, s, count, m, i, c, count + 1, m');
  }

  /**
   * `put` of a key found at position `j` of its chain: overwriting that
   * node's value in place binds the key to the new value and keeps the count.
   */
  lemma PutOverwriteWf(h: string -> nat, s: seq<Chain>, count: int, m: map<string, string>,
                       key: string, value: string, j: nat)
    requires Wf(h, s, count, m)
    requires j < |s[Slot(h, key, |s|)]| && s[Slot(h, key, |s|)][j].key == key
    ensures key in m && m[key] == s[Slot(h, key, |s|)][j].value
    ensures var i := Slot(h, key, |s|);
            Wf(h, s[i := s[i][j := Entry(key, value)]], count, m[key := value])
  {
    var i := Slot(h, key, |s|);
    var c := s[i][j := Entry(key, value)];
    var m' := m[key := value];
    LookupAt(s[i], j);
    assert Find(h, s, key) == MapGet(m, key);
    forall k | Slot(h, k, |s|) == i ensures Lookup(c, k) == MapGet(m', k) {
      LookupOverwrite(s[i], j, value, k);
      if k != key {
        assert Find(h, s, k) == MapGet(m, k);
      }
    }
    forall k | Slot(h, k, |s|) != i ensures MapGet(m', k) == MapGet(m, k) {
      assert k != key;
    }
    assert m'.Keys == m.Keys;
    ReplaceChainWf(h, s, count, m, i, c, count, m');
  }

  /**
   * Unlinking the node at position `j` of chain `i` (`remove`): its key was
   * bound to its value, and afterwards the key is unbound, every other
   * binding is kept and there is one entry fewer.
   */
  lemma UnlinkWf(h: string -> nat, s: seq<Chain>, count: int, m: map<string, string>,
                 i: nat, j: nat)
    requires Wf(h, s, count, m)
    requires i < |s| && j < |s[i]|
    ensures s[i][j].key in m && m[s[i][j].key] == s[i][j].value
    ensures Wf(h, s[i := s[i][..j] + s[i][j + 1..]], count - 1, m - {s[i][j].key})
  {
    var key := s[i][j].key;
    var c := s[i][..j] + s[i][j + 1..];
    var m' := m - {key};
    LookupAt(s[i], j);
    assert Find(h, s, key) == MapGet(m, key);
    UnlinkDistinct(s[i], j);
    forall k | Slot(h, k, |s|) == i ensures Lookup(c, k) == MapGet(m', k) {
      LookupUnlink(s[i], j, k);
      assert Find(h, s, k) == MapGet(m, k);
    }
    forall k | Slot(h, k, |s|) != i ensures MapGet(m', k) == MapGet(m, k) {
      assert k != key;
    }
    assert m'.Keys == m.Keys - {key};
    ReplaceChainWf(h, s, count, m, i, c, count - 1, m');
  }

  /**
   * Each node of a well-formed bucket array is filed under its key's slot,
   * holds the key's value in the map, and is the only node with that key.
   */
  lemma NodeBinding(h: string -> nat, s: seq<Chain>, count: int, m: map<string, string>,
                    i: nat, j: nat)
    requires Wf(h, s, count, m)
    requires i < |s| && j < |s[i]|
    ensures Slot(h, s[i][j].key, |s|) == i
    ensures s[i][j].key in m && m[s[i][j].key] == s[i][j].value
    ensures forall p :: 0 <= p < |s[i]| && p != j ==> s[i][p].key != s[i][j].key
  {
    LookupAt(s[i], j);
    assert Find(h, s, s[i][j].key) == MapGet(m, s[i][j].key);
  }

  /**
   * Progress of a resize over the old bucket array (of `n` buckets) of map
   * `m`: `c` holds exactly the bindings of `m` whose keys are filed before
   * bucket `i`, or in bucket `i` among the nodes of `done`.
   */
  ghost predicate Refiled(h: string -> nat, n: nat, m: map<string, string>, i: nat, done: Chain,
                          c: map<string, string>)
    requires n > 0
  {
    && (forall k :: k in c <==>
          k in m && (Slot(h, k, n) < i ||
                     (Slot(h, k, n) == i && HasKey(done, k))))
    && (forall k :: k in c ==> c[k] == m[k])
  }

  /**
   * Re-filing node `j` of old chain `i`: its key is not yet in the new map,
   * the new map is smaller than the old one, and adding the node's binding
   * moves the progress on by one node.
   */
  lemma RefileNode(h: string -> nat, s: seq<Chain>, count: int, m: map<string, string>,
                   i: nat, j: nat, c: map<string, string>)
    requires Wf(h, s, count, m)
    requires i < |s| && j < |s[i]|
    requires Refiled(h, |s|, m, i, s[i][..j], c)
    ensures s[i][j].key !in c
    ensures |c| < |m|
    ensures Refiled(h, |s|, m, i, s[i][..j + 1], c[s[i][j].key := s[i][j].value])
  {
    var e := s[i][j];
    var before, after := s[i][..j], s[i][..j + 1];
    NodeBinding(h, s, count, m, i, j);
    HasKeyExtend(s[i], j, e.key);
    assert !HasKey(before, e.key);
    assert e.key !in c;
    SubsetCardinality(c.Keys + {e.key}, m.Keys);
    var c' := c[e.key := e.value];
    forall k ensures k in c' <==> k in m && (Slot(h, k, |s|) < i || (Slot(h, k, |s|) == i && HasKey(after, k))) {
      HasKeyExtend(s[i], j, k);
    }
    forall k | k in c' ensures c'[k] == m[k] {
    }
  }

  /** After the last node of old chain `i`, the progress moves to bucket `i + 1`. */
  lemma RefileChain(h: string -> nat, s: seq<Chain>, count: int, m: map<string, string>,
                    i: nat, c: map<string, string>)
    requires Wf(h, s, count, m)
    requires i < |s|
    requires Refiled(h, |s|, m, i, s[i], c)
    ensures Refiled(h, |s|, m, i + 1, [], c)
  {
    forall k | k in m && Slot(h, k, |s|) == i ensures k in c {
      assert Find(h, s, k) == MapGet(m, k);
    }
  }

  /** Once every old chain is re-filed, the new map is the old one. */
  lemma RefileDone(h: string -> nat, s: seq<Chain>, m: map<string, string>, c: map<string, string>)
    requires |s| > 0
    requires Refiled(h, |s|, m, |s|, [], c)
    ensures c == m
  {
  }

  /** A subset is no larger than the set containing it. */
  lemma {:induction false} SubsetCardinality(a: set<string>, b: set<string>)
    requires a <= b
    ensures |a| <= |b|
    decreases a
  {
    if a != {} {
      var x :| x in a;
      SubsetCardinality(a - {x}, b - {x});
    }
  }

  /** Some node of chain `c` has key `k`. */
  ghost predicate HasKey(c: Chain, k: string) {
    exists p :: 0 <= p < |c| && c[p].key == k
  }

  /** Extending a prefix of a chain by one node adds that node's key. */
  lemma HasKeyExtend(c: Chain, j: nat, k: string)
    requires j < |c|
    ensures HasKey(c[..j + 1], k) <==> HasKey(c[..j], k) || c[j].key == k
  {
  }
}
