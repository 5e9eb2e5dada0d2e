# Hashtable — a separate-chaining string map, modelled in Dafny

The modelled program is one Java class, `Hashtable`, a mutable map from
string keys to string values. It keeps an array of `bucket_size` collision
chains (singly-linked lists of `HashNode`s). A key is filed under bucket
`Math.abs(key.hashCode()) % bucket_size`. An `entries` counter tracks the
number of nodes. When a put of a new key brings the load factor
`entries / bucket_size` to 1/2 or more, `increaseBucketSize` doubles the array
and files every node again through `put`. Clients see `containsKey`, `get`,
`put` and `remove`, and a constructor that starts with 30000 empty buckets.

The model has four modules:

- `Chains` (chains.dfy): a chain as a sequence of `Entry(key, value)` read
  from the head. `Lookup` is what `get`'s loop finds: the first match. Lemmas
  say what overwriting and unlinking a node do to `Lookup`, and how the total
  node count changes when one chain is replaced.
- `Buckets` (buckets.dfy): the bucket array as a sequence of chains. `Wf` is
  the table invariant: every node sits in the bucket its key hashes to, the
  keys of a chain are distinct, the first match in a key's chain is the key's
  value in an abstract map, and the entry counter equals both the map's size
  and the number of nodes. There is one lemma per kind of change (prepend,
  overwrite, unlink, re-filing during a resize), each showing that the change
  keeps `Wf` and what it does to the abstract map.
- `Hashtables` (hashtable.dfy): the class `Hashtable`. It has the fields
  `bucket: array<Chain>`, `bucketSize` and `entries`, plus a ghost
  `Contents` map. `Structure()` is `Wf` over the array's contents together
  with `bucket.Length == bucketSize` and `bucketSize >= INITIAL_BUCKET_SIZE`:
  the capacity never drops below 30000. `Valid()` is `Structure()` plus the
  load bound `2 * entries < bucketSize`. The methods follow the Java code: loops over
  chains, in-place array slot updates, and a resize that calls `Put`. `Put`
  and `IncreaseBucketSize` call each other, as in the source. Termination
  comes from the load bound: the re-filing `Put`s never resize again.
- `Scenarios` (scenarios.dfy): client code on fresh tables. It covers two keys
  found after two puts, last write wins, remove twice, remove on an empty
  table, and the two places where the code departs from its documentation.

The hash function is a parameter of the constructor, of type
`string -> nat`. It stands in for `Math.abs(key.hashCode())`, so every
property is proved for every non-negative hash. The Java load test
`entries * 1.0 / bucket_size >= 0.5` is the integer test
`2 * entries >= bucketSize`.

`put` of a key that is already present overwrites the value of its node and
returns early at Hashtable.java:77. `entries` is incremented only for new keys
(line 85), and an overwrite never resizes. `entries` therefore counts distinct
keys, not calls to `put`, and a resize rebuilds `entries` to exactly its old
value.

Where the code departs from its doc comments, the model follows the code:

- `containsKey` only tests whether the key's bucket is non-empty (line 43),
  while its doc comment (lines 37-41) promises a node with a matching key.
- `remove` unlinks only the chain head (102-105) or the second node
  (109-114), because its loop never advances `head`. Its doc comment (lines
  92-97) promises the key's value and a `NullPointerException` for an absent
  key. Three cases depart from it: a bound key at the third node or later
  loops forever instead of being returned; an absent key in a chain of two
  or more nodes loops forever instead of raising; and an empty bucket raises
  a plain `Exception` (line 101), not a `NullPointerException`. A miss on a
  one-node chain reads `head.next.value` on null (line 117), which is the
  `NullPointerException` the doc comment names.

## Model

| member | source | states |
|---|---|---|
| `Chains.Lookup` | Hashtable.java:52-60 | None exactly when no node of the chain has the key; otherwise the value of a node with the key that has no earlier node with the key (first match from the head) |
| `Chains.LookupAt` | Hashtable.java:52-60 | in a chain with distinct keys, looking up any node's key finds that node's value |
| `Chains.LookupOverwrite` | Hashtable.java:74-78 | overwriting the value of the first node with a key changes the lookup of that key to the new value and of no other key |
| `Chains.LookupUnlink` | Hashtable.java:102-114 | unlinking a node from a chain with distinct keys makes its key absent and leaves every other key's lookup unchanged |
| `Chains.UnlinkDistinct` | Hashtable.java:102-114 | unlinking keeps a chain's keys distinct; nodes before the unlinked one keep their positions and later ones move up by one |
| `Chains.TotalLengthUpdate` | Hashtable.java:81-85 | replacing one chain changes the total node count by the difference of the two chain lengths |
| `Chains.TotalLengthAllEmpty` | Hashtable.java:32-36 | an array of empty chains holds no node |
| `Buckets.Slot` | Hashtable.java:126-128 | the bucket index of a key lies within the bucket array |
| `Buckets.EmptyWf` | Hashtable.java:32-36 | all-empty chains with count 0 represent the empty map |
| `Buckets.ReplaceChainWf` | Hashtable.java:69-90 | replacing one chain by one that holds only that bucket's keys, without repeats, and finds the new map's values keeps the invariant |
| `Buckets.PutNewWf` | Hashtable.java:71-85 | prepending a node for an absent key keeps the invariant, adds exactly that binding and one entry |
| `Buckets.PutOverwriteWf` | Hashtable.java:74-78 | a node with the key means the key is bound to that node's value; overwriting it in place binds the key to the new value, keeps the count and every other binding |
| `Buckets.UnlinkWf` | Hashtable.java:102-114 | an unlinked node's key was bound to its value; after unlinking the key is unbound, every other binding is kept and the count drops by one |
| `Buckets.NodeBinding` | Hashtable.java:138-142 | every node of a valid array sits in its key's bucket, holds the key's bound value and is the only node with that key |
| `Buckets.RefileNode` | Hashtable.java:139-141 | re-filing the next node of an old chain adds a key not yet present, starting from a map smaller than the old one, and moves the resize progress on by one node |
| `Buckets.RefileChain` | Hashtable.java:138-143 | after the last node of an old chain, every key of that bucket has been re-filed |
| `Buckets.RefileDone` | Hashtable.java:133-143 | once every old chain is re-filed, the new map equals the old map |
| `Hashtables.Hashtable.GetHash` | Hashtable.java:126-128 | the index of a key's bucket is below `bucketSize` |
| `Hashtables.Hashtable.constructor` | Hashtable.java:32-36 | a new table has 30000 buckets, all empty, `entries == 0`, an empty map, and is valid |
| `Hashtables.Hashtable.ContainsKey` | Hashtable.java:42-44 | true exactly when the key's bucket is non-empty; hence true for every bound key (but not only for them) |
| `Hashtables.Hashtable.Get` | Hashtable.java:52-60 | returns the first match in the key's chain, and this is the key's value in the map, or None (null) when unbound |
| `Hashtables.Hashtable.Put` | Hashtable.java:69-90 | binds key to value with every other binding kept; a present key is overwritten in place in its node, with the same `entries`, bucket array and size; an absent key is prepended to its chain and adds one entry; the size doubles exactly when `2 * entries` reaches `bucketSize`, and never shrinks |
| `Hashtables.Hashtable.IncreaseBucketSize` | Hashtable.java:133-144 | doubles `bucketSize` on a fresh array; the map and `entries` come out unchanged, and the table is valid again |
| `Hashtables.Hashtable.Remove` | Hashtable.java:98-119 | an empty bucket fails with KeyNotFound; a key at the head or the second node is unlinked, its value returned, the key unbound and `entries` decremented; a one-node chain that misses fails with NullDereference; any other case fails with NonTermination; failures change nothing, and a bound key fails only by NonTermination |
| `Hashtables.Hashtable.Unlink` | Hashtable.java:102-114 | unlinking node j of a chain returns its value, removes its key from the map, decrements `entries` and changes only that chain |
| `Hashtables.Hashtable.RemoveScanning` | Hashtable.java:98-119 | the scan advances along the chain: returns the key's value and unbinds it when bound, KeyNotFound otherwise |
| `Hashtables.Hashtable.ContainsKeyScanning` | Hashtable.java:37-44 | true exactly when the key is bound, as the doc comment describes |
| `Scenarios.PutTwoKeys` | Hashtable.java:52-90 | for any hash, after putting "a" and "b" in a new table both values are found and `containsKey("a")` holds |
| `Scenarios.LastWriteWins` | Hashtable.java:74-78 | putting a key twice keeps the second value and one entry |
| `Scenarios.RemoveTwice` | Hashtable.java:98-106 | a key put into a new table is removed with its value, is then absent, and a second remove fails with KeyNotFound |
| `Scenarios.RemoveFromEmpty` | Hashtable.java:98-101 | remove on a new table fails with KeyNotFound |
| `Scenarios.TwoCollidingKeys` | Hashtable.java:69-85 | with the hash 2031744 that "AaAa", "AaBB" and "BBBB" share, all three keys are filed under bucket 21744, and putting the first two gives the chain AaBB, AaAa |
| `Scenarios.CollidingTable` | Hashtable.java:69-85 | putting "BBBB" as well gives the chain BBBB, AaBB, AaAa (head insertion) |
| `Scenarios.RemoveThirdNode` | Hashtable.java:107-117 | in chain BBBB, AaBB, AaAa, "AaAa" is bound, yet removing it does not return |
| `Scenarios.RemoveScanningThirdNode` | Hashtable.java:98-119 | in the same chain, the scanning removal returns "AaAa"'s value and leaves "AaAa" absent |
| `Scenarios.ContainsCollidingKey` | Hashtable.java:42-43 | with "Aa" put and the hash 2112 that "Aa" and "BB" share, `containsKey("BB")` is true though `get("BB")` is None; the scanning variant says false |

## Findings

| source | as written | input that shows it | evidently intended | confidence | as-written member | corrected member |
|---|---|---|---|---|---|---|
| Hashtable.java:109-117 | the loop sets `curr = head.next` but never advances `head`; a miss on the second node loops forever, and a miss on a one-node chain reads `head.next.value` on null | put "AaAa", "AaBB", "BBBB", which share `String.hashCode` 2031744 (chain BBBB, AaBB, AaAa), then remove "AaAa" | walk the chain, unlink the matching node, fail with "not found" when none matches | high (not executed) | `Hashtables.Hashtable.Remove`, shown by `Scenarios.RemoveThirdNode` | `Hashtables.Hashtable.RemoveScanning`, shown by `Scenarios.RemoveScanningThirdNode` |
| Hashtable.java:42-43 | `containsKey` returns whether the key's bucket is non-empty | put "Aa", then containsKey "BB"; both have `String.hashCode` 2112 | true only when the key itself is present (doc comment, lines 37-41) | medium (not executed) | `Hashtables.Hashtable.ContainsKey`, shown by `Scenarios.ContainsCollidingKey` | `Hashtables.Hashtable.ContainsKeyScanning` |

## Left out

- `String.hashCode` and `Math.abs` (Hashtable.java:127) are not modelled. The hash is an arbitrary `string -> nat` passed to the constructor, so the negative index from `Math.abs(Integer.MIN_VALUE)` cannot arise. The Java constructor takes no argument. The colliding scenarios use a constant hash equal to the `String.hashCode` their keys share; that value is computed by hand and is not derived in the model.
- Java `null` strings are not modelled: keys and values are non-null strings. A null key makes `put`, `get`, `containsKey` and `remove` throw a NullPointerException at `key.hashCode()` (line 127). `put(k, null)` stores a node with a null value (lines 72, 76, 81), after which `get(k)` returns null as for an unbound key, while `containsKey(k)` is true and `entries` counts the node; the model's `Get` returns None only for unbound keys.
- Java strings are sequences of UTF-16 code units and may hold unpaired surrogates; a Dafny `string` holds Unicode scalar values, so such strings cannot be keys or values here. Only key equality and the abstract hash are used, so no behaviour is lost for the strings that can be represented.
- Floating point in the load test (line 87) is replaced by the equivalent integer comparison `2 * entries >= bucketSize`.
- 32-bit `int` overflow is not modelled: `bucket_size` would overflow after seventeen doublings of 30000, and array allocation limits are ignored.
- Java object identity is not modelled. Chains are sequences of `Entry` values, the `next` links are positions in the sequence, and the old array is dropped without garbage collection. Aliasing of `HashNode`s cannot be expressed.
- Hashtables.Hashtable.Remove: it does not diverge or throw. The non-terminating path returns `Err(NonTermination)`, the null dereference returns `Err(NullDereference)`, and the thrown `Exception` returns `Err(KeyNotFound)`, all with the state unchanged.
- Hashtables.Hashtable.Put: the chain scan (lines 74-80) is a search loop followed by the overwrite and early return. It has the same outcome as returning from inside the loop.
- Hashtables.Hashtable.IncreaseBucketSize: it reads the old array through a snapshot `bucket[..]` instead of the array reference `temp`, which is never written again.
- Every operation requires the object invariant `Valid()`, which holds from construction onwards. Its load bound `2 * entries < bucketSize` is the one the source maintains.
