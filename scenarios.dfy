/**
 * Client code that drives a fresh table through the documented behaviour,
 * and through the two places where the code departs from its documentation.
 */
module Scenarios {
  import opened Chains
  import opened Hashtables

  /** Two keys put into a new table are both found, for any hash function. */
  method PutTwoKeys(h: string -> nat) returns (a: Option<string>, b: Option<string>, hasA: bool)
    ensures a == Some("1") && b == Some("2") && hasA
  {
    var t := new Hashtable(h);
    t.Put("a", "1");
    t.Put("b", "2");
    a := t.Get("a");
    b := t.Get("b");
    hasA := t.ContainsKey("a");
  }

  /** Putting a key twice keeps the second value and one entry. */
  method LastWriteWins(h: string -> nat, k: string, v1: string, v2: string)
    returns (v: Option<string>, count: int)
    ensures v == Some(v2) && count == 1
  {
    var t := new Hashtable(h);
    t.Put(k, v1);
    t.Put(k, v2);
    v := t.Get(k);
    count := t.entries;
  }

  /** A key put into a new table is removed once; the second removal fails. */
  method RemoveTwice(h: string -> nat, k: string, v: string)
    returns (first: Result<string>, second: Result<string>, after: Option<string>)
    ensures first == Ok(v) && second == Err(KeyNotFound) && after == None
  {
    var t := new Hashtable(h);
    t.Put(k, v);
    first := t.Remove(k);
    after := t.Get(k);
    second := t.Remove(k);
  }

  /** Removing from an empty table fails with KeyNotFound. */
  method RemoveFromEmpty(h: string -> nat, k: string) returns (r: Result<string>)
    ensures r == Err(KeyNotFound)
  {
    var t := new Hashtable(h);
    r := t.Remove(k);
  }

  /**
   * A new table after putting "AaAa" and "AaBB". Java's `String.hashCode`
   * gives both, and "BBBB" too, 2031744, so the hash here is that constant
   * and every key is filed under bucket 2031744 % 30000 == 21744.
   */
  method TwoCollidingKeys() returns (t: Hashtable)
    ensures fresh(t) && fresh(t.bucket) && t.Valid()
    ensures t.bucketSize == INITIAL_BUCKET_SIZE && t.entries == 2
    ensures t.GetHash("AaAa") == 21744 && t.GetHash("AaBB") == 21744 && t.GetHash("BBBB") == 21744
    ensures t.bucket[21744] == [Entry("AaBB", "2"), Entry("AaAa", "1")]
    ensures t.Contents == map["AaAa" := "1", "AaBB" := "2"]
  {
    assert "AaAa" != "AaBB";
    assert 2031744 % INITIAL_BUCKET_SIZE == 21744;
    t := new Hashtable(_ => 2031744);
    assert t.GetHash("AaAa") == 21744 && t.GetHash("AaBB") == 21744 && t.GetHash("BBBB") == 21744;
    t.Put("AaAa", "1");
    assert t.Contents == map["AaAa" := "1"] && t.bucketSize == INITIAL_BUCKET_SIZE;
    assert t.bucket[21744] == [Entry("AaAa", "1")] && t.entries == 1;
    assert "AaBB" !in t.Contents;
    t.Put("AaBB", "2");
  }

  /** The table of `TwoCollidingKeys` after also putting "BBBB": head insertion gives BBBB, AaBB, AaAa. */
  method CollidingTable() returns (t: Hashtable)
    ensures fresh(t) && fresh(t.bucket) && t.Valid()
    ensures t.GetHash("AaAa") == 21744
    ensures t.bucket[21744] == [Entry("BBBB", "3"), Entry("AaBB", "2"), Entry("AaAa", "1")]
    ensures t.Contents == map["AaAa" := "1", "AaBB" := "2", "BBBB" := "3"]
  {
    t := TwoCollidingKeys();
    assert "BBBB" !in t.Contents;
    t.Put("BBBB", "3");
  }

  /**
   * The three colliding keys form the chain "BBBB", "AaBB", "AaAa": removing
   * "AaAa", the third node, does not return although "AaAa" is bound.
   */
  method RemoveThirdNode() returns (found: Option<string>, r: Result<string>)
    ensures found == Some("1") && r == Err(NonTermination)
  {
    var t := CollidingTable();
    found := t.Get("AaAa");
    r := t.Remove("AaAa");
  }

  /** The scanning removal of the same third node returns its value. */
  method RemoveScanningThirdNode() returns (r: Result<string>, after: Option<string>)
    ensures r == Ok("1") && after == None
  {
    var t := CollidingTable();
    r := t.RemoveScanning("AaAa");
    after := t.Get("AaAa");
  }

  /**
   * "Aa" and "BB" share Java's `String.hashCode` 2112: once "Aa" is put,
   * `containsKey` reports "BB", which was never put; the scanning variant
   * does not.
   */
  method ContainsCollidingKey() returns (asWritten: bool, scanning: bool, found: Option<string>)
    ensures asWritten && !scanning && found == None
  {
    var t := new Hashtable(_ => 2112);
    t.Put("Aa", "1");
    asWritten := t.ContainsKey("BB");
    scanning := t.ContainsKeyScanning("BB");
    found := t.Get("BB");
  }
}
