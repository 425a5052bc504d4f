/**
 * The separate-chaining table: a fixed array of TABLE_SIZE buckets, each an
 * insertion-ordered list of (key, record) entries.
 */
module Chaining {
  import opened Wrappers
  import opened Hashing

  /** One node of a bucket's `std::list`. */
  datatype Entry<V> = Entry(key: Key, value: V)

  /** A table snapshot of the right size. */
  predicate WellSized<V>(b: seq<seq<Entry<V>>>) {
    |b| == TABLE_SIZE
  }

  /** Every entry sits in the bucket its key hashes to. */
  ghost predicate Hashed<V>(b: seq<seq<Entry<V>>>) {
    WellSized(b) &&
    forall i, p :: 0 <= i < TABLE_SIZE && 0 <= p < |b[i]| ==> Hash(b[i][p].key) == i
  }

  /** The position of the first entry of `bucket` with the given key, in insertion order. */
  function FirstMatch<V>(bucket: seq<Entry<V>>, key: Key): (r: Option<int>)
    ensures r.Some? ==> 0 <= r.value < |bucket| && bucket[r.value].key == key
    ensures r.Some? ==> forall q :: 0 <= q < r.value ==> bucket[q].key != key
    ensures r.None? <==> forall q :: 0 <= q < |bucket| ==> bucket[q].key != key
  {
    if bucket == [] then None
    else if bucket[0].key == key then Some(0)
    else match FirstMatch(bucket[1..], key)
      case None => None
      case Some(p) => Some(p + 1)
  }

  /** The record `chainSearch(key)` returns a pointer to, or None for a null pointer. */
  function Lookup<V>(b: seq<seq<Entry<V>>>, key: Key): (r: Option<V>)
    requires WellSized(b)
    ensures r.Some? ==> exists p :: 0 <= p < |b[Hash(key)]| && b[Hash(key)][p] == Entry(key, r.value)
    ensures r.None? <==> forall p :: 0 <= p < |b[Hash(key)]| ==> b[Hash(key)][p].key != key
  {
    match FirstMatch(b[Hash(key)], key)
    case None => None
    case Some(p) => Some(b[Hash(key)][p].value)
  }

  /** The table after `chainInsert(key, value)`. */
  function Appended<V>(b: seq<seq<Entry<V>>>, key: Key, value: V): (b': seq<seq<Entry<V>>>)
    requires WellSized(b)
    ensures WellSized(b')
  {
    b[Hash(key) := b[Hash(key)] + [Entry(key, value)]]
  }

  // ---------------------------------------------------------------------------
  // Lemmas about the specification

  /** Appending puts the entry at the end of the key's bucket and leaves every other bucket alone. */
  lemma AppendTouchesOneBucket<V>(b: seq<seq<Entry<V>>>, key: Key, value: V)
    requires WellSized(b)
    ensures var b' := Appended(b, key, value);
      |b'[Hash(key)]| == |b[Hash(key)]| + 1 &&
      b'[Hash(key)][..|b[Hash(key)]|] == b[Hash(key)] &&
      b'[Hash(key)][|b[Hash(key)]|] == Entry(key, value) &&
      forall i :: 0 <= i < TABLE_SIZE && i != Hash(key) ==> b'[i] == b[i]
  {
  }

  /** Appending keeps every entry in the bucket of its key's hash. */
  lemma AppendKeepsHashed<V>(b: seq<seq<Entry<V>>>, key: Key, value: V)
    requires Hashed(b)
    ensures Hashed(Appended(b, key, value))
  {
    var b': seq<seq<Entry<V>>> := Appended(b, key, value);
    forall i, p | 0 <= i < TABLE_SIZE && 0 <= p < |b'[i]| ensures Hash(b'[i][p].key) == i {
      if i == Hash(key) && p < |b[i]| {
        assert b'[i][p] == b[i][p];
      }
    }
  }

  /** Under the invariant a key is found exactly when some bucket holds an entry with it. */
  lemma LookupFindsIffStored<V>(b: seq<seq<Entry<V>>>, key: Key)
    requires Hashed(b)
    ensures Lookup(b, key).Some? <==>
      exists i, p :: 0 <= i < TABLE_SIZE && 0 <= p < |b[i]| && b[i][p].key == key
  {
    if i, p :| 0 <= i < TABLE_SIZE && 0 <= p < |b[i]| && b[i][p].key == key {
      assert Hash(b[i][p].key) == i;
    }
  }

  /** First match in a bucket after appending: the old first match if there was one, else the new entry. */
  lemma {:induction false} FirstMatchAppend<V>(bucket: seq<Entry<V>>, key: Key, e: Entry<V>)
    ensures FirstMatch(bucket + [e], key) ==
      if FirstMatch(bucket, key).Some? then FirstMatch(bucket, key)
      else if e.key == key then Some(|bucket|) else None
  {
    if bucket != [] {
      assert (bucket + [e])[1..] == bucket[1..] + [e];
      FirstMatchAppend(bucket[1..], key, e);
    }
  }

  /**
   * After `chainInsert(key, value)`, searching the key returns the record
   * stored earlier under that key if there is one (first match wins), and
   * `value` otherwise; searches for other keys are unaffected.
   */
  lemma AppendThenLookup<V>(b: seq<seq<Entry<V>>>, key: Key, value: V, other: Key)
    requires WellSized(b)
    ensures Lookup(Appended(b, key, value), key) ==
      if Lookup(b, key).Some? then Lookup(b, key) else Some(value)
    ensures other != key ==> Lookup(Appended(b, key, value), other) == Lookup(b, other)
  {
    var h := Hash(key);
    FirstMatchAppend(b[h], key, Entry(key, value));
    if other != key && Hash(other) == h {
      FirstMatchAppend(b[h], other, Entry(key, value));
    }
  }

  /** Two records inserted under the same new key: searching returns the first one. */
  lemma DuplicateKeepsFirst<V>(b: seq<seq<Entry<V>>>, key: Key, first: V, second: V)
    requires WellSized(b) && Lookup(b, key) == None
    ensures Lookup(Appended(Appended(b, key, first), key, second), key) == Some(first)
  {
    AppendThenLookup(b, key, first, key);
    AppendThenLookup(Appended(b, key, first), key, second, key);
  }

  /**
   * "Ab" and "BC" both hash to 2113 and end up, in insertion order, in that one
   * bucket; each search returns its own record, and "Z", whose bucket 90 is
   * empty, is not found.
   */
  lemma CollidingKeysScenario<V>(b: seq<seq<Entry<V>>>, v1: V, v2: V)
    requires WellSized(b) && b[2113] == [] && b[90] == []
    ensures var b2 := Appended(Appended(b, [65, 98], v1), [66, 67], v2);
      b2[2113] == [Entry([65, 98], v1), Entry([66, 67], v2)] &&
      Lookup(b2, [65, 98]) == Some(v1) && Lookup(b2, [66, 67]) == Some(v2) &&
      Lookup(b2, [90]) == None
  {
    var ab: Key := [65, 98];
    var bc: Key := [66, 67];
    var z: Key := [90];
    assert ab[..1] == [65] && ab[..1][..0] == [];
    assert bc[..1] == [66] && bc[..1][..0] == [];
    assert z[..0] == [];
    assert Hash(ab) == 2113 && Hash(bc) == 2113 && Hash(z) == 90;
    var b2 := Appended(Appended(b, ab, v1), bc, v2);
    assert FirstMatch(b2[2113], bc) == Some(1);
  }

  // ---------------------------------------------------------------------------
  // The table itself

  class ChainTable<V> {
    /** The global `chainHashTable`. */
    var buckets: array<seq<Entry<V>>>

    ghost predicate Valid()
      reads this, buckets
    {
      Hashed(buckets[..])
    }

    /** Every bucket empty. */
    constructor ()
      ensures Valid() && fresh(buckets)
      ensures forall i :: 0 <= i < TABLE_SIZE ==> buckets[i] == []
    {
      buckets := new seq<Entry<V>>[TABLE_SIZE](_ => []);
    }

    /** `chainInsert`: append the entry to the end of its key's bucket. */
    method Insert(key: Key, value: V)
      requires Valid()
      modifies buckets
      ensures Valid()
      ensures buckets[..] == Appended(old(buckets[..]), key, value)
    {
      var index := HashFunction(key);
      buckets[index] := buckets[index] + [Entry(key, value)];
      AppendKeepsHashed(old(buckets[..]), key, value);
    }

    /** `chainSearch`: scan the key's bucket in order; the table is left as it is. */
    method Search(key: Key) returns (r: Option<V>)
      requires Valid()
      ensures r == Lookup(buckets[..], key)
    {
      var index := HashFunction(key);
      var chain := buckets[index];
      var p := 0;
      while p < |chain|
        invariant 0 <= p <= |chain|
        invariant forall q :: 0 <= q < p ==> chain[q].key != key
      {
        if chain[p].key == key {
          return Some(chain[p].value);
        }
        p := p + 1;
      }
      return None;
    }
  }
}
