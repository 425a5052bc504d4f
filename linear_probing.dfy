/**
 * The open-addressing table: a fixed array of TABLE_SIZE slots, collisions
 * resolved by scanning forward (cyclically) to the next free slot.
 * Slots are never vacated.
 */
module LinearProbing {
  import opened Wrappers
  import opened Hashing

  /** A slot of the table; a default slot is unoccupied, with the empty key and a default record. */
  datatype Slot<V> = Slot(key: Key, value: V, occupied: bool)

  /** The slot reached `d` steps after slot `h`, wrapping around the end of the table. */
  function At(h: int, d: int): (i: int)
    requires 0 <= h < TABLE_SIZE && 0 <= d <= TABLE_SIZE
    ensures 0 <= i < TABLE_SIZE
    ensures i == (if h + d < TABLE_SIZE then h + d else h + d - TABLE_SIZE)
  {
    (h + d) % TABLE_SIZE
  }

  /** The slot after `i`, wrapping to 0 after the last one. */
  function Next(i: int): (j: int)
    requires 0 <= i < TABLE_SIZE
    ensures j == (if i + 1 == TABLE_SIZE then 0 else i + 1)
    ensures forall h, d :: 0 <= h < TABLE_SIZE && 0 <= d < TABLE_SIZE && i == At(h, d) ==> j == At(h, d + 1)
  {
    (i + 1) % TABLE_SIZE
  }

  /** How many forward steps lead from slot `h` to slot `i`. */
  function Dist(h: int, i: int): (d: int)
    requires 0 <= h < TABLE_SIZE && 0 <= i < TABLE_SIZE
    ensures 0 <= d < TABLE_SIZE && At(h, d) == i
  {
    (i - h) % TABLE_SIZE
  }

  /** A table snapshot of the right size. */
  predicate WellSized<V>(t: seq<Slot<V>>) {
    |t| == TABLE_SIZE
  }

  /** Every slot from `h` up to `e` steps after it is occupied. */
  ghost predicate Reaches<V>(t: seq<Slot<V>>, h: int, e: int)
    requires WellSized(t) && 0 <= h < TABLE_SIZE && 0 <= e < TABLE_SIZE
  {
    forall d :: 0 <= d <= e ==> t[At(h, d)].occupied
  }

  /**
   * The probe-chain invariant: every occupied slot is reachable from its key's
   * hash through occupied slots only.
   */
  ghost predicate ChainsIntact<V>(t: seq<Slot<V>>)
    requires WellSized(t)
  {
    forall i :: 0 <= i < TABLE_SIZE && t[i].occupied ==>
      Reaches(t, Hash(t[i].key), Dist(Hash(t[i].key), i))
  }

  /** Unoccupied slots still hold the default, empty key. */
  ghost predicate BlankWhenFree<V>(t: seq<Slot<V>>)
    requires WellSized(t)
  {
    forall i :: 0 <= i < TABLE_SIZE && !t[i].occupied ==> t[i].key == []
  }

  /** The invariant every reachable table state satisfies. */
  ghost predicate Good<V>(t: seq<Slot<V>>) {
    WellSized(t) && ChainsIntact(t) && BlankWhenFree(t)
  }

  /** Some slot is still free, so that an insertion terminates. */
  ghost predicate HasFree<V>(t: seq<Slot<V>>)
    requires WellSized(t)
  {
    exists j :: 0 <= j < TABLE_SIZE && !t[j].occupied
  }

  /** Number of occupied slots. */
  function Occupied<V>(t: seq<Slot<V>>): (n: nat)
    ensures n <= |t|
  {
    if t == [] then 0 else (if t[0].occupied then 1 else 0) + Occupied(t[1..])
  }

  /**
   * The number of steps from `h` to the first free slot, scanning from step `d`:
   * every slot in between is occupied.
   */
  function FreeDist<V>(t: seq<Slot<V>>, h: int, d: int): (e: int)
    requires WellSized(t) && 0 <= h < TABLE_SIZE && 0 <= d < TABLE_SIZE
    requires exists f :: d <= f < TABLE_SIZE && !t[At(h, f)].occupied
    ensures d <= e < TABLE_SIZE && !t[At(h, e)].occupied
    ensures forall f :: d <= f < e ==> t[At(h, f)].occupied
    decreases TABLE_SIZE - d
  {
    if !t[At(h, d)].occupied then d else FreeDist(t, h, d + 1)
  }

  /** From any slot, every free slot lies some number of steps ahead. */
  lemma FreeAhead<V>(t: seq<Slot<V>>, h: int)
    requires WellSized(t) && 0 <= h < TABLE_SIZE && HasFree(t)
    ensures exists f :: 0 <= f < TABLE_SIZE && !t[At(h, f)].occupied
  {
    var j :| 0 <= j < TABLE_SIZE && !t[j].occupied;
    assert At(h, Dist(h, j)) == j;
  }

  /** The slot `linearInsert` writes: the first free slot scanning forward from the key's hash. */
  ghost function InsertSlot<V>(t: seq<Slot<V>>, key: Key): (j: int)
    requires WellSized(t) && HasFree(t)
    ensures 0 <= j < TABLE_SIZE && !t[j].occupied
    ensures forall f :: 0 <= f < Dist(Hash(key), j) ==> t[At(Hash(key), f)].occupied
  {
    FreeAhead(t, Hash(key));
    At(Hash(key), FreeDist(t, Hash(key), 0))
  }

  /** The table after `linearInsert(key, value)`. */
  ghost function Inserted<V>(t: seq<Slot<V>>, key: Key, value: V): (t': seq<Slot<V>>)
    requires WellSized(t) && HasFree(t)
    ensures WellSized(t')
    ensures t'[InsertSlot(t, key)] == Slot(key, value, true)
    ensures forall i :: 0 <= i < TABLE_SIZE && i != InsertSlot(t, key) ==> t'[i] == t[i]
  {
    t[InsertSlot(t, key) := Slot(key, value, true)]
  }

  /**
   * The probe of `linearSearch`, at `d` steps after the hash `h`: the slot there
   * is compared whatever its occupied flag; the scan goes on only to an occupied
   * slot and stops when it would come back to `h`.
   */
  function Probe<V>(t: seq<Slot<V>>, key: Key, h: int, d: int): (r: Option<int>)
    requires WellSized(t) && 0 <= h < TABLE_SIZE && 0 <= d < TABLE_SIZE
    ensures r.Some? ==> 0 <= r.value < TABLE_SIZE && t[r.value].key == key
    decreases TABLE_SIZE - d
  {
    if t[At(h, d)].key == key then Some(At(h, d))
    else if d + 1 == TABLE_SIZE || !t[At(h, d + 1)].occupied then None
    else Probe(t, key, h, d + 1)
  }

  /** The slot `linearSearch(key)` returns a pointer into, or None for a null pointer. */
  function SearchSlot<V>(t: seq<Slot<V>>, key: Key): (r: Option<int>)
    requires WellSized(t)
    ensures r.Some? ==> 0 <= r.value < TABLE_SIZE && t[r.value].key == key
  {
    Probe(t, key, Hash(key), 0)
  }

  // ---------------------------------------------------------------------------
  // Lemmas about the specification

  /** The table is full exactly when every slot is counted as occupied. */
  lemma {:induction false} FreeIffNotFull<V>(t: seq<Slot<V>>)
    ensures (exists j :: 0 <= j < |t| && !t[j].occupied) <==> Occupied(t) < |t|
  {
    if t != [] {
      FreeIffNotFull(t[1..]);
      if exists j :: 0 <= j < |t[1..]| && !t[1..][j].occupied {
        var j :| 0 <= j < |t[1..]| && !t[1..][j].occupied;
        assert !t[j + 1].occupied;
      }
      if exists j :: 0 <= j < |t| && !t[j].occupied {
        var j :| 0 <= j < |t| && !t[j].occupied;
        if j > 0 { assert !t[1..][j - 1].occupied; }
      }
    }
  }

  /** Marking one free slot occupied raises the occupied count by exactly one. */
  lemma {:induction false} OccupyCounts<V>(t: seq<Slot<V>>, j: int, s: Slot<V>)
    requires 0 <= j < |t| && !t[j].occupied && s.occupied
    ensures Occupied(t[j := s]) == Occupied(t) + 1
  {
    if j > 0 {
      assert t[j := s][1..] == t[1..][j - 1 := s];
      OccupyCounts(t[1..], j - 1, s);
    } else {
      assert t[j := s][1..] == t[1..];
    }
  }

  /** `linearInsert` writes the new entry into a free slot, marks it occupied and touches no other slot. */
  lemma InsertWritesOneFreeSlot<V>(t: seq<Slot<V>>, key: Key, value: V)
    requires WellSized(t) && HasFree(t)
    ensures var j := InsertSlot(t, key);
      !t[j].occupied && Inserted(t, key, value)[j] == Slot(key, value, true) &&
      (forall i :: 0 <= i < TABLE_SIZE && i != j ==> Inserted(t, key, value)[i] == t[i])
    ensures Occupied(Inserted(t, key, value)) == Occupied(t) + 1
  {
    OccupyCounts(t, InsertSlot(t, key), Slot(key, value, true));
  }

  /** Inserting keeps every probe chain intact and every free slot blank. */
  lemma InsertKeepsGood<V>(t: seq<Slot<V>>, key: Key, value: V)
    requires Good(t) && HasFree(t)
    ensures Good(Inserted(t, key, value))
  {
    var t' := Inserted(t, key, value);
    var j := InsertSlot(t, key);
    var h := Hash(key);
    forall i | 0 <= i < TABLE_SIZE && t'[i].occupied
      ensures Reaches(t', Hash(t'[i].key), Dist(Hash(t'[i].key), i))
    {
      if i == j {
        forall d | 0 <= d <= Dist(h, j) ensures t'[At(h, d)].occupied {
        }
      } else {
        var hi := Hash(t[i].key);
        assert Reaches(t, hi, Dist(hi, i));
        forall d | 0 <= d <= Dist(hi, i) ensures t'[At(hi, d)].occupied {
          assert t[At(hi, d)].occupied;
        }
      }
    }
  }

  /** A search that has got `e` steps deep into an occupied run ending at the key finds a slot. */
  lemma {:induction false} ProbeFindsInRun<V>(t: seq<Slot<V>>, key: Key, h: int, d: int, e: int)
    requires WellSized(t) && 0 <= h < TABLE_SIZE && 0 <= d <= e < TABLE_SIZE
    requires Reaches(t, h, e) && t[At(h, e)].key == key
    ensures Probe(t, key, h, d).Some?
    decreases e - d
  {
    if t[At(h, d)].key != key {
      assert d < e && t[At(h, d + 1)].occupied;
      ProbeFindsInRun(t, key, h, d + 1, e);
    }
  }

  /**
   * Under the invariant, a non-empty key is found exactly when some occupied
   * slot holds it, and the slot found is an occupied one holding it.
   */
  lemma SearchFindsIffStored<V>(t: seq<Slot<V>>, key: Key)
    requires Good(t) && key != []
    ensures SearchSlot(t, key).Some? <==> exists i :: 0 <= i < TABLE_SIZE && t[i].occupied && t[i].key == key
    ensures SearchSlot(t, key).Some? ==> t[SearchSlot(t, key).value].occupied
  {
    if i :| 0 <= i < TABLE_SIZE && t[i].occupied && t[i].key == key {
      var h := Hash(key);
      assert Reaches(t, h, Dist(h, i));
      ProbeFindsInRun(t, key, h, 0, Dist(h, i));
    }
  }

  /** Searching the empty key while slot 0 is still free returns that default slot. */
  lemma EmptyKeyFindsDefaultSlot<V>(t: seq<Slot<V>>)
    requires Good(t) && !t[0].occupied
    ensures SearchSlot(t, []) == Some(0)
  {
    assert Hash([]) == 0;
  }

  /** After `linearInsert(key, value)`, searching the key finds a slot holding it. */
  lemma InsertThenSearch<V>(t: seq<Slot<V>>, key: Key, value: V)
    requires Good(t) && HasFree(t)
    ensures var r := SearchSlot(Inserted(t, key, value), key);
      r.Some? && Inserted(t, key, value)[r.value].key == key
  {
    var t' := Inserted(t, key, value);
    var j := InsertSlot(t, key);
    InsertKeepsGood(t, key, value);
    var h := Hash(key);
    assert Reaches(t', h, Dist(h, j));
    ProbeFindsInRun(t', key, h, 0, Dist(h, j));
  }

  /**
   * Record round trip: after inserting a non-empty key no occupied slot held,
   * searching it returns exactly the slot just written, so the record found is `value`.
   */
  lemma InsertThenSearchReturnsValue<V>(t: seq<Slot<V>>, key: Key, value: V)
    requires Good(t) && HasFree(t) && key != []
    requires forall i :: 0 <= i < TABLE_SIZE && t[i].occupied ==> t[i].key != key
    ensures SearchSlot(Inserted(t, key, value), key) == Some(InsertSlot(t, key))
    ensures Inserted(t, key, value)[InsertSlot(t, key)].value == value
  {
    InsertKeepsGood(t, key, value);
    InsertWritesOneFreeSlot(t, key, value);
    SearchFindsIffStored(Inserted(t, key, value), key);
  }

  /** Writing into a free slot that is not the first one probed leaves a successful probe unchanged. */
  lemma {:induction false} ProbeIgnoresFreeSlot<V>(t: seq<Slot<V>>, key: Key, h: int, d: int, j: int, s: Slot<V>)
    requires WellSized(t) && 0 <= h < TABLE_SIZE && 0 <= d < TABLE_SIZE
    requires 0 <= j < TABLE_SIZE && !t[j].occupied && j != h
    requires d == 0 || t[At(h, d)].occupied
    requires Probe(t, key, h, d).Some?
    ensures Probe(t[j := s], key, h, d) == Probe(t, key, h, d)
    decreases TABLE_SIZE - d
  {
    var t' := t[j := s];
    assert At(h, 0) == h;
    assert At(h, d) != j;
    if t[At(h, d)].key != key {
      ProbeIgnoresFreeSlot(t, key, h, d + 1, j, s);
    }
  }

  /**
   * An insertion never changes where a stored key is found: in particular a
   * duplicate key inserted later is not returned, the first one still is.
   */
  lemma InsertKeepsEarlierMatch<V>(t: seq<Slot<V>>, key: Key, value: V, other: Key)
    requires Good(t) && HasFree(t)
    requires SearchSlot(t, other).Some? && t[SearchSlot(t, other).value].occupied
    ensures SearchSlot(Inserted(t, key, value), other) == SearchSlot(t, other)
  {
    var i := SearchSlot(t, other).value;
    var h := Hash(other);
    assert Reaches(t, h, Dist(h, i));
    assert At(h, 0) == h;
    ProbeIgnoresFreeSlot(t, other, h, 0, InsertSlot(t, key), Slot(key, value, true));
  }

  /** A non-empty key that no slot holds is not found, and inserting a different key keeps it so. */
  lemma AbsentStaysAbsent<V>(t: seq<Slot<V>>, key: Key, value: V, other: Key)
    requires Good(t) && HasFree(t) && other != [] && other != key
    requires forall i :: 0 <= i < TABLE_SIZE && t[i].occupied ==> t[i].key != other
    ensures SearchSlot(t, other) == None
    ensures SearchSlot(Inserted(t, key, value), other) == None
  {
    SearchFindsIffStored(t, other);
    InsertKeepsGood(t, key, value);
    SearchFindsIffStored(Inserted(t, key, value), other);
  }

  /**
   * Two keys with the same hash: "Ab" and "BC" both hash to 2113.  Inserted in
   * that order while slots 2113 and 2114 are free, "Ab" lands in 2113 and "BC"
   * probes on to 2114; each search then finds its own slot, the one for "BC"
   * after passing the occupied slot 2113 with a different key.
   */
  lemma CollidingKeysScenario<V>(t: seq<Slot<V>>, v1: V, v2: V)
    requires Good(t) && !t[2113].occupied && !t[2114].occupied
    ensures Hash([65, 98]) == 2113 && Hash([66, 67]) == 2113
    ensures HasFree(Inserted(t, [65, 98], v1))
    ensures var t2 := Inserted(Inserted(t, [65, 98], v1), [66, 67], v2);
      SearchSlot(t2, [65, 98]) == Some(2113) && SearchSlot(t2, [66, 67]) == Some(2114) &&
      t2[2113] == Slot([65, 98], v1, true) && t2[2114] == Slot([66, 67], v2, true)
  {
    var ab: Key := [65, 98];
    var bc: Key := [66, 67];
    assert ab[..1] == [65] && ab[..1][..0] == [];
    assert bc[..1] == [66] && bc[..1][..0] == [];
    assert HasFree(t) by { assert !t[2113].occupied; }
    assert Hash(ab) == 2113 && Hash(bc) == 2113;
    assert At(2113, 0) == 2113;
    assert FreeDist(t, 2113, 0) == 0;
    assert InsertSlot(t, ab) == 2113;
    var t1 := Inserted(t, ab, v1);
    assert !t1[2114].occupied;
    assert HasFree(t1);
    assert At(2113, 1) == 2114;
    assert FreeDist(t1, 2113, 0) == 1;
    assert InsertSlot(t1, bc) == 2114;
    var t2 := Inserted(t1, bc, v2);
    assert Probe(t2, bc, 2113, 1) == Some(2114);
  }

  // ---------------------------------------------------------------------------
  // The table itself

  class LinearTable<V> {
    /** The global `linearHashTable`. */
    var slots: array<Slot<V>>

    ghost predicate Valid()
      reads this, slots
    {
      Good(slots[..])
    }

    /** All slots default: unoccupied, empty key, a default-constructed record `blank`. */
    constructor (blank: V)
      ensures Valid() && fresh(slots)
      ensures forall i :: 0 <= i < TABLE_SIZE ==> slots[i] == Slot([], blank, false)
      ensures Occupied(slots[..]) == 0
    {
      slots := new Slot<V>[TABLE_SIZE](_ => Slot([], blank, false));
      new;
      NoneOccupied(slots[..]);
    }

    /** `linearInsert`: probe forward from the hash to the first free slot and fill it. */
    method Insert(key: Key, value: V)
      requires Valid() && HasFree(slots[..])
      modifies slots
      ensures Valid()
      ensures slots[..] == Inserted(old(slots[..]), key, value)
      ensures Occupied(slots[..]) == old(Occupied(slots[..])) + 1
    {
      ghost var t := slots[..];
      var index := HashFunction(key);
      ghost var h := index;
      FreeAhead(t, h);
      ghost var e := FreeDist(t, h, 0);
      ghost var d := 0;
      while slots[index].occupied
        invariant 0 <= d <= e && index == At(h, d)
        decreases e - d
      {
        index := Next(index);
        d := d + 1;
      }
      assert index == InsertSlot(t, key);
      slots[index] := Slot(key, value, true);
      assert slots[..] == t[index := Slot(key, value, true)];
      InsertWritesOneFreeSlot(t, key, value);
      InsertKeepsGood(t, key, value);
    }

    /** `linearSearch`: the slot holding `key`, or None; the table is left as it is. */
    method Search(key: Key) returns (r: Option<int>)
      requires Valid()
      ensures r == SearchSlot(slots[..], key)
    {
      var index := HashFunction(key);
      var start := index;
      ghost var d := 0;
      while true
        invariant 0 <= d < TABLE_SIZE && index == At(start, d)
        invariant Probe(slots[..], key, start, d) == Probe(slots[..], key, start, 0)
        decreases TABLE_SIZE - d
      {
        if slots[index].key == key {
          return Some(index);
        }
        index := Next(index);
        d := d + 1;
        if !(slots[index].occupied && index != start) {
          return None;
        }
      }
    }
  }

  /** A table of default slots has no occupied slot. */
  lemma {:induction false} NoneOccupied<V>(t: seq<Slot<V>>)
    requires forall i :: 0 <= i < |t| ==> !t[i].occupied
    ensures Occupied(t) == 0
  {
    if t != [] { NoneOccupied(t[1..]); }
  }
}
