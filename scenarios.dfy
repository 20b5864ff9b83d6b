/**
 * Concrete runs, on five slots except for the one-slot table that shows the
 * unbounded probe never ending.  With five slots the keys "a" to "e" have home
 * slots 0 to 4, "f" collides with "a", and since `i*i % 5` is 0, 1 or 4 a probe
 * chain on five slots visits only three different slots.
 */
module Scenarios {
  import opened Wrappers
  import opened Hashing
  import opened Probing
  import opened TableOps
  import opened HashTables

  /** An EMPTY slot (`Entry()`) of an `int` table. */
  const FreeSlot: Entry<int> := EmptyEntry(0)

  /** An attempt whose slot does not stop the probe hands over to the next attempt. */
  lemma PassAttempt<T>(s: seq<Entry<T>>, key: string, forInsert: bool, i: nat, j: nat)
    requires i < |s| && j < |s| && Slot(Djb2(key), i, |s|) == j
    requires !Stops(s[j], key, forInsert)
    ensures ProbeFrom(s, Djb2(key), key, forInsert, i) == ProbeFrom(s, Djb2(key), key, forInsert, i + 1)
  {
  }

  /** An attempt whose slot stops the probe decides its answer. */
  lemma StopAttempt<T>(s: seq<Entry<T>>, key: string, forInsert: bool, i: nat, j: nat)
    requires i < |s| && j < |s| && Slot(Djb2(key), i, |s|) == j
    requires Stops(s[j], key, forInsert)
    ensures ProbeFrom(s, Djb2(key), key, forInsert, i) == if forInsert || Holds(s[j], key) then Some(j) else None
  {
  }

  /** The slots the first attempts of these keys visit on five slots. */
  lemma SlotsOnFive()
    ensures Slot(Djb2("a"), 0, 5) == 0 && Slot(Djb2("b"), 0, 5) == 1 && Slot(Djb2("c"), 0, 5) == 2
    ensures Slot(Djb2("d"), 0, 5) == 3 && Slot(Djb2("e"), 0, 5) == 4 && Slot(Djb2("f"), 0, 5) == 0
    ensures Slot(Djb2("b"), 1, 5) == 2 && Slot(Djb2("b"), 2, 5) == 0
    ensures Slot(Djb2("b"), 3, 5) == 0 && Slot(Djb2("b"), 4, 5) == 2
    ensures Slot(Djb2("e"), 1, 5) == 0 && Slot(Djb2("e"), 2, 5) == 3 && Slot(Djb2("f"), 1, 5) == 1
  {
    Djb2Examples();
  }

  lemma BasicInserts()
    ensures Inserted(EmptyTable(5, 0), "a", 1) == [LiveEntry("a", 1), FreeSlot, FreeSlot, FreeSlot, FreeSlot]
    ensures Inserted([LiveEntry("a", 1), FreeSlot, FreeSlot, FreeSlot, FreeSlot], "b", 2) == [LiveEntry("a", 1), LiveEntry("b", 2), FreeSlot, FreeSlot, FreeSlot]
    ensures Inserted([LiveEntry("a", 1), LiveEntry("b", 2), FreeSlot, FreeSlot, FreeSlot], "c", 3)
         == [LiveEntry("a", 1), LiveEntry("b", 2), LiveEntry("c", 3), FreeSlot, FreeSlot]
  {
    SlotsOnFive();
    assert EmptyTable(5, 0) == [FreeSlot, FreeSlot, FreeSlot, FreeSlot, FreeSlot];
    StopAttempt([FreeSlot, FreeSlot, FreeSlot, FreeSlot, FreeSlot], "a", true, 0, 0);
    StopAttempt([LiveEntry("a", 1), FreeSlot, FreeSlot, FreeSlot, FreeSlot], "b", true, 0, 1);
    StopAttempt([LiveEntry("a", 1), LiveEntry("b", 2), FreeSlot, FreeSlot, FreeSlot], "c", true, 0, 2);
  }

  lemma BasicRemove()
    ensures
      var s3 := [LiveEntry("a", 1), LiveEntry("b", 2), LiveEntry("c", 3), FreeSlot, FreeSlot];
      Lookup(s3, "b") == Some(2) &&
      Removed(s3, "b") == [LiveEntry("a", 1), Tombstone(LiveEntry("b", 2)), LiveEntry("c", 3), FreeSlot, FreeSlot]
  {
    SlotsOnFive();
    StopAttempt([LiveEntry("a", 1), LiveEntry("b", 2), LiveEntry("c", 3), FreeSlot, FreeSlot], "b", false, 0, 1);
  }

  /**
   * After "b" is removed its chain (slots 1, 2, 0, 0, 2) meets only the
   * tombstone and the other keys: the bounded lookup gives up.
   */
  lemma BasicRemovedKeyExhausts()
    ensures Probe([LiveEntry("a", 1), Tombstone(LiveEntry("b", 2)), LiveEntry("c", 3), FreeSlot, FreeSlot], "b", false) == None
  {
    SlotsOnFive();
    var s4 := [LiveEntry("a", 1), Tombstone(LiveEntry("b", 2)), LiveEntry("c", 3), FreeSlot, FreeSlot];
    PassAttempt(s4, "b", false, 0, 1);
    PassAttempt(s4, "b", false, 1, 2);
    PassAttempt(s4, "b", false, 2, 0);
    PassAttempt(s4, "b", false, 3, 0);
    PassAttempt(s4, "b", false, 4, 2);
  }

  /** A square leaves remainder 0, 1 or 4 when divided by 5. */
  lemma SquareModFive(i: nat)
    ensures (i * i) % 5 in {0, 1, 4}
  {
    var q, r := i / 5, i % 5;
    assert i == 5 * q + r;
    assert i * i == 5 * (5 * q * q + 2 * q * r) + r * r;
    assert (i * i) % 5 == (r * r) % 5;
  }

  /** Below 2^32 a square still fits a 64-bit word with room for a small addend. */
  lemma SmallSquare(i: nat)
    requires i < 0x1_0000_0000
    ensures i * i < WORD - 0x1_0000_0000
  {
    var m: nat := 0xFFFF_FFFF;
    MulMono(i, m, i);
    MulMono(i, m, m);
    assert m * m == 0xFFFF_FFFE_0000_0001;
  }

  lemma MulMono(a: nat, b: nat, c: nat)
    requires a <= b
    ensures a * c <= b * c && c * a <= c * b
  {
  }

  /** On five slots the `i`-th attempt for "b" (home slot 1) is slot `(1 + i*i) % 5`. */
  lemma SlotOfB(i: nat)
    requires i < 0x1_0000_0000
    ensures Slot(Djb2("b"), i, 5) == (1 + i * i) % 5
  {
    Djb2Examples();
    assert Djb2("b") % 5 == 1;
    SmallSquare(i);
    var sq := i * i;
    assert (1 + sq) % WORD == 1 + sq;
  }

  /**
   * The source's probe as written has no bound, and on a full one-slot table it
   * never ends: after `insert("a", 1)` on `HashTable<int>(1)`, every attempt `i`
   * of `contains("b")` (and of `insert("b", v)`) visits slot 0, which holds
   * "a" and so stops neither a lookup for "b" nor an insert.
   */
  lemma FullTableProbeNeverStops(i: nat)
    ensures Inserted(EmptyTable(1, 0), "a", 1) == [LiveEntry("a", 1)]
    ensures Slot(Djb2("b"), i, 1) == 0
    ensures !Stops([LiveEntry("a", 1)][Slot(Djb2("b"), i, 1)], "b", false)
    ensures !Stops([LiveEntry("a", 1)][Slot(Djb2("b"), i, 1)], "b", true)
  {
  }

  /**
   * A long detour of the unbounded probe: after removing "b" from the five-slot
   * table, the first 2^32 attempts for "b" land only on slots 0, 1 and 2, none
   * of which ends a lookup; only once `i*i` wraps around 2^64 does attempt
   * 2^32 + 1 reach the EMPTY slot 4, where the source answers -1.  The bounded
   * probe answers "not found" after five attempts instead.
   */
  lemma RemovedKeyLookupCycles(i: nat)
    requires i < 0x1_0000_0000
    ensures Slot(Djb2("b"), i, 5) in {0, 1, 2}
    ensures !Stops([LiveEntry("a", 1), Tombstone(LiveEntry("b", 2)), LiveEntry("c", 3), FreeSlot, FreeSlot][Slot(Djb2("b"), i, 5)], "b", false)
    ensures Slot(Djb2("b"), 0x1_0000_0001, 5) == 4
  {
    SlotOfB(i);
    SquareModFive(i);
    SuccessorModFive(i * i);
    var j := Slot(Djb2("b"), i, 5);
    var s4 := [LiveEntry("a", 1), Tombstone(LiveEntry("b", 2)), LiveEntry("c", 3), FreeSlot, FreeSlot];
    if j == 0 {
      assert !Stops(s4[0], "b", false);
    } else if j == 1 {
      assert !Stops(s4[1], "b", false);
    } else {
      assert !Stops(s4[2], "b", false);
    }
    WrappedAttemptOfB();
  }

  /** Attempt 2^32 + 1 for "b" on five slots: `i*i` wraps to 2^33 + 1, giving slot 4. */
  lemma WrappedAttemptOfB()
    ensures Slot(Djb2("b"), 0x1_0000_0001, 5) == 4
  {
    Djb2Examples();
    var i: nat := 0x1_0000_0001;
    assert i * i == 0x1_0000_0002_0000_0001;
    assert (1 + i * i) % WORD == 0x2_0000_0002;
  }

  /** One more than a number with remainder 0, 1 or 4 has remainder 1, 2 or 0. */
  lemma SuccessorModFive(n: nat)
    requires n % 5 in {0, 1, 4}
    ensures (1 + n) % 5 in {0, 1, 2}
  {
  }

  lemma BasicLastInsert()
    ensures
      Inserted([LiveEntry("a", 1), Tombstone(LiveEntry("b", 2)), LiveEntry("c", 3), FreeSlot, FreeSlot], "d", 4)
      == [LiveEntry("a", 1), Tombstone(LiveEntry("b", 2)), LiveEntry("c", 3), LiveEntry("d", 4), FreeSlot]
  {
    SlotsOnFive();
    StopAttempt([LiveEntry("a", 1), Tombstone(LiveEntry("b", 2)), LiveEntry("c", 3), FreeSlot, FreeSlot], "d", true, 0, 3);
  }

  lemma BasicFinalLookups()
    ensures
      var s5 := [LiveEntry("a", 1), Tombstone(LiveEntry("b", 2)), LiveEntry("c", 3), LiveEntry("d", 4), FreeSlot];
      Lookup(s5, "a") == Some(1) && Lookup(s5, "c") == Some(3) && Lookup(s5, "d") == Some(4)
  {
    SlotsOnFive();
    var s5 := [LiveEntry("a", 1), Tombstone(LiveEntry("b", 2)), LiveEntry("c", 3), LiveEntry("d", 4), FreeSlot];
    StopAttempt(s5, "a", false, 0, 0);
    StopAttempt(s5, "c", false, 0, 2);
    StopAttempt(s5, "d", false, 0, 3);
  }

  /**
   * Three inserts, a lookup, a removal and a fourth insert on five slots: every
   * remaining key keeps its value and the removed key is no longer found.
   */
  lemma BasicRun()
    ensures
      var s3 := Inserted(Inserted(Inserted(EmptyTable(5, 0), "a", 1), "b", 2), "c", 3);
      var s5 := Inserted(Removed(s3, "b"), "d", 4);
      Lookup(s3, "b") == Some(2) && Probe(Removed(s3, "b"), "b", false) == None &&
      Lookup(s5, "a") == Some(1) && Lookup(s5, "c") == Some(3) && Lookup(s5, "d") == Some(4)
  {
    BasicInserts();
    BasicRemove();
    BasicRemovedKeyExhausts();
    BasicLastInsert();
    BasicFinalLookups();
  }

  lemma DuplicateInserts()
    ensures Inserted(EmptyTable(5, 0), "e", 11) == [FreeSlot, FreeSlot, FreeSlot, FreeSlot, LiveEntry("e", 11)]
    ensures Inserted([FreeSlot, FreeSlot, FreeSlot, FreeSlot, LiveEntry("e", 11)], "e", 12) == [LiveEntry("e", 12), FreeSlot, FreeSlot, FreeSlot, LiveEntry("e", 11)]
  {
    SlotsOnFive();
    assert EmptyTable(5, 0) == [FreeSlot, FreeSlot, FreeSlot, FreeSlot, FreeSlot];
    StopAttempt([FreeSlot, FreeSlot, FreeSlot, FreeSlot, FreeSlot], "e", true, 0, 4);
    PassAttempt([FreeSlot, FreeSlot, FreeSlot, FreeSlot, LiveEntry("e", 11)], "e", true, 0, 4);
    StopAttempt([FreeSlot, FreeSlot, FreeSlot, FreeSlot, LiveEntry("e", 11)], "e", true, 1, 0);
  }

  lemma DuplicateRemoves()
    ensures
      var s2 := [LiveEntry("e", 12), FreeSlot, FreeSlot, FreeSlot, LiveEntry("e", 11)];
      var s3 := [LiveEntry("e", 12), FreeSlot, FreeSlot, FreeSlot, Tombstone(LiveEntry("e", 11))];
      Lookup(s2, "e") == Some(11) && Removed(s2, "e") == s3 &&
      Lookup(s3, "e") == Some(12) &&
      Removed(s3, "e") == [Tombstone(LiveEntry("e", 12)), FreeSlot, FreeSlot, FreeSlot, Tombstone(LiveEntry("e", 11))]
  {
    SlotsOnFive();
    var s3 := [LiveEntry("e", 12), FreeSlot, FreeSlot, FreeSlot, Tombstone(LiveEntry("e", 11))];
    StopAttempt([LiveEntry("e", 12), FreeSlot, FreeSlot, FreeSlot, LiveEntry("e", 11)], "e", false, 0, 4);
    PassAttempt(s3, "e", false, 0, 4);
    StopAttempt(s3, "e", false, 1, 0);
  }

  lemma DuplicateGone()
    ensures Probe([Tombstone(LiveEntry("e", 12)), FreeSlot, FreeSlot, FreeSlot, Tombstone(LiveEntry("e", 11))], "e", false) == None
  {
    SlotsOnFive();
    var s4 := [Tombstone(LiveEntry("e", 12)), FreeSlot, FreeSlot, FreeSlot, Tombstone(LiveEntry("e", 11))];
    PassAttempt(s4, "e", false, 0, 4);
    PassAttempt(s4, "e", false, 1, 0);
    StopAttempt(s4, "e", false, 2, 3);
  }

  /**
   * The same key inserted twice (as the source's own `main` does with "e"): the
   * second insert takes the next slot of the chain, `get` keeps returning the
   * first value, one removal leaves the key present and a second one removes
   * it, so `remove` is not idempotent once a key has two live copies.
   */
  lemma DuplicateRun()
    ensures
      var s2 := Inserted(Inserted(EmptyTable(5, 0), "e", 11), "e", 12);
      Lookup(s2, "e") == Some(11) &&
      Lookup(Removed(s2, "e"), "e") == Some(12) &&
      Probe(Removed(Removed(s2, "e"), "e"), "e", false) == None &&
      Removed(Removed(s2, "e"), "e") != Removed(s2, "e")
  {
    DuplicateInserts();
    DuplicateRemoves();
    DuplicateGone();
    assert Tombstone(LiveEntry("e", 12)) != LiveEntry("e", 12);
  }

  /** "a" and then the colliding "f" inserted on five slots, and both looked up. */
  lemma CollisionInserts()
    ensures Inserted([FreeSlot, FreeSlot, FreeSlot, FreeSlot, FreeSlot], "a", 1) == [LiveEntry("a", 1), FreeSlot, FreeSlot, FreeSlot, FreeSlot]
    ensures Inserted([LiveEntry("a", 1), FreeSlot, FreeSlot, FreeSlot, FreeSlot], "f", 2) == [LiveEntry("a", 1), LiveEntry("f", 2), FreeSlot, FreeSlot, FreeSlot]
    ensures Lookup([LiveEntry("a", 1), LiveEntry("f", 2), FreeSlot, FreeSlot, FreeSlot], "a") == Some(1)
    ensures Lookup([LiveEntry("a", 1), LiveEntry("f", 2), FreeSlot, FreeSlot, FreeSlot], "f") == Some(2)
  {
    SlotsOnFive();
    var s1 := [LiveEntry("a", 1), FreeSlot, FreeSlot, FreeSlot, FreeSlot];
    var s2 := [LiveEntry("a", 1), LiveEntry("f", 2), FreeSlot, FreeSlot, FreeSlot];
    StopAttempt([FreeSlot, FreeSlot, FreeSlot, FreeSlot, FreeSlot], "a", true, 0, 0);
    PassAttempt(s1, "f", true, 0, 0);
    StopAttempt(s1, "f", true, 1, 1);
    StopAttempt(s2, "a", false, 0, 0);
    PassAttempt(s2, "f", false, 0, 0);
    StopAttempt(s2, "f", false, 1, 1);
  }

  /** Removing "a" keeps "f" reachable, and re-inserting "f" fills the tombstone. */
  lemma CollisionRemoveReinsert()
    ensures Removed([LiveEntry("a", 1), LiveEntry("f", 2), FreeSlot, FreeSlot, FreeSlot], "a")
         == [Tombstone(LiveEntry("a", 1)), LiveEntry("f", 2), FreeSlot, FreeSlot, FreeSlot]
    ensures Lookup([Tombstone(LiveEntry("a", 1)), LiveEntry("f", 2), FreeSlot, FreeSlot, FreeSlot], "f") == Some(2)
    ensures Inserted([Tombstone(LiveEntry("a", 1)), LiveEntry("f", 2), FreeSlot, FreeSlot, FreeSlot], "f", 3)
         == [LiveEntry("f", 3), LiveEntry("f", 2), FreeSlot, FreeSlot, FreeSlot]
    ensures Lookup([LiveEntry("f", 3), LiveEntry("f", 2), FreeSlot, FreeSlot, FreeSlot], "f") == Some(3)
  {
    SlotsOnFive();
    var s2 := [LiveEntry("a", 1), LiveEntry("f", 2), FreeSlot, FreeSlot, FreeSlot];
    var s3 := [Tombstone(LiveEntry("a", 1)), LiveEntry("f", 2), FreeSlot, FreeSlot, FreeSlot];
    StopAttempt(s2, "a", false, 0, 0);
    PassAttempt(s3, "f", false, 0, 0);
    StopAttempt(s3, "f", false, 1, 1);
    StopAttempt(s3, "f", true, 0, 0);
    StopAttempt([LiveEntry("f", 3), LiveEntry("f", 2), FreeSlot, FreeSlot, FreeSlot], "f", false, 0, 0);
  }

  /**
   * Colliding keys and tombstone reuse, run through the class: "f" lands one
   * slot after "a", stays reachable once "a" is removed, and a second insert
   * of "f" reuses the tombstone, whose copy then answers `get`.
   */
  method CollisionScenario() returns (a: Result<int, Error>, f1: Result<int, Error>, f2: Result<int, Error>, f3: Result<int, Error>)
    ensures a == Success(1) && f1 == Success(2) && f2 == Success(2) && f3 == Success(3)
  {
    CollisionInserts();
    CollisionRemoveReinsert();
    var t := new HashTable<int>(0, 5);
    assert t.table[..] == [FreeSlot, FreeSlot, FreeSlot, FreeSlot, FreeSlot];
    t.Insert("a", 1);
    t.Insert("f", 2);
    a := t.Get("a");
    f1 := t.Get("f");
    t.Remove("a");
    f2 := t.Get("f");
    t.Insert("f", 3);
    f3 := t.Get("f");
  }

  /**
   * Why removal leaves a tombstone: clearing the slot of "a" to EMPTY instead
   * would end the lookup of the colliding key "f" before it reaches "f".
   */
  lemma TombstoneKeepsCollidingKey()
    ensures
      var s := [LiveEntry("a", 1), LiveEntry("f", 2), FreeSlot, FreeSlot, FreeSlot];
      Probe(s[0 := Tombstone(s[0])], "f", false) == Some(1) &&
      Probe(s[0 := FreeSlot], "f", false) == None
  {
    SlotsOnFive();
    var s := [LiveEntry("a", 1), LiveEntry("f", 2), FreeSlot, FreeSlot, FreeSlot];
    PassAttempt(s[0 := Tombstone(s[0])], "f", false, 0, 0);
    StopAttempt(s[0 := Tombstone(s[0])], "f", false, 1, 1);
    StopAttempt(s[0 := FreeSlot], "f", false, 0, 0);
  }
}
