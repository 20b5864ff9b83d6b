/**
 * The effect of `insert` and `remove` on the slot sequence, the invariant the
 * table keeps, and what lookups (`get`, `contains`) answer under it.
 */
module TableOps {
  import opened Wrappers
  import opened Hashing
  import opened Probing

  /** The slot `insert` writes: key and value stored, occupied, not deleted. */
  function LiveEntry<T>(key: string, value: T): Entry<T>
  {
    Entry(key, value, true, false)
  }

  /** What `remove` leaves behind: key cleared, deleted, not occupied (the value stays). */
  function Tombstone<T>(e: Entry<T>): Entry<T>
  {
    Entry("", e.value, false, true)
  }

  /**
   * The slots after `insert(key, value)`: the insert-mode probe picks the first
   * slot of the chain that is not occupied, and it is overwritten.  The key is
   * not looked up first, so an existing key gets a second copy: after the
   * existing one, unless a tombstone comes earlier on the chain, in which case
   * the new copy lands there and lookups answer with it.  When every bounded
   * attempt finds an occupied slot nothing is written; the source keeps probing
   * instead, never returning on a full chain and otherwise, after 2^32
   * attempts, possibly storing the key in a slot the bounded probe never visits.
   */
  function Inserted<T>(s: seq<Entry<T>>, key: string, value: T): (r: seq<Entry<T>>)
    requires 0 < |s|
    ensures |r| == |s|
    ensures forall i :: 0 <= i < |s| && r[i] != s[i] ==>
      !s[i].isOccupied && r[i] == LiveEntry(key, value)
    ensures KeyPresent(r, key) || r == s
  {
    match Probe(s, key, true)
    case None => s
    case Some(j) => s[j := LiveEntry(key, value)]
  }

  /** The slots after `remove(key)`: the slot a lookup finds becomes a tombstone. */
  function Removed<T>(s: seq<Entry<T>>, key: string): (r: seq<Entry<T>>)
    requires 0 < |s|
    ensures |r| == |s|
    ensures forall i :: 0 <= i < |s| && r[i] != s[i] ==>
      Holds(s[i], key) && IsTombstone(r[i]) && r[i].key == "" && r[i].value == s[i].value
  {
    match Probe(s, key, false)
    case None => s
    case Some(j) => s[j := Tombstone(s[j])]
  }

  /** What `get(key)` answers: the value of the slot a lookup finds. */
  function Lookup<T>(s: seq<Entry<T>>, key: string): (r: Option<T>)
    requires 0 < |s|
    ensures r.Some? ==> exists j :: 0 <= j < |s| && Holds(s[j], key) && s[j].value == r.value
  {
    match Probe(s, key, false)
    case None => None
    case Some(j) => Some(s[j].value)
  }

  /** No EMPTY slot among the first `t` attempts of the probe chain of hash `h`. */
  ghost predicate NoEmptyBefore<T>(s: seq<Entry<T>>, h: nat, t: nat)
    requires 0 < |s|
  {
    forall u :: 0 <= u < t ==> !IsEmpty(s[Slot(h, u, |s|)])
  }

  /** Slot `j` lies on the probe chain of `key` with no EMPTY slot before it. */
  ghost predicate Reachable<T>(s: seq<Entry<T>>, key: string, j: nat)
    requires 0 < |s|
  {
    exists t :: 0 <= t < |s| && Slot(Djb2(key), t, |s|) == j && NoEmptyBefore(s, Djb2(key), t)
  }

  /**
   * The table invariant: no slot is both occupied and deleted, and every live
   * slot can be reached by a lookup for its own key (no EMPTY slot precedes it
   * on its probe chain).
   */
  ghost predicate Valid<T>(s: seq<Entry<T>>)
  {
    0 < |s| &&
    (forall j :: 0 <= j < |s| ==> Exclusive(s[j])) &&
    (forall j :: 0 <= j < |s| && s[j].isOccupied ==> Reachable(s, s[j].key, j))
  }

  /** A freshly allocated table satisfies the invariant. */
  lemma EmptyTableValid<T>(n: nat, blank: T)
    requires 0 < n
    ensures Valid(EmptyTable(n, blank))
    ensures forall key :: Probe(EmptyTable(n, blank), key, false) == None
  {
    var s := EmptyTable(n, blank);
    forall key ensures Probe(s, key, false) == None {
      ProbeEndsAtFirstStop(s, Djb2(key), key, false, 0, 0);
    }
  }

  /** Soundness of lookup: a found slot holds the key, so the key is present. */
  lemma LookupSound<T>(s: seq<Entry<T>>, key: string)
    requires 0 < |s|
    ensures Probe(s, key, false).Some? ==> KeyPresent(s, key)
  {
    var r := Probe(s, key, false);
    if r.Some? {
      assert Holds(s[r.value], key);
    }
  }

  /** A lookup started before attempt `t` reaches it unless it finds the key earlier. */
  lemma {:induction false} LookupReaches<T>(s: seq<Entry<T>>, h: nat, key: string, i: nat, t: nat)
    requires 0 < |s| && i <= t < |s|
    requires NoEmptyBefore(s, h, t)
    requires Holds(s[Slot(h, t, |s|)], key)
    ensures ProbeFrom(s, h, key, false, i).Some?
    decreases t - i
  {
    if i < t {
      assert !IsEmpty(s[Slot(h, i, |s|)]);
      LookupReaches(s, h, key, i + 1, t);
    }
  }

  /**
   * Under the invariant, `contains(key)` is exactly "some slot holds `key`":
   * tombstones never hide a live key.
   */
  lemma LookupComplete<T>(s: seq<Entry<T>>, key: string)
    requires Valid(s)
    ensures Probe(s, key, false).Some? <==> KeyPresent(s, key)
  {
    LookupSound(s, key);
    if KeyPresent(s, key) {
      var j :| 0 <= j < |s| && Holds(s[j], key);
      assert Reachable(s, s[j].key, j);
      var t :| 0 <= t < |s| && Slot(Djb2(key), t, |s|) == j && NoEmptyBefore(s, Djb2(key), t);
      LookupReaches(s, Djb2(key), key, 0, t);
    }
  }

  /** Under the invariant, `get` fails exactly when no slot holds the key. */
  lemma LookupFailsIffAbsent<T>(s: seq<Entry<T>>, key: string)
    requires Valid(s)
    ensures Lookup(s, key).None? <==> !KeyPresent(s, key)
    ensures Lookup(s, key).Some? ==>
      exists j :: 0 <= j < |s| && Holds(s[j], key) && s[j].value == Lookup(s, key).value
  {
    LookupComplete(s, key);
    var r := Probe(s, key, false);
    if r.Some? {
      assert Holds(s[r.value], key);
    }
  }

  /** When a key is live in one slot only, `get` returns that slot's value. */
  lemma LookupUnique<T>(s: seq<Entry<T>>, key: string, j: nat)
    requires Valid(s) && j < |s| && Holds(s[j], key) && AtMostOne(s, key)
    ensures Lookup(s, key) == Some(s[j].value)
  {
    LookupComplete(s, key);
    assert KeyPresent(s, key);
  }

  /** Keeping every EMPTY slot of `s2` EMPTY in `s1` preserves every chain without EMPTY slots. */
  lemma FewerEmptiesKeepReachable<T>(s1: seq<Entry<T>>, s2: seq<Entry<T>>, key: string, j: nat)
    requires 0 < |s1| == |s2|
    requires forall i :: 0 <= i < |s2| && IsEmpty(s2[i]) ==> IsEmpty(s1[i])
    requires Reachable(s1, key, j)
    ensures Reachable(s2, key, j)
  {
    var t :| 0 <= t < |s1| && Slot(Djb2(key), t, |s1|) == j && NoEmptyBefore(s1, Djb2(key), t);
    assert NoEmptyBefore(s2, Djb2(key), t);
  }

  /** Replacing one slot by a non-EMPTY, consistent slot keeps the other slots reachable. */
  lemma ReplaceKeepsValid<T>(s: seq<Entry<T>>, p: nat, e: Entry<T>)
    requires Valid(s) && p < |s|
    requires !IsEmpty(e) && Exclusive(e)
    requires e.isOccupied ==> Reachable(s[p := e], e.key, p)
    ensures Valid(s[p := e])
  {
    var s2 := s[p := e];
    forall j | 0 <= j < |s2| && s2[j].isOccupied
      ensures Reachable(s2, s2[j].key, j)
    {
      if j != p {
        assert Reachable(s, s[j].key, j);
        FewerEmptiesKeepReachable(s, s2, s[j].key, j);
      }
    }
  }

  /** `insert` keeps the invariant: the slot it fills is reached through occupied slots only. */
  lemma InsertKeepsValid<T>(s: seq<Entry<T>>, key: string, value: T)
    requires Valid(s)
    ensures Valid(Inserted(s, key, value))
  {
    var r := Probe(s, key, true);
    if r.Some? {
      var j := r.value;
      var h := Djb2(key);
      var t := ProbeFoundAt(s, h, key, true, 0);
      var s2 := s[j := LiveEntry(key, value)];
      forall u | 0 <= u < t ensures !IsEmpty(s2[Slot(h, u, |s|)]) {
        assert !Stops(s[Slot(h, u, |s|)], key, true);
      }
      assert NoEmptyBefore(s2, h, t);
      ReplaceKeepsValid(s, j, LiveEntry(key, value));
    }
  }

  /** `remove` keeps the invariant: a tombstone still carries lookups past it. */
  lemma RemoveKeepsValid<T>(s: seq<Entry<T>>, key: string)
    requires Valid(s)
    ensures Valid(Removed(s, key))
  {
    var r := Probe(s, key, false);
    if r.Some? {
      ReplaceKeepsValid(s, r.value, Tombstone(s[r.value]));
    }
  }

  /**
   * After `insert(key, value)` has found a slot, `contains(key)` is true, with or
   * without an earlier copy of the key.
   */
  lemma InsertThenContains<T>(s: seq<Entry<T>>, key: string, value: T)
    requires Valid(s)
    requires Probe(s, key, true).Some?
    ensures Probe(Inserted(s, key, value), key, false).Some?
  {
    var s2 := Inserted(s, key, value);
    InsertKeepsValid(s, key, value);
    assert Holds(s2[Probe(s, key, true).value], key);
    LookupComplete(s2, key);
  }

  /**
   * Inserting a key that no slot holds yet: a lookup then finds exactly the slot
   * that was written, so `get` returns the inserted value.
   */
  lemma InsertNewThenGet<T>(s: seq<Entry<T>>, key: string, value: T)
    requires 0 < |s|
    requires !KeyPresent(s, key)
    requires Probe(s, key, true).Some?
    ensures Probe(Inserted(s, key, value), key, false) == Probe(s, key, true)
    ensures Lookup(Inserted(s, key, value), key) == Some(value)
  {
    var h := Djb2(key);
    var j := Probe(s, key, true).value;
    var t := ProbeFoundAt(s, h, key, true, 0);
    var s2 := s[j := LiveEntry(key, value)];
    forall u | 0 <= u < t ensures !Stops(s2[Slot(h, u, |s|)], key, false) {
      var q := Slot(h, u, |s|);
      assert s[q].isOccupied;
      assert !Holds(s[q], key);
    }
    ProbeEndsAtFirstStop(s2, h, key, false, 0, t);
  }

  /**
   * Inserting one key leaves the lookup of every other key unchanged: of a key
   * that is found in any table, and of every key in a table that keeps the
   * invariant.
   */
  lemma InsertKeepsOthers<T>(s: seq<Entry<T>>, key: string, value: T, other: string)
    requires 0 < |s| && other != key
    requires Valid(s) || Probe(s, other, false).Some?
    ensures Probe(Inserted(s, key, value), other, false) == Probe(s, other, false)
  {
    var r := Probe(s, key, true);
    if r.Some? {
      var j := r.value;
      var s2 := s[j := LiveEntry(key, value)];
      if Probe(s, other, false).Some? {
        var h := Djb2(other);
        var t := ProbeFoundAt(s, h, other, false, 0);
        assert !Stops(LiveEntry(key, value), other, false);
        forall u | 0 <= u < t ensures !Stops(s2[Slot(h, u, |s|)], other, false) {
          assert !Stops(s[Slot(h, u, |s|)], other, false);
        }
        ProbeEndsAtFirstStop(s2, h, other, false, 0, t);
      } else {
        LookupComplete(s, other);
        InsertKeepsValid(s, key, value);
        LookupComplete(s2, other);
        assert !KeyPresent(s2, other) by {
          forall i | 0 <= i < |s2| ensures !Holds(s2[i], other) {
            assert i != j ==> s2[i] == s[i];
          }
        }
      }
    }
  }

  /** Removing a key leaves the lookup of every other key unchanged. */
  lemma RemoveKeepsOthers<T>(s: seq<Entry<T>>, key: string, other: string)
    requires 0 < |s| && other != key
    ensures Probe(Removed(s, key), other, false) == Probe(s, other, false)
  {
    var r := Probe(s, key, false);
    if r.Some? {
      var j := r.value;
      assert Holds(s[j], key);
      LookupIgnoresPassedSlot(s, Djb2(other), other, 0, j, Tombstone(s[j]));
    }
  }

  /** Removing a key that no lookup finds changes nothing. */
  lemma RemoveAbsentIsNoop<T>(s: seq<Entry<T>>, key: string)
    requires 0 < |s| && !KeyPresent(s, key)
    ensures Removed(s, key) == s
  {
  }

  /**
   * When `key` is live in at most one slot, `contains(key)` is false after
   * `remove(key)` (with copies, the next copy along the chain answers instead).
   */
  lemma RemoveThenAbsent<T>(s: seq<Entry<T>>, key: string)
    requires 0 < |s| && AtMostOne(s, key)
    ensures Probe(Removed(s, key), key, false) == None
  {
    var s2 := Removed(s, key);
    var r := Probe(s, key, false);
    if r.Some? {
      var j := r.value;
      assert Holds(s[j], key);
      forall i | 0 <= i < |s2| ensures !Holds(s2[i], key) {
        if i != j {
          assert !Holds(s[i], key);
        }
      }
      LookupSound(s2, key);
    }
  }

  /** With at most one live copy of the key, removing it twice is removing it once. */
  lemma RemoveTwice<T>(s: seq<Entry<T>>, key: string)
    requires 0 < |s| && AtMostOne(s, key)
    ensures Removed(Removed(s, key), key) == Removed(s, key)
  {
    RemoveThenAbsent(s, key);
  }

  /**
   * Remove a key held by one slot, insert it again with a new value: `get`
   * answers the new value.
   */
  lemma ReinsertAfterRemove<T>(s: seq<Entry<T>>, key: string, value: T)
    requires Valid(s) && AtMostOne(s, key)
    requires Probe(Removed(s, key), key, true).Some?
    ensures Lookup(Inserted(Removed(s, key), key, value), key) == Some(value)
  {
    var s2 := Removed(s, key);
    RemoveThenAbsent(s, key);
    RemoveKeepsValid(s, key);
    LookupComplete(s2, key);
    InsertNewThenGet(s2, key, value);
  }
}
