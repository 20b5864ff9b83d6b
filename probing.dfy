/**
 * Slots and the quadratic probe, stated on the sequence of slots `s` (the
 * contents of the backing array).
 */
module Probing {
  import opened Wrappers
  import opened Hashing

  /**
   * One slot of the backing array (`HashTable::Entry`).  The three meaningful
   * states are EMPTY (neither flag), OCCUPIED (`isOccupied` only) and TOMBSTONE
   * (`isDeleted` only).
   */
  datatype Entry<T> = Entry(key: string, value: T, isOccupied: bool, isDeleted: bool)

  /** What `Entry()` builds: key "", the value type's default, both flags clear. */
  function EmptyEntry<T>(blank: T): Entry<T>
  {
    Entry("", blank, false, false)
  }

  predicate IsEmpty<T>(e: Entry<T>) { !e.isOccupied && !e.isDeleted }

  predicate IsTombstone<T>(e: Entry<T>) { e.isDeleted && !e.isOccupied }

  /** The slot is live and carries `key`. */
  predicate Holds<T>(e: Entry<T>, key: string) { e.isOccupied && e.key == key }

  /** No slot is both occupied and deleted. */
  predicate Exclusive<T>(e: Entry<T>) { !(e.isOccupied && e.isDeleted) }

  /** A freshly allocated backing array of `n` slots. */
  function EmptyTable<T>(n: nat, blank: T): (s: seq<Entry<T>>)
    ensures |s| == n
    ensures forall i :: 0 <= i < n ==> IsEmpty(s[i])
  {
    seq(n, _ => EmptyEntry(blank))
  }

  /** The key `key` is live in some slot. */
  ghost predicate KeyPresent<T>(s: seq<Entry<T>>, key: string)
  {
    exists j :: 0 <= j < |s| && Holds(s[j], key)
  }

  /** At most one slot holds `key` live. */
  ghost predicate AtMostOne<T>(s: seq<Entry<T>>, key: string)
  {
    forall i, j :: 0 <= i < |s| && 0 <= j < |s| && Holds(s[i], key) && Holds(s[j], key) ==> i == j
  }

  /**
   * The index of the `i`-th probe of a key with hash `h` in a table of `cap`
   * slots: `(h % cap + i*i) % cap`, where the sum is a 64-bit `size_t`.
   */
  function Slot(h: nat, i: nat, cap: nat): (j: nat)
    requires cap > 0
    ensures j < cap
  {
    ((h % cap + i * i) % WORD) % cap
  }

  /**
   * Whether the probe ends at slot `e`: in insert mode at any slot that is not
   * occupied (EMPTY or TOMBSTONE); in lookup mode at a slot holding `key` or at
   * an EMPTY slot.  A TOMBSTONE never ends a lookup.
   */
  predicate Stops<T>(e: Entry<T>, key: string, forInsert: bool)
  {
    if forInsert then !e.isOccupied else Holds(e, key) || IsEmpty(e)
  }

  /**
   * The probe of `HashTable::probe` from attempt `i` on, bounded to `|s|`
   * attempts.  `None` is the source's `-1` (a lookup that reached an EMPTY slot)
   * and also the case where every attempt was used up.
   */
  function ProbeFrom<T>(s: seq<Entry<T>>, h: nat, key: string, forInsert: bool, i: nat): (r: Option<nat>)
    requires 0 < |s| && i <= |s|
    ensures r.Some? ==> r.value < |s|
    ensures r.Some? && forInsert ==> !s[r.value].isOccupied
    ensures r.Some? && !forInsert ==> Holds(s[r.value], key)
    decreases |s| - i
  {
    if i == |s| then None
    else
      var j := Slot(h, i, |s|);
      if forInsert then
        if !s[j].isOccupied then Some(j) else ProbeFrom(s, h, key, forInsert, i + 1)
      else if Holds(s[j], key) then Some(j)
      else if IsEmpty(s[j]) then None
      else ProbeFrom(s, h, key, forInsert, i + 1)
  }

  /** The probe for `key`, seeded with its djb2 hash. */
  function Probe<T>(s: seq<Entry<T>>, key: string, forInsert: bool): (r: Option<nat>)
    requires 0 < |s|
    ensures r.Some? ==> r.value < |s|
    ensures r.Some? && forInsert ==> !s[r.value].isOccupied
    ensures r.Some? && !forInsert ==> Holds(s[r.value], key)
  {
    ProbeFrom(s, Djb2(key), key, forInsert, 0)
  }

  /** None of the attempts `i .. t-1` ends the probe. */
  ghost predicate NoStopBetween<T>(s: seq<Entry<T>>, h: nat, key: string, forInsert: bool, i: nat, t: nat)
    requires 0 < |s|
  {
    forall u :: i <= u < t ==> !Stops(s[Slot(h, u, |s|)], key, forInsert)
  }

  /**
   * The probe ends at the first attempt that stops it: with that slot in insert
   * mode or when it holds the key, with `None` when it is an EMPTY slot.
   */
  lemma {:induction false} ProbeEndsAtFirstStop<T>(s: seq<Entry<T>>, h: nat, key: string, forInsert: bool, i: nat, t: nat)
    requires 0 < |s| && i <= t < |s|
    requires NoStopBetween(s, h, key, forInsert, i, t)
    requires Stops(s[Slot(h, t, |s|)], key, forInsert)
    ensures ProbeFrom(s, h, key, forInsert, i)
         == if forInsert || Holds(s[Slot(h, t, |s|)], key) then Some(Slot(h, t, |s|)) else None
    decreases t - i
  {
    if i < t {
      assert !Stops(s[Slot(h, i, |s|)], key, forInsert);
      ProbeEndsAtFirstStop(s, h, key, forInsert, i + 1, t);
    }
  }

  /** When no attempt stops it, the bounded probe gives up with `None`. */
  lemma {:induction false} ProbeExhausted<T>(s: seq<Entry<T>>, h: nat, key: string, forInsert: bool, i: nat)
    requires 0 < |s| && i <= |s|
    requires NoStopBetween(s, h, key, forInsert, i, |s|)
    ensures ProbeFrom(s, h, key, forInsert, i) == None
    decreases |s| - i
  {
    if i < |s| {
      assert !Stops(s[Slot(h, i, |s|)], key, forInsert);
      ProbeExhausted(s, h, key, forInsert, i + 1);
    }
  }

  /**
   * Conversely, a slot returned by the probe is the slot of some attempt `t`,
   * every earlier attempt passed over its slot, and slot `t` stops the probe.
   */
  lemma {:induction false} ProbeFoundAt<T>(s: seq<Entry<T>>, h: nat, key: string, forInsert: bool, i: nat)
    returns (t: nat)
    requires 0 < |s| && i <= |s|
    requires ProbeFrom(s, h, key, forInsert, i).Some?
    ensures i <= t < |s|
    ensures ProbeFrom(s, h, key, forInsert, i).value == Slot(h, t, |s|)
    ensures NoStopBetween(s, h, key, forInsert, i, t)
    ensures Stops(s[Slot(h, t, |s|)], key, forInsert)
    decreases |s| - i
  {
    if Stops(s[Slot(h, i, |s|)], key, forInsert) {
      t := i;
    } else {
      t := ProbeFoundAt(s, h, key, forInsert, i + 1);
    }
  }

  /**
   * Changing a slot that a lookup for `key` passes over (a TOMBSTONE, or a live
   * slot with another key) into another such slot leaves the lookup unchanged.
   */
  lemma {:induction false} LookupIgnoresPassedSlot<T>(s: seq<Entry<T>>, h: nat, key: string, i: nat, p: nat, e: Entry<T>)
    requires 0 < |s| && i <= |s| && p < |s|
    requires !Stops(s[p], key, false) && !Stops(e, key, false)
    ensures ProbeFrom(s[p := e], h, key, false, i) == ProbeFrom(s, h, key, false, i)
    decreases |s| - i
  {
    if i < |s| {
      LookupIgnoresPassedSlot(s, h, key, i + 1, p, e);
    }
  }
}
