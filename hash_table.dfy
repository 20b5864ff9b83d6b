/**
 * `HashTable<T>`: a string-keyed table with open addressing, quadratic probing
 * and tombstone deletion over a fixed backing array.
 */
module HashTables {
  import opened Wrappers
  import opened Hashing
  import opened Probing
  import TableOps

  /** The capacity a default-constructed table gets. */
  const DefaultCapacity: nat := 101

  /** The error `get` raises (`std::range_error("key not found")`). */
  datatype Error = KeyNotFound

  /** One line of the debug dump: the slot index and what the slot shows. */
  datatype DumpLine<T> = DumpLine(index: nat, tag: SlotTag<T>)

  /** `Key: k, Value: v`, `[deleted]` or `[empty]`. */
  datatype SlotTag<T> = Live(key: string, value: T) | Deleted | Empty

  /** The text `operator<<` prints for one slot, as a tag. */
  function TagOf<T>(e: Entry<T>): (t: SlotTag<T>)
    ensures t.Live? <==> e.isOccupied && !e.isDeleted
    ensures t.Deleted? <==> e.isDeleted
    ensures t.Empty? <==> IsEmpty(e)
    ensures t.Live? ==> t.key == e.key && t.value == e.value
  {
    if e.isOccupied && !e.isDeleted then Live(e.key, e.value)
    else if e.isDeleted then Deleted
    else Empty
  }

  class HashTable<T> {
    var table: array<Entry<T>>
    var capacity: nat
    /** Never updated after construction: the source neither increments nor decrements it. */
    var size: nat

    /**
     * The object invariant: the array has `capacity` slots, `capacity` is a
     * positive `size_t`, `size` is still the 0 it was built with, and the slots
     * satisfy `TableOps.Valid` (exclusive states, every live slot reachable).
     */
    ghost predicate Valid()
      reads this, table
    {
      table.Length == capacity && 0 < capacity < WORD && size == 0 &&
      TableOps.Valid(table[..])
    }

    /** `HashTable(initialCapacity = 101)`; `blank` is the value `T()` every `Entry()` holds. */
    constructor(blank: T, initialCapacity: nat := DefaultCapacity)
      requires 0 < initialCapacity < WORD
      ensures Valid() && fresh(table)
      ensures capacity == initialCapacity && size == 0
      ensures table[..] == EmptyTable(initialCapacity, blank)
    {
      table := new Entry<T>[initialCapacity](_ => EmptyEntry(blank));
      capacity := initialCapacity;
      size := 0;
      new;
      assert table[..] == EmptyTable(initialCapacity, blank);
      TableOps.EmptyTableValid(initialCapacity, blank);
    }

    /** `customHash`: djb2 over the key, in a loop over its characters. */
    static method CustomHash(key: string) returns (hash: nat)
      ensures hash == Djb2(key)
      ensures hash < WORD
    {
      hash := Seed;
      for i := 0 to |key|
        invariant hash == Djb2(key[..i])
      {
        Djb2Extend(key[..i], key[i]);
        assert key[..i] + [key[i]] == key[..i + 1];
        hash := (hash * 33 + CharCode(key[i])) % WORD;
      }
      assert key[..|key|] == key;
    }

    /**
     * `probe`: visit `(hash % capacity + i*i) % capacity` for `i = 0, 1, ...`,
     * at most `capacity` times.  Insert mode returns the first slot that is not
     * occupied; lookup mode returns the slot holding `key`, skips tombstones and
     * gives up (`None`, the source's `-1`) at an EMPTY slot.
     */
    method Probe(key: string, forInsert: bool) returns (r: Option<nat>)
      requires Valid()
      ensures r == Probing.Probe(table[..], key, forInsert)
      ensures r.Some? ==> r.value < capacity
      ensures r.Some? && forInsert ==> !table[r.value].isOccupied
      ensures r.Some? && !forInsert ==> table[r.value].isOccupied && table[r.value].key == key
    {
      var hash := CustomHash(key);
      var home := hash % capacity;
      var i: nat := 0;
      while i < capacity
        invariant i <= capacity
        invariant ProbeFrom(table[..], hash, key, forInsert, i) == Probing.Probe(table[..], key, forInsert)
        decreases capacity - i
      {
        var index := ((home + i * i) % WORD) % capacity;
        assert index == Slot(hash, i, capacity);
        if forInsert {
          if !table[index].isOccupied {
            return Some(index);
          }
        } else {
          if table[index].isOccupied && table[index].key == key {
            return Some(index);
          }
          if !table[index].isDeleted && !table[index].isOccupied {
            return None;
          }
        }
        i := i + 1;
      }
      return None;
    }

    /**
     * `insert(key, value)`: the load-factor test cannot fire (size stays 0), the
     * insert-mode probe picks a slot and it is overwritten field by field.
     */
    method Insert(key: string, value: T)
      requires Valid()
      modifies table
      ensures Valid()
      ensures table[..] == TableOps.Inserted(old(table[..]), key, value)
    {
      if 10 * size >= 7 * capacity {
        // Growth (`resize`) would run here; with `size` fixed at 0 it never does.
        assert false;
      }
      ghost var before := table[..];
      TableOps.InsertKeepsValid(before, key, value);
      var index := Probe(key, true);
      if index.Some? {
        var j := index.value;
        table[j] := table[j].(key := key);
        table[j] := table[j].(value := value);
        table[j] := table[j].(isOccupied := true);
        table[j] := table[j].(isDeleted := false);
        assert table[..] == before[j := TableOps.LiveEntry(key, value)];
      }
    }

    /** `get(key)`: the value of the slot a lookup finds, or `KeyNotFound`. */
    method Get(key: string) returns (r: Result<T, Error>)
      requires Valid()
      ensures TableOps.Lookup(table[..], key) == if r.Success? then Some(r.value) else None
      ensures r.Failure? ==> r.error == KeyNotFound
      ensures r.Failure? <==> !KeyPresent(table[..], key)
      ensures r.Success? ==>
        exists j :: 0 <= j < capacity && table[j].isOccupied && table[j].key == key && table[j].value == r.value
    {
      TableOps.LookupComplete(table[..], key);
      var index := Probe(key, false);
      if index.None? {
        return Failure(KeyNotFound);
      }
      return Success(table[index.value].value);
    }

    /** `remove(key)`: the slot a lookup finds becomes a tombstone; an absent key changes nothing. */
    method Remove(key: string)
      requires Valid()
      modifies table
      ensures Valid()
      ensures table[..] == TableOps.Removed(old(table[..]), key)
    {
      ghost var before := table[..];
      TableOps.RemoveKeepsValid(before, key);
      var index := Probe(key, false);
      var found := Contains(key);
      if found {
        var j := index.value;
        table[j] := table[j].(key := "");
        table[j] := table[j].(isDeleted := true);
        table[j] := table[j].(isOccupied := false);
        assert table[..] == before[j := TableOps.Tombstone(before[j])];
      }
    }

    /** `contains(key)`: true exactly when a lookup finds the key, i.e. some slot holds it. */
    method Contains(key: string) returns (b: bool)
      requires Valid()
      ensures b == Probing.Probe(table[..], key, false).Some?
      ensures b <==> KeyPresent(table[..], key)
    {
      TableOps.LookupComplete(table[..], key);
      var index := Probe(key, false);
      b := index.Some?;
    }

    /** `getSize`: the stored count, which is never updated and so always 0. */
    function GetSize(): (n: nat)
      reads this, table
      requires Valid()
      ensures n == 0
    {
      size
    }

    /** `getCapacity`: the number of slots of the backing array. */
    function GetCapacity(): (n: nat)
      reads this, table
      requires Valid()
      ensures n == table.Length && n > 0
    {
      capacity
    }

    /** `operator<<`: one line per slot, in index order, tagged by the slot's state. */
    method Dump() returns (lines: seq<DumpLine<T>>)
      requires Valid()
      ensures |lines| == capacity
      ensures forall i :: 0 <= i < capacity ==> lines[i].index == i
      ensures forall i :: 0 <= i < capacity ==> (lines[i].tag.Live? <==> table[i].isOccupied)
      ensures forall i :: 0 <= i < capacity ==> (lines[i].tag.Deleted? <==> IsTombstone(table[i]))
      ensures forall i :: 0 <= i < capacity ==> (lines[i].tag.Empty? <==> IsEmpty(table[i]))
      ensures forall i :: 0 <= i < capacity && table[i].isOccupied ==>
        lines[i].tag == Live(table[i].key, table[i].value)
    {
      lines := [];
      for i := 0 to capacity
        invariant |lines| == i
        invariant forall k :: 0 <= k < i ==> lines[k] == DumpLine(k, TagOf(table[k]))
      {
        lines := lines + [DumpLine(i, TagOf(table[i]))];
      }
      assert forall k :: 0 <= k < capacity ==> Exclusive(table[..][k]);
    }
  }
}
