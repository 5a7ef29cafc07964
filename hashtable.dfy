/**
 * The `Hashtable` class of hashtable.py: an open-addressing table with linear probing
 * over a list of `(key, value, is_deleted)` slots, updated in place.
 *
 * Every method is proved to move the object's state exactly as the corresponding
 * function of HashTableModel says; what those functions mean is proved there.
 */
module HashTable {
  import opened Wrappers
  import opened HashTableModel

  class Hashtable<V> {
    var items: array<Slot<V>>
    var capacity: nat
    const defaultValue: V
    const loadFactor: real
    const growthFactor: nat
    var loadedRecord: int

    /** The backing list and `loaded_record`, as a value. */
    ghost function State(): Table<V>
      reads this, items
    {
      Table(items[..], loadedRecord)
    }

    /**
     * The shape every operation relies on: `capacity` is the length of the list, the
     * factors let a rehash refill the table without rehashing again, and every key
     * sits on its own probe chain.
     */
    ghost predicate Shape()
      reads this, items
    {
      && items.Length == capacity && capacity > 0
      && growthFactor > 0 && loadFactor * growthFactor as real >= 1.0
      && WellFormed(items[..])
    }

    /** `Shape`, and the load-factor bound that every `__setitem__` restores. */
    ghost predicate Valid()
      reads this, items
    {
      Shape() && WithinLoad(State(), loadFactor)
    }

    /** `__init__` (lines 11-18): `capacity` sentinel slots and a zero count. */
    constructor (capacity: nat, defaultValue: V, loadFactor: real, growthFactor: nat)
      requires capacity > 0 && growthFactor > 0 && loadFactor * growthFactor as real >= 1.0
      ensures Valid() && fresh(items)
      ensures State() == Table(Fresh(capacity), 0) && Contents(State().slots) == map[]
      ensures this.capacity == capacity && this.defaultValue == defaultValue
      ensures this.loadFactor == loadFactor && this.growthFactor == growthFactor
    {
      items := new Slot<V>[capacity](_ => Empty);
      this.capacity := capacity;
      this.defaultValue := defaultValue;
      this.loadFactor := loadFactor;
      this.growthFactor := growthFactor;
      loadedRecord := 0;
      new;
      assert items[..] == Fresh(capacity);
      FreshFacts<V>(capacity, loadFactor, growthFactor);
    }

    /** `_hash` (lines 20-30): Horner's rule with multiplier 37, reduced modulo `capacity`. */
    method HashOf(key: string) returns (index: nat)
      requires capacity > 0
      ensures index == Hash(key, capacity)
    {
      var val: nat := 0;
      for i := 0 to |key|
        invariant val == Horner(key[..i])
      {
        assert key[..i + 1][..i] == key[..i];
        val := P * val + key[i] as nat;
      }
      assert key[..|key|] == key;
      index := val % capacity;
    }

    /**
     * Lines 34-47 of `__setitem__`: count the record, walk from the hash index to the
     * first sentinel or slot holding `key`, and store a live entry there.
     */
    method Write(key: string, val: V)
      requires Shape() && CanPlace(items[..], key)
      modifies this`loadedRecord, items
      ensures State() == Written(old(State()), key, val)
    {
      var index := HashOf(key);
      ghost var h := index;
      ghost var s := items[..];
      CanPlaceStops(s, key, h);
      ghost var stop := StopOffset(s, key, h, 0);
      loadedRecord := loadedRecord + 1;
      ghost var d: nat := 0;
      while !items[index].Empty?
        invariant d <= stop && index == Pos(h, d, capacity)
        invariant items[..] == s && loadedRecord == old(loadedRecord) + 1
        decreases stop - d
      {
        if items[index].key == key {
          loadedRecord := loadedRecord - 1;
          break;
        }
        PosNext(h, d, capacity);
        index := (index + 1) % capacity;
        d := d + 1;
      }
      items[index] := Entry(key, val, false);
    }

    /**
     * `__setitem__` (lines 32-51). The source's loop only ends when some slot is the
     * sentinel or holds `key`, which the caller establishes.
     */
    method Insert(key: string, val: V)
      requires Valid() && CanPlace(items[..], key)
      modifies this, items
      ensures Valid()
      ensures State() == Inserted(old(State()), key, val, loadFactor, growthFactor)
      ensures if Overloaded(Written(old(State()), key, val), loadFactor)
              then fresh(items) && capacity == old(capacity) * growthFactor
              else items == old(items) && capacity == old(capacity)
    {
      Write(key, val);
      InsertedFacts(old(State()), key, val, loadFactor, growthFactor);
      WrittenWellFormed(old(State()), key, val);
      if loadedRecord as real / capacity as real > loadFactor {
        Rehash();
      }
    }

    /**
     * `rehashing` (lines 106-118): collect the live pairs, multiply the capacity, start
     * from a fresh list with a zero count and write every pair back.
     */
    method Rehash()
      requires Shape()
      modifies this
      ensures Shape() && fresh(items)
      ensures capacity == old(capacity) * growthFactor
      ensures State() == Rehashed(old(items[..]), growthFactor)
    {
      ghost var s := items[..];
      var oldItems := LivePairs(items[..]);
      capacity := capacity * growthFactor;
      items := new Slot<V>[capacity](_ => Empty);
      loadedRecord := 0;
      assert State() == Table(Fresh<V>(capacity), 0);
      Reload(s, oldItems);
      assert WellFormed(items[..]) by { RehashedFacts(s, growthFactor); }
    }

    /**
     * The loop of lines 117-118: every live pair of the old list `s` goes back into the
     * fresh list, one `self[key] = value` at a time.
     */
    method Reload(ghost s: seq<Slot<V>>, pairs: seq<(string, V)>)
      requires WellFormed(s) && pairs == LivePairs(s)
      requires growthFactor > 0 && loadFactor * growthFactor as real >= 1.0
      requires items.Length == capacity == |s| * growthFactor
      requires State() == Table(Fresh(capacity), 0)
      modifies this`loadedRecord, items
      ensures State() == Rehashed(s, growthFactor)
    {
      ghost var start := State();
      for j := 0 to |pairs|
        invariant State() == WriteAll(start, pairs[..j])
      {
        RefillStep(s, growthFactor, loadFactor, j);
        Write(pairs[j].0, pairs[j].1);
        // the load test of line 48, run by `self[key] = value`, does not fire here
        assert !Overloaded(State(), loadFactor);
      }
      assert pairs[..|pairs|] == pairs;
    }

    /**
     * `__getitem__` (lines 53-71): the walk examines at most `capacity - 1` slots and
     * gives None, Python's implicit return value, when it runs out.
     */
    method Get(key: string) returns (r: Option<V>)
      requires items.Length == capacity > 0
      ensures r == Lookup(items[..], key, defaultValue)
    {
      var index := HashOf(key);
      ghost var h := index;
      var searched: nat := 1;
      while searched != capacity
        invariant 1 <= searched <= capacity
        invariant index == Pos(h, searched - 1, capacity)
        invariant Probe(items[..], key, h, 0) == Probe(items[..], key, h, searched - 1)
        decreases capacity - searched
      {
        if items[index].Empty? {
          return Some(defaultValue);
        } else if items[index].key != key {
          PosNext(h, searched - 1, capacity);
          index := (index + 1) % capacity;
          searched := searched + 1;
        } else if items[index].deleted {
          return Some(defaultValue);
        } else {
          return Some(items[index].val);
        }
      }
      return None;
    }

    /**
     * `__delitem__` (lines 73-93): `raised` when the walk meets the sentinel or a deleted
     * match; a live match gets its flag set and the count drops by one.
     */
    method Delete(key: string) returns (raised: bool)
      requires Valid()
      modifies this`loadedRecord, items
      ensures Valid()
      ensures raised <==> Deleted(old(State()), key).KeyError?
      ensures State() == if raised then old(State()) else Deleted(old(State()), key).value
    {
      DeletedFacts(State(), key, loadFactor);
      var index := HashOf(key);
      ghost var h := index;
      var searched: nat := 1;
      while searched != capacity
        invariant 1 <= searched <= capacity
        invariant index == Pos(h, searched - 1, capacity)
        invariant State() == old(State())
        invariant Probe(items[..], key, h, 0) == Probe(items[..], key, h, searched - 1)
        decreases capacity - searched
      {
        if items[index].Empty? {
          return true;
        } else if items[index].key != key {
          PosNext(h, searched - 1, capacity);
          index := (index + 1) % capacity;
          searched := searched + 1;
        } else if items[index].deleted {
          return true;
        } else {
          items[index] := Entry(items[index].key, items[index].val, true);
          loadedRecord := loadedRecord - 1;
          return false;
        }
      }
      return false;
    }

    /**
     * `__len__` (lines 95-97): `loaded_record`, which is the number of keys the table
     * maps as long as nothing was deleted from it.
     */
    method Len() returns (n: int)
      requires Shape()
      ensures n == loadedRecord
      ensures Dense(State()) ==> n == |Contents(items[..])|
    {
      n := loadedRecord;
      if Dense(State()) {
        DenseLen(State());
      }
    }
  }
}
