/**
 * A value-level model of the open-addressing table of hashtable.py.
 *
 * The table's observable state is its backing list of slots and the counter
 * `loaded_record`; every operation of the class is a function from such a state
 * to the next one (or to the value it returns). The class in module HashTable is
 * proved to follow these functions, and the lemmas here say what they mean.
 */
module HashTableModel {
  import opened Wrappers

  /** The multiplier of the polynomial string hash (`P_CONSTANT`). */
  const P: nat := 37

  /**
   * One slot of the backing list. `Empty` is the sentinel tuple `(None, None, True)`;
   * a deleted entry keeps its key and its value and only has its flag set.
   */
  datatype Slot<V> = Empty | Entry(key: string, val: V, deleted: bool)

  /** The backing list (its length is `capacity`) and `loaded_record`. */
  datatype Table<V> = Table(slots: seq<Slot<V>>, loaded: int)

  /** `__delitem__` either returns normally, with the new state, or raises `KeyError`. */
  datatype Result<T> = Ok(value: T) | KeyError

  predicate IsLive<V>(slot: Slot<V>) {
    slot.Entry? && !slot.deleted
  }

  /** The slot holds `key`, deleted or not. */
  predicate Holds<V>(slot: Slot<V>, key: string) {
    slot.Entry? && slot.key == key
  }

  /** The slot ends a probe for `key`: it is the sentinel, or it holds `key`. */
  predicate Stops<V>(slot: Slot<V>, key: string) {
    slot.Empty? || slot.key == key
  }

  // ---------------------------------------------------------------------------
  // Hashing
  // ---------------------------------------------------------------------------

  /** The accumulator of `_hash` after its loop: Horner's rule over the code points. */
  function Horner(key: string): nat
    decreases |key|
  {
    if |key| == 0 then 0 else P * Horner(key[..|key| - 1]) + key[|key| - 1] as nat
  }

  function Pow(b: nat, e: nat): nat {
    if e == 0 then 1 else b * Pow(b, e - 1)
  }

  /** The polynomial that Horner's rule evaluates: the sum of `ord(key[i]) * P^(|key|-1-i)`. */
  function Poly(key: string): nat {
    if |key| == 0 then 0 else key[0] as nat * Pow(P, |key| - 1) + Poly(key[1..])
  }

  /** `_hash`: the index at which every probe for `key` starts. */
  function Hash(key: string, capacity: nat): (h: nat)
    requires capacity > 0
    ensures h < capacity
  {
    Horner(key) % capacity
  }

  lemma {:induction false} PolyAppend(s: string, c: char)
    ensures Poly(s + [c]) == P * Poly(s) + c as nat
  {
    if |s| == 0 {
      assert s + [c] == [c];
      assert [c][1..] == [];
    } else {
      assert (s + [c])[1..] == s[1..] + [c];
      PolyAppend(s[1..], c);
      calc {
        Poly(s + [c]);
        s[0] as nat * Pow(P, |s|) + Poly(s[1..] + [c]);
        s[0] as nat * (P * Pow(P, |s| - 1)) + P * Poly(s[1..]) + c as nat;
        P * (s[0] as nat * Pow(P, |s| - 1) + Poly(s[1..])) + c as nat;
      }
    }
  }

  /** Horner's rule computes the polynomial sum over the key's code points. */
  lemma {:induction false} HornerIsPolynomial(key: string)
    ensures Horner(key) == Poly(key)
    decreases |key|
  {
    if |key| > 0 {
      var init := key[..|key| - 1];
      HornerIsPolynomial(init);
      PolyAppend(init, key[|key| - 1]);
      assert init + [key[|key| - 1]] == key;
    }
  }

  // ---------------------------------------------------------------------------
  // Linear probing
  // ---------------------------------------------------------------------------

  /** The slot reached after `d` steps of `index = (index + 1) % n` from `h`. */
  function Pos(h: nat, d: nat, n: nat): (i: nat)
    requires h < n && d < n
    ensures i < n && i == (h + d) % n
  {
    if h + d < n then h + d else h + d - n
  }

  /** The number of probe steps from `h` to `i`. */
  function Offset(h: nat, i: nat, n: nat): (d: nat)
    requires h < n && i < n
    ensures d < n && Pos(h, d, n) == i
    ensures forall e | 0 <= e < n && Pos(h, e, n) == i :: e == d
  {
    if h <= i then i - h else i + n - h
  }

  /** One step of the probe loops. */
  lemma PosNext(h: nat, d: nat, n: nat)
    requires h < n && d + 1 < n
    ensures (Pos(h, d, n) + 1) % n == Pos(h, d + 1, n)
  {
  }

  /**
   * The insert probe (lines 37-45): the number of steps it takes from offset `d` before
   * it meets a slot that stops it; `|s|` when no slot in a full cycle does, in which
   * case the source's loop never ends.
   */
  function StopOffset<V>(s: seq<Slot<V>>, key: string, h: nat, d: nat): (r: nat)
    requires h < |s| && d <= |s|
    ensures d <= r <= |s|
    ensures forall e | d <= e < r :: !Stops(s[Pos(h, e, |s|)], key)
    ensures r < |s| ==> Stops(s[Pos(h, r, |s|)], key)
    decreases |s| - d
  {
    if d == |s| then |s|
    else if Stops(s[Pos(h, d, |s|)], key) then d
    else StopOffset(s, key, h, d + 1)
  }

  /** The insert loop of `key` terminates: some slot is Empty or holds `key`. */
  ghost predicate CanPlace<V>(s: seq<Slot<V>>, key: string) {
    exists i | 0 <= i < |s| :: Stops(s[i], key)
  }

  /** The while loop at line 37 ends within one cycle exactly when it ends at all. */
  lemma CanPlaceStops<V>(s: seq<Slot<V>>, key: string, h: nat)
    requires h < |s|
    ensures CanPlace(s, key) <==> StopOffset(s, key, h, 0) < |s|
  {
    if CanPlace(s, key) {
      var i :| 0 <= i < |s| && Stops(s[i], key);
      var e := Offset(h, i, |s|);
      assert Stops(s[Pos(h, e, |s|)], key);
    }
  }

  /**
   * The probe of `__getitem__` and `__delitem__` (lines 56-65, 76-85): with
   * `searched == d + 1`, the slot at offset `d` is examined while `searched != |s|`,
   * so at most `|s| - 1` slots are seen. The result is the index of the first
   * examined slot that stops the probe, or None when the loop runs out.
   */
  function Probe<V>(s: seq<Slot<V>>, key: string, h: nat, d: nat): (r: Option<nat>)
    requires h < |s| && d < |s|
    ensures r.Some? ==> r.value < |s| && Stops(s[r.value], key)
    decreases |s| - d
  {
    if d + 1 == |s| then None
    else if Stops(s[Pos(h, d, |s|)], key) then Some(Pos(h, d, |s|))
    else Probe(s, key, h, d + 1)
  }

  /**
   * The bounded probe stops where the insert probe stops, unless that slot is past the
   * `|s| - 1` slots it examines; then it gives up.
   */
  lemma {:induction false} ProbeMeetsStop<V>(s: seq<Slot<V>>, key: string, h: nat, d: nat)
    requires h < |s| && d < |s|
    ensures Probe(s, key, h, d) ==
            if StopOffset(s, key, h, d) < |s| - 1 then Some(Pos(h, StopOffset(s, key, h, d), |s|)) else None
    decreases |s| - d
  {
    if d + 1 < |s| && !Stops(s[Pos(h, d, |s|)], key) {
      ProbeMeetsStop(s, key, h, d + 1);
    }
  }

  // ---------------------------------------------------------------------------
  // The operations, as functions of the state
  // ---------------------------------------------------------------------------

  /**
   * Lines 34-47 of `__setitem__`: count the record, probe, and write `(key, val, False)`
   * where the probe stops, taking the count back when that slot already held `key`.
   */
  function Written<V>(t: Table<V>, key: string, val: V): (w: Table<V>)
    requires |t.slots| > 0
    ensures |w.slots| == |t.slots|
  {
    var n := |t.slots|;
    var h := Hash(key, n);
    var d := StopOffset(t.slots, key, h, 0);
    if d == n then t // the source loops forever here; callers establish CanPlace
    else
      var i := Pos(h, d, n);
      var loaded := t.loaded + 1;
      Table(t.slots[i := Entry(key, val, false)], if t.slots[i].Empty? then loaded else loaded - 1)
  }

  /** The test of line 48: `loaded_record / capacity > load_factor`. */
  predicate Overloaded<V>(t: Table<V>, loadFactor: real)
    requires |t.slots| > 0
  {
    t.loaded as real / |t.slots| as real > loadFactor
  }

  /** A fresh backing list `[initial_tuple] * n`. */
  function Fresh<V>(n: nat): (s: seq<Slot<V>>)
    ensures |s| == n && forall i | 0 <= i < n :: s[i].Empty?
  {
    seq(n, _ => Empty)
  }

  /** Line 109: the live `(key, value)` pairs, in slot order. */
  function LivePairs<V>(s: seq<Slot<V>>): (ps: seq<(string, V)>)
    ensures |ps| <= |s|
  {
    if |s| == 0 then []
    else
      var last := s[|s| - 1];
      LivePairs(s[..|s| - 1]) + if IsLive(last) then [(last.key, last.val)] else []
  }

  /** Lines 117-118: write the pairs one after the other. */
  function WriteAll<V>(t: Table<V>, ps: seq<(string, V)>): (r: Table<V>)
    requires |t.slots| > 0
    ensures |r.slots| == |t.slots|
  {
    if |ps| == 0 then t
    else Written(WriteAll(t, ps[..|ps| - 1]), ps[|ps| - 1].0, ps[|ps| - 1].1)
  }

  /** `rehashing`: a fresh list `growth_factor` times as long, refilled with the live pairs. */
  function Rehashed<V>(s: seq<Slot<V>>, growthFactor: nat): Table<V>
    requires |s| > 0 && growthFactor > 0
  {
    WriteAll(Table(Fresh(|s| * growthFactor), 0), LivePairs(s))
  }

  /** `__setitem__`: the write, then a rehash when the table is overloaded. */
  function Inserted<V>(t: Table<V>, key: string, val: V, loadFactor: real, growthFactor: nat): (r: Table<V>)
    requires |t.slots| > 0 && growthFactor > 0
    ensures |r.slots| == |t.slots| || |r.slots| == |t.slots| * growthFactor
    ensures |r.slots| >= |t.slots|
  {
    Grows(|t.slots|, growthFactor);
    var w := Written(t, key, val);
    if Overloaded(w, loadFactor) then Rehashed(w.slots, growthFactor) else w
  }

  /**
   * `__getitem__`: the default for the sentinel or a deleted match, the value for a
   * live match, and None (Python's implicit return) when the probe runs out.
   */
  function Lookup<V>(s: seq<Slot<V>>, key: string, default: V): Option<V>
    requires |s| > 0
  {
    match Probe(s, key, Hash(key, |s|), 0)
    case None => None
    case Some(i) =>
      match s[i]
      case Empty => Some(default)
      case Entry(_, v, deleted) => if deleted then Some(default) else Some(v)
  }

  /**
   * `__delitem__`: `KeyError` for the sentinel or a deleted match; a live match gets its
   * flag set and the count goes down; when the probe runs out nothing changes and
   * nothing is raised.
   */
  function Deleted<V>(t: Table<V>, key: string): (r: Result<Table<V>>)
    requires |t.slots| > 0
    ensures r.Ok? ==> |r.value.slots| == |t.slots|
  {
    match Probe(t.slots, key, Hash(key, |t.slots|), 0)
    case None => Ok(t)
    case Some(i) =>
      match t.slots[i]
      case Empty => KeyError
      case Entry(k, v, deleted) =>
        if deleted then KeyError else Ok(Table(t.slots[i := Entry(k, v, true)], t.loaded - 1))
  }

  // ---------------------------------------------------------------------------
  // The probe-chain invariant
  // ---------------------------------------------------------------------------

  /** No key is held by two slots (live or deleted). */
  ghost predicate UniqueKeys<V>(s: seq<Slot<V>>) {
    forall i, j | 0 <= i < |s| && 0 <= j < |s| && s[i].Entry? && s[j].Entry? && s[i].key == s[j].key :: i == j
  }

  /** Every slot from the hash index of the entry at `i` up to `i` is in use. */
  ghost predicate ChainedAt<V>(s: seq<Slot<V>>, i: nat)
    requires i < |s| && s[i].Entry?
  {
    var h := Hash(s[i].key, |s|);
    forall d | 0 <= d < Offset(h, i, |s|) :: s[Pos(h, d, |s|)].Entry?
  }

  ghost predicate Chained<V>(s: seq<Slot<V>>) {
    forall i | 0 <= i < |s| && s[i].Entry? :: ChainedAt(s, i)
  }

  /** The invariant the table keeps: a probe for a key held by some slot reaches it. */
  ghost predicate WellFormed<V>(s: seq<Slot<V>>) {
    |s| > 0 && UniqueKeys(s) && Chained(s)
  }

  ghost predicate HasEmpty<V>(s: seq<Slot<V>>) {
    exists i | 0 <= i < |s| :: s[i].Empty?
  }

  ghost predicate Absent<V>(s: seq<Slot<V>>, key: string) {
    forall i | 0 <= i < |s| :: !Holds(s[i], key)
  }

  /** In a well-formed table the insert probe stops exactly at the slot holding the key. */
  lemma StopAtKey<V>(s: seq<Slot<V>>, key: string, i: nat)
    requires WellFormed(s) && i < |s| && Holds(s[i], key)
    ensures StopOffset(s, key, Hash(key, |s|), 0) == Offset(Hash(key, |s|), i, |s|)
  {
    var h := Hash(key, |s|);
    var e := Offset(h, i, |s|);
    assert ChainedAt(s, i);
    forall d | 0 <= d < e
      ensures !Stops(s[Pos(h, d, |s|)], key)
    {
      assert s[Pos(h, d, |s|)].Entry?;
      assert Pos(h, d, |s|) != i;
    }
    assert Stops(s[Pos(h, e, |s|)], key);
  }

  /** If no slot holds the key, the insert probe stops at the first Empty slot. */
  lemma StopAtEmpty<V>(s: seq<Slot<V>>, key: string, h: nat)
    requires h < |s| && Absent(s, key) && HasEmpty(s)
    ensures StopOffset(s, key, h, 0) < |s|
    ensures s[Pos(h, StopOffset(s, key, h, 0), |s|)].Empty?
  {
    var j :| 0 <= j < |s| && s[j].Empty?;
    var f := Offset(h, j, |s|);
    assert Stops(s[Pos(h, f, |s|)], key);
  }

  /** The probe stopped at an Empty slot only if no slot holds the key. */
  lemma StopEmptyMeansAbsent<V>(s: seq<Slot<V>>, key: string)
    requires WellFormed(s)
    requires StopOffset(s, key, Hash(key, |s|), 0) < |s|
    requires s[Pos(Hash(key, |s|), StopOffset(s, key, Hash(key, |s|), 0), |s|)].Empty?
    ensures Absent(s, key)
  {
    forall i | 0 <= i < |s| && Holds(s[i], key)
      ensures false
    {
      StopAtKey(s, key, i);
    }
  }

  /** Writing an entry where the slot was Empty or held the same key keeps the chains. */
  lemma ChainedUpdate<V>(s: seq<Slot<V>>, i: nat, x: Slot<V>)
    requires Chained(s) && i < |s| && x.Entry?
    requires s[i].Entry? ==> s[i].key == x.key
    requires s[i].Empty? ==>
               var h := Hash(x.key, |s|);
               forall d | 0 <= d < Offset(h, i, |s|) :: s[Pos(h, d, |s|)].Entry?
    ensures Chained(s[i := x])
  {
    var s' := s[i := x];
    forall j | 0 <= j < |s'| && s'[j].Entry?
      ensures ChainedAt(s', j)
    {
      var h := Hash(s'[j].key, |s|);
      if j != i || s[i].Entry? {
        assert ChainedAt(s, j);
        forall d | 0 <= d < Offset(h, j, |s|)
          ensures s'[Pos(h, d, |s|)].Entry?
        {
          assert s[Pos(h, d, |s|)].Entry?;
        }
      } else {
        forall d | 0 <= d < Offset(h, j, |s|)
          ensures s'[Pos(h, d, |s|)].Entry?
        {
          assert s[Pos(h, d, |s|)].Entry?;
        }
      }
    }
  }

  /**
   * Lines 36-42, 47: when the probe meets a slot holding the key — even a deleted one —
   * that slot is overwritten in place with a live entry and the count is unchanged.
   */
  lemma WrittenExisting<V>(t: Table<V>, key: string, val: V, i: nat)
    requires WellFormed(t.slots) && i < |t.slots| && Holds(t.slots[i], key)
    ensures Written(t, key, val) == Table(t.slots[i := Entry(key, val, false)], t.loaded)
  {
    StopAtKey(t.slots, key, i);
  }

  /**
   * Lines 34-47: a key that no slot holds is written at the first Empty slot from its
   * hash index, every slot before it on the probe path being in use, and the count
   * goes up by exactly one.
   */
  lemma WrittenAbsent<V>(t: Table<V>, key: string, val: V)
    requires WellFormed(t.slots) && Absent(t.slots, key) && HasEmpty(t.slots)
    ensures var n := |t.slots|;
            var h := Hash(key, n);
            exists d | 0 <= d < n ::
              && t.slots[Pos(h, d, n)].Empty?
              && (forall e | 0 <= e < d :: t.slots[Pos(h, e, n)].Entry?)
              && Written(t, key, val) == Table(t.slots[Pos(h, d, n) := Entry(key, val, false)], t.loaded + 1)
  {
    var n := |t.slots|;
    var h := Hash(key, n);
    StopAtEmpty(t.slots, key, h);
    var d := StopOffset(t.slots, key, h, 0);
    assert forall e | 0 <= e < d :: !Stops(t.slots[Pos(h, e, n)], key);
  }

  /** Writing `key` where the slot held it, or where it was Empty and no slot held it, keeps keys unique. */
  lemma UniqueUpdate<V>(s: seq<Slot<V>>, i: nat, x: Slot<V>)
    requires UniqueKeys(s) && i < |s| && x.Entry?
    requires Holds(s[i], x.key) || (s[i].Empty? && Absent(s, x.key))
    ensures UniqueKeys(s[i := x])
  {
    var s' := s[i := x];
    forall a, b | 0 <= a < |s| && 0 <= b < |s| && s'[a].Entry? && s'[b].Entry? && s'[a].key == s'[b].key
      ensures a == b
    {
      if a != i && b != i {
        assert s[a] == s'[a] && s[b] == s'[b];
      }
    }
  }

  /** The write keeps the table well formed. */
  lemma WrittenWellFormed<V>(t: Table<V>, key: string, val: V)
    requires WellFormed(t.slots) && CanPlace(t.slots, key)
    ensures WellFormed(Written(t, key, val).slots)
  {
    var s := t.slots;
    var n := |s|;
    var h := Hash(key, n);
    CanPlaceStops(s, key, h);
    var d := StopOffset(s, key, h, 0);
    var i := Pos(h, d, n);
    var x := Entry(key, val, false);
    assert Written(t, key, val).slots == s[i := x];
    if s[i].Empty? {
      StopEmptyMeansAbsent(s, key);
      assert Offset(h, i, n) == d;
      forall e | 0 <= e < d
        ensures s[Pos(h, e, n)].Entry?
      {
        assert !Stops(s[Pos(h, e, n)], key);
      }
    }
    ChainedUpdate(s, i, x);
    UniqueUpdate(s, i, x);
  }

  // ---------------------------------------------------------------------------
  // The abstract meaning: a partial map from key to value
  // ---------------------------------------------------------------------------

  /** The map formed by the pairs, a later pair overriding an earlier one with its key. */
  function MapOf<V>(ps: seq<(string, V)>): map<string, V> {
    if |ps| == 0 then map[] else MapOf(ps[..|ps| - 1])[ps[|ps| - 1].0 := ps[|ps| - 1].1]
  }

  /** What the table stores: each live key with its value. Deleted entries are not in it. */
  function Contents<V>(s: seq<Slot<V>>): map<string, V> {
    MapOf(LivePairs(s))
  }

  lemma ContentsSnoc<V>(s: seq<Slot<V>>)
    requires |s| > 0
    ensures var last := s[|s| - 1];
            Contents(s) == if IsLive(last) then Contents(s[..|s| - 1])[last.key := last.val]
                           else Contents(s[..|s| - 1])
  {
    var last := s[|s| - 1];
    var ps := LivePairs(s[..|s| - 1]);
    if IsLive(last) {
      assert (ps + [(last.key, last.val)])[..|ps|] == ps;
    } else {
      assert ps + [] == ps;
    }
  }

  /** With unique keys, a key is in `Contents` exactly when a live slot holds it, with its value. */
  lemma {:induction false} ContentsChar<V>(s: seq<Slot<V>>)
    requires UniqueKeys(s)
    ensures forall i | 0 <= i < |s| && IsLive(s[i]) :: s[i].key in Contents(s) && Contents(s)[s[i].key] == s[i].val
    ensures forall key | key in Contents(s) :: exists i | 0 <= i < |s| :: IsLive(s[i]) && s[i].key == key
    decreases |s|
  {
    if |s| > 0 {
      var n := |s|;
      var init := s[..n - 1];
      assert forall i | 0 <= i < n - 1 :: init[i] == s[i];
      ContentsChar(init);
      ContentsSnoc(s);
      forall key | key in Contents(s)
        ensures exists i | 0 <= i < n :: IsLive(s[i]) && s[i].key == key
      {
        if !(IsLive(s[n - 1]) && s[n - 1].key == key) {
          var i :| 0 <= i < n - 1 && IsLive(init[i]) && init[i].key == key;
          assert IsLive(s[i]) && s[i].key == key;
        }
      }
    }
  }

  /** Lookups of a key in `Contents` by the index of the live slot holding it. */
  lemma ContentsAt<V>(s: seq<Slot<V>>, key: string)
    requires UniqueKeys(s)
    ensures key in Contents(s) <==> exists i | 0 <= i < |s| :: IsLive(s[i]) && s[i].key == key
    ensures forall i | 0 <= i < |s| && IsLive(s[i]) && s[i].key == key :: Contents(s)[key] == s[i].val
  {
    ContentsChar(s);
  }

  /** A live write of `key` at a slot that held it, or at an Empty slot when no slot held it, maps `key` to the value. */
  lemma ContentsWrite<V>(s: seq<Slot<V>>, i: nat, key: string, val: V)
    requires UniqueKeys(s) && i < |s|
    requires Holds(s[i], key) || (s[i].Empty? && Absent(s, key))
    ensures Contents(s[i := Entry(key, val, false)]) == Contents(s)[key := val]
  {
    var x := Entry(key, val, false);
    var s' := s[i := x];
    UniqueUpdate(s, i, x);
    ContentsChar(s);
    ContentsChar(s');
    var l, r := Contents(s'), Contents(s)[key := val];
    forall k | k in l
      ensures k in r && l[k] == r[k]
    {
      var j :| 0 <= j < |s'| && IsLive(s'[j]) && s'[j].key == k;
      if j != i {
        assert s[j] == s'[j];
      }
    }
    forall k | k in r
      ensures k in l
    {
      if k != key {
        var j :| 0 <= j < |s| && IsLive(s[j]) && s[j].key == k;
        assert j != i && s'[j] == s[j];
      } else {
        assert IsLive(s'[i]);
      }
    }
  }

  /** Setting the deleted flag of a live slot removes its key from `Contents`. */
  lemma ContentsTombstone<V>(s: seq<Slot<V>>, i: nat)
    requires UniqueKeys(s) && i < |s| && IsLive(s[i])
    ensures UniqueKeys(s[i := s[i].(deleted := true)])
    ensures Contents(s[i := s[i].(deleted := true)]) == Contents(s) - {s[i].key}
  {
    var s' := s[i := s[i].(deleted := true)];
    assert forall j | 0 <= j < |s| :: s'[j].Entry? == s[j].Entry? && (s[j].Entry? ==> s'[j].key == s[j].key);
    ContentsChar(s);
    ContentsChar(s');
    var l, r := Contents(s'), Contents(s) - {s[i].key};
    forall k | k in l
      ensures k in r && l[k] == r[k]
    {
      var j :| 0 <= j < |s'| && IsLive(s'[j]) && s'[j].key == k;
      assert j != i && s[j] == s'[j];
    }
    forall k | k in r
      ensures k in l
    {
      var j :| 0 <= j < |s| && IsLive(s[j]) && s[j].key == k;
      assert j != i && s'[j] == s[j];
    }
  }

  /** The write gives `key` its new value and leaves every other key as it was. */
  lemma WrittenContents<V>(t: Table<V>, key: string, val: V)
    requires WellFormed(t.slots) && CanPlace(t.slots, key)
    ensures Contents(Written(t, key, val).slots) == Contents(t.slots)[key := val]
  {
    var s := t.slots;
    var n := |s|;
    var h := Hash(key, n);
    CanPlaceStops(s, key, h);
    var i := Pos(h, StopOffset(s, key, h, 0), n);
    if s[i].Empty? {
      StopEmptyMeansAbsent(s, key);
    }
    ContentsWrite(s, i, key, val);
  }

  // ---------------------------------------------------------------------------
  // Lookup and delete
  // ---------------------------------------------------------------------------

  /** Some Empty slot lies among the `|s| - 1` slots that lookup and delete examine from `h`. */
  ghost predicate ExaminedEmpty<V>(s: seq<Slot<V>>, h: nat)
    requires h < |s|
  {
    exists d | 0 <= d < |s| - 1 :: s[Pos(h, d, |s|)].Empty?
  }

  ghost predicate TwoEmpty<V>(s: seq<Slot<V>>) {
    exists i, j | 0 <= i < j < |s| :: s[i].Empty? && s[j].Empty?
  }

  /** With two Empty slots, one of them is examined, wherever the probe starts. */
  lemma TwoEmptyExamined<V>(s: seq<Slot<V>>, h: nat)
    requires h < |s| && TwoEmpty(s)
    ensures ExaminedEmpty(s, h)
  {
    var i, j :| 0 <= i < j < |s| && s[i].Empty? && s[j].Empty?;
    var fi, fj := Offset(h, i, |s|), Offset(h, j, |s|);
    if fi < |s| - 1 {
      assert s[Pos(h, fi, |s|)].Empty?;
    } else {
      assert s[Pos(h, fj, |s|)].Empty?;
    }
  }

  /** In a well-formed table with an Empty slot, a held key lies among the examined slots. */
  lemma ProbeFindsHeld<V>(s: seq<Slot<V>>, key: string, i: nat)
    requires WellFormed(s) && HasEmpty(s) && i < |s| && Holds(s[i], key)
    ensures Probe(s, key, Hash(key, |s|), 0) == Some(i)
  {
    var n := |s|;
    var h := Hash(key, n);
    StopAtKey(s, key, i);
    var r := Offset(h, i, n);
    var j :| 0 <= j < n && s[j].Empty?;
    var f := Offset(h, j, n);
    assert ChainedAt(s, i);
    ProbeMeetsStop(s, key, h, 0);
  }

  /**
   * Lines 56-71: lookup of a key held by some slot, in a well-formed table with an Empty
   * slot, gives the value if the entry is live and the default if it is deleted.
   */
  lemma LookupHeld<V>(s: seq<Slot<V>>, key: string, default: V, i: nat)
    requires WellFormed(s) && HasEmpty(s) && i < |s| && Holds(s[i], key)
    ensures Lookup(s, key, default) == Some(if s[i].deleted then default else s[i].val)
  {
    ProbeFindsHeld(s, key, i);
  }

  /**
   * Lines 56-71: lookup of a key no slot holds gives the default when an Empty slot is
   * among the examined ones, and None (the loop runs out) otherwise. It never raises.
   */
  lemma LookupAbsent<V>(s: seq<Slot<V>>, key: string, default: V)
    requires |s| > 0 && Absent(s, key)
    ensures Lookup(s, key, default) == if ExaminedEmpty(s, Hash(key, |s|)) then Some(default) else None
  {
    var n := |s|;
    var h := Hash(key, n);
    var r := StopOffset(s, key, h, 0);
    ProbeMeetsStop(s, key, h, 0);
    if ExaminedEmpty(s, h) {
      var d :| 0 <= d < n - 1 && s[Pos(h, d, n)].Empty?;
      assert Stops(s[Pos(h, d, n)], key);
    }
  }

  /**
   * Lookup returns None exactly when each of the `|s| - 1` examined slots holds
   * another key: the last slot of the cycle is never looked at.
   */
  lemma LookupNone<V>(s: seq<Slot<V>>, key: string, default: V)
    requires |s| > 0
    ensures Lookup(s, key, default).None? <==>
            var h := Hash(key, |s|);
            forall d | 0 <= d < |s| - 1 :: s[Pos(h, d, |s|)].Entry? && s[Pos(h, d, |s|)].key != key
  {
    var n := |s|;
    var h := Hash(key, n);
    var r := StopOffset(s, key, h, 0);
    ProbeMeetsStop(s, key, h, 0);
    if r < n - 1 {
      assert Stops(s[Pos(h, r, n)], key);
    } else {
      forall d | 0 <= d < n - 1
        ensures s[Pos(h, d, n)].Entry? && s[Pos(h, d, n)].key != key
      {
        assert !Stops(s[Pos(h, d, n)], key);
      }
    }
  }

  /**
   * Lookup reads the abstract map: in a well-formed table with two Empty slots it gives
   * the value of a live key and the default for every other key.
   */
  lemma LookupMeaning<V>(s: seq<Slot<V>>, key: string, default: V)
    requires WellFormed(s) && TwoEmpty(s)
    ensures Lookup(s, key, default) == Some(if key in Contents(s) then Contents(s)[key] else default)
  {
    ContentsAt(s, key);
    if i :| 0 <= i < |s| && Holds(s[i], key) {
      LookupHeld(s, key, default, i);
      if s[i].deleted {
        assert key !in Contents(s);
      }
    } else {
      TwoEmptyExamined(s, Hash(key, |s|));
      LookupAbsent(s, key, default);
    }
  }

  /**
   * Lines 78-93: deleting a live key, in a well-formed table with an Empty slot, only sets
   * its deleted flag (key and value stay) and lowers the count by one; the key leaves the
   * abstract map; afterwards lookup gives the default and a second delete raises.
   */
  lemma DeleteLive<V>(t: Table<V>, key: string, default: V, i: nat)
    requires WellFormed(t.slots) && HasEmpty(t.slots)
    requires i < |t.slots| && IsLive(t.slots[i]) && t.slots[i].key == key
    ensures var s' := t.slots[i := Entry(key, t.slots[i].val, true)];
            && Deleted(t, key) == Ok(Table(s', t.loaded - 1))
            && WellFormed(s') && HasEmpty(s')
            && Contents(s') == Contents(t.slots) - {key}
            && Lookup(s', key, default) == Some(default)
            && Deleted(Table(s', t.loaded - 1), key) == KeyError
  {
    var s := t.slots;
    var s' := s[i := Entry(key, s[i].val, true)];
    ProbeFindsHeld(s, key, i);
    ContentsTombstone(s, i);
    assert s' == s[i := s[i].(deleted := true)];
    assert forall j | 0 <= j < |s| :: s'[j].Entry? == s[j].Entry? && (s[j].Entry? ==> s'[j].key == s[j].key);
    assert forall j | 0 <= j < |s| && s'[j].Entry? :: ChainedAt(s, j) && ChainedAt(s', j);
    assert WellFormed(s');
    var j :| 0 <= j < |s| && s[j].Empty?;
    assert s'[j].Empty?;
    ProbeFindsHeld(s', key, i);
  }

  /**
   * Lines 78-80, 93: deleting a key no slot holds raises `KeyError` when the probe meets
   * an Empty slot among the examined ones, and otherwise returns without a change.
   */
  lemma DeleteAbsent<V>(t: Table<V>, key: string)
    requires |t.slots| > 0 && Absent(t.slots, key)
    ensures Deleted(t, key) == if ExaminedEmpty(t.slots, Hash(key, |t.slots|)) then KeyError else Ok(t)
  {
    var s := t.slots;
    var n := |s|;
    var h := Hash(key, n);
    ProbeMeetsStop(s, key, h, 0);
    if ExaminedEmpty(s, h) {
      var d :| 0 <= d < n - 1 && s[Pos(h, d, n)].Empty?;
      assert Stops(s[Pos(h, d, n)], key);
    }
  }

  // ---------------------------------------------------------------------------
  // Counting slots, and tables without tombstones
  // ---------------------------------------------------------------------------

  /** The number of slots in use, live or deleted. */
  function Occupied<V>(s: seq<Slot<V>>): (c: nat)
    ensures c <= |s|
  {
    if |s| == 0 then 0 else Occupied(s[..|s| - 1]) + if s[|s| - 1].Entry? then 1 else 0
  }

  ghost predicate NoTombstones<V>(s: seq<Slot<V>>) {
    forall i | 0 <= i < |s| && s[i].Entry? :: !s[i].deleted
  }

  /** No slot is deleted and `loaded_record` counts the slots in use: true of a table nothing was deleted from. */
  ghost predicate Dense<V>(t: Table<V>) {
    NoTombstones(t.slots) && t.loaded == Occupied(t.slots)
  }

  lemma {:induction false} OccupiedFresh<V>(n: nat)
    ensures Occupied(Fresh<V>(n)) == 0
  {
    if n > 0 {
      assert Fresh<V>(n)[..n - 1] == Fresh<V>(n - 1);
      OccupiedFresh<V>(n - 1);
    }
  }

  /** Storing an entry uses one more slot exactly when the slot was Empty. */
  lemma {:induction false} OccupiedWrite<V>(s: seq<Slot<V>>, i: nat, x: Slot<V>)
    requires i < |s| && x.Entry?
    ensures Occupied(s[i := x]) == Occupied(s) + if s[i].Empty? then 1 else 0
    decreases |s|
  {
    var n := |s|;
    if i < n - 1 {
      assert s[i := x][..n - 1] == s[..n - 1][i := x];
      OccupiedWrite(s[..n - 1], i, x);
    } else {
      assert s[i := x][..n - 1] == s[..n - 1];
    }
  }

  /** A slot is Empty when fewer slots are in use than there are. */
  lemma {:induction false} SomeEmpty<V>(s: seq<Slot<V>>)
    requires Occupied(s) < |s|
    ensures HasEmpty(s)
    decreases |s|
  {
    var n := |s|;
    if !s[n - 1].Empty? {
      SomeEmpty(s[..n - 1]);
      var i :| 0 <= i < n - 1 && s[..n - 1][i].Empty?;
      assert s[i].Empty?;
    }
  }

  /** Two slots are Empty when at least two more slots exist than are in use. */
  lemma {:induction false} TwoEmptySlots<V>(s: seq<Slot<V>>)
    requires Occupied(s) + 2 <= |s|
    ensures TwoEmpty(s)
    decreases |s|
  {
    var n := |s|;
    var init := s[..n - 1];
    if s[n - 1].Empty? {
      SomeEmpty(init);
      var i :| 0 <= i < n - 1 && init[i].Empty?;
      assert s[i].Empty?;
    } else {
      TwoEmptySlots(init);
      var i, j :| 0 <= i < j < n - 1 && init[i].Empty? && init[j].Empty?;
      assert s[i].Empty? && s[j].Empty?;
    }
  }

  /** The write keeps a dense table dense. */
  lemma WrittenDense<V>(t: Table<V>, key: string, val: V)
    requires WellFormed(t.slots) && CanPlace(t.slots, key) && Dense(t)
    ensures Dense(Written(t, key, val))
  {
    var s := t.slots;
    var n := |s|;
    var h := Hash(key, n);
    CanPlaceStops(s, key, h);
    var i := Pos(h, StopOffset(s, key, h, 0), n);
    OccupiedWrite(s, i, Entry(key, val, false));
  }

  // ---------------------------------------------------------------------------
  // Rehashing
  // ---------------------------------------------------------------------------

  ghost predicate DistinctKeys<V>(ps: seq<(string, V)>) {
    forall a, b | 0 <= a < b < |ps| :: ps[a].0 != ps[b].0
  }

  lemma {:induction false} MapOfKeys<V>(ps: seq<(string, V)>)
    ensures forall k :: k in MapOf(ps) <==> exists a | 0 <= a < |ps| :: ps[a].0 == k
    decreases |ps|
  {
    if |ps| > 0 {
      var init := ps[..|ps| - 1];
      MapOfKeys(init);
      assert forall a | 0 <= a < |init| :: init[a] == ps[a];
    }
  }

  /** Line 109 gathers each live key once. */
  lemma {:induction false} LivePairsDistinct<V>(s: seq<Slot<V>>)
    requires UniqueKeys(s)
    ensures DistinctKeys(LivePairs(s))
    decreases |s|
  {
    var n := |s|;
    if n > 0 {
      var init := s[..n - 1];
      assert forall i | 0 <= i < n - 1 :: init[i] == s[i];
      LivePairsDistinct(init);
      var ps := LivePairs(init);
      if IsLive(s[n - 1]) {
        var ps' := ps + [(s[n - 1].key, s[n - 1].val)];
        assert LivePairs(s) == ps';
        MapOfKeys(ps);
        ContentsChar(init);
        forall a | 0 <= a < |ps|
          ensures ps[a].0 != s[n - 1].key
        {
          assert ps[a].0 in Contents(init);
          var i :| 0 <= i < n - 1 && IsLive(init[i]) && init[i].key == ps[a].0;
        }
      } else {
        assert LivePairs(s) == ps;
      }
    }
  }

  /**
   * Lines 113-118: writing pairs with distinct keys into a fresh list, no more pairs than
   * slots, fills one Empty slot per pair: the result is well formed and dense, counts the
   * pairs, and maps each key to its value.
   */
  lemma {:induction false} WriteAllFresh<V>(n: nat, ps: seq<(string, V)>, j: nat)
    requires 0 < n && |ps| <= n && DistinctKeys(ps) && j <= |ps|
    ensures var t := WriteAll(Table(Fresh(n), 0), ps[..j]);
            && WellFormed(t.slots) && Dense(t) && t.loaded == j
            && Contents(t.slots) == MapOf(ps[..j])
  {
    var f: Table<V> := Table(Fresh(n), 0);
    if j == 0 {
      OccupiedFresh<V>(n);
      assert LivePairs(f.slots) == [] by {
        LivePairsNone(f.slots);
      }
    } else {
      WriteAllFresh(n, ps, j - 1);
      var t := WriteAll(f, ps[..j - 1]);
      var key, val := ps[j - 1].0, ps[j - 1].1;
      assert ps[..j][..j - 1] == ps[..j - 1];
      assert WriteAll(f, ps[..j]) == Written(t, key, val);
      SomeEmpty(t.slots);
      MapOfKeys(ps[..j - 1]);
      ContentsChar(t.slots);
      assert Absent(t.slots, key);
      WrittenAbsent(t, key, val);
      WrittenWellFormed(t, key, val);
      WrittenDense(t, key, val);
      WrittenContents(t, key, val);
    }
  }

  lemma {:induction false} LivePairsNone<V>(s: seq<Slot<V>>)
    requires forall i | 0 <= i < |s| :: s[i].Empty?
    ensures LivePairs(s) == []
    decreases |s|
  {
    if |s| > 0 {
      LivePairsNone(s[..|s| - 1]);
    }
  }

  /**
   * Lines 106-118: rehashing multiplies the capacity, drops every deleted slot, sets the
   * count to the number of live pairs and keeps every live pair with its value.
   */
  lemma RehashedFacts<V>(s: seq<Slot<V>>, growthFactor: nat)
    requires WellFormed(s) && growthFactor > 0
    ensures var r := Rehashed(s, growthFactor);
            && |r.slots| == |s| * growthFactor
            && WellFormed(r.slots) && Dense(r)
            && r.loaded == |LivePairs(s)|
            && Contents(r.slots) == Contents(s)
  {
    var ps := LivePairs(s);
    LivePairsDistinct(s);
    Grows(|s|, growthFactor);
    WriteAllFresh(|s| * growthFactor, ps, |ps|);
    assert ps[..|ps|] == ps;
  }

  /** The count is at most `load_factor * capacity`: what the test at line 48 leaves behind. */
  ghost predicate WithinLoad<V>(t: Table<V>, loadFactor: real) {
    t.loaded as real <= loadFactor * |t.slots| as real
  }

  /** Growing a positive capacity by a positive factor does not shrink it. */
  lemma Grows(m: nat, growthFactor: nat)
    requires m > 0 && growthFactor > 0
    ensures m <= m * growthFactor
  {
    assert m * growthFactor == m * (growthFactor - 1) + m;
  }

  /** `a / n <= lf` for a positive `n` is `a <= lf * n`. */
  lemma LoadRatio(a: int, n: nat, lf: real)
    requires n > 0
    ensures a as real / n as real <= lf <==> a as real <= lf * n as real
  {
    var q := a as real / n as real;
    assert q * n as real == a as real;
  }

  /**
   * One round of the reload loop at lines 117-118. After `j` pairs went back in, the next
   * write can stop, it writes the next pair, and the load test of line 48 that
   * `self[key] = value` runs does not fire when `load_factor * growth_factor >= 1`: at
   * most the old capacity of pairs goes back in. So the reload never rehashes again.
   */
  lemma RefillStep<V>(s: seq<Slot<V>>, growthFactor: nat, loadFactor: real, j: nat)
    requires WellFormed(s) && growthFactor > 0 && loadFactor * growthFactor as real >= 1.0
    requires j < |LivePairs(s)|
    ensures var n := |s| * growthFactor;
            var ps := LivePairs(s);
            var t := WriteAll(Table(Fresh(n), 0), ps[..j]);
            && n > 0 && WellFormed(t.slots) && CanPlace(t.slots, ps[j].0)
            && WriteAll(Table(Fresh(n), 0), ps[..j + 1]) == Written(t, ps[j].0, ps[j].1)
            && !Overloaded(Written(t, ps[j].0, ps[j].1), loadFactor)
  {
    var n := |s| * growthFactor;
    var ps := LivePairs(s);
    Grows(|s|, growthFactor);
    assert |ps| <= n && DistinctKeys(ps) by { LivePairsDistinct(s); }
    var t := WriteAll(Table(Fresh(n), 0), ps[..j]);
    var next := WriteAll(Table(Fresh(n), 0), ps[..j + 1]);
    WriteAllFresh(n, ps, j);
    assert next.loaded == j + 1 by { WriteAllFresh(n, ps, j + 1); }
    assert CanPlace(t.slots, ps[j].0) by {
      SomeEmpty(t.slots);
      EmptyCanPlace(t.slots, ps[j].0);
    }
    assert next == Written(t, ps[j].0, ps[j].1) by { assert ps[..j + 1][..j] == ps[..j]; }
    assert !Overloaded(next, loadFactor) by { GrownTable(next, |s|, growthFactor, loadFactor); }
  }

  /**
   * A table of `m * growthFactor` slots counting at most `m` entries is within
   * `load_factor * capacity` and passes the test at line 48.
   */
  lemma GrownTable<V>(t: Table<V>, m: nat, growthFactor: nat, loadFactor: real)
    requires m > 0 && growthFactor > 0 && |t.slots| == m * growthFactor
    requires t.loaded <= m && loadFactor * growthFactor as real >= 1.0
    ensures WithinLoad(t, loadFactor) && !Overloaded(t, loadFactor)
  {
    var c := if t.loaded < 0 then 0 else t.loaded;
    GrownRoom(c, m, growthFactor, loadFactor);
    LoadRatio(t.loaded, |t.slots|, loadFactor);
  }

  /** A table failing the test at line 48 holds at most `load_factor * capacity`. */
  lemma NotOverloadedWithin<V>(t: Table<V>, loadFactor: real)
    requires |t.slots| > 0 && !Overloaded(t, loadFactor)
    ensures WithinLoad(t, loadFactor)
  {
    LoadRatio(t.loaded, |t.slots|, loadFactor);
  }

  /** `j <= m` pairs fit under the load factor of `m * growthFactor` slots. */
  lemma GrownRoom(j: nat, m: nat, growthFactor: nat, loadFactor: real)
    requires j <= m && loadFactor * growthFactor as real >= 1.0
    ensures j as real <= loadFactor * (m * growthFactor) as real
  {
    calc {
      loadFactor * (m * growthFactor) as real;
      == (loadFactor * growthFactor as real) * m as real;
      >= 1.0 * m as real;
      >= j as real;
    }
  }

  /** Lines 48-49: the rehashed table is well formed, dense and within its load factor. */
  lemma RehashedWithinLoad<V>(s: seq<Slot<V>>, growthFactor: nat, loadFactor: real)
    requires WellFormed(s) && growthFactor > 0 && loadFactor * growthFactor as real >= 1.0
    ensures var r := Rehashed(s, growthFactor);
            && |r.slots| == |s| * growthFactor
            && WellFormed(r.slots) && Dense(r)
            && Contents(r.slots) == Contents(s)
            && WithinLoad(r, loadFactor)
  {
    RehashedFacts(s, growthFactor);
    GrownTable(Rehashed(s, growthFactor), |s|, growthFactor, loadFactor);
  }

  /**
   * `__setitem__` as a whole, in a well-formed table whose insert probe can stop:
   * the table stays well formed, the key gets its value and no other key changes, the
   * count stays within the load factor, the capacity is kept or multiplied by the growth
   * factor, and a dense table stays dense.
   */
  lemma InsertedFacts<V>(t: Table<V>, key: string, val: V, loadFactor: real, growthFactor: nat)
    requires WellFormed(t.slots) && CanPlace(t.slots, key)
    requires growthFactor > 0 && loadFactor * growthFactor as real >= 1.0
    ensures var r := Inserted(t, key, val, loadFactor, growthFactor);
            && WellFormed(r.slots)
            && Contents(r.slots) == Contents(t.slots)[key := val]
            && WithinLoad(r, loadFactor)
            && (|r.slots| == |t.slots| || |r.slots| == |t.slots| * growthFactor)
            && (Dense(t) ==> Dense(r))
  {
    var w := Written(t, key, val);
    WrittenWellFormed(t, key, val);
    WrittenContents(t, key, val);
    if Dense(t) {
      WrittenDense(t, key, val);
    }
    if Overloaded(w, loadFactor) {
      RehashedWithinLoad(w.slots, growthFactor, loadFactor);
    } else {
      NotOverloadedWithin(w, loadFactor);
    }
  }

  // ---------------------------------------------------------------------------
  // What a caller sees
  // ---------------------------------------------------------------------------

  lemma EmptyCanPlace<V>(s: seq<Slot<V>>, key: string)
    requires HasEmpty(s)
    ensures CanPlace(s, key)
  {
    var i :| 0 <= i < |s| && s[i].Empty?;
    assert Stops(s[i], key);
  }

  /**
   * A dense table at most half full with at least four slots keeps two slots Empty, so
   * every lookup examines one and every insert can stop.
   */
  lemma HalfFullRoom<V>(t: Table<V>)
    requires Dense(t) && WithinLoad(t, 0.5) && |t.slots| >= 4
    ensures TwoEmpty(t.slots) && HasEmpty(t.slots)
  {
    assert 2 * t.loaded <= |t.slots|;
    TwoEmptySlots(t.slots);
  }

  /**
   * Lines 32-71: after `table[key] = val`, reading `key` gives `val`, as long as the new
   * table keeps an Empty slot for the probe to stop at.
   */
  lemma PutThenGet<V>(t: Table<V>, key: string, val: V, default: V,
                      loadFactor: real, growthFactor: nat)
    requires WellFormed(t.slots) && CanPlace(t.slots, key)
    requires growthFactor > 0 && loadFactor * growthFactor as real >= 1.0
    requires HasEmpty(Inserted(t, key, val, loadFactor, growthFactor).slots)
    ensures Lookup(Inserted(t, key, val, loadFactor, growthFactor).slots, key, default) == Some(val)
  {
    var r := Inserted(t, key, val, loadFactor, growthFactor);
    InsertedFacts(t, key, val, loadFactor, growthFactor);
    ContentsAt(r.slots, key);
    var i :| 0 <= i < |r.slots| && IsLive(r.slots[i]) && r.slots[i].key == key;
    LookupHeld(r.slots, key, default, i);
  }

  /**
   * Lines 32-51 and 53-71: a put leaves the lookup of every other key as it was, when
   * both tables keep two Empty slots, so that each lookup reaches a sentinel.
   */
  lemma PutKeepsOthers<V>(t: Table<V>, key: string, val: V, other: string, default: V,
                          loadFactor: real, growthFactor: nat)
    requires WellFormed(t.slots) && CanPlace(t.slots, key)
    requires growthFactor > 0 && loadFactor * growthFactor as real >= 1.0
    requires TwoEmpty(t.slots) && TwoEmpty(Inserted(t, key, val, loadFactor, growthFactor).slots)
    requires other != key
    ensures Lookup(Inserted(t, key, val, loadFactor, growthFactor).slots, other, default)
            == Lookup(t.slots, other, default)
  {
    var r := Inserted(t, key, val, loadFactor, growthFactor);
    InsertedFacts(t, key, val, loadFactor, growthFactor);
    LookupMeaning(r.slots, other, default);
    LookupMeaning(t.slots, other, default);
  }

  /**
   * The lookup loop at lines 55-71 examines `capacity - 1` slots: in a table of two slots
   * holding only "a" (hash 1), looking up the absent "c" (hash 1) examines the slot of
   * "a" alone and falls off the loop, so `table["c"]` is None rather than the default,
   * although a slot is Empty.
   */
  lemma LookupMissesLastSlot()
    ensures var t := Inserted(Table(Fresh<int>(2), 0), "a", 7, 0.5, 2);
            && t.slots == [Empty, Entry("a", 7, false)] && t.loaded == 1
            && Absent(t.slots, "c") && HasEmpty(t.slots)
            && Lookup(t.slots, "c", 0) == None
  {
    var t0 := Table(Fresh<int>(2), 0);
    assert Hash("a", 2) == 1;
    assert Hash("c", 2) == 1;
    assert StopOffset(t0.slots, "a", 1, 0) == 0;
    var t := Inserted(t0, "a", 7, 0.5, 2);
    assert Written(t0, "a", 7) == Table([Empty, Entry("a", 7, false)], 1);
    assert t.slots[0].Empty?;
  }

  /**
   * Line 36 counts a write before looking, and line 41 takes the count back only when the
   * key is found: writing a deleted key again revives its slot without counting it, so the
   * count `__len__` returns drops below the number of live keys and, after a second
   * delete, to -1, at which point the built-in `len(table)` raises `ValueError`.
   */
  lemma LenGoesNegative()
    ensures var t1 := Inserted(Table(Fresh<int>(4), 0), "a", 1, 0.5, 2);
            && Deleted(t1, "a").Ok?
            && var t2 := Inserted(Deleted(t1, "a").value, "a", 2, 0.5, 2);
            && Contents(t2.slots) == map["a" := 2] && t2.loaded == 0
            && Deleted(t2, "a").Ok? && Deleted(t2, "a").value.loaded == -1
  {
    PutIntoFour();
    DeleteFromFour();
    ReviveInFour();
    RevivedContents([Empty, Entry("a", 2, false), Empty, Empty]);
    DeleteRevived();
  }

  /** The first write of "a" (hash 1) into four sentinels: one live slot, count 1. */
  lemma PutIntoFour()
    ensures Inserted(Table(Fresh<int>(4), 0), "a", 1, 0.5, 2)
            == Table([Empty, Entry("a", 1, false), Empty, Empty], 1)
  {
    var t0 := Table(Fresh<int>(4), 0);
    assert Hash("a", 4) == 1;
    assert StopOffset(t0.slots, "a", 1, 0) == 0;
    assert Written(t0, "a", 1) == Table([Empty, Entry("a", 1, false), Empty, Empty], 1);
    assert !Overloaded(Written(t0, "a", 1), 0.5);
  }

  /** Deleting it tombstones the slot and brings the count back to 0. */
  lemma DeleteFromFour()
    ensures Deleted(Table([Empty, Entry("a", 1, false), Empty, Empty], 1), "a")
            == Ok(Table([Empty, Entry("a", 1, true), Empty, Empty], 0))
  {
    var t1 := Table([Empty, Entry("a", 1, false), Empty, Empty], 1);
    assert Hash("a", 4) == 1;
    assert Probe(t1.slots, "a", 1, 0) == Some(1);
    assert t1.slots[1 := Entry("a", 1, true)] == [Empty, Entry("a", 1, true), Empty, Empty];
  }

  /** Writing "a" again revives the tombstone, and lines 34 and 41 leave the count at 0. */
  lemma ReviveInFour()
    ensures Inserted(Table([Empty, Entry("a", 1, true), Empty, Empty], 0), "a", 2, 0.5, 2)
            == Table([Empty, Entry("a", 2, false), Empty, Empty], 0)
  {
    var d1 := Table([Empty, Entry("a", 1, true), Empty, Empty], 0);
    assert Hash("a", 4) == 1;
    assert StopOffset(d1.slots, "a", 1, 0) == 0;
    assert Written(d1, "a", 2) == Table([Empty, Entry("a", 2, false), Empty, Empty], 0);
  }

  /** The revived table holds "a" with its new value. */
  lemma RevivedContents(s: seq<Slot<int>>)
    requires s == [Empty, Entry("a", 2, false), Empty, Empty]
    ensures Contents(s) == map["a" := 2]
  {
    var pair: seq<(string, int)> := [("a", 2)];
    assert LivePairs(s[..1]) == [] by {
      assert s[..1][..0] == [];
    }
    assert LivePairs(s[..2]) == pair by {
      assert s[..2][..1] == s[..1];
    }
    assert LivePairs(s[..3]) == pair by {
      assert s[..3][..2] == s[..2];
    }
    assert LivePairs(s) == pair by {
      assert s[..3] == s[..|s| - 1];
    }
    assert pair[..0] == [];
  }

  /** Deleting the revived key takes one more off the count, which becomes -1. */
  lemma DeleteRevived()
    ensures Deleted(Table([Empty, Entry("a", 2, false), Empty, Empty], 0), "a")
            == Ok(Table([Empty, Entry("a", 2, true), Empty, Empty], -1))
  {
    var t2 := Table([Empty, Entry("a", 2, false), Empty, Empty], 0);
    assert Hash("a", 4) == 1;
    assert Probe(t2.slots, "a", 1, 0) == Some(1);
    assert t2.slots[1 := Entry("a", 2, true)] == [Empty, Entry("a", 2, true), Empty, Empty];
  }

  /**
   * Lines 36-47 and 89-92: tombstones are never reclaimed. Putting and deleting "a", "b",
   * "c" and "d" (hashes 1, 2, 3, 0) in a four-slot table leaves a well-formed, empty table
   * with no Empty slot, so the loop at line 37 never stops for `table["e"] = v`.
   */
  lemma TombstonesFillFour()
    ensures var t0 := Table(Fresh<int>(4), 0);
            var t1 := Table([Empty, Entry("a", 1, true), Empty, Empty], 0);
            var t2 := Table([Empty, Entry("a", 1, true), Entry("b", 2, true), Empty], 0);
            var t3 := Table([Empty, Entry("a", 1, true), Entry("b", 2, true), Entry("c", 3, true)], 0);
            var t4 := Table([Entry("d", 4, true), Entry("a", 1, true), Entry("b", 2, true), Entry("c", 3, true)], 0);
            && Deleted(Inserted(t0, "a", 1, 0.5, 2), "a") == Ok(t1)
            && Deleted(Inserted(t1, "b", 2, 0.5, 2), "b") == Ok(t2)
            && Deleted(Inserted(t2, "c", 3, 0.5, 2), "c") == Ok(t3)
            && Deleted(Inserted(t3, "d", 4, 0.5, 2), "d") == Ok(t4)
            && WellFormed(t4.slots) && Contents(t4.slots) == map[] && !CanPlace(t4.slots, "e")
  {
    var t0 := Table(Fresh<int>(4), 0);
    var t1 := Table([Empty, Entry("a", 1, true), Empty, Empty], 0);
    var t2 := Table([Empty, Entry("a", 1, true), Entry("b", 2, true), Empty], 0);
    var t3 := Table([Empty, Entry("a", 1, true), Entry("b", 2, true), Entry("c", 3, true)], 0);
    var t4 := Table([Entry("d", 4, true), Entry("a", 1, true), Entry("b", 2, true), Entry("c", 3, true)], 0);
    HashesInFour();
    FreshFacts<int>(4, 0.5, 2);
    assert t0.slots[1 := Entry("a", 1, true)] == t1.slots;
    PutDeleteInFour(t0, "a", 1, 1, t1);
    assert t1.slots[2 := Entry("b", 2, true)] == t2.slots;
    PutDeleteInFour(t1, "b", 2, 2, t2);
    assert t2.slots[3 := Entry("c", 3, true)] == t3.slots;
    PutDeleteInFour(t2, "c", 3, 3, t3);
    assert t3.slots[0 := Entry("d", 4, true)] == t4.slots;
    PutDeleteInFour(t3, "d", 4, 0, t4);
    NoStopForE(t4.slots);
  }

  /** The hash indexes of the keys of `TombstonesFillFour` in four slots. */
  lemma HashesInFour()
    ensures Hash("a", 4) == 1 && Hash("b", 4) == 2 && Hash("c", 4) == 3 && Hash("d", 4) == 0
  {
  }

  /** Four tombstones of other keys leave the probe for "e" nowhere to stop. */
  lemma NoStopForE(s: seq<Slot<int>>)
    requires s == [Entry("d", 4, true), Entry("a", 1, true), Entry("b", 2, true), Entry("c", 3, true)]
    ensures !CanPlace(s, "e")
  {
    assert forall i | 0 <= i < 4 :: !Stops(s[i], "e");
  }

  /**
   * One put and one delete of a key whose hash slot `h` is Empty, in a well-formed,
   * empty four-slot table with count 0: the put stays below the load factor 0.5, so the
   * slot ends up a tombstone, the count back at 0 and the table well formed and empty.
   */
  lemma PutDeleteInFour(t: Table<int>, key: string, v: int, h: nat, r: Table<int>)
    requires |t.slots| == 4 && t.loaded == 0 && WellFormed(t.slots) && Contents(t.slots) == map[]
    requires Hash(key, 4) == h && t.slots[h].Empty?
    requires r == Table(t.slots[h := Entry(key, v, true)], 0)
    ensures Deleted(Inserted(t, key, v, 0.5, 2), key) == Ok(r)
    ensures WellFormed(r.slots) && Contents(r.slots) == map[]
  {
    assert StopOffset(t.slots, key, h, 0) == 0;
    var w := Table(t.slots[h := Entry(key, v, false)], 1);
    assert Written(t, key, v) == w;
    assert !Overloaded(w, 0.5);
    assert Probe(w.slots, key, h, 0) == Some(h);
    assert w.slots[h := Entry(key, v, true)] == r.slots;
    assert Stops(t.slots[h], key);
    InsertedFacts(t, key, v, 0.5, 2);
    DeletedFacts(w, key, 0.5);
  }

  /**
   * `__delitem__` in a well-formed table: it raises, or it tombstones the live slot of
   * `key` (removing `key` and taking one off the count), or it changes nothing; the table
   * stays well formed and within its load factor.
   */
  lemma DeletedFacts<V>(t: Table<V>, key: string, loadFactor: real)
    requires WellFormed(t.slots)
    ensures Deleted(t, key).Ok? ==>
              var r := Deleted(t, key).value;
              && |r.slots| == |t.slots| && WellFormed(r.slots)
              && (r == t || (Contents(r.slots) == Contents(t.slots) - {key} && r.loaded == t.loaded - 1))
              && (WithinLoad(t, loadFactor) ==> WithinLoad(r, loadFactor))
  {
    var s := t.slots;
    match Probe(s, key, Hash(key, |s|), 0)
    case None =>
    case Some(i) =>
      if IsLive(s[i]) {
        var x := s[i].(deleted := true);
        assert Deleted(t, key).value.slots == s[i := x];
        ChainedUpdate(s, i, x);
        ContentsTombstone(s, i);
      }
  }

  /** Distinct keys make a map with one key per pair. */
  lemma {:induction false} MapOfSize<V>(ps: seq<(string, V)>)
    requires DistinctKeys(ps)
    ensures |MapOf(ps)| == |ps|
    decreases |ps|
  {
    if |ps| > 0 {
      var init := ps[..|ps| - 1];
      assert DistinctKeys(init);
      MapOfSize(init);
      MapOfKeys(init);
      assert ps[|ps| - 1].0 !in MapOf(init);
    }
  }

  /** Without tombstones every slot in use is live. */
  lemma {:induction false} LivePairsCount<V>(s: seq<Slot<V>>)
    requires NoTombstones(s)
    ensures |LivePairs(s)| == Occupied(s)
    decreases |s|
  {
    if |s| > 0 {
      var init := s[..|s| - 1];
      assert NoTombstones(init);
      LivePairsCount(init);
    }
  }

  /**
   * `__len__` (lines 95-97) reports `loaded_record`; in a table nothing was deleted from it
   * is the number of keys the table maps.
   */
  lemma DenseLen<V>(t: Table<V>)
    requires WellFormed(t.slots) && Dense(t)
    ensures |Contents(t.slots)| == t.loaded
  {
    LivePairsDistinct(t.slots);
    MapOfSize(LivePairs(t.slots));
    LivePairsCount(t.slots);
  }

  /** Lines 11-18: a fresh table is well formed, dense and within any admissible load factor. */
  lemma FreshFacts<V>(n: nat, loadFactor: real, growthFactor: nat)
    requires n > 0 && growthFactor > 0 && loadFactor * growthFactor as real >= 1.0
    ensures WellFormed(Fresh<V>(n)) && Dense(Table(Fresh<V>(n), 0))
    ensures WithinLoad(Table(Fresh<V>(n), 0), loadFactor)
    ensures Contents(Fresh<V>(n)) == map[]
  {
    OccupiedFresh<V>(n);
    LivePairsNone(Fresh<V>(n));
    assert loadFactor > 0.0;
  }
}
