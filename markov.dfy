/**
 * The `Markov` class and `identify_speaker` of markov.py: training fills a count table,
 * either the custom `Hashtable` or a built-in dictionary (here a `map`), and scoring
 * reads the counts back.
 *
 * Every method is proved to compute the corresponding function of MarkovModel, so the
 * two backends are proved to agree on every count and on every score.
 */
module Markov {
  import opened HashTableModel
  import opened HashTable
  import opened MarkovModel

  /** `self.model`: the custom table, or a dictionary. */
  datatype CountTable = Custom(table: Hashtable<nat>) | Builtin(counts: map<string, nat>)

  /**
   * `model[w] += 1` on the custom table (lines 39-40 and 44-45). Its `in` test never
   * fails, because `__getitem__` never raises `KeyError`; an unseen key reads as the
   * default 0. A table at most half full with at least four slots has two Empty slots,
   * so the read finds the key or the default and the write finds a place.
   */
  method Increment(table: Hashtable<nat>, w: string)
    requires table.Valid() && Dense(table.State())
    requires table.capacity >= 4 && table.loadFactor == TooFull && table.defaultValue == 0
    modifies table, table.items
    ensures table.Valid() && Dense(table.State())
    ensures table.items == old(table.items) || fresh(table.items)
    ensures table.capacity >= old(table.capacity)
    ensures table.loadFactor == TooFull && table.defaultValue == 0
    ensures Contents(table.items[..]) == Bump(old(Contents(table.items[..])), w)
  {
    ghost var t := table.State();
    ghost var before := Contents(t.slots);
    HalfFullRoom(t);
    LookupMeaning(t.slots, w, 0);
    EmptyCanPlace(t.slots, w);
    var current := table.Get(w);
    assert current.value == CountOf(before, w);
    var next: nat := current.value + 1;
    assert Bump(before, w) == before[w := next] by {
      if w in before {
        assert next == before[w] + 1;
      } else {
        assert next == 1;
      }
    }
    InsertedFacts(t, w, next, table.loadFactor, table.growthFactor);
    Grows(|t.slots|, table.growthFactor);
    table.Insert(w, next);
  }

  /**
   * `build_model` (lines 22-48): one round per position of the text, counting its cyclic
   * k-window and (k+1)-window. Either backend ends up holding exactly `Tally`.
   */
  method BuildModel(k: nat, text: string, useHashtable: bool) returns (model: CountTable)
    requires Trainable(text, k)
    ensures model.Custom? <==> useHashtable
    ensures model.Builtin? ==> model.counts == Tally(text, k, |text|)
    ensures model.Custom? ==>
              && fresh(model.table) && fresh(model.table.items)
              && model.table.Valid() && Dense(model.table.State())
              && model.table.capacity >= HashCells
              && model.table.loadFactor == TooFull && model.table.defaultValue == 0
              && Contents(model.table.items[..]) == Tally(text, k, |text|)
  {
    if useHashtable {
      var table := TrainCustom(k, text);
      model := Custom(table);
    } else {
      var counts := TrainBuiltin(k, text);
      model := Builtin(counts);
    }
  }

  /** The training loop of lines 31-47 over a fresh `Hashtable(57, 0, 0.5, 2)` (line 26). */
  method TrainCustom(k: nat, text: string) returns (table: Hashtable<nat>)
    requires Trainable(text, k)
    ensures fresh(table) && fresh(table.items)
    ensures table.Valid() && Dense(table.State()) && table.capacity >= HashCells
    ensures table.loadFactor == TooFull && table.defaultValue == 0
    ensures Contents(table.items[..]) == Tally(text, k, |text|)
  {
    table := new Hashtable<nat>(HashCells, 0, TooFull, GrowthRatio);
    FreshFacts<nat>(HashCells, TooFull, GrowthRatio);
    var extended := text + text[..if k <= |text| then k else |text|];
    assert extended == Extended(text, k);
    for i := 0 to |text|
      invariant fresh(table) && fresh(table.items)
      invariant table.Valid() && Dense(table.State()) && table.capacity >= HashCells
      invariant table.loadFactor == TooFull && table.defaultValue == 0
      invariant Contents(table.items[..]) == Tally(text, k, i)
    {
      var j := i + k;
      var kString := extended[i..j];
      var kPlus1String := kString + [extended[j]];
      assert kString == KString(text, k, i) && kPlus1String == KPlus1String(text, k, i);
      assert Tally(text, k, i + 1) == Bump(Bump(Tally(text, k, i), kString), kPlus1String);
      Increment(table, kString);
      Increment(table, kPlus1String);
    }
  }

  /** The training loop of lines 31-47 over an empty dictionary (line 29). */
  method TrainBuiltin(k: nat, text: string) returns (counts: map<string, nat>)
    requires Trainable(text, k)
    ensures counts == Tally(text, k, |text|)
  {
    counts := map[];
    var extended := text + text[..if k <= |text| then k else |text|];
    assert extended == Extended(text, k);
    for i := 0 to |text|
      invariant counts == Tally(text, k, i)
    {
      var j := i + k;
      var kString := extended[i..j];
      var kPlus1String := kString + [extended[j]];
      assert kString == KString(text, k, i) && kPlus1String == KPlus1String(text, k, i);
      assert Tally(text, k, i + 1) == Bump(Bump(counts, kString), kPlus1String);
      ghost var before := counts;
      if kString in counts {
        counts := counts[kString := counts[kString] + 1];
        assert counts == Bump(before, kString);
      } else {
        counts := counts[kString := 1];
        assert counts == Bump(before, kString);
      }
      ghost var middle := counts;
      if kPlus1String in counts {
        counts := counts[kPlus1String := counts[kPlus1String] + 1];
        assert counts == Bump(middle, kPlus1String);
      } else {
        counts := counts[kPlus1String := 1];
        assert counts == Bump(middle, kPlus1String);
      }
    }
  }

  /** A k-order Markov model trained on `text` (lines 10-20). */
  class Markov {
    const k: nat
    const text: string
    const useHashtable: bool
    const model: CountTable
    const uniqueChar: nat
    ghost const Repr: set<object>

    /** The model holds the counts of `text`, and `unique_char` is the size of its alphabet. */
    ghost predicate Valid()
      reads this, Repr
    {
      && Trainable(text, k)
      && uniqueChar == UniqueChars(text)
      && (model.Custom? <==> useHashtable)
      && match model
         case Builtin(counts) => Repr == {} && counts == Tally(text, k, |text|)
         case Custom(table) =>
           && table in Repr && Repr == {table, table.items}
           && table.Valid() && Dense(table.State()) && table.capacity >= HashCells
           && table.loadFactor == TooFull && table.defaultValue == 0
           && Contents(table.items[..]) == Tally(text, k, |text|)
    }

    /** `__init__` (lines 11-20). */
    constructor (k: nat, text: string, useHashtable: bool)
      requires Trainable(text, k)
      ensures Valid() && fresh(Repr)
      ensures this.k == k && this.text == text && this.useHashtable == useHashtable
    {
      this.k := k;
      this.text := text;
      this.useHashtable := useHashtable;
      var m := BuildModel(k, text, useHashtable);
      model := m;
      uniqueChar := |set c | c in text|;
      Repr := if m.Custom? then {m.table, m.table.items} else {};
    }

    /**
     * The M or N of lines 64-73: the count of `w`, 0 when the dictionary lacks it, and
     * whatever the custom table returns otherwise. Both backends give the count of the
     * training text's windows.
     */
    method Count(w: string) returns (c: nat)
      requires Valid()
      ensures c == CountOf(Tally(text, k, |text|), w)
    {
      match model
      case Builtin(counts) =>
        if w !in counts {
          c := 0;
        } else {
          c := counts[w];
        }
      case Custom(table) =>
        HalfFullRoom(table.State());
        LookupMeaning(table.items[..], w, 0);
        var r := table.Get(w);
        c := r.value;
    }

    /**
     * `log_probability` (lines 50-76): the sum over the query's positions of
     * `log((M + 1) / (N + S))`, the logarithm passed in as `log`. A nonempty query needs
     * `k <= len(s)` (or `extended_s[j]` is out of range) and a nonempty training text
     * (or `N + S` is zero).
     */
    method LogProbability(s: string, log: real -> real) returns (result: real)
      requires Valid() && Trainable(s, k) && (|s| == 0 || |text| > 0)
      ensures result == LogScore(log, Tally(text, k, |text|), uniqueChar, s, k, |s|)
    {
      if |s| > 0 {
        UniqueCharsBounds(text);
      }
      ghost var counts := Tally(text, k, |text|);
      result := 0.0;
      var extended := s + s[..if k <= |s| then k else |s|];
      assert extended == Extended(s, k);
      for i := 0 to |s|
        invariant result == LogScore(log, counts, uniqueChar, s, k, i)
      {
        var j := i + k;
        var kString := extended[i..j];
        var kPlus1String := kString + [extended[j]];
        assert kString == KString(s, k, i) && kPlus1String == KPlus1String(s, k, i);
        var m := Count(kPlus1String);
        var n := Count(kString);
        assert (m, n) == Evidence(counts, s, k, i);
        assert LogScore(log, counts, uniqueChar, s, k, i + 1)
               == LogScore(log, counts, uniqueChar, s, k, i) + log(Ratio(m, n, uniqueChar));
        result := result + log(Ratio(m, n, uniqueChar));
      }
    }
  }

  /**
   * `identify_speaker` (lines 79-99): train a model on each of the two samples, score the
   * unknown text under both, normalize by its length, and answer "A" exactly when the
   * first score is strictly greater. The answer does not depend on the backend.
   */
  method IdentifySpeaker(speech1: string, speech2: string, speech3: string, k: nat,
                         useHashtable: bool, log: real -> real)
    returns (normal1: real, normal2: real, speaker: Label)
    requires 0 < |speech1| && k <= |speech1| && 0 < |speech2| && k <= |speech2|
    requires 0 < |speech3| && k <= |speech3|
    ensures normal1 == LogScore(log, Tally(speech1, k, |speech1|), UniqueChars(speech1), speech3, k, |speech3|)
                       / |speech3| as real
    ensures normal2 == LogScore(log, Tally(speech2, k, |speech2|), UniqueChars(speech2), speech3, k, |speech3|)
                       / |speech3| as real
    ensures speaker == Speaker(normal1, normal2)
    ensures speaker == A <==> normal1 > normal2
  {
    var model1 := new Markov(k, speech1, useHashtable);
    var model2 := new Markov(k, speech2, useHashtable);
    var score1 := model1.LogProbability(speech3, log);
    var score2 := model2.LogProbability(speech3, log);
    normal1 := score1 / |speech3| as real;
    normal2 := score2 / |speech3| as real;
    speaker := Speaker(normal1, normal2);
  }
}
