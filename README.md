# Speaker recognition with k-order Markov models: a verified model

This project models the core of a small speaker-recognition program in Dafny and
proves what it does. The program has two parts.

- **The hash table** (`hashtable.py`). It is an open-addressing table with linear
  probing over a list of `(key, value, is_deleted)` slots. A sentinel marks a slot
  that was never used. A delete leaves a tombstone that keeps its key and value. The
  table counts its records in `loaded_record`. It rehashes into a list
  `growth_factor` times longer once the count passes `load_factor * capacity`.
- **The Markov model** (`markov.py`). `build_model` slides cyclic windows of length
  k and k + 1 over the training text and counts them. The counts go into the custom
  table or into a built-in dictionary. `log_probability` sums `log((M + 1) / (N + S))`
  over the positions of a query. `identify_speaker` compares two normalized scores.

## Modules

- `wrappers.dfy` (`Wrappers`): `Option`, which stands for a value or Python's `None`.
- `hashtable_model.dfy` (`HashTableModel`): the table as a value. Each operation is a
  function on `Table(slots, loaded)`. The lemmas say what the slots mean as a map
  (`Contents`), what every operation does to that map and to the count, and when the
  probe loops stop.
- `hashtable.dfy` (`HashTable`): the class `Hashtable<V>`. Its fields are an
  `array<Slot<V>>`, `capacity` and `loadedRecord`. Its methods keep the source's
  loops. Each one is proved to move the object's state exactly as the matching
  function of `HashTableModel` does.
- `markov_model.dfy` (`MarkovModel`): the windows, the count table after each round
  of training (`Tally`), the evidence (M, N) at each query position, and the score.
- `markov.dfy` (`Markov`): the training loop over either backend, the class
  `Markov`, and `IdentifySpeaker`. Both backends are proved to hold the same counts,
  so the answer does not depend on the backend.

### Ties go to "B"

Train on "aaaa" and on "bbbb" with k = 1, and query "aaaa".

- Under the first model every ratio is (4 + 1) / (4 + 1).
- Under the second model every ratio is (0 + 1) / (0 + 1).
- Both normalized scores are therefore log(1), and the strict comparison at
  markov.py:95 answers "B", although the query is made only of the first text's
  characters.

`MarkovModel.SpeakerScenario` proves the tie and the answer "B" for any logarithm
function.

## Model

| member | source | states |
|---|---|---|
| HashTableModel.Hash | hashtable.py:20-30 | `_hash`: the Horner value of the key's code points with multiplier 37, modulo the capacity. It is below the capacity. |
| HashTableModel.Horner | hashtable.py:27-29 | The accumulator `val` after the loop: each code point in turn is added to 37 times the value so far, starting from 0. |
| HashTableModel.HornerIsPolynomial | hashtable.py:27-29 | The Horner accumulator equals the polynomial sum of the code points with multiplier 37. |
| HashTable.Hashtable.HashOf | hashtable.py:20-30 | The loop's result is `Hash(key, capacity)`, the Horner value modulo the capacity. It is below the capacity. |
| HashTable.Hashtable.constructor | hashtable.py:11-18 | `capacity` sentinel slots and a zero count. The table is well formed, within its load factor and maps nothing. |
| HashTableModel.Fresh | hashtable.py:13 | `[initial_tuple] * n`, the list built here and at line 113: `n` slots, every one a sentinel. |
| HashTableModel.FreshFacts | hashtable.py:11-18 | A fresh list is well formed and dense, has no contents and is within any admissible load factor. |
| HashTableModel.StopOffset | hashtable.py:37-45 | The insert probe: how many steps from the hash index the loop takes before it reaches a sentinel or a slot holding the key. No slot before that offset stops it, the slot at it does, and the offset is the capacity when no slot stops it, where the loop never ends. |
| HashTableModel.Written | hashtable.py:34-47 | The probe loop of `__setitem__`: the first slot from the hash index that is a sentinel or holds the key gets a live entry. The count rises by one unless that slot held the key. The capacity is kept. |
| HashTableModel.WrittenExisting | hashtable.py:36-47 | A slot on the probe path holding the key, even a deleted one, is overwritten in place with a live entry. The count is unchanged. |
| HashTableModel.WrittenAbsent | hashtable.py:34-47 | A key no slot holds goes into the first sentinel slot from its hash index. Every slot before it is in use. The count rises by exactly one, and no other slot changes. |
| HashTableModel.WrittenContents | hashtable.py:32-47 | After the write the key maps to the new value. Every other key keeps its value. |
| HashTable.Hashtable.Write | hashtable.py:34-47 | The probe loop writes exactly as `Written` does. |
| HashTableModel.Overloaded | hashtable.py:48 | The rehash test: the count divided by the capacity exceeds the load factor. |
| HashTableModel.Inserted | hashtable.py:32-51 | `__setitem__`: the write, then `Rehashed` when the count divided by the capacity exceeds the load factor. The capacity is kept or multiplied by the growth factor. |
| HashTable.Hashtable.Insert | hashtable.py:32-51 | `__setitem__` is the write, then a rehash exactly when `loaded_record / capacity > load_factor`. It keeps the list and capacity otherwise, and multiplies the capacity when it rehashes. It keeps the table well formed and within its load factor. |
| HashTableModel.InsertedFacts | hashtable.py:32-51 | After `__setitem__` the key maps to its value and nothing else changes. The table stays well formed and within its load factor. The capacity is kept or multiplied by the growth factor. |
| HashTableModel.PutThenGet | hashtable.py:32-71 | After `table[key] = val`, reading `key` gives `val` whenever the new table keeps a sentinel slot. |
| HashTableModel.PutKeepsOthers | hashtable.py:32-71 | After `table[key] = val`, reading any other key gives what it gave before, when the old and the new table each keep two sentinel slots. |
| HashTableModel.Probe | hashtable.py:56-65 | The bounded probe shared by `__getitem__` and `__delitem__` (lines 76-85): from the hash index it examines at most `capacity - 1` slots and gives the first that is a sentinel or holds the key, or nothing when the count of examined slots reaches the capacity. |
| HashTableModel.Lookup | hashtable.py:53-71 | `__getitem__` examines at most `capacity - 1` slots from the hash index, stopping early at a sentinel or a slot holding the key. It gives the default at a sentinel or a deleted match, the value at a live match, and None when the examined slots run out. |
| HashTableModel.LookupHeld | hashtable.py:53-71 | In a well-formed table with a sentinel slot, lookup of a key some slot holds gives its value if live and the default if deleted. |
| HashTableModel.LookupAbsent | hashtable.py:53-71 | Lookup of an absent key gives the default if an examined slot is a sentinel, and None otherwise. It never raises. |
| HashTableModel.LookupNone | hashtable.py:56-71 | Lookup gives None exactly when each of the `capacity - 1` examined slots holds another key. |
| HashTableModel.LookupMeaning | hashtable.py:53-71 | With two sentinel slots, lookup gives the key's value in the abstract map, or the default. |
| HashTableModel.LookupMissesLastSlot | hashtable.py:56-71 | A concrete 2-slot table where lookup of an absent key gives None although a sentinel slot exists. |
| HashTable.Hashtable.Get | hashtable.py:53-71 | The loop's answer is `Lookup` of the current slots. |
| HashTableModel.Deleted | hashtable.py:73-93 | `__delitem__`: `KeyError` at a sentinel or a deleted match. A live match gets its flag set and the count drops by one. Nothing changes when the examined slots run out. The capacity is kept. |
| HashTableModel.DeleteLive | hashtable.py:73-93 | In a well-formed table with a sentinel slot, deleting a live key only sets its flag and lowers the count by one. The key leaves the map. A later lookup gives the default, and a second delete raises `KeyError`. |
| HashTableModel.DeleteAbsent | hashtable.py:73-93 | Deleting an absent key raises `KeyError` if an examined slot is a sentinel. Otherwise it returns without change. |
| HashTableModel.DeletedFacts | hashtable.py:73-93 | A delete that does not raise either changes nothing, or removes the key and lowers the count by one. The table stays well formed and within its load factor. |
| HashTable.Hashtable.Delete | hashtable.py:73-93 | It raises exactly when `Deleted` is `KeyError`. Otherwise the new state is `Deleted`'s table. The class invariant is kept. |
| HashTableModel.DenseLen | hashtable.py:95-97 | In a dense table, `len` is the number of keys the table maps. Dense means no tombstones and a count equal to the number of used slots, as in any table no key was deleted from. |
| HashTable.Hashtable.Len | hashtable.py:95-97 | The method returns `loaded_record`. In a dense table that is the size of the map. |
| HashTableModel.LenGoesNegative | hashtable.py:32-97 | After put, delete, put, delete of the same key, `__len__()` returns -1, so the built-in `len(table)` raises `ValueError`. After the second put the key is mapped while the count is 0. |
| HashTableModel.TombstonesFillFour | hashtable.py:32-93 | Putting and deleting "a", "b", "c" and "d" in a four-slot table leaves it well formed and mapping nothing, with no sentinel slot left. The probe of `table["e"] = v` then never stops. |
| HashTableModel.PutDeleteInFour | hashtable.py:32-93 | In an empty four-slot table with count 0, a put and a delete of a key whose hash slot is a sentinel leave a tombstone there and the count at 0. The table stays well formed and maps nothing. |
| HashTableModel.LivePairs | hashtable.py:109-110 | The live `(key, value)` pairs in slot order. There are no more of them than slots. |
| HashTableModel.WriteAll | hashtable.py:117-118 | The reload loop: the live pairs written one after another, in order, with `__setitem__`'s probe into the new list. |
| HashTableModel.Rehashed | hashtable.py:106-118 | A fresh list `growth_factor` times as long with count 0, refilled by writing each live pair in slot order. |
| HashTableModel.RehashedFacts | hashtable.py:106-118 | Rehashing multiplies the capacity by the growth factor and drops the tombstones. It sets the count to the number of live pairs and keeps every live pair with its value. |
| HashTableModel.RehashedWithinLoad | hashtable.py:106-118 | The rehashed table is within its load factor. |
| HashTableModel.RefillStep | hashtable.py:117-118 | Each reinsertion finds a place. The load test of line 48 never fires during the reload when `load_factor * growth_factor >= 1`, so rehashing never nests. |
| HashTable.Hashtable.Rehash | hashtable.py:106-118 | The new capacity is the old one times the growth factor. The new state is `Rehashed` of the old slots. |
| HashTable.Hashtable.Reload | hashtable.py:117-118 | The reload loop writes every live pair back, giving `Rehashed`. |
| HashTableModel.HalfFullRoom | hashtable.py:48-50 | A dense table at most half full with four or more slots keeps two sentinel slots. So lookups never give None and inserts always stop. |
| MarkovModel.Extended | markov.py:32 | `text + text[:k]`. Its length is the text's plus k, or 0 for the empty text. |
| MarkovModel.KString | markov.py:35-36 | `extended_text[i:i + k]`, of length k. |
| MarkovModel.ExtendedWraps | markov.py:32 | Each character of `text + text[:k]` is the character of `text` it wraps around to. |
| MarkovModel.WindowsWrap | markov.py:33-37 | `k_string` is the cyclic k-window at `i`. `kplus1_string` is the cyclic (k+1)-window, ending with the cyclic character at `i + k`. |
| MarkovModel.KPlus1String | markov.py:37 | `kplus1_string` has length k + 1 and starts with `k_string`. |
| MarkovModel.CountOf | markov.py:65-73 | The count a lookup of M or N reads: the entry for the string, or 0 when the string is missing. |
| MarkovModel.Bump | markov.py:39-47 | `model[w] += 1` when `w` is a key, and `model[w] = 1` otherwise. |
| MarkovModel.BumpCounts | markov.py:39-47 | A bump adds `w` to the keys, adds one to its count and leaves every other count as it was. |
| MarkovModel.Tally | markov.py:33-47 | The table after the first j rounds. Each round adds one to the count of the k-window at its position, then to that of the (k+1)-window, and starts an unseen string at 1. |
| MarkovModel.TallyCounts | markov.py:33-47 | A string of length k or k + 1 is counted once per position whose cyclic window it is. Other lengths are never counted. The table holds exactly the strings with a positive count. |
| MarkovModel.TallyWitness | markov.py:38-47 | A string has a positive count exactly when it is one of the windows of the text. |
| MarkovModel.TallySums | markov.py:33-47 | The counts of all length-k strings sum to the text length. So do the counts of all length-(k+1) strings. |
| MarkovModel.PrefixBound | markov.py:33-47 | Each (k+1)-count is at most the count of its k-prefix. |
| MarkovModel.AbabCounts | markov.py:33-47 | "abab" with k = 1 gives a:2, b:2, ab:2, ba:2. |
| MarkovModel.UniqueChars | markov.py:20 | `len(set(text))`, the number of distinct characters. It is at least 1 for a nonempty text. |
| MarkovModel.UniqueCharsBounds | markov.py:20 | `unique_char` of a nonempty training text is between 1 and its length. |
| MarkovModel.Evidence | markov.py:61-73 | M and N at query position i: the counts of the query's (k+1)-window and k-window, 0 when missing. |
| MarkovModel.LogScore | markov.py:56-76 | The sum of `log((M + 1) / (N + S))` over the first j query positions, for the logarithm passed in. |
| MarkovModel.Ratio | markov.py:75 | The smoothed ratio `(M + 1) / (N + S)`, in exact rational arithmetic. |
| MarkovModel.RatioBounds | markov.py:58-75 | Every ratio `(M + 1) / (N + S)` lies in (0, 1], because M <= N and S >= 1. |
| MarkovModel.ScoresAgree | markov.py:56-76 | Two models that give each query position the same ratio give the query the same score. |
| MarkovModel.Speaker | markov.py:95-98 | The answer is "A" exactly when the first score is strictly greater. |
| MarkovModel.TieGoesToB | markov.py:95-98 | Equal scores give "B". |
| MarkovModel.ScenarioScores | markov.py:79-93 | Training on "aaaa" and "bbbb" with k = 1 gives "aaaa" equal scores under both models. |
| MarkovModel.SpeakerScenario | markov.py:79-99 | In that scenario the normalized scores tie and the answer is "B". |
| Markov.Increment | markov.py:39-47 | On the custom table, `model[w] += 1` adds one to the count of `w` and leaves the rest. The table stays valid, dense and at most half full. |
| Markov.TrainCustom | markov.py:22-48 | The training loop over `Hashtable(57, 0, 0.5, 2)` leaves the table's contents equal to `Tally` of the whole text. |
| Markov.TrainBuiltin | markov.py:22-48 | The training loop over a dictionary leaves it equal to `Tally` of the whole text. |
| Markov.BuildModel | markov.py:22-48 | Either backend holds the counts of every window of the text. |
| Markov.Markov.constructor | markov.py:11-20 | The model holds the text's counts. `unique_char` is the size of the training text's alphabet. |
| Markov.Markov.Count | markov.py:64-73 | M or N is the count of the window in the training text, 0 when unseen. It is the same for both backends. |
| Markov.Markov.LogProbability | markov.py:50-76 | The loop's result is `LogScore`, the sum over the query's positions of `log((M + 1) / (N + S))`. |
| Markov.IdentifySpeaker | markov.py:79-99 | The normalized scores are the two models' `LogScore` divided by the query length. The answer is `Speaker` of the two, "A" exactly when the first is strictly greater. Nothing depends on the backend. |

## Left out

- `math.log` is a parameter `log: real -> real`. Every result holds for any function
  in its place. Floating-point rounding is not modelled: scores and the load test of
  hashtable.py:48 are exact `real` arithmetic (the test is exact for 0.5).
- `__iter__` (hashtable.py:99-104) only raises, and is not modelled.
- The rest of the `MutableMapping` mixin is not modelled. It matters in one place:
  `in` on the custom table never fails, because `__getitem__` never raises
  `KeyError`. So the training loop always takes the `+= 1` branch on that backend,
  and `Markov.Increment` models that branch only.
- Python's `dict` internals are not modelled. The dictionary backend is a Dafny
  `map<string, nat>`.
- performance.py (argument parsing, file reading, timing, plotting) is I/O and
  benchmarking code, and is not part of this model.
- speaker-recognition.py (argument checks, file reading, printing) is I/O glue
  around `identify_speaker`, and is not part of this model.
- HashTable.Hashtable.Insert: requires that the key's probe can stop, at a sentinel
  slot or at a slot holding the key. Without that, the loop at hashtable.py:37 never
  ends. Deletes make that case reachable: `HashTableModel.TombstonesFillFour` gives a
  table with no sentinel slot left.
- HashTable.Hashtable.constructor: requires a positive capacity, an integer growth
  factor, and `load_factor * growth_factor >= 1` (true for 0.5 and 2).
  - A capacity of 0 makes `_hash` divide by zero.
  - A non-integral growth factor breaks the list allocation at hashtable.py:113.
  - The product bound is what keeps the reload of lines 117-118 from rehashing
    again.
- Markov.Markov.constructor: requires `k <= len(text)` for a nonempty text. Otherwise
  `extended_text[j]` at markov.py:37 raises `IndexError`. The error is a
  precondition, not an error result.
- Markov.Markov.LogProbability: requires `k <= len(s)` for a nonempty query and a
  nonempty training text. Otherwise markov.py:63 raises `IndexError` or markov.py:75
  divides by zero.
- Markov.IdentifySpeaker: requires nonempty texts with `k` no longer than each. Any
  other input raises at markov.py:37, 63, 75 or 92.
- HashTable.Hashtable.Len: returns `loaded_record` as `__len__` does. The built-in
  `len` wrapped around it, which raises `ValueError` for a negative result, is not
  modelled; `HashTableModel.LenGoesNegative` shows that result is reachable.
- `k` is a `nat`, so a negative `k` is not modelled. speaker-recognition.py:13
  accepts one, and Python then slices from the end at markov.py:32 and 36, so the
  windows are no longer of length k.
- The answers "A" and "B" are the two values of the datatype `Label`, not strings.
