/**
 * A value-level model of the k-order Markov model of markov.py: the cyclic windows
 * taken from a text, the table of window counts the training loop builds, and the
 * per-position evidence the scoring loop reads back.
 *
 * The methods of module Markov are proved to compute these functions; the lemmas here
 * say what the counts mean.
 */
module MarkovModel {

  /** `HASH_CELLS`, `TOO_FULL` and `GROWTH_RATIO`: the custom table the model uses. */
  const HashCells: nat := 57
  const TooFull: real := 0.5
  const GrowthRatio: nat := 2

  /**
   * The windows can be taken: `extended_text[i + k]` is in range for every position
   * exactly when `k <= len(text)`, or there are no positions at all.
   */
  predicate Trainable(text: string, k: nat) {
    |text| == 0 || k <= |text|
  }

  /** The `len` characters of `text` read cyclically from position `i`. */
  function Cyclic(text: string, i: nat, len: nat): (w: string)
    requires |text| > 0
    ensures |w| == len
  {
    seq(len, t => text[(i + t) % |text|])
  }

  /** `extended_text = text + text[:k]` (line 32). */
  function Extended(text: string, k: nat): (e: string)
    requires Trainable(text, k)
    ensures |e| == |text| + if |text| == 0 then 0 else k
  {
    text + text[..if k <= |text| then k else |text|]
  }

  /** `k_string` at position `i` (lines 35-36). */
  function KString(text: string, k: nat, i: nat): (w: string)
    requires Trainable(text, k) && i < |text|
    ensures |w| == k
  {
    Extended(text, k)[i..i + k]
  }

  /** `kplus1_string` at position `i` (line 37): `k_string` and one more character. */
  function KPlus1String(text: string, k: nat, i: nat): (w: string)
    requires Trainable(text, k) && i < |text|
    ensures |w| == k + 1 && w[..k] == KString(text, k, i)
  {
    KString(text, k, i) + [Extended(text, k)[i + k]]
  }

  /** Each character of `extended_text` is the character of `text` it wraps around to. */
  lemma ExtendedWraps(text: string, k: nat, p: nat)
    requires Trainable(text, k) && p < |Extended(text, k)|
    ensures Extended(text, k)[p] == text[p % |text|]
  {
    if p >= |text| {
      assert p % |text| == p - |text|;
    }
  }

  /**
   * Lines 33-37: `k_string` is the k characters of the text read cyclically from `i`, and
   * `kplus1_string` the k + 1 characters read from `i`, its last one being the cyclic
   * character at `i + k`.
   */
  lemma WindowsWrap(text: string, k: nat, i: nat)
    requires Trainable(text, k) && i < |text|
    ensures KString(text, k, i) == Cyclic(text, i, k)
    ensures KPlus1String(text, k, i) == Cyclic(text, i, k + 1)
    ensures KPlus1String(text, k, i)[k] == text[(i + k) % |text|]
  {
    var w := KPlus1String(text, k, i);
    var c := Cyclic(text, i, k + 1);
    forall t | 0 <= t < k + 1
      ensures w[t] == c[t]
    {
      ExtendedWraps(text, k, i + t);
    }
    assert w == c;
    assert KString(text, k, i) == w[..k];
    assert Cyclic(text, i, k) == c[..k];
  }

  /** The count a table gives `w`: 0 for a key it does not hold (lines 65-73). */
  function CountOf(m: map<string, nat>, w: string): nat {
    if w in m then m[w] else 0
  }

  /** Lines 39-42 (or 44-47): add one to the count of `w`, starting it at 1. */
  function Bump(m: map<string, nat>, w: string): map<string, nat> {
    if w in m then m[w := m[w] + 1] else m[w := 1]
  }

  /** Bumping adds `w` to the keys, adds one to its count and leaves every other count alone. */
  lemma BumpCounts(m: map<string, nat>, w: string)
    ensures Bump(m, w).Keys == m.Keys + {w}
    ensures CountOf(Bump(m, w), w) == CountOf(m, w) + 1
    ensures forall v | v != w :: CountOf(Bump(m, w), v) == CountOf(m, v)
  {
  }

  /** The table after the first `j` rounds of the training loop (lines 33-47). */
  function Tally(text: string, k: nat, j: nat): map<string, nat>
    requires Trainable(text, k) && j <= |text|
  {
    if j == 0 then map[]
    else Bump(Bump(Tally(text, k, j - 1), KString(text, k, j - 1)), KPlus1String(text, k, j - 1))
  }

  /** The positions before `j` at which `w` is the cyclic window of its own length. */
  ghost function Matches(text: string, w: string, j: nat): set<nat>
    requires |text| > 0
  {
    set i: nat | i < j && Cyclic(text, i, |w|) == w
  }

  // ---------------------------------------------------------------------------
  // What the counts mean
  // ---------------------------------------------------------------------------

  /**
   * After `j` rounds, a string of length k or k + 1 is counted once for each position
   * before `j` whose cyclic window of that length it is; a string of any other length is
   * never counted; and the table holds exactly the strings with a positive count.
   */
  lemma {:induction false} TallyCounts(text: string, k: nat, j: nat, w: string)
    requires Trainable(text, k) && j <= |text|
    ensures |text| > 0 ==>
              CountOf(Tally(text, k, j), w) == if |w| == k || |w| == k + 1 then |Matches(text, w, j)| else 0
    ensures |text| == 0 ==> Tally(text, k, j) == map[]
    ensures w in Tally(text, k, j) <==> CountOf(Tally(text, k, j), w) > 0
  {
    if j > 0 {
      TallyCounts(text, k, j - 1, w);
      var i := j - 1;
      BumpCounts(Tally(text, k, i), KString(text, k, i));
      BumpCounts(Bump(Tally(text, k, i), KString(text, k, i)), KPlus1String(text, k, i));
      WindowsWrap(text, k, i);
      if |w| == k || |w| == k + 1 {
        MatchesStep(text, w, i);
      }
    }
  }

  /** `w` is the k-window or the (k+1)-window at position `i`. */
  predicate IsWindow(text: string, k: nat, i: nat, w: string)
    requires Trainable(text, k) && i < |text|
  {
    KString(text, k, i) == w || KPlus1String(text, k, i) == w
  }

  /** A string has a positive count exactly when it is one of the windows counted so far. */
  lemma {:induction false} TallyWitness(text: string, k: nat, j: nat, w: string)
    requires Trainable(text, k) && j <= |text|
    ensures CountOf(Tally(text, k, j), w) > 0 <==> exists i | 0 <= i < j :: IsWindow(text, k, i, w)
  {
    if j > 0 {
      var m := Tally(text, k, j - 1);
      var a, b := KString(text, k, j - 1), KPlus1String(text, k, j - 1);
      assert CountOf(Tally(text, k, j), w) > 0 <==> CountOf(m, w) > 0 || w == a || w == b;
      TallyWitness(text, k, j - 1, w);
      if exists i | 0 <= i < j :: IsWindow(text, k, i, w) {
        var i :| 0 <= i < j && IsWindow(text, k, i, w);
        if i < j - 1 {
          assert CountOf(m, w) > 0;
        }
      }
      if CountOf(m, w) > 0 {
        var i :| 0 <= i < j - 1 && IsWindow(text, k, i, w);
        assert 0 <= i < j;
      }
      if w == a || w == b {
        assert IsWindow(text, k, j - 1, w);
      }
    }
  }

  /** Position `i` adds one match exactly when its window is `w`. */
  lemma MatchesStep(text: string, w: string, i: nat)
    requires |text| > 0
    ensures |Matches(text, w, i + 1)| == |Matches(text, w, i)| + if Cyclic(text, i, |w|) == w then 1 else 0
  {
    var hit := Cyclic(text, i, |w|) == w;
    var now, before := Matches(text, w, i + 1), Matches(text, w, i);
    forall x: nat
      ensures x in now <==> x in before || (hit && x == i)
    {
    }
    assert now == before + if hit then {i} else {};
    assert i !in before;
  }

  // ---------------------------------------------------------------------------
  // Every round adds one window of each length
  // ---------------------------------------------------------------------------

  /** The total count of the keys in `keys` of length `len`. */
  ghost function SumLen(m: map<string, nat>, keys: set<string>, len: nat): nat
    requires keys <= m.Keys
  {
    if keys == {} then 0
    else
      var w :| w in keys;
      (if |w| == len then m[w] else 0) + SumLen(m, keys - {w}, len)
  }

  /** The total count of the keys of length `len` in the whole table. */
  ghost function Total(m: map<string, nat>, len: nat): nat {
    SumLen(m, m.Keys, len)
  }

  /** The total does not depend on which key is taken out first. */
  lemma {:induction false} SumLenRemove(m: map<string, nat>, keys: set<string>, x: string, len: nat)
    requires keys <= m.Keys && x in keys
    ensures SumLen(m, keys, len) == (if |x| == len then m[x] else 0) + SumLen(m, keys - {x}, len)
    decreases keys
  {
    var w :| w in keys && SumLen(m, keys, len) == (if |w| == len then m[w] else 0) + SumLen(m, keys - {w}, len);
    if w != x {
      SumLenRemove(m, keys - {w}, x, len);
      SumLenRemove(m, keys - {x}, w, len);
      assert keys - {w} - {x} == keys - {x} - {w};
    }
  }

  /** Two tables that agree on `keys` have the same total over them. */
  lemma {:induction false} SumLenAgree(m1: map<string, nat>, m2: map<string, nat>, keys: set<string>, len: nat)
    requires keys <= m1.Keys && keys <= m2.Keys
    requires forall v | v in keys :: m1[v] == m2[v]
    ensures SumLen(m1, keys, len) == SumLen(m2, keys, len)
    decreases keys
  {
    if keys != {} {
      var w :| w in keys && SumLen(m1, keys, len) == (if |w| == len then m1[w] else 0) + SumLen(m1, keys - {w}, len);
      SumLenAgree(m1, m2, keys - {w}, len);
      SumLenRemove(m2, keys, w, len);
    }
  }

  /** One bump adds one to the total of its length. */
  lemma SumLenBump(m: map<string, nat>, w: string, len: nat)
    ensures Total(Bump(m, w), len) == Total(m, len) + if |w| == len then 1 else 0
  {
    var r := Bump(m, w);
    SumLenRemove(r, r.Keys, w, len);
    SumLenAgree(r, m, r.Keys - {w}, len);
    if w in m {
      SumLenRemove(m, m.Keys, w, len);
      assert r.Keys - {w} == m.Keys - {w};
    } else {
      assert r.Keys - {w} == m.Keys;
    }
  }

  /** After `j` rounds the counts of the k-windows sum to `j`, and so do those of the (k+1)-windows. */
  lemma {:induction false} TallySums(text: string, k: nat, j: nat)
    requires Trainable(text, k) && j <= |text|
    ensures Total(Tally(text, k, j), k) == j && Total(Tally(text, k, j), k + 1) == j
  {
    if j == 0 {
      assert Tally(text, k, 0).Keys == {};
    } else {
      TallySums(text, k, j - 1);
      var a, b := KString(text, k, j - 1), KPlus1String(text, k, j - 1);
      var m := Tally(text, k, j - 1);
      SumLenBump(m, a, k);
      SumLenBump(m, a, k + 1);
      SumLenBump(Bump(m, a), b, k);
      SumLenBump(Bump(m, a), b, k + 1);
    }
  }

  /** A (k+1)-window is never counted more often than its k-prefix. */
  lemma {:induction false} PrefixBound(text: string, k: nat, j: nat, w: string)
    requires Trainable(text, k) && j <= |text| && |w| == k + 1
    ensures CountOf(Tally(text, k, j), w) <= CountOf(Tally(text, k, j), w[..k])
  {
    if j > 0 {
      PrefixBound(text, k, j - 1, w);
      var a, b := KString(text, k, j - 1), KPlus1String(text, k, j - 1);
      assert b == w ==> a == w[..k];
    }
  }

  /** The example of the training text "abab" with k = 1. */
  lemma AbabCounts()
    ensures Tally("abab", 1, 4) == map["a" := 2, "b" := 2, "ab" := 2, "ba" := 2]
  {
    var t := "abab";
    assert Extended(t, 1) == "ababa";
    assert KString(t, 1, 0) == "a" && KPlus1String(t, 1, 0) == "ab";
    assert KString(t, 1, 1) == "b" && KPlus1String(t, 1, 1) == "ba";
    assert KString(t, 1, 2) == "a" && KPlus1String(t, 1, 2) == "ab";
    assert KString(t, 1, 3) == "b" && KPlus1String(t, 1, 3) == "ba";
    assert Tally(t, 1, 1) == map["a" := 1, "ab" := 1];
    assert Tally(t, 1, 2) == map["a" := 1, "ab" := 1, "b" := 1, "ba" := 1];
    assert Tally(t, 1, 3) == map["a" := 2, "ab" := 2, "b" := 1, "ba" := 1];
  }

  // ---------------------------------------------------------------------------
  // The alphabet size S
  // ---------------------------------------------------------------------------

  /** `len(set(text))` (line 20): the number of distinct characters of the training text. */
  function UniqueChars(text: string): (n: nat)
    ensures |text| > 0 ==> n >= 1
  {
    var chars := set c | c in text;
    assert |text| > 0 ==> text[0] in chars;
    |chars|
  }

  lemma {:induction false} CharSetSize(text: string)
    ensures |set c | c in text| <= |text|
    decreases |text|
  {
    if |text| > 0 {
      var rest := text[1..];
      CharSetSize(rest);
      assert (set c | c in text) == (set c | c in rest) + {text[0]};
    }
  }

  /** A nonempty training text has between 1 and `len(text)` distinct characters. */
  lemma UniqueCharsBounds(text: string)
    requires |text| > 0
    ensures 1 <= UniqueChars(text) <= |text|
  {
    CharSetSize(text);
    var chars := set c | c in text;
    assert text[0] in chars;
    assert |chars| >= |{text[0]}| by {
      assert {text[0]} <= chars;
    }
  }

  // ---------------------------------------------------------------------------
  // Scoring
  // ---------------------------------------------------------------------------

  /**
   * Lines 58-73: at query position `i`, M is the count of the query's cyclic
   * (k+1)-window and N the count of its cyclic k-window, 0 when unseen.
   */
  function Evidence(counts: map<string, nat>, s: string, k: nat, i: nat): (mn: (nat, nat))
    requires Trainable(s, k) && i < |s|
  {
    (CountOf(counts, KPlus1String(s, k, i)), CountOf(counts, KString(s, k, i)))
  }

  /** The smoothed ratio `(M + 1) / (N + S)` of line 75. */
  function Ratio(m: nat, n: nat, uniq: nat): real
    requires n + uniq > 0
  {
    (m + 1) as real / (n + uniq) as real
  }

  /**
   * `log_probability` (lines 56-76) over its first `j` positions: the sum of
   * `log((M + 1) / (N + S))`, with the logarithm passed in as `log`.
   */
  function LogScore(log: real -> real, counts: map<string, nat>, uniq: nat, s: string, k: nat, j: nat): real
    requires Trainable(s, k) && j <= |s| && (j == 0 || uniq > 0)
  {
    if j == 0 then 0.0
    else
      var (m, n) := Evidence(counts, s, k, j - 1);
      LogScore(log, counts, uniq, s, k, j - 1) + log(Ratio(m, n, uniq))
  }

  /**
   * With the counts of a nonempty training text and its alphabet size, every ratio the
   * score takes a logarithm of lies in (0, 1]: M <= N, and S >= 1.
   */
  lemma RatioBounds(text: string, k: nat, s: string, i: nat)
    requires Trainable(text, k) && |text| > 0 && Trainable(s, k) && i < |s|
    ensures var (m, n) := Evidence(Tally(text, k, |text|), s, k, i);
            && m <= n && UniqueChars(text) >= 1
            && 0.0 < Ratio(m, n, UniqueChars(text)) <= 1.0
  {
    var w := KPlus1String(s, k, i);
    PrefixBound(text, k, |text|, w);
    UniqueCharsBounds(text);
    var (m, n) := Evidence(Tally(text, k, |text|), s, k, i);
    RatioAtMostOne(m, n, UniqueChars(text));
  }

  lemma RatioAtMostOne(m: nat, n: nat, uniq: nat)
    requires m <= n && uniq >= 1
    ensures 0.0 < Ratio(m, n, uniq) <= 1.0
  {
    var d := (n + uniq) as real;
    var q := (m + 1) as real / d;
    assert q * d == (m + 1) as real;
    assert (m + 1) as real <= d;
  }

  /** Two models that give every query position the same ratio give the query the same score. */
  lemma {:induction false} ScoresAgree(log: real -> real, counts1: map<string, nat>, uniq1: nat,
                                       counts2: map<string, nat>, uniq2: nat, s: string, k: nat, j: nat)
    requires Trainable(s, k) && j <= |s| && uniq1 > 0 && uniq2 > 0
    requires forall i | 0 <= i < j ::
               Ratio(Evidence(counts1, s, k, i).0, Evidence(counts1, s, k, i).1, uniq1)
               == Ratio(Evidence(counts2, s, k, i).0, Evidence(counts2, s, k, i).1, uniq2)
    ensures LogScore(log, counts1, uniq1, s, k, j) == LogScore(log, counts2, uniq2, s, k, j)
  {
    if j > 0 {
      ScoresAgree(log, counts1, uniq1, counts2, uniq2, s, k, j - 1);
    }
  }

  /** The two answers of `identify_speaker`, the strings "A" and "B". */
  datatype Label = A | B

  /** Lines 95-98: "A" exactly when the first normalized score is strictly greater. */
  function Speaker(normal1: real, normal2: real): (speaker: Label)
    ensures speaker == A <==> normal1 > normal2
  {
    if normal1 > normal2 then A else B
  }

  /**
   * Training on "aaaa" and on "bbbb" with k = 1 and scoring "aaaa": every ratio is
   * (4 + 1) / (4 + 1) under the first model and (0 + 1) / (0 + 1) under the second, so
   * whatever the logarithm the two scores are equal.
   */
  lemma ScenarioScores(log: real -> real, speech1: string, speech2: string, speech3: string)
    requires speech1 == "aaaa" && speech2 == "bbbb" && speech3 == "aaaa"
    ensures UniqueChars(speech1) == 1 && UniqueChars(speech2) == 1
    ensures LogScore(log, Tally(speech1, 1, 4), 1, speech3, 1, 4) == LogScore(log, Tally(speech2, 1, 4), 1, speech3, 1, 4)
  {
    ScenarioAlphabets();
    var a, b := Tally(speech1, 1, 4), Tally(speech2, 1, 4);
    TallyOfRepeat(speech1, 'a');
    TallyOfRepeat(speech2, 'b');
    forall i | 0 <= i < 4
      ensures Ratio(Evidence(a, speech3, 1, i).0, Evidence(a, speech3, 1, i).1, 1)
              == Ratio(Evidence(b, speech3, 1, i).0, Evidence(b, speech3, 1, i).1, 1)
    {
      ScenarioEvidence(a, b, speech3, i);
    }
    ScoresAgree(log, a, 1, b, 1, speech3, 1, 4);
  }

  /**
   * In the scenario above the normalized scores tie, and the strict comparison of lines
   * 95-98 then selects "B", not "A".
   */
  lemma SpeakerScenario(log: real -> real, speech1: string, speech2: string, speech3: string)
    returns (normal1: real, normal2: real)
    requires speech1 == "aaaa" && speech2 == "bbbb" && speech3 == "aaaa"
    ensures normal1 == LogScore(log, Tally(speech1, 1, 4), 1, speech3, 1, 4) / 4.0
    ensures normal2 == LogScore(log, Tally(speech2, 1, 4), 1, speech3, 1, 4) / 4.0
    ensures Speaker(normal1, normal2) == B
  {
    ScenarioScores(log, speech1, speech2, speech3);
    normal1 := LogScore(log, Tally(speech1, 1, 4), 1, speech3, 1, 4) / 4.0;
    normal2 := LogScore(log, Tally(speech2, 1, 4), 1, speech3, 1, 4) / 4.0;
    TieGoesToB(normal1);
  }

  /** A tie is not strictly greater, so it selects "B". */
  lemma TieGoesToB(x: real)
    ensures Speaker(x, x) == B
  {
  }

  lemma ScenarioAlphabets()
    ensures UniqueChars("aaaa") == 1 && UniqueChars("bbbb") == 1
  {
    assert (set c | c in "aaaa") == {'a'};
    assert (set c | c in "bbbb") == {'b'};
  }

  /** Each position of the query "aaaa" has M = N = 4 under "aaaa" and M = N = 0 under "bbbb". */
  lemma ScenarioEvidence(a: map<string, nat>, b: map<string, nat>, query: string, i: nat)
    requires a == map["a" := 4, "aa" := 4] && b == map["b" := 4, "bb" := 4]
    requires query == "aaaa" && i < 4
    ensures Evidence(a, query, 1, i) == (4, 4)
    ensures Evidence(b, query, 1, i) == (0, 0)
    ensures Ratio(4, 4, 1) == 1.0 == Ratio(0, 0, 1)
  {
    RepeatWindows(query, 'a', i);
  }

  /** In a text of four equal characters every window of k = 1 is that character, and every (k+1)-window it twice. */
  lemma RepeatWindows(text: string, c: char, i: nat)
    requires text == [c, c, c, c] && i < 4
    ensures KString(text, 1, i) == [c] && KPlus1String(text, 1, i) == [c, c]
  {
    var e := Extended(text, 1);
    assert e == [c, c, c, c, c];
    assert e[i] == c && e[i + 1] == c;
    assert e[i..i + 1] == [e[i]];
  }

  /** Training on four equal characters with k = 1 counts the character 4 times and its pair 4 times. */
  lemma TallyOfRepeat(text: string, c: char)
    requires text == [c, c, c, c]
    ensures Tally(text, 1, 4) == map[[c] := 4, [c, c] := 4]
  {
    forall i | 0 <= i < 4
      ensures KString(text, 1, i) == [c] && KPlus1String(text, 1, i) == [c, c]
    {
      RepeatWindows(text, c, i);
    }
    var one, two := [c], [c, c];
    assert one != two;
    assert Tally(text, 1, 1) == map[one := 1, two := 1];
    assert Tally(text, 1, 2) == map[one := 2, two := 2];
    assert Tally(text, 1, 3) == map[one := 3, two := 3];
  }
}
