/**
 The question recommender: given the animals still in play, pick the
 (trait, value) question whose yes/no split is closest to even.
 */
module Recommender {
  import opened Wrappers
  import opened JsObject
  import opened AttributeTable

  /** "Does the animal have `value` for `traitName`?" — one key of the score table. */
  datatype Question = Question(traitName: string, value: string)

  /** The descriptive traits (highlight, trivia, taxonomic group) that never become questions. */
  const DescriptiveTraits: set<string> := {"ลักษณะเด่น", "สาระน่ารู้", PhylumTrait}

  predicate Excluded(t: string) {
    t in DescriptiveTraits
  }

  /** Absolute value, as `Math.abs` on the small integers the recommender works with. */
  function Abs(x: int): (r: nat)
    ensures r == x || r == -x
  {
    if x < 0 then -x else x
  }

  /** The yes/no split difference `|yes - (n - yes)|`. */
  function Difference(n: int, yes: int): nat {
    Abs(yes - (n - yes))
  }

  /** `animal` answers yes to `q` in `data` (animal -> trait -> value). */
  predicate Has(data: Table, animal: string, q: Question) {
    animal in data.entries && data.entries[animal].Get(q.traitName) == Some(q.value)
  }

  /** How many entries of `cands` answer yes to `q`; repeated entries count again. */
  ghost function Count(cands: seq<string>, data: Table, q: Question): (c: nat)
    ensures c <= |cands|
  {
    if |cands| == 0 then 0
    else Count(cands[..|cands| - 1], data, q) + (if Has(data, cands[|cands| - 1], q) then 1 else 0)
  }

  /** `q` is a question the score table holds: a non-descriptive pair some candidate has. */
  ghost predicate Counted(cands: seq<string>, data: Table, q: Question) {
    !Excluded(q.traitName) && Count(cands, data, q) > 0
  }

  /** The split difference of `q` over `cands`. */
  ghost function Split(cands: seq<string>, data: Table, q: Question): nat {
    Difference(|cands|, Count(cands, data, q))
  }

  /** How often `x` occurs in `s`. */
  ghost function Occurrences<T>(s: seq<T>, x: T): nat {
    if |s| == 0 then 0
    else Occurrences(s[..|s| - 1], x) + (if s[|s| - 1] == x then 1 else 0)
  }

  /** `s` with every repeat of an earlier element dropped, keeping first-occurrence order. */
  ghost function Dedup<T>(s: seq<T>): seq<T> {
    if |s| == 0 then []
    else
      var d := Dedup(s[..|s| - 1]);
      if s[|s| - 1] in d then d else d + [s[|s| - 1]]
  }

  /** The questions one row contributes, visiting the traits `ts` in order. */
  ghost function RowQuestions(row: Row, ts: seq<string>): seq<Question> {
    if |ts| == 0 then []
    else
      var rest := RowQuestions(row, ts[..|ts| - 1]);
      var t := ts[|ts| - 1];
      if t in row.entries && !Excluded(t) then rest + [Question(t, row.entries[t])] else rest
  }

  /** Every question met while scanning `cands`, in scanning order, repeats included.
      A candidate missing from `data` contributes nothing. */
  ghost function Encountered(cands: seq<string>, data: Table): seq<Question> {
    if |cands| == 0 then []
    else
      var a := cands[|cands| - 1];
      Encountered(cands[..|cands| - 1], data)
        + (if a in data.entries then RowQuestions(data.entries[a], data.entries[a].order) else [])
  }

  /** The score table's keys in iteration order: each question at its first encounter. */
  ghost function Keys(cands: seq<string>, data: Table): seq<Question> {
    Dedup(Encountered(cands, data))
  }

  lemma {:induction false} OccurrencesAppend<T>(a: seq<T>, b: seq<T>, x: T)
    ensures Occurrences(a + b, x) == Occurrences(a, x) + Occurrences(b, x)
  {
    if |b| > 0 {
      OccurrencesAppend(a, b[..|b| - 1], x);
      assert (a + b)[..|a + b| - 1] == a + b[..|b| - 1];
    } else {
      assert a + b == a;
    }
  }

  lemma {:induction false} OccurrencesMembership<T>(s: seq<T>, x: T)
    ensures x in s <==> Occurrences(s, x) > 0
  {
    if |s| > 0 {
      OccurrencesMembership(s[..|s| - 1], x);
      assert s == s[..|s| - 1] + [s[|s| - 1]];
    }
  }

  /** A row with distinct traits asks each of its non-descriptive (trait, value) pairs once. */
  lemma {:induction false} RowQuestionsOccurrences(row: Row, ts: seq<string>, q: Question)
    requires forall i, j :: 0 <= i < j < |ts| ==> ts[i] != ts[j]
    ensures Occurrences(RowQuestions(row, ts), q) ==
      if q.traitName in ts && !Excluded(q.traitName) && row.Get(q.traitName) == Some(q.value) then 1 else 0
  {
    if |ts| > 0 {
      var init := ts[..|ts| - 1];
      var t := ts[|ts| - 1];
      RowQuestionsOccurrences(row, init, q);
      assert ts == init + [t];
      assert t !in init;
      if t in row.entries && !Excluded(t) {
        OccurrencesAppend(RowQuestions(row, init), [Question(t, row.entries[t])], q);
      }
    }
  }

  /** Each non-descriptive question is encountered once per candidate that has it. */
  lemma {:induction false} EncounteredOccurrences(cands: seq<string>, data: Table, q: Question)
    requires WellFormed(data)
    ensures Occurrences(Encountered(cands, data), q) == if Excluded(q.traitName) then 0 else Count(cands, data, q)
  {
    if |cands| > 0 {
      var init := cands[..|cands| - 1];
      var a := cands[|cands| - 1];
      EncounteredOccurrences(init, data, q);
      var contribution := if a in data.entries then RowQuestions(data.entries[a], data.entries[a].order) else [];
      OccurrencesAppend(Encountered(init, data), contribution, q);
      if a in data.entries {
        RowQuestionsOccurrences(data.entries[a], data.entries[a].order, q);
      }
    }
  }

  /** The encountered questions are exactly the counted ones. */
  lemma EncounteredAreCounted(cands: seq<string>, data: Table, q: Question)
    requires WellFormed(data)
    ensures q in Encountered(cands, data) <==> Counted(cands, data, q)
  {
    EncounteredOccurrences(cands, data, q);
    OccurrencesMembership(Encountered(cands, data), q);
  }

  lemma {:induction false} DedupMembership<T>(s: seq<T>)
    ensures forall x :: x in Dedup(s) <==> x in s
    ensures forall i, j :: 0 <= i < j < |Dedup(s)| ==> Dedup(s)[i] != Dedup(s)[j]
  {
    if |s| > 0 {
      DedupMembership(s[..|s| - 1]);
      assert s == s[..|s| - 1] + [s[|s| - 1]];
    }
  }

  /** `scores` is the score table after scanning the questions `seen`:
      its keys are the distinct questions in first-occurrence order, each mapped to how often it occurs. */
  ghost predicate Tallies(scores: Obj<Question, nat>, seen: seq<Question>) {
    && scores.Valid()
    && scores.order == Dedup(seen)
    && (forall q :: q in scores.entries <==> q in seen)
    && (forall q :: q in scores.entries ==> scores.entries[q] == Occurrences(seen, q))
  }

  /** One more candidate holds `q`: its score goes up by one, starting from zero for a key not yet in the table. */
  function Bump(scores: Obj<Question, nat>, q: Question): (r: Obj<Question, nat>)
    requires scores.Valid()
    ensures r.Valid()
  {
    var count := if q in scores.entries then scores.entries[q] else 0;
    scores.Put(q, count + 1)
  }

  /** Bumping a question keeps the score table in step with the questions scanned. */
  lemma BumpTallies(scores: Obj<Question, nat>, seen: seq<Question>, q: Question)
    requires Tallies(scores, seen)
    ensures Tallies(Bump(scores, q), seen + [q])
  {
    OccurrencesMembership(seen, q);
    assert (seen + [q])[..|seen|] == seen;
  }

  /** The inner loop of the tally: one candidate's non-descriptive traits, in the row's order. */
  method TallyRow(scores: Obj<Question, nat>, ghost seen: seq<Question>, row: Row) returns (tally: Obj<Question, nat>)
    requires Tallies(scores, seen)
    requires row.Valid()
    ensures Tallies(tally, seen + RowQuestions(row, row.order))
  {
    tally := scores;
    assert seen + RowQuestions(row, row.order[..0]) == seen;
    for j := 0 to |row.order|
      invariant Tallies(tally, seen + RowQuestions(row, row.order[..j]))
    {
      var t := row.order[j];
      assert row.order[..j + 1][..j] == row.order[..j];
      ghost var done := seen + RowQuestions(row, row.order[..j]);
      if !Excluded(t) {
        var q := Question(t, row.entries[t]);
        BumpTallies(tally, done, q);
        tally := Bump(tally, q);
        assert seen + RowQuestions(row, row.order[..j + 1]) == done + [q];
      } else {
        assert seen + RowQuestions(row, row.order[..j + 1]) == done;
      }
    }
    assert row.order[..|row.order|] == row.order;
  }

  /**
   The first loop of the recommender: tally, for every (trait, value) pair
   met on a candidate, how many candidates carry it. Descriptive traits are
   skipped; a candidate missing from `data` is skipped.
   */
  method TallyTraits(cands: seq<string>, data: Table) returns (scores: Obj<Question, nat>)
    requires WellFormed(data)
    ensures scores.Valid()
    ensures scores.order == Keys(cands, data)
    ensures forall q :: q in scores.entries <==> Counted(cands, data, q)
    ensures forall q :: q in scores.entries ==> scores.entries[q] == Count(cands, data, q)
  {
    scores := Empty();
    for i := 0 to |cands|
      invariant Tallies(scores, Encountered(cands[..i], data))
    {
      var animal := cands[i];
      assert cands[..i + 1][..i] == cands[..i];
      if animal in data.entries {
        var row := data.entries[animal];
        scores := TallyRow(scores, Encountered(cands[..i], data), row);
        assert Encountered(cands[..i + 1], data) == Encountered(cands[..i], data) + RowQuestions(row, row.order);
      } else {
        assert Encountered(cands[..i + 1], data) == Encountered(cands[..i], data);
      }
    }
    assert cands[..|cands|] == cands;
    forall q
      ensures q in scores.entries <==> Counted(cands, data, q)
      ensures q in scores.entries ==> scores.entries[q] == Count(cands, data, q)
    {
      EncounteredOccurrences(cands, data, q);
      EncounteredAreCounted(cands, data, q);
    }
  }

  /** The split difference of the `k`-th key of the score table, over `n` candidates. */
  ghost function KeySplit(scores: Obj<Question, nat>, n: int, k: int): nat
    requires scores.Valid() && 0 <= k < |scores.order|
  {
    Difference(n, scores.entries[scores.order[k]])
  }

  /**
   The `k`-th key beats the starting bound `n`, no key splits more evenly,
   and every earlier key splits strictly less evenly.
   */
  ghost predicate FirstBest(scores: Obj<Question, nat>, n: int, k: int)
    requires scores.Valid() && 0 <= k < |scores.order|
  {
    && KeySplit(scores, n, k) < n
    && (forall j :: 0 <= j < |scores.order| ==> KeySplit(scores, n, j) >= KeySplit(scores, n, k))
    && (forall j :: 0 <= j < k ==> KeySplit(scores, n, j) > KeySplit(scores, n, k))
  }

  /**
   The second loop of the recommender: walk the score table in key order,
   starting from the bound `n`, and keep each key that splits strictly more
   evenly than the best so far.
   */
  method PickQuestion(scores: Obj<Question, nat>, n: nat) returns (best: Option<Question>)
    requires scores.Valid()
    ensures best.None? <==> forall j :: 0 <= j < |scores.order| ==> KeySplit(scores, n, j) >= n
    ensures best.Some? ==> exists k :: 0 <= k < |scores.order| && scores.order[k] == best.value && FirstBest(scores, n, k)
  {
    best := None;
    var minDifference := n;
    ghost var bestAt := 0;
    for i := 0 to |scores.order|
      invariant best.None? ==> minDifference == n && forall j :: 0 <= j < i ==> KeySplit(scores, n, j) >= n
      invariant best.Some? ==> 0 <= bestAt < i && scores.order[bestAt] == best.value
      invariant best.Some? ==> minDifference == KeySplit(scores, n, bestAt) < n
      invariant best.Some? ==> forall j :: 0 <= j < i ==> KeySplit(scores, n, j) >= minDifference
      invariant best.Some? ==> forall j :: 0 <= j < bestAt ==> KeySplit(scores, n, j) > minDifference
    {
      var key := scores.order[i];
      var yesCount := scores.entries[key];
      var noCount := n - yesCount;
      var difference := Abs(yesCount - noCount);
      if difference < minDifference {
        minDifference := difference;
        best := Some(key);
        bestAt := i;
      }
    }
  }

  /** `q` is the `k`-th score-table key, and every earlier key splits strictly less evenly. */
  ghost predicate FirstAmongEquals(cands: seq<string>, data: Table, q: Question, k: int) {
    var keys := Keys(cands, data);
    && 0 <= k < |keys| && keys[k] == q
    && forall j :: 0 <= j < k ==> Split(cands, data, keys[j]) > Split(cands, data, q)
  }

  /**
   What `recommendQuestion` promises of its result `r` for the candidates
   `cands` (repeats allowed) over the table `data`:
   - a returned question is a counted pair: not descriptive, held by some candidate;
   - no counted pair splits the candidates more evenly;
   - among equally even pairs it is the first in score-table key order;
   - there is no question exactly when every counted pair is held by every candidate.
   */
  ghost predicate Recommends(cands: seq<string>, data: Table, r: Option<Question>) {
    && (r.Some? ==> Counted(cands, data, r.value))
    && (r.Some? ==> forall q :: Counted(cands, data, q) ==> Split(cands, data, q) >= Split(cands, data, r.value))
    && (r.Some? ==> exists k :: FirstAmongEquals(cands, data, r.value, k))
    && (r.None? <==> forall q :: Counted(cands, data, q) ==> Count(cands, data, q) == |cands|)
  }

  /** A pair that splits the `n` candidates more evenly than `n` is held by some but not all of them. */
  lemma EvenerThanBoundIsNonTrivial(n: int, yes: int)
    requires 0 <= yes <= n
    ensures Difference(n, yes) < n <==> 0 < yes < n
  {
  }

  /** `recommendQuestion(remainingAnimals)` over the transposed table `data`. */
  method RecommendQuestion(cands: seq<string>, data: Table) returns (r: Option<Question>)
    requires WellFormed(data)
    ensures Recommends(cands, data, r)
    ensures |cands| <= 1 ==> r.None?
  {
    var scores := TallyTraits(cands, data);
    r := PickQuestion(scores, |cands|);
    ghost var keys := Keys(cands, data);
    DedupMembership(Encountered(cands, data));
    forall q | Counted(cands, data, q)
      ensures exists j :: 0 <= j < |keys| && keys[j] == q
    {
      assert q in scores.entries;
    }
    if r.Some? {
      ghost var k :| 0 <= k < |keys| && keys[k] == r.value && FirstBest(scores, |cands|, k);
      forall q | Counted(cands, data, q)
        ensures Split(cands, data, q) >= Split(cands, data, r.value)
      {
        var j :| 0 <= j < |keys| && keys[j] == q;
        assert KeySplit(scores, |cands|, j) >= KeySplit(scores, |cands|, k);
      }
      forall j | 0 <= j < k
        ensures Split(cands, data, keys[j]) > Split(cands, data, r.value)
      {
        assert KeySplit(scores, |cands|, j) > KeySplit(scores, |cands|, k);
      }
      assert FirstAmongEquals(cands, data, r.value, k);
      EvenerThanBoundIsNonTrivial(|cands|, Count(cands, data, r.value));
      assert exists q :: Counted(cands, data, q) && Count(cands, data, q) != |cands|;
      assert Recommends(cands, data, r);
      ChosenSplitIsNonTrivial(cands, data, r);
    } else {
      forall q | Counted(cands, data, q)
        ensures Count(cands, data, q) == |cands|
      {
        var j :| 0 <= j < |keys| && keys[j] == q;
        assert KeySplit(scores, |cands|, j) >= |cands|;
        EvenerThanBoundIsNonTrivial(|cands|, Count(cands, data, q));
      }
    }
  }

  /** The recommendation is determined by its inputs: at most one result meets `Recommends`. */
  lemma RecommendationIsUnique(cands: seq<string>, data: Table, r1: Option<Question>, r2: Option<Question>)
    requires Recommends(cands, data, r1) && Recommends(cands, data, r2)
    ensures r1 == r2
  {
    if r1.Some? && r2.Some? {
      var keys := Keys(cands, data);
      var k1 :| FirstAmongEquals(cands, data, r1.value, k1);
      var k2 :| FirstAmongEquals(cands, data, r2.value, k2);
      // Each is at least as even as the other, so neither key comes strictly first.
      assert Split(cands, data, keys[k1]) <= Split(cands, data, r2.value);
      assert Split(cands, data, keys[k2]) <= Split(cands, data, r1.value);
      assert k1 == k2;
    }
  }

  /**
   The specification alone forces a non-trivial split: a recommended question is
   held by at least one candidate and missed by at least one. So a pair every
   candidate shares is never recommended, and one or no candidate gets no question.
   */
  lemma ChosenSplitIsNonTrivial(cands: seq<string>, data: Table, r: Option<Question>)
    requires Recommends(cands, data, r)
    ensures r.Some? ==> 0 < Count(cands, data, r.value) < |cands|
    ensures |cands| <= 1 ==> r.None?
  {
    if r.Some? {
      var q :| Counted(cands, data, q) && Count(cands, data, q) != |cands|;
      EvenerThanBoundIsNonTrivial(|cands|, Count(cands, data, q));
      EvenerThanBoundIsNonTrivial(|cands|, Count(cands, data, r.value));
    }
  }

  /** Over a transposed table, an animal answers yes exactly when the trait-first data records that value for it. */
  lemma TransposedAnswers(raw: Table, data: Table, animal: string, q: Question)
    requires forall a :: a in data.entries ==> IsRowOf(raw, a, data.entries[a])
    ensures Has(data, animal, q) <==> animal in data.entries && Lookup(raw, q.traitName, animal) == Some(q.value)
  {
  }
}
