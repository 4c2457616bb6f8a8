/** Reranking search results with path penalties and decaying scores for further chunks of the
    same file, and why the loop may stop early. Models Penalties.RerankTopK (Penalties.cs:85-158);
    scores are exact reals. */
module Reranking {

  datatype Chunk = Chunk(id: nat, filePath: string)

  datatype Scored = Scored(chunk: Chunk, score: real)

  const FILE_SATURATION_THRESHOLD: nat := 1
  const FILE_SATURATION_DECAY: real := 0.5

  // ---- The stable sort, highest score first ----

  function Insert(sorted: seq<Scored>, x: Scored): seq<Scored> {
    if sorted == [] || sorted[|sorted| - 1].score >= x.score then sorted + [x]
    else Insert(sorted[..|sorted| - 1], x) + [sorted[|sorted| - 1]]
  }

  function Sort(s: seq<Scored>): seq<Scored> {
    if s == [] then [] else Insert(Sort(s[..|s| - 1]), s[|s| - 1])
  }

  predicate Descending(s: seq<Scored>) {
    forall i, j :: 0 <= i < j < |s| ==> s[i].score >= s[j].score
  }

  function WithScore(s: seq<Scored>, score: real): seq<Scored> {
    if s == [] then []
    else WithScore(s[..|s| - 1], score) + if s[|s| - 1].score == score then [s[|s| - 1]] else []
  }

  lemma {:induction false} WithScoreSnoc(s: seq<Scored>, x: Scored, score: real)
    ensures WithScore(s + [x], score) == WithScore(s, score) + if x.score == score then [x] else []
  {
    assert (s + [x])[..|s|] == s;
  }

  lemma {:induction false} InsertSorts(sorted: seq<Scored>, x: Scored)
    requires Descending(sorted)
    ensures Descending(Insert(sorted, x))
    decreases |sorted|
  {
    if sorted != [] && sorted[|sorted| - 1].score < x.score {
      var init, last := sorted[..|sorted| - 1], sorted[|sorted| - 1];
      InsertSorts(init, x);
      InsertedFrom(init, x);
      forall i | 0 <= i < |Insert(init, x)|
        ensures Insert(init, x)[i].score >= last.score
      {
        assert Insert(init, x)[i] in init || Insert(init, x)[i] == x;
      }
    }
  }

  lemma {:induction false} InsertPermutes(sorted: seq<Scored>, x: Scored)
    ensures multiset(Insert(sorted, x)) == multiset(sorted) + multiset{x}
    decreases |sorted|
  {
    if sorted != [] && sorted[|sorted| - 1].score < x.score {
      InsertPermutes(sorted[..|sorted| - 1], x);
      assert sorted == sorted[..|sorted| - 1] + [sorted[|sorted| - 1]];
    }
  }

  lemma {:induction false} InsertIsStable(sorted: seq<Scored>, x: Scored, score: real)
    ensures WithScore(Insert(sorted, x), score) == WithScore(sorted, score) + if x.score == score then [x] else []
    decreases |sorted|
  {
    if sorted == [] || sorted[|sorted| - 1].score >= x.score {
      WithScoreSnoc(sorted, x, score);
    } else {
      var init, last := sorted[..|sorted| - 1], sorted[|sorted| - 1];
      InsertIsStable(init, x, score);
      WithScoreSnoc(Insert(init, x), last, score);
    }
  }

  lemma {:induction false} InsertedFrom(sorted: seq<Scored>, x: Scored)
    ensures |Insert(sorted, x)| == |sorted| + 1
    ensures forall y :: y in Insert(sorted, x) <==> y in sorted || y == x
    decreases |sorted|
  {
    if sorted != [] && sorted[|sorted| - 1].score < x.score {
      InsertedFrom(sorted[..|sorted| - 1], x);
      assert sorted == sorted[..|sorted| - 1] + [sorted[|sorted| - 1]];
    }
  }

  lemma {:induction false} SortSorts(s: seq<Scored>)
    ensures Descending(Sort(s)) && |Sort(s)| == |s|
    decreases |s|
  {
    if s != [] {
      SortSorts(s[..|s| - 1]);
      InsertSorts(Sort(s[..|s| - 1]), s[|s| - 1]);
      InsertedFrom(Sort(s[..|s| - 1]), s[|s| - 1]);
    }
  }

  lemma {:induction false} SortPermutes(s: seq<Scored>)
    ensures multiset(Sort(s)) == multiset(s)
    decreases |s|
  {
    if s != [] {
      var init, last := s[..|s| - 1], s[|s| - 1];
      SortPermutes(init);
      InsertPermutes(Sort(init), last);
      assert s == init + [last];
    }
  }

  lemma {:induction false} SortKeepsTies(s: seq<Scored>, score: real)
    ensures WithScore(Sort(s), score) == WithScore(s, score)
    decreases |s|
  {
    if s != [] {
      SortKeepsTies(s[..|s| - 1], score);
      InsertIsStable(Sort(s[..|s| - 1]), s[|s| - 1], score);
    }
  }

  /** The sort is a sort: descending, a permutation, and stable. */
  lemma SortIsStable(s: seq<Scored>)
    ensures Descending(Sort(s)) && multiset(Sort(s)) == multiset(s) && |Sort(s)| == |s|
    ensures forall score :: WithScore(Sort(s), score) == WithScore(s, score)
  {
    SortSorts(s);
    SortPermutes(s);
    forall score
      ensures WithScore(Sort(s), score) == WithScore(s, score)
    {
      SortKeepsTies(s, score);
    }
  }

  ghost predicate BelowFirst(x: Scored, s: seq<Scored>, m: nat) {
    m <= |s| && forall i :: 0 <= i < m ==> x.score <= s[i].score
  }

  /** Something that scores no higher than the first `m` goes behind them. */
  lemma {:induction false} InsertGoesBehind(sorted: seq<Scored>, x: Scored, m: nat)
    requires BelowFirst(x, sorted, m)
    ensures |Insert(sorted, x)| == |sorted| + 1 && Insert(sorted, x)[..m] == sorted[..m]
    decreases |sorted|
  {
    if sorted != [] && sorted[|sorted| - 1].score < x.score {
      InsertGoesBehind(sorted[..|sorted| - 1], x, m);
      assert sorted[..|sorted| - 1][..m] == sorted[..m];
    }
  }

  lemma SortedIsSelected(selected: seq<Scored>, x: Scored)
    requires BelowFirst(x, selected, |selected|)
    ensures BelowFirst(x, Sort(selected), |selected|)
  {
    SortIsStable(selected);
    forall i | 0 <= i < |selected|
      ensures x.score <= Sort(selected)[i].score
    {
      assert Sort(selected)[i] in multiset(Sort(selected)) && Sort(selected)[i] in selected;
    }
  }

  ghost predicate NoneAbove(late: seq<Scored>, selected: seq<Scored>) {
    forall j :: 0 <= j < |late| ==> BelowFirst(late[j], selected, |selected|)
  }

  lemma SortSnoc(s: seq<Scored>, x: Scored)
    ensures Sort(s + [x]) == Insert(Sort(s), x)
  {
    assert (s + [x])[..|s|] == s;
  }

  lemma OneMoreLate(selected: seq<Scored>, init: seq<Scored>, x: Scored)
    requires BelowFirst(x, selected, |selected|) && |Sort(selected)| == |selected|
    requires |Sort(selected + init)| == |selected| + |init| && Sort(selected + init)[..|selected|] == Sort(selected)
    ensures |Sort(selected + init + [x])| == |selected| + |init| + 1
    ensures Sort(selected + init + [x])[..|selected|] == Sort(selected)
  {
    SortedIsSelected(selected, x);
    BelowCopied(x, Sort(selected), Sort(selected + init), |selected|);
    InsertGoesBehind(Sort(selected + init), x, |selected|);
    SortSnoc(selected + init, x);
  }

  /** Candidates that score no higher than everything selected change nothing at the top. */
  lemma {:induction false} LateOnesDoNotMatter(selected: seq<Scored>, late: seq<Scored>)
    requires NoneAbove(late, selected)
    ensures |Sort(selected + late)| == |selected| + |late| && |Sort(selected)| == |selected|
    ensures Sort(selected + late)[..|selected|] == Sort(selected)
    decreases |late|
  {
    if late == [] {
      SortIsStable(selected);
      assert selected + late == selected;
      var sorted := Sort(selected);
      assert sorted[..|selected|] == sorted;
    } else {
      var init, x := late[..|late| - 1], late[|late| - 1];
      assert NoneAbove(init, selected) by {
        assert forall j :: 0 <= j < |init| ==> init[j] == late[j];
      }
      LateOnesDoNotMatter(selected, init);
      OneMoreLate(selected, init, x);
      assert selected + init + [x] == selected + late;
    }
  }

  lemma BelowCopied(x: Scored, s: seq<Scored>, t: seq<Scored>, m: nat)
    requires m <= |t| && t[..m] == s && BelowFirst(x, s, m)
    ensures BelowFirst(x, t, m)
  {
    assert forall i :: 0 <= i < m ==> t[i] == s[i];
  }

  // ---- Scores ----

  function Power(base: real, exponent: nat): real {
    if exponent == 0 then 1.0 else base * Power(base, exponent - 1)
  }

  lemma {:induction false} DecayShrinks(exponent: nat)
    ensures 0.0 <= Power(FILE_SATURATION_DECAY, exponent) <= 1.0
  {
    if exponent > 0 {
      DecayShrinks(exponent - 1);
    }
  }

  lemma ScaledShrinks(score: real, factor: real)
    requires score >= 0.0 && 0.0 <= factor <= 1.0
    ensures 0.0 <= score * factor <= score
  {
    assert score * factor >= 0.0;
    assert score * (1.0 - factor) >= 0.0;
    assert score * (1.0 - factor) == score - score * factor;
  }

  lemma ScaledRises(score: real, factor: real)
    requires score <= 0.0 && 0.0 <= factor <= 1.0
    ensures score <= score * factor
  {
    assert score * (1.0 - factor) <= 0.0;
    assert score * (1.0 - factor) == score - score * factor;
  }

  function Penalised(scores: seq<Scored>, penalise: bool, penalty: string -> real): (result: seq<Scored>)
    ensures |result| == |scores|
    ensures forall i :: 0 <= i < |scores| ==> result[i] == Scored(scores[i].chunk,
              if penalise then scores[i].score * penalty(scores[i].chunk.filePath) else scores[i].score)
  {
    seq(|scores|, i requires 0 <= i < |scores| => Scored(scores[i].chunk,
      if penalise then scores[i].score * penalty(scores[i].chunk.filePath) else scores[i].score))
  }

  function CountFile(ranked: seq<Scored>, filePath: string): nat {
    if ranked == [] then 0
    else CountFile(ranked[..|ranked| - 1], filePath) + if ranked[|ranked| - 1].chunk.filePath == filePath then 1 else 0
  }

  /** The score of a chunk that has `already` better ones from the same file before it. */
  function Decayed(score: real, already: nat): real {
    if already >= FILE_SATURATION_THRESHOLD then
      score * Power(FILE_SATURATION_DECAY, already - FILE_SATURATION_THRESHOLD + 1)
    else score
  }

  /** Every ranked chunk with its decayed score. */
  function AllDecayed(ranked: seq<Scored>): (all: seq<Scored>)
    ensures |all| == |ranked|
  {
    if ranked == [] then []
    else
      var init, last := ranked[..|ranked| - 1], ranked[|ranked| - 1];
      AllDecayed(init) + [Scored(last.chunk, Decayed(last.score, CountFile(init, last.chunk.filePath)))]
  }

  lemma {:induction false} AllDecayedPrefix(ranked: seq<Scored>, n: nat)
    requires n <= |ranked|
    ensures AllDecayed(ranked)[..n] == AllDecayed(ranked[..n])
    decreases |ranked|
  {
    if n == |ranked| {
      assert ranked[..n] == ranked;
    } else {
      AllDecayedPrefix(ranked[..|ranked| - 1], n);
      assert ranked[..|ranked| - 1][..n] == ranked[..n];
    }
  }

  lemma DecayedIsLower(score: real, already: nat)
    requires score >= 0.0
    ensures Decayed(score, already) <= score
  {
    if already >= FILE_SATURATION_THRESHOLD {
      DecayShrinks(already - FILE_SATURATION_THRESHOLD + 1);
      ScaledShrinks(score, Power(FILE_SATURATION_DECAY, already - FILE_SATURATION_THRESHOLD + 1));
    }
  }

  lemma {:induction false} AllDecayedAt(ranked: seq<Scored>, i: nat)
    requires i < |ranked|
    ensures AllDecayed(ranked)[i] ==
            Scored(ranked[i].chunk, Decayed(ranked[i].score, CountFile(ranked[..i], ranked[i].chunk.filePath)))
    decreases |ranked|
  {
    var init := ranked[..|ranked| - 1];
    if i < |init| {
      AllDecayedAt(init, i);
      assert init[..i] == ranked[..i];
    }
  }

  ghost predicate NonNegative(s: seq<Scored>) {
    forall i :: 0 <= i < |s| ==> s[i].score >= 0.0
  }

  function Top(sorted: seq<Scored>, k: int): seq<Scored> {
    if k <= 0 then [] else if k < |sorted| then sorted[..k] else sorted
  }

  /** The result without an early exit: every ranked chunk is scored. */
  function Reranked(scores: seq<Scored>, topK: int, penalise: bool, penalty: string -> real): seq<Scored> {
    Top(Sort(AllDecayed(Sort(Penalised(scores, penalise, penalty)))), topK)
  }

  function MinScore(s: seq<Scored>): real
    requires s != []
  {
    if |s| == 1 || s[|s| - 1].score <= MinScore(s[..|s| - 1]) then s[|s| - 1].score else MinScore(s[..|s| - 1])
  }

  lemma {:induction false} MinScoreBelow(s: seq<Scored>, i: nat)
    requires i < |s|
    ensures MinScore(s) <= s[i].score
    decreases |s|
  {
    if i < |s| - 1 {
      MinScoreBelow(s[..|s| - 1], i);
    }
  }

  ghost predicate StaysBelow(ranked: seq<Scored>, all: seq<Scored>, i: nat, j: nat) {
    i < j < |ranked| == |all| && ranked[j].score < 0.0 ==> all[j].score <= all[i].score
  }

  /** No negative score is lifted by decay above what an earlier chunk got. */
  ghost predicate NegativesStayBelow(ranked: seq<Scored>) {
    var all := AllDecayed(ranked);
    forall i: nat, j: nat {:trigger StaysBelow(ranked, all, i, j)} :: StaysBelow(ranked, all, i, j)
  }

  lemma NonNegativesStayBelow(ranked: seq<Scored>)
    requires NonNegative(ranked)
    ensures NegativesStayBelow(ranked)
  {
  }

  lemma LateScoreDecays(ranked: seq<Scored>, n: nat, j: nat)
    requires Descending(ranked) && n <= j < |ranked| && ranked[j].score >= 0.0
    ensures AllDecayed(ranked)[j].score <= ranked[n].score
  {
    AllDecayedAt(ranked, j);
    DecayedIsLower(ranked[j].score, CountFile(ranked[..j], ranked[j].chunk.filePath));
    assert ranked[j].score <= ranked[n].score;
  }

  lemma LateScoreIsLow(ranked: seq<Scored>, n: nat, i: nat, j: nat)
    requires Descending(ranked) && NegativesStayBelow(ranked) && i < n <= j < |ranked|
    requires ranked[n].score <= MinScore(AllDecayed(ranked)[..n])
    ensures AllDecayed(ranked)[j].score <= AllDecayed(ranked)[i].score
  {
    var all := AllDecayed(ranked);
    if ranked[j].score >= 0.0 {
      LateScoreDecays(ranked, n, j);
      MinScoreBelow(all[..n], i);
    } else {
      assert StaysBelow(ranked, all, i, j);
    }
  }

  lemma TopOfSorted(s: seq<Scored>, t: seq<Scored>, k: int)
    requires |t| <= |s| && s[..|t|] == t && k <= |t|
    ensures Top(s, k) == Top(t, k)
  {
  }

  lemma TopWithoutLate(all: seq<Scored>, n: nat, topK: int)
    requires n <= |all| && topK <= n && NoneAbove(all[n..], all[..n])
    ensures Top(Sort(all[..n]), topK) == Top(Sort(all), topK)
  {
    LateOnesDoNotMatter(all[..n], all[n..]);
    assert all[..n] + all[n..] == all;
    TopOfSorted(Sort(all), Sort(all[..n]), topK);
  }

  /** Once enough are selected and the next one scores no higher than any of them, even before it
      decays, the rest can be left out. */
  lemma StoppingIsLossless(ranked: seq<Scored>, n: nat, topK: int)
    requires Descending(ranked) && NegativesStayBelow(ranked) && n < |ranked| && MayStop(ranked, topK, n)
    ensures Top(Sort(AllDecayed(ranked[..n])), topK) == Top(Sort(AllDecayed(ranked)), topK)
  {
    if topK > 0 {
      AllDecayedPrefix(ranked, n);
      LateIsBelow(ranked, n);
      TopWithoutLate(AllDecayed(ranked), n, topK);
    }
  }

  predicate Lower(all: seq<Scored>, i: nat, j: nat) {
    i < |all| && j < |all| && all[j].score <= all[i].score
  }

  lemma NoneAboveFrom(all: seq<Scored>, n: nat)
    requires n <= |all| && forall i, j :: 0 <= i < n <= j < |all| ==> Lower(all, i, j)
    ensures NoneAbove(all[n..], all[..n])
  {
    forall j | 0 <= j < |all| - n
      ensures BelowFirst(all[n..][j], all[..n], n)
    {
      forall i | 0 <= i < n
        ensures all[n..][j].score <= all[..n][i].score
      {
        assert Lower(all, i, n + j);
      }
    }
  }

  lemma LateIsBelow(ranked: seq<Scored>, n: nat)
    requires Descending(ranked) && NegativesStayBelow(ranked) && 0 < n < |ranked|
    requires ranked[n].score <= MinScore(AllDecayed(ranked)[..n])
    ensures NoneAbove(AllDecayed(ranked)[n..], AllDecayed(ranked)[..n])
  {
    var all := AllDecayed(ranked);
    forall i, j | 0 <= i < n <= j < |all|
      ensures Lower(all, i, j)
    {
      LateScoreIsLow(ranked, n, i, j);
    }
    NoneAboveFrom(all, n);
  }

  /** Before anything is selected the minimum is infinite. */
  predicate MayStop(ranked: seq<Scored>, topK: int, n: nat)
    requires n < |ranked|
  {
    n >= topK && (n == 0 || ranked[n].score <= MinScore(AllDecayed(ranked[..n])))
  }

  /** How many chunks the loop selects, once it has selected `n`. */
  function StopFrom(ranked: seq<Scored>, topK: int, n: nat): (stop: nat)
    requires n <= |ranked|
    ensures n <= stop <= |ranked|
    decreases |ranked| - n
  {
    if n == |ranked| || MayStop(ranked, topK, n) then n else StopFrom(ranked, topK, n + 1)
  }

  /** The top of what the loop selects. */
  function EarlyTop(ranked: seq<Scored>, topK: int): seq<Scored> {
    Top(Sort(AllDecayed(ranked[..StopFrom(ranked, topK, 0)])), topK)
  }

  function FullTop(ranked: seq<Scored>, topK: int): seq<Scored> {
    Top(Sort(AllDecayed(ranked)), topK)
  }

  lemma {:induction false} StopsForAReason(ranked: seq<Scored>, topK: int, n: nat)
    requires n <= |ranked|
    ensures StopFrom(ranked, topK, n) < |ranked| ==> MayStop(ranked, topK, StopFrom(ranked, topK, n))
    decreases |ranked| - n
  {
    if n < |ranked| && !MayStop(ranked, topK, n) {
      StopsForAReason(ranked, topK, n + 1);
    }
  }

  lemma {:induction false} StopsAt(ranked: seq<Scored>, topK: int, n: nat, j: nat)
    requires n <= j < |ranked| && j <= topK && MayStop(ranked, topK, j)
    ensures StopFrom(ranked, topK, n) == j
    decreases j - n
  {
    if n < j {
      StopsAt(ranked, topK, n + 1, j);
    }
  }

  /** Decay lifts a negative score towards zero, and makes none negative. */
  lemma DecayedIsAbove(score: real, bound: real, already: nat)
    requires bound < 0.0 && bound <= score
    ensures bound <= Decayed(score, already)
  {
    if already >= FILE_SATURATION_THRESHOLD {
      var factor := Power(FILE_SATURATION_DECAY, already - FILE_SATURATION_THRESHOLD + 1);
      DecayShrinks(already - FILE_SATURATION_THRESHOLD + 1);
      assert Decayed(score, already) == score * factor;
      if score >= 0.0 {
        ScaledShrinks(score, factor);
      } else {
        ScaledRises(score, factor);
      }
    }
  }

  lemma {:induction false} MinScoreAbove(s: seq<Scored>, bound: real)
    requires s != [] && forall i :: 0 <= i < |s| ==> bound <= s[i].score
    ensures bound <= MinScore(s)
    decreases |s|
  {
    if |s| > 1 {
      MinScoreAbove(s[..|s| - 1], bound);
    }
  }

  /** A negative score is never above the minimum of what was selected before it. */
  lemma NegativeMayStop(ranked: seq<Scored>, j: nat)
    requires Descending(ranked) && 0 < j < |ranked| && ranked[j].score < 0.0
    ensures MayStop(ranked, j, j)
  {
    var selected := AllDecayed(ranked[..j]);
    AllDecayedPrefix(ranked, j);
    forall k | 0 <= k < j
      ensures ranked[j].score <= selected[k].score
    {
      assert selected[k] == AllDecayed(ranked)[k];
      AllDecayedAt(ranked, k);
      DecayedIsAbove(ranked[k].score, ranked[j].score, CountFile(ranked[..k], ranked[k].chunk.filePath));
    }
    MinScoreAbove(selected, ranked[j].score);
  }

  lemma Occurs(s: seq<Scored>, t: seq<Scored>, x: Scored) returns (a: nat)
    requires multiset(s) == multiset(t) && x in t
    ensures a < |s| && s[a] == x
  {
    assert x in multiset(t);
    a :| a < |s| && s[a] == x;
  }

  lemma RestPermutes(s: seq<Scored>, t: seq<Scored>, n: nat)
    requires n <= |s| && n <= |t| && multiset(s) == multiset(t) && multiset(s[..n]) == multiset(t[..n])
    ensures multiset(s[n..]) == multiset(t[n..])
  {
    assert s == s[..n] + s[n..] && t == t[..n] + t[n..];
    assert multiset(s[n..]) == multiset(s) - multiset(s[..n]);
    assert multiset(t[n..]) == multiset(t) - multiset(t[..n]);
  }

  lemma DescendsTo(s: seq<Scored>, n: nat, a: nat, b: nat)
    requires Descending(s) && n <= |s| && a < n && b < |s| - n
    ensures s[..n][a].score >= s[n..][b].score
  {
    assert s[..n][a] == s[a] && s[n..][b] == s[n + b];
  }

  /** If the top `n` are the first `n`, no later one is above any of them. */
  lemma FirstAreTop(all: seq<Scored>, sorted: seq<Scored>, n: nat, i: nat, j: nat)
    requires i < n <= j < |all| == |sorted| && Descending(sorted) && multiset(sorted) == multiset(all)
    requires multiset(sorted[..n]) == multiset(all[..n])
    ensures all[j].score <= all[i].score
  {
    RestPermutes(sorted, all, n);
    assert all[..n][i] == all[i] && all[n..][j - n] == all[j];
    var a := Occurs(sorted[..n], all[..n], all[i]);
    var b := Occurs(sorted[n..], all[n..], all[j]);
    DescendsTo(sorted, n, a, b);
  }

  lemma LosslessTop(all: seq<Scored>, n: nat)
    requires n < |all| && Top(Sort(all[..n]), n) == Top(Sort(all), n)
    ensures Descending(Sort(all)) && multiset(Sort(all)) == multiset(all) && |Sort(all)| == |all|
    ensures multiset(Sort(all)[..n]) == multiset(all[..n])
  {
    SortSorts(all);
    SortPermutes(all);
    SortSorts(all[..n]);
    SortPermutes(all[..n]);
    if n == 0 {
      assert Sort(all)[..n] == all[..n];
    } else {
      assert Sort(all)[..n] == Sort(all[..n]);
    }
  }

  lemma LosslessStaysBelow(ranked: seq<Scored>, i: nat, j: nat)
    requires Descending(ranked) && i < j < |ranked| && ranked[j].score < 0.0
    requires EarlyTop(ranked, j) == FullTop(ranked, j)
    ensures AllDecayed(ranked)[j].score <= AllDecayed(ranked)[i].score
  {
    NegativeMayStop(ranked, j);
    StopsAt(ranked, j, 0, j);
    AllDecayedPrefix(ranked, j);
    LosslessTop(AllDecayed(ranked), j);
    FirstAreTop(AllDecayed(ranked), Sort(AllDecayed(ranked)), j, i, j);
  }

  lemma EarlyIsFull(ranked: seq<Scored>, topK: int)
    requires Descending(ranked) && NegativesStayBelow(ranked)
    ensures EarlyTop(ranked, topK) == FullTop(ranked, topK)
  {
    var stop := StopFrom(ranked, topK, 0);
    StopsForAReason(ranked, topK, 0);
    if stop < |ranked| {
      StoppingIsLossless(ranked, stop, topK);
    } else {
      assert ranked[..stop] == ranked;
    }
  }

  /** Whether or not the loop stops early makes no difference, however many are asked for, exactly
      if no chunk with a negative score decays to above an earlier one. */
  lemma EarlyExitIsLosslessIff(ranked: seq<Scored>)
    requires Descending(ranked)
    ensures (forall topK :: EarlyTop(ranked, topK) == FullTop(ranked, topK)) <==> NegativesStayBelow(ranked)
  {
    if NegativesStayBelow(ranked) {
      forall topK
        ensures EarlyTop(ranked, topK) == FullTop(ranked, topK)
      {
        EarlyIsFull(ranked, topK);
      }
    }
    if forall topK :: EarlyTop(ranked, topK) == FullTop(ranked, topK) {
      var all := AllDecayed(ranked);
      forall i: nat, j: nat
        ensures StaysBelow(ranked, all, i, j)
      {
        if i < j < |ranked| && ranked[j].score < 0.0 {
          assert EarlyTop(ranked, j) == FullTop(ranked, j);
          LosslessStaysBelow(ranked, i, j);
        }
      }
    }
  }

  /** With negative scores, which decay towards zero, the early exit can lose the best chunk. */
  lemma NegativeScoresAreLost(a: Chunk, b: Chunk)
    requires a.filePath == b.filePath
    ensures var ranked := [Scored(a, -2.0), Scored(b, -3.0)];
            && Descending(ranked) && ranked[1].score <= MinScore(AllDecayed(ranked[..1]))
            && Top(Sort(AllDecayed(ranked[..1])), 1) == [Scored(a, -2.0)]
            && Top(Sort(AllDecayed(ranked)), 1) == [Scored(b, -1.5)]
  {
    var x, y := Scored(a, -2.0), Scored(b, -3.0);
    var ranked := [x, y];
    var decayed := Scored(b, -1.5);
    assert ranked[..1] == [x] && [x][..0] == [] && CountFile([], a.filePath) == 0;
    assert AllDecayed([x]) == [x];
    assert CountFile([x], b.filePath) == 1;
    assert Power(FILE_SATURATION_DECAY, 1) == 0.5 * Power(FILE_SATURATION_DECAY, 0) == 0.5;
    assert AllDecayed(ranked) == [x, decayed];
    assert [x, decayed][..1] == [x];
    assert Sort([x]) == [x] by {
      assert Sort([]) == [] && Insert([], x) == [x];
    }
    assert Insert([x], decayed) == Insert([], decayed) + [x] == [decayed, x];
    assert Sort([x, decayed]) == [decayed, x];
  }

  lemma OneMoreRanked(ranked: seq<Scored>, n: nat)
    requires n < |ranked|
    ensures var chunk := ranked[n].chunk;
            && AllDecayed(ranked[..n + 1]) == AllDecayed(ranked[..n]) +
                 [Scored(chunk, Decayed(ranked[n].score, CountFile(ranked[..n], chunk.filePath)))]
            && forall path :: CountFile(ranked[..n + 1], path) ==
                 CountFile(ranked[..n], path) + if chunk.filePath == path then 1 else 0
  {
    assert ranked[..n + 1][..n] == ranked[..n];
  }

  /** With scores that are not negative the result is that of scoring every chunk. */
  lemma NonNegativesAreReranked(scores: seq<Scored>, penalise: bool, penalty: string -> real, topK: int)
    requires NonNegative(scores) && forall path :: penalty(path) >= 0.0
    ensures EarlyTop(Sort(Penalised(scores, penalise, penalty)), topK) == Reranked(scores, topK, penalise, penalty)
  {
    var penalised := Penalised(scores, penalise, penalty);
    forall i | 0 <= i < |scores|
      ensures penalised[i].score >= 0.0
    {
      ScaledIsNonNegative(scores[i].score, penalty(scores[i].chunk.filePath));
    }
    SortIsStable(penalised);
    var ranked := Sort(penalised);
    forall i | 0 <= i < |ranked|
      ensures ranked[i].score >= 0.0
    {
      assert ranked[i] in multiset(ranked) && ranked[i] in penalised;
    }
    NonNegativesStayBelow(ranked);
    EarlyIsFull(ranked, topK);
  }

  lemma ScaledIsNonNegative(score: real, factor: real)
    requires score >= 0.0 && factor >= 0.0
    ensures score * factor >= 0.0
  {
  }

  // ---- The method ----

  class Reranker {
    var penaltyCache: map<string, real>
    var fileSelected: map<string, nat>
    var selected: seq<Scored>

    constructor () {
      penaltyCache, fileSelected, selected := map[], map[], [];
    }

    /** Applies the path penalty, computed once for each file. */
    method Penalise(scores: seq<Scored>, penalise: bool, penalty: string -> real) returns (penalised: seq<Scored>)
      modifies this`penaltyCache
      ensures penalised == Penalised(scores, penalise, penalty)
    {
      penaltyCache, penalised := map[], [];
      for i := 0 to |scores|
        invariant forall path :: path in penaltyCache ==> penaltyCache[path] == penalty(path)
        invariant |penalised| == i && forall k :: 0 <= k < i ==> penalised[k] == Penalised(scores, penalise, penalty)[k]
      {
        var chunk, score := scores[i].chunk, scores[i].score;
        if penalise {
          if chunk.filePath !in penaltyCache {
            penaltyCache := penaltyCache[chunk.filePath := penalty(chunk.filePath)];
          }
          penalised := penalised + [Scored(chunk, score * penaltyCache[chunk.filePath])];
        } else {
          penalised := penalised + [Scored(chunk, score)];
        }
      }
    }

    /** Scores chunk after chunk until no later one seems to make it into the top. */
    method Select(ranked: seq<Scored>, topK: int)
      modifies this`fileSelected, this`selected
      ensures selected == AllDecayed(ranked[..StopFrom(ranked, topK, 0)])
    {
      fileSelected, selected := map[], [];
      var minSelected := 0.0;
      var n := 0;
      while n < |ranked|
        invariant n <= |ranked| && selected == AllDecayed(ranked[..n])
        invariant StopFrom(ranked, topK, n) == StopFrom(ranked, topK, 0)
        invariant forall path :: Selected(path) == CountFile(ranked[..n], path)
        invariant n > 0 && n >= topK ==> minSelected == MinScore(selected)
      {
        var chunk, penScore := ranked[n].chunk, ranked[n].score;
        // Before anything is selected the minimum is infinite.
        if |selected| >= topK && (selected == [] || penScore <= minSelected) {
          return;
        }
        OneMoreRanked(ranked, n);
        SelectOne(chunk, penScore);
        if |selected| >= topK {
          minSelected := MinScore(selected);
        }
        n := n + 1;
      }
    }

    function Selected(path: string): nat
      reads this`fileSelected
    {
      if path in fileSelected then fileSelected[path] else 0
    }

    /** Selects one chunk with the score left after decay. */
    method SelectOne(chunk: Chunk, penScore: real)
      modifies this`fileSelected, this`selected
      ensures selected == old(selected) + [Scored(chunk, Decayed(penScore, old(Selected(chunk.filePath))))]
      ensures forall path :: Selected(path) == old(Selected(path)) + if path == chunk.filePath then 1 else 0
    {
      var already := Selected(chunk.filePath);
      var effScore := penScore;
      if already >= FILE_SATURATION_THRESHOLD {
        var excess := already - FILE_SATURATION_THRESHOLD + 1;
        effScore := effScore * Power(FILE_SATURATION_DECAY, excess);
      }
      assert effScore == Decayed(penScore, already);
      selected := selected + [Scored(chunk, effScore)];
      fileSelected := fileSelected[chunk.filePath := already + 1];
    }

    /** The top `topK` of the chunks selected, best first; of all chunks, exactly as if each had been
        scored, unless decay lifts a negative score above an earlier one. */
    method RerankTopK(scores: seq<Scored>, topK: int, penalise: bool, penalty: string -> real)
      returns (top: seq<Scored>)
      modifies this
      ensures top == EarlyTop(Sort(Penalised(scores, penalise, penalty)), topK)
      ensures NegativesStayBelow(Sort(Penalised(scores, penalise, penalty))) ==>
                top == Reranked(scores, topK, penalise, penalty)
    {
      if scores == [] {
        assert Penalised(scores, penalise, penalty) == [];
        return [];
      }
      var penalised := Penalise(scores, penalise, penalty);
      var ranked := Sort(penalised);
      SortIsStable(penalised);
      Select(ranked, topK);
      top := Top(Sort(selected), topK);
      if NegativesStayBelow(ranked) {
        EarlyIsFull(ranked, topK);
      }
    }
  }
}
