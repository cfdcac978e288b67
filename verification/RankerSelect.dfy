/** The ranking and the selectors of ranker.go, which must agree on the winner. */
module RankerSelect {
  import opened Wrappers
  import opened Outcomes
  import opened RankerOrder
  import opened RankerAssess
  import RankerSort
  import Text

  datatype RankingResult = RankingResult(winner: Option<CandidateResult>, candidates: seq<CandidateResult>)

  datatype Selection = Selection(id: string, name: string, score: real)

  datatype FallbackResult = FallbackResult(primary: Option<CandidateResult>, fallbacks: seq<CandidateResult>)

  // ---------- what is selected ----------

  ghost predicate AllEvaluateAlike(r: Ranker, cs: seq<Candidate>) {
    forall k :: 0 <= k < |cs| ==> EvaluatesAlike(r, cs[k])
  }

  /** The evaluator of a candidate's conditions on the native or on the interpreted path. */
  function EvaluatorOn(r: Ranker, c: Candidate, native: bool): Evaluator {
    if native then NativeEvaluator(r, c) else c.interpreted
  }

  /** The assessment of every candidate on one path, in request order; none after an evaluation error. */
  function Assessments(r: Ranker, cs: seq<Candidate>, native: bool): (s: Option<seq<CandidateResult>>)
    ensures s.Some? ==> |s.value| == |cs|
  {
    if cs == [] then Some([])
    else
      var front := Assessments(r, cs[..|cs| - 1], native);
      var last := Assessed(r, cs[|cs| - 1], EvaluatorOn(r, cs[|cs| - 1], native));
      if front.None? || last.None? then None else Some(front.value + [last.value])
  }

  lemma {:induction false} AssessmentsTake(r: Ranker, cs: seq<Candidate>, native: bool, n: nat)
    requires n <= |cs|
    ensures Assessments(r, cs[..n], native).None? ==> Assessments(r, cs, native).None?
    ensures Assessments(r, cs, native).Some? ==>
              Assessments(r, cs[..n], native) == Some(Assessments(r, cs, native).value[..n])
  {
    if n < |cs| {
      assert cs[..|cs| - 1][..n] == cs[..n];
      AssessmentsTake(r, cs[..|cs| - 1], native, n);
      if Assessments(r, cs, native).Some? {
        assert Assessments(r, cs, native).value[..n] == Assessments(r, cs[..|cs| - 1], native).value[..n];
      }
    } else {
      assert cs[..n] == cs;
      if Assessments(r, cs, native).Some? {
        assert Assessments(r, cs, native).value[..n] == Assessments(r, cs, native).value;
      }
    }
  }

  /** `w` is eligible and no eligible entry is listed before it. */
  ghost predicate Best(s: seq<CandidateResult>, w: CandidateResult) {
    w in s && w.eligible && forall o :: o in s && o.eligible ==> Le(w, o)
  }

  ghost predicate AnyEligible(s: seq<CandidateResult>) {
    exists o :: o in s && o.eligible
  }

  /** Two best entries carry the same ID, score and keys, so it does not matter which one a selector found.
      Distinct IDs are not needed. */
  lemma BestUnique(s: seq<CandidateResult>, w: CandidateResult, v: CandidateResult)
    requires Best(s, w) && Best(s, v)
    ensures SameKeys(w, v)
  {
    BetterTotal(w, v);
  }

  /** The first entry of a sorted ranking is the winner if anything is eligible. */
  lemma SortedFirst(s: seq<CandidateResult>)
    requires RankerSort.SortedRange(s, 0, |s|)
    ensures AnyEligible(s) <==> s != [] && s[0].eligible
    ensures AnyEligible(s) ==> Best(s, s[0])
  {
    if AnyEligible(s) {
      var o :| o in s && o.eligible;
      var k :| 0 <= k < |s| && s[k] == o;
      assert k == 0 || Le(s[0], s[k]);
      BetterIrreflexive(s[0]);
      forall o | o in s && o.eligible
        ensures Le(s[0], o)
      {
        var k :| 0 <= k < |s| && s[k] == o;
      }
    }
  }

  /** `betterSelection`, the order on cached keys. */
  predicate BetterSelection(aID: string, aScore: real, a: Compare, bID: string, bScore: real, b: Compare) {
    if a.priority != b.priority then a.priority > b.priority
    else if a.specificity != b.specificity then a.specificity > b.specificity
    else if aScore != bScore then aScore > bScore
    else if a.cost != b.cost then a.cost < b.cost
    else if a.fallback != b.fallback then a.fallback < b.fallback
    else Text.Less(aID, bID)
  }

  ghost predicate HasKeys(w: CandidateResult, id: string, score: real, cmp: Compare) {
    w.eligible && w.id == id && w.score == score
    && w.priority == cmp.priority && w.specificity == cmp.specificity && w.fallback == cmp.fallback
        && w.cost == cmp.cost
  }

  /** On eligible candidates the two hand-written comparators are the same order. */
  lemma BetterSelectionIsBetter(x: CandidateResult, xID: string, xScore: real, xc: Compare,
                                y: CandidateResult, yID: string, yScore: real, yc: Compare)
    requires HasKeys(x, xID, xScore, xc) && HasKeys(y, yID, yScore, yc)
    ensures BetterSelection(xID, xScore, xc, yID, yScore, yc) == Better(x, y)
  {
  }

  /** The running choice over the entries seen so far. */
  ghost predicate Running(s: seq<CandidateResult>, best: Option<CandidateResult>) {
    match best
    case None => !AnyEligible(s)
    case Some(w) => Best(s, w)
  }

  ghost function Next(best: Option<CandidateResult>, x: CandidateResult): Option<CandidateResult> {
    if x.eligible && (best.None? || Better(x, best.value)) then Some(x) else best
  }

  lemma RunningStep(s: seq<CandidateResult>, best: Option<CandidateResult>, x: CandidateResult)
    requires Running(s, best)
    ensures Running(s + [x], Next(best, x))
  {
    BetterIrreflexive(x);
    if best.Some? && Better(x, best.value) {
      forall o | o in s && o.eligible
        ensures Le(x, o)
      {
        BetterAsymmetric(x, best.value);
        LeTransitive(x, best.value, o);
      }
    }
  }

  /** One more assessed candidate extends the assessments by one entry. */
  lemma AssessmentsStep(r: Ranker, cs: seq<Candidate>, native: bool, i: nat, cr: Option<CandidateResult>)
    requires i < |cs| && Assessments(r, cs[..i], native).Some?
    requires cr == Assessed(r, cs[i], EvaluatorOn(r, cs[i], native))
    ensures cr.None? ==> Assessments(r, cs, native).None?
    ensures cr.Some? ==> Assessments(r, cs[..i + 1], native) == Some(Assessments(r, cs[..i], native).value + [cr.value])
  {
    assert cs[..i + 1][..i] == cs[..i];
    AssessmentsTake(r, cs, native, i + 1);
  }

  // ---------- what the assessments mean ----------

  ghost predicate SomeErrs(r: Ranker, cs: seq<Candidate>, native: bool) {
    exists k :: 0 <= k < |cs| && Errs(r, cs[k], EvaluatorOn(r, cs[k], native))
  }

  ghost predicate SomeEligible(r: Ranker, cs: seq<Candidate>, native: bool) {
    exists k :: 0 <= k < |cs| && IsEligible(r, cs[k], EvaluatorOn(r, cs[k], native))
  }

  /** There are assessments unless some candidate errs, and each describes its candidate. */
  lemma {:induction false} AssessmentsExactly(r: Ranker, cs: seq<Candidate>, native: bool)
    ensures Assessments(r, cs, native).None? <==> SomeErrs(r, cs, native)
    ensures Assessments(r, cs, native).Some? ==>
              forall k :: 0 <= k < |cs| ==>
                            Describes(r, cs[k], EvaluatorOn(r, cs[k], native), Assessments(r, cs, native).value[k])
  {
    hide Errs, Describes, Assessed, EvaluatorOn;
    if cs != [] {
      var n := |cs| - 1;
      AssessmentsExactly(r, cs[..n], native);
      AssessedExactly(r, cs[n], EvaluatorOn(r, cs[n], native));
      if SomeErrs(r, cs[..n], native) {
        var k :| 0 <= k < n && Errs(r, cs[..n][k], EvaluatorOn(r, cs[..n][k], native));
        assert Errs(r, cs[k], EvaluatorOn(r, cs[k], native));
      }
      if SomeErrs(r, cs, native) && !Errs(r, cs[n], EvaluatorOn(r, cs[n], native)) {
        var k :| 0 <= k < |cs| && Errs(r, cs[k], EvaluatorOn(r, cs[k], native));
        assert cs[..n][k] == cs[k];
      }
    }
  }

  /** A selector's choice: none if no candidate is eligible, else the entry of an eligible candidate that no eligible
      candidate's entry beats, key by key. */
  lemma BestExactly(r: Ranker, cs: seq<Candidate>, native: bool, best: Option<CandidateResult>)
    requires Assessments(r, cs, native).Some? && Running(Assessments(r, cs, native).value, best)
    ensures best.Some? <==> SomeEligible(r, cs, native)
    ensures best.Some? ==>
              var w := best.value;
              && w.eligible && (exists k :: 0 <= k < |cs| && Describes(r, cs[k], EvaluatorOn(r, cs[k], native), w))
              && forall o :: o in Assessments(r, cs, native).value && o.eligible ==>
                               && w.priority >= o.priority
                               && (w.priority == o.priority ==> w.specificity >= o.specificity)
                               && (w.priority == o.priority && w.specificity == o.specificity ==> w.score >= o.score)
  {
    hide Describes, Assessments, EvaluatorOn, Le, IsEligible;
    AssessmentsExactly(r, cs, native);
    var s := Assessments(r, cs, native).value;
    forall k | 0 <= k < |cs|
      ensures s[k].eligible <==> IsEligible(r, cs[k], EvaluatorOn(r, cs[k], native))
    {
      DescribedEligible(r, cs[k], EvaluatorOn(r, cs[k], native), s[k]);
    }
    if SomeEligible(r, cs, native) {
      var k :| 0 <= k < |cs| && IsEligible(r, cs[k], EvaluatorOn(r, cs[k], native));
      assert s[k] in s;
    }
    if best.Some? {
      var k :| 0 <= k < |s| && s[k] == best.value;
      assert Describes(r, cs[k], EvaluatorOn(r, cs[k], native), best.value);
      forall o | o in s && o.eligible
        ensures Le(best.value, o)
      {
      }
      BestKeys(s, best.value);
    }
  }

  lemma DescribedEligible(r: Ranker, c: Candidate, ev: Evaluator, cr: CandidateResult)
    requires Describes(r, c, ev, cr)
    ensures cr.eligible <==> IsEligible(r, c, ev)
  {
  }

  lemma BestKeys(s: seq<CandidateResult>, w: CandidateResult)
    requires Best(s, w)
    ensures forall o :: o in s && o.eligible ==>
                          && w.priority >= o.priority
                          && (w.priority == o.priority ==> w.specificity >= o.specificity)
                          && (w.priority == o.priority && w.specificity == o.specificity ==> w.score >= o.score)
  {
    forall o | o in s && o.eligible
      ensures && w.priority >= o.priority
              && (w.priority == o.priority ==> w.specificity >= o.specificity)
              && (w.priority == o.priority && w.specificity == o.specificity ==> w.score >= o.score)
    {
      LeByKeys(w, o);
    }
  }

  // ---------- the code ----------

  /** `ranked` lists exactly the assessments, in order, and `winner` is its first eligible entry. */
  ghost predicate Ranking(s: seq<CandidateResult>, ranked: seq<CandidateResult>, winner: Option<CandidateResult>) {
    && multiset(ranked) == multiset(s)
    && RankerSort.SortedRange(ranked, 0, |ranked|)
    && Running(s, winner)
    && (winner.Some? ==> ranked != [] && winner.value == ranked[0])
  }

  lemma RankingFromSorted(s: seq<CandidateResult>, ranked: seq<CandidateResult>)
    requires multiset(ranked) == multiset(s) && RankerSort.SortedRange(ranked, 0, |ranked|)
    ensures Ranking(s, ranked, if |ranked| > 0 && ranked[0].eligible then Some(ranked[0]) else None)
  {
    SortedFirst(ranked);
    forall o ensures o in s <==> o in ranked {
      assert o in s <==> o in multiset(s);
      assert o in ranked <==> o in multiset(ranked);
    }
  }

  method RankInto(r: Ranker, cs: seq<Candidate>) returns (out: Option<RankingResult>)
    ensures out.None? <==> Assessments(r, cs, AllNative(r)).None?
    ensures out.Some? ==> Ranking(Assessments(r, cs, AllNative(r)).value, out.value.candidates, out.value.winner)
    ensures out.None? <==> SomeErrs(r, cs, AllNative(r))
    ensures out.Some? ==> (out.value.winner.Some? <==> SomeEligible(r, cs, AllNative(r)))
  {
    AssessmentsExactly(r, cs, AllNative(r));
    hide SomeErrs, SomeEligible, Describes;
    var blank := CandidateResult("", "", false, 0.0, 0.0, 0.0, 0.0, 0.0);
    var canRankNative := CanRankNative(r);
    var results := new CandidateResult[|cs|](_ => blank);
    for i := 0 to |cs|
      invariant Assessments(r, cs[..i], canRankNative) == Some(results[..i])
    {
      var cr := RankCandidateInto(r, cs[i], EvaluatorOn(r, cs[i], canRankNative));
      AssessmentsStep(r, cs, canRankNative, i, cr);
      if cr.None? {
        return None;
      }
      results[i] := cr.value;
      assert results[..i + 1] == results[..i] + [results[i]];
    }
    assert cs[..|cs|] == cs;
    assert results[..|cs|] == results[..];
    RankerSort.SortCandidateResults(results);
    var candidates := results[..];
    RankingFromSorted(Assessments(r, cs, canRankNative).value, candidates);
    var winner := if |candidates| > 0 && candidates[0].eligible then Some(candidates[0]) else None;
    BestExactly(r, cs, canRankNative, winner);
    out := Some(RankingResult(winner, candidates));
  }

  method SelectBestInto(r: Ranker, cs: seq<Candidate>)
    returns (err: bool, best: Option<CandidateResult>)
    ensures err <==> Assessments(r, cs, AllNative(r)).None?
    ensures !err ==> Running(Assessments(r, cs, AllNative(r)).value, best)
    ensures err <==> SomeErrs(r, cs, AllNative(r))
    ensures !err ==> (best.Some? <==> SomeEligible(r, cs, AllNative(r)))
  {
    AssessmentsExactly(r, cs, AllNative(r));
    hide SomeErrs, SomeEligible, Describes;
    err, best := false, None;
    var canRankNative := CanRankNative(r);
    for i := 0 to |cs|
      invariant Assessments(r, cs[..i], canRankNative).Some?
                && Running(Assessments(r, cs[..i], canRankNative).value, best)
    {
      var current := RankCandidateInto(r, cs[i], EvaluatorOn(r, cs[i], canRankNative));
      AssessmentsStep(r, cs, canRankNative, i, current);
      if current.None? {
        return true, None;
      }
      RunningStep(Assessments(r, cs[..i], canRankNative).value, best, current.value);
      if !current.value.eligible {
        continue;
      }
      if best.None? || Better(current.value, best.value) {
        best := current;
      }
    }
    assert cs[..|cs|] == cs;
    BestExactly(r, cs, canRankNative, best);
  }

  /** A selection shows the ID, name and score of an entry. */
  ghost predicate Shows(sel: Option<Selection>, cmp: Compare, w: Option<CandidateResult>) {
    && (sel.Some? <==> w.Some?)
    && (sel.Some? ==> HasKeys(w.value, sel.value.id, sel.value.score, cmp) && sel.value.name == w.value.name)
  }

  /** `w` is the entry the selection came from. */
  method SelectBestID(r: Ranker, cs: seq<Candidate>)
    returns (err: bool, best: Option<Selection>, ghost w: Option<CandidateResult>)
    ensures err <==> Assessments(r, cs, true).None?
    ensures !err ==> Running(Assessments(r, cs, true).value, w)
    ensures !err ==> best == if w.Some? then Some(Selection(w.value.id, w.value.name, w.value.score)) else None
    ensures err <==> SomeErrs(r, cs, true)
    ensures !err ==> (best.Some? <==> SomeEligible(r, cs, true))
  {
    AssessmentsExactly(r, cs, true);
    hide SomeErrs, SomeEligible, Describes, IsEligible, Errs, FullScore;
    err, best, w := false, None, None;
    var bestCmp := Compare(0.0, 0.0, 0.0, 0.0, false, false);
    for i := 0 to |cs|
      invariant Assessments(r, cs[..i], true).Some? && Running(Assessments(r, cs[..i], true).value, w)
      invariant Shows(best, bestCmp, w)
    {
      var score, cmp, out := RankCandidateNative(r, cs[i]);
      ghost var x := Assessed(r, cs[i], EvaluatorOn(r, cs[i], true));
      AssessmentsStep(r, cs, true, i, x);
      if out == Error {
        return true, None, None;
      }
      RunningStep(Assessments(r, cs[..i], true).value, w, x.value);
      if out == Fails {
        continue;
      }
      assert HasKeys(x.value, cs[i].id, score, cmp);
      if best.Some? {
        BetterSelectionIsBetter(x.value, cs[i].id, score, cmp, w.value, best.value.id, best.value.score, bestCmp);
      }
      if best.None? || BetterSelection(cs[i].id, score, cmp, best.value.id, best.value.score, bestCmp) {
        best := Some(Selection(cs[i].id, cs[i].name, score));
        bestCmp := cmp;
        w := x;
      }
    }
    assert cs[..|cs|] == cs;
    BestExactly(r, cs, true, w);
  }

  /** Entries of a ranking that are eligible and not the primary's. */
  function OtherEligible(s: seq<CandidateResult>, primary: Option<CandidateResult>): seq<CandidateResult> {
    if s == [] then []
    else
      var front := OtherEligible(s[..|s| - 1], primary);
      var x := s[|s| - 1];
      if x.eligible && (primary.None? || x.id != primary.value.id) then front + [x] else front
  }

  /** The loop of `SelectFallbacks`; a limit of zero or less means no limit. */
  method CollectFallbacks(candidates: seq<CandidateResult>, primary: Option<CandidateResult>, limit0: int)
    returns (fallbacks: seq<CandidateResult>)
    ensures var all := OtherEligible(candidates, primary);
            fallbacks == if 0 < limit0 < |all| then all[..limit0] else all
  {
    var limit := if limit0 <= 0 then |candidates| else limit0;
    fallbacks := [];
    OtherEligibleTake(candidates, primary, |candidates|);
    var i := 0;
    while i < |candidates| && |fallbacks| < limit
      invariant i <= |candidates| && |fallbacks| <= limit
      invariant fallbacks == OtherEligible(candidates[..i], primary)
    {
      assert candidates[..i + 1][..i] == candidates[..i];
      if candidates[i].eligible && (primary.None? || candidates[i].id != primary.value.id) {
        fallbacks := fallbacks + [candidates[i]];
      }
      i := i + 1;
    }
    OtherEligibleTake(candidates, primary, i);
    assert candidates[..|candidates|] == candidates;
  }

  method SelectFallbacks(r: Ranker, cs: seq<Candidate>, limit: int)
    returns (out: Option<FallbackResult>, ghost ranked: seq<CandidateResult>)
    ensures out.None? <==> Assessments(r, cs, AllNative(r)).None?
    ensures out.Some? ==> Ranking(Assessments(r, cs, AllNative(r)).value, ranked, out.value.primary)
    ensures out.Some? ==>
              var all := OtherEligible(ranked, out.value.primary);
              out.value.fallbacks == if 0 < limit < |all| then all[..limit] else all
  {
    var res := RankInto(r, cs);
    if res.None? {
      return None, [];
    }
    ranked := res.value.candidates;
    var fallbacks := CollectFallbacks(res.value.candidates, res.value.winner, limit);
    out := Some(FallbackResult(res.value.winner, fallbacks));
  }

  /** Filtering a prefix gives a prefix of the filtered ranking. */
  lemma {:induction false} OtherEligibleTake(s: seq<CandidateResult>, primary: Option<CandidateResult>, n: nat)
    requires n <= |s|
    ensures OtherEligible(s[..n], primary) <= OtherEligible(s, primary)
    ensures |OtherEligible(s, primary)| <= |s|
  {
    if n < |s| {
      assert s[..|s| - 1][..n] == s[..n];
      OtherEligibleTake(s[..|s| - 1], primary, n);
    } else if s != [] {
      assert s[..n] == s;
      OtherEligibleTake(s[..|s| - 1], primary, n - 1);
    }
  }

  // ---------- agreement ----------

  /** If every condition evaluates alike natively and interpreted, both paths assess all candidates alike, so what
      was selected on one path can be compared with what was selected on the other. */
  lemma {:induction false} PathsAgree(r: Ranker, cs: seq<Candidate>)
    requires AllEvaluateAlike(r, cs)
    ensures Assessments(r, cs, true) == Assessments(r, cs, false)
  {
    if cs != [] {
      PathsAgree(r, cs[..|cs| - 1]);
      AssessmentAgrees(r, cs[|cs| - 1]);
    }
  }

  /** The winner of a ranking, the choice of `SelectBestInto` and the entry behind `SelectBestID`
      are all present or all absent, and carry the same ID, score and keys. */
  lemma SelectorsAgree(s: seq<CandidateResult>, ranked: seq<CandidateResult>, winner: Option<CandidateResult>,
                       best: Option<CandidateResult>, w: Option<CandidateResult>)
    requires Ranking(s, ranked, winner) && Running(s, best) && Running(s, w)
    ensures winner.Some? <==> best.Some?
    ensures winner.Some? <==> w.Some?
    ensures winner.Some? ==> SameKeys(winner.value, best.value) && SameKeys(winner.value, w.value)
  {
    if winner.Some? && best.Some? {
      BestUnique(s, winner.value, best.value);
    }
    if winner.Some? && w.Some? {
      BestUnique(s, winner.value, w.value);
    }
  }

  /** The same across paths: the ranking and `SelectBestInto` run natively if every condition has a native form, while
      `SelectBestID` is always native. Either that is so or every condition evaluates alike. */
  lemma SelectorsAgreeAcross(r: Ranker, cs: seq<Candidate>, ranked: seq<CandidateResult>,
                             winner: Option<CandidateResult>, best: Option<CandidateResult>, w: Option<CandidateResult>)
    requires AllNative(r) || AllEvaluateAlike(r, cs)
    requires Assessments(r, cs, AllNative(r)).Some?
    requires Ranking(Assessments(r, cs, AllNative(r)).value, ranked, winner)
    requires Running(Assessments(r, cs, AllNative(r)).value, best)
    requires Assessments(r, cs, true).Some? && Running(Assessments(r, cs, true).value, w)
    ensures winner.Some? <==> best.Some?
    ensures winner.Some? <==> w.Some?
    ensures winner.Some? ==> SameKeys(winner.value, best.value) && SameKeys(winner.value, w.value)
  {
    hide Assessments, Ranking, Running, SameKeys, AllNative;
    if !AllNative(r) {
      PathsAgree(r, cs);
    }
    SelectorsAgree(Assessments(r, cs, true).value, ranked, winner, best, w);
  }

  function Count(s: seq<CandidateResult>, id: string): nat {
    if s == [] then 0 else Count(s[..|s| - 1], id) + if s[|s| - 1].eligible && s[|s| - 1].id == id then 1 else 0
  }

  function Eligible(s: seq<CandidateResult>): seq<CandidateResult> {
    OtherEligible(s, None)
  }

  lemma {:induction false} OtherEligibleSplits(s: seq<CandidateResult>, w: CandidateResult)
    requires w.eligible
    ensures |Eligible(s)| == |OtherEligible(s, Some(w))| + Count(s, w.id)
    ensures multiset(OtherEligible(s, Some(w))) <= multiset(Eligible(s))
    ensures w !in OtherEligible(s, Some(w))
  {
    if s != [] {
      OtherEligibleSplits(s[..|s| - 1], w);
    }
  }

  lemma {:induction false} CountMember(s: seq<CandidateResult>, w: CandidateResult)
    requires w in s && w.eligible
    ensures Count(s, w.id) >= 1
    ensures w in Eligible(s)
  {
    if w != s[|s| - 1] {
      CountMember(s[..|s| - 1], w);
    }
  }

  /** Without a limit the winner and the fallbacks are exactly the eligible candidates, each once,
      if and only if no other eligible candidate shares the winner's ID. */
  lemma FallbacksComplete(s: seq<CandidateResult>, ranked: seq<CandidateResult>, w: CandidateResult)
    requires Ranking(s, ranked, Some(w))
    ensures multiset([w] + OtherEligible(ranked, Some(w))) == multiset(Eligible(ranked)) <==> Count(ranked, w.id) == 1
  {
    OtherEligibleSplits(ranked, w);
    assert w in multiset(ranked);
    CountMember(ranked, w);
    var others, all := OtherEligible(ranked, Some(w)), Eligible(ranked);
    assert |multiset([w] + others)| == 1 + |others| && |multiset(all)| == |all|;
    if Count(ranked, w.id) == 1 {
      assert multiset([w] + others) <= multiset(all);
      SubmultisetSameSize(multiset([w] + others), multiset(all));
    }
  }

  lemma TwoRanked(x: CandidateResult, y: CandidateResult)
    requires Better(x, y) && x.eligible
    ensures Ranking([y, x], [x, y], Some(x))
  {
    hide Better;
    BetterAsymmetric(x, y);
    assert [y, x] == [y] + [x] && [x, y] == [x] + [y];
    RankingFromSorted([y, x], [x, y]);
  }

  lemma TwoFiltered(x: CandidateResult, y: CandidateResult)
    requires x.eligible && y.eligible && x.id == y.id
    ensures Eligible([x, y]) == [x, y] && OtherEligible([x, y], Some(x)) == []
  {
    var all := [x, y];
    assert all[..1] == [x] && [x][..0] == [];
    assert OtherEligible([x], None) == [x] && OtherEligible([x], Some(x)) == [];
    assert OtherEligible(all, None) == [x] + [y];
  }

  /** Two eligible candidates of one ID: the second is neither the winner nor a fallback. */
  lemma RepeatedIdLost()
    ensures var x := CandidateResult("a", "x", true, 2.0, 0.0, 0.0, 0.0, 0.0);
            var y := CandidateResult("a", "y", true, 1.0, 0.0, 0.0, 0.0, 0.0);
            && Ranking([y, x], [x, y], Some(x))
            && y in Eligible([x, y]) && y !in [x] + OtherEligible([x, y], Some(x))
  {
    hide Ranking, OtherEligible, Eligible;
    var x := CandidateResult("a", "x", true, 2.0, 0.0, 0.0, 0.0, 0.0);
    var y := CandidateResult("a", "y", true, 1.0, 0.0, 0.0, 0.0, 0.0);
    TwoRanked(x, y);
    TwoFiltered(x, y);
  }

  lemma SubmultisetSameSize(a: multiset<CandidateResult>, b: multiset<CandidateResult>)
    requires a <= b && |a| == |b|
    ensures a == b
  {
    assert b == a + (b - a);
    assert |b - a| == 0;
  }

  /** Fallbacks keep the ranked order. */
  lemma {:induction false} FallbacksOrdered(ranked: seq<CandidateResult>, primary: Option<CandidateResult>)
    requires RankerSort.SortedRange(ranked, 0, |ranked|)
    ensures RankerSort.SortedRange(OtherEligible(ranked, primary), 0, |OtherEligible(ranked, primary)|)
    ensures forall x :: x in OtherEligible(ranked, primary) ==> x in ranked
  {
    if ranked != [] {
      var front := ranked[..|ranked| - 1];
      FallbacksOrdered(front, primary);
      var kept := OtherEligible(front, primary);
      forall p | 0 <= p < |kept|
        ensures Le(kept[p], ranked[|ranked| - 1])
      {
        assert kept[p] in front;
        var k :| 0 <= k < |front| && front[k] == kept[p];
        assert Le(ranked[k], ranked[|ranked| - 1]);
      }
    }
  }
}
