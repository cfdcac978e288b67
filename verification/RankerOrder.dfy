/** The order in which the ranker lists candidates (ranker.go). Floats are reals. */
module RankerOrder {
  import Text

  /** One candidate after assessment; the last four keys are the hidden comparison keys. */
  datatype CandidateResult = CandidateResult(
    id: string, name: string, eligible: bool, score: real,
    priority: real, specificity: real, fallback: real, cost: real)

  /** `betterCandidate`: `a` is listed before `b`. */
  predicate Better(a: CandidateResult, b: CandidateResult) {
    if a.eligible != b.eligible then a.eligible
    else if a.priority != b.priority then a.priority > b.priority
    else if a.specificity != b.specificity then a.specificity > b.specificity
    else if a.score != b.score then a.score > b.score
    else if a.cost != b.cost then a.cost < b.cost
    else if a.fallback != b.fallback then a.fallback < b.fallback
    else Text.Less(a.id, b.id)
  }

  /** The keys the order looks at. */
  ghost predicate SameKeys(a: CandidateResult, b: CandidateResult) {
    a.(name := b.name) == b
  }

  lemma BetterIrreflexive(a: CandidateResult)
    ensures !Better(a, a)
  {
    Text.LessIrreflexive(a.id);
  }

  lemma BetterTransitive(a: CandidateResult, b: CandidateResult, c: CandidateResult)
    requires Better(a, b) && Better(b, c)
    ensures Better(a, c)
  {
    if Text.Less(a.id, b.id) && Text.Less(b.id, c.id) {
      Text.LessTransitive(a.id, b.id, c.id);
    }
  }

  lemma BetterAsymmetric(a: CandidateResult, b: CandidateResult)
    requires Better(a, b)
    ensures !Better(b, a)
  {
    if Better(b, a) {
      BetterTransitive(a, b, a);
      BetterIrreflexive(a);
    }
  }

  /** Candidates that neither beats differ in nothing but the display name: ties are harmless. */
  lemma BetterTotal(a: CandidateResult, b: CandidateResult)
    ensures Better(a, b) || Better(b, a) || SameKeys(a, b)
    ensures SameKeys(a, b) ==> !Better(a, b)
  {
    Text.LessTotal(a.id, b.id);
    Text.LessIrreflexive(a.id);
  }

  /** `b` is not listed before `a`. */
  ghost predicate Le(a: CandidateResult, b: CandidateResult) {
    !Better(b, a)
  }

  /** Key by key: eligible first, then the greater priority, specificity and score, the smaller cost and fallback rank,
      and at last the smaller identifier. */
  lemma LeByKeys(a: CandidateResult, b: CandidateResult)
    requires Le(a, b)
    ensures b.eligible ==> a.eligible
    ensures a.eligible == b.eligible ==> a.priority >= b.priority
    ensures a.eligible == b.eligible && a.priority == b.priority ==> a.specificity >= b.specificity
    ensures a.eligible == b.eligible && a.priority == b.priority && a.specificity == b.specificity ==>
              a.score >= b.score && (a.score == b.score ==> a.cost <= b.cost)
    ensures a.(id := b.id, name := b.name, fallback := b.fallback) == b ==> a.fallback <= b.fallback
    ensures a.(id := b.id, name := b.name) == b ==> a.id == b.id || Text.Less(a.id, b.id)
  {
    Text.LessTotal(a.id, b.id);
  }

  lemma LeTransitive(a: CandidateResult, b: CandidateResult, c: CandidateResult)
    requires Le(a, b) && Le(b, c)
    ensures Le(a, c)
  {
    BetterTotal(a, b);
    BetterTotal(b, c);
    if Better(c, a) {
      if Better(a, b) {
        BetterTransitive(c, a, b);
      } else if Better(b, c) {
        BetterTransitive(b, c, a);
      }
      BetterTotal(c, a);
    }
  }
}
