/** Weighted selection (ranker.go): a streaming bucket of the top tier, then one pick by hash. */
module RankerWeighted {
  import opened Wrappers
  import opened Outcomes
  import opened RankerOrder
  import opened RankerAssess
  import opened RankerSelect

  datatype Weighted = Weighted(result: CandidateResult, weight: real)

  /** A missing or non-positive weight counts as one. */
  function WeightOf(r: Ranker, c: Candidate): (w: real)
    ensures w > 0.0
  {
    var m := c.metric(r.weightPath);
    if m.None? || m.value <= 0.0 then 1.0 else m.value
  }

  // ---------- the tier ----------

  /** (p, q) comes before (p', q') in the order on (priority, specificity). */
  predicate Above(p: real, q: real, p': real, q': real) {
    p > p' || (p == p' && q > q')
  }

  /** The eligible candidates at exactly (p, q), in request order. */
  function Tier(r: Ranker, cs: seq<Candidate>, s: seq<CandidateResult>, p: real, q: real): (t: seq<Weighted>)
    requires |s| == |cs|
  {
    if s == [] then []
    else
      var n := |s| - 1;
      var front := Tier(r, cs[..n], s[..n], p, q);
      if s[n].eligible && s[n].priority == p && s[n].specificity == q then front + [Weighted(s[n], WeightOf(r, cs[n]))]
      else front
  }

  /** (p, q) is the greatest pair among the eligible entries of `s`, which are not none. */
  ghost predicate Greatest(s: seq<CandidateResult>, p: real, q: real) {
    && (exists x :: x in s && x.eligible && x.priority == p && x.specificity == q)
    && (forall o :: o in s && o.eligible ==> !Above(o.priority, o.specificity, p, q))
  }

  lemma {:induction false} TierMembers(r: Ranker, cs: seq<Candidate>, s: seq<CandidateResult>, p: real, q: real)
    requires |s| == |cs|
    ensures forall x :: x in s && x.eligible && x.priority == p && x.specificity == q <==>
                   exists e :: e in Tier(r, cs, s, p, q) && e.result == x
    ensures forall e :: e in Tier(r, cs, s, p, q) ==> e.weight > 0.0
  {
    if s != [] {
      var n := |s| - 1;
      TierMembers(r, cs[..n], s[..n], p, q);
      var t, t' := Tier(r, cs, s, p, q), Tier(r, cs[..n], s[..n], p, q);
      assert s == s[..n] + [s[n]];
      forall x | x in s && x.eligible && x.priority == p && x.specificity == q
        ensures exists e :: e in t && e.result == x
      {
        if x in s[..n] {
          var e :| e in t' && e.result == x;
          assert e in t;
        } else {
          assert Weighted(x, WeightOf(r, cs[n])) in t;
        }
      }
    }
  }

  /** The weight of a candidate: its metric where there is a positive one, else one. */
  predicate WeightIs(r: Ranker, c: Candidate, w: real) {
    && (c.metric(r.weightPath).Some? && c.metric(r.weightPath).value > 0.0 ==> w == c.metric(r.weightPath).value)
    && (c.metric(r.weightPath).None? || c.metric(r.weightPath).value <= 0.0 ==> w == 1.0)
  }

  lemma WeightOfIs(r: Ranker, c: Candidate)
    ensures WeightIs(r, c, WeightOf(r, c))
  {
  }

  /** The tier in request order: `at` says which candidate each entry is. */
  lemma {:induction false} TierExactly(r: Ranker, cs: seq<Candidate>, s: seq<CandidateResult>, p: real, q: real)
    returns (at: seq<nat>)
    requires |s| == |cs|
    ensures var t := Tier(r, cs, s, p, q);
            && |at| == |t|
            && (forall j, k :: 0 <= j < k < |at| ==> at[j] < at[k])
            && (forall i :: i in at <==> 0 <= i < |s| && s[i].eligible && s[i].priority == p && s[i].specificity == q)
            && (forall j :: 0 <= j < |at| ==>
                              at[j] < |s| && t[j].result == s[at[j]] && WeightIs(r, cs[at[j]], t[j].weight))
  {
    hide WeightOf, WeightIs;
    at := [];
    if s != [] {
      var n := |s| - 1;
      WeightOfIs(r, cs[n]);
      at := TierExactly(r, cs[..n], s[..n], p, q);
      assert forall j :: 0 <= j < |at| ==> at[j] in at && at[j] < n;
      if s[n].eligible && s[n].priority == p && s[n].specificity == q {
        at := at + [n];
      }
    }
  }

  /** The winner of the plain selectors is in the bucket. */
  lemma BestInTier(r: Ranker, cs: seq<Candidate>, s: seq<CandidateResult>, p: real, q: real, w: CandidateResult)
    requires |s| == |cs| && Best(s, w) && Greatest(s, p, q)
    ensures exists e :: e in Tier(r, cs, s, p, q) && e.result == w
  {
    TierMembers(r, cs, s, p, q);
    var x :| x in s && x.eligible && x.priority == p && x.specificity == q;
    assert Le(w, x);
  }

  // ---------- the pick ----------

  function Sum(t: seq<Weighted>): real {
    if t == [] then 0.0 else Sum(t[..|t| - 1]) + t[|t| - 1].weight
  }

  /** The half-open interval of entry `k` holds the point. Its length is the entry's weight. */
  ghost predicate InInterval(t: seq<Weighted>, k: int, point: real) {
    0 <= k < |t| && Sum(t[..k]) <= point < Sum(t[..k]) + t[k].weight
  }

  ghost predicate PositiveWeights(t: seq<Weighted>) {
    forall e :: e in t ==> e.weight > 0.0
  }

  lemma {:induction false} SumMonotonic(t: seq<Weighted>, i: int, j: int)
    requires 0 <= i <= j <= |t| && PositiveWeights(t)
    ensures Sum(t[..i]) <= Sum(t[..j])
    decreases j - i
  {
    if i < j {
      SumMonotonic(t, i, j - 1);
      assert t[..j][..j - 1] == t[..j - 1];
      assert t[j - 1] in t;
    }
  }

  /** At most one interval holds a point. */
  lemma IntervalUnique(t: seq<Weighted>, k: int, k': int, point: real)
    requires PositiveWeights(t) && InInterval(t, k, point) && InInterval(t, k', point)
    ensures k == k'
  {
    if k < k' {
      assert t[..k + 1][..k] == t[..k];
      SumMonotonic(t, k + 1, k');
    } else if k' < k {
      assert t[..k' + 1][..k'] == t[..k'];
      SumMonotonic(t, k' + 1, k);
    }
  }

  ghost predicate Remainder(hash: nat, modulo: real, n: int, point: real) {
    hash as real == modulo * (n as real) + point && 0.0 <= point < modulo
  }

  lemma Scaled(m: real, f: real, p: real)
    requires m > 0.0 && 0.0 <= f < 1.0 && p == m * f
    ensures 0.0 <= p < m
  {
    assert m * (1.0 - f) > 0.0;
  }

  lemma QuotientRemainder(h: real, m: real, x: real, n: real, p: real)
    requires m > 0.0 && x == h / m && n <= x < n + 1.0 && p == h - m * n
    ensures 0.0 <= p < m
  {
    assert m * x == h;
    Scaled(m, x - n, p);
  }

  /** `stableHashFloat` over reals; `hash` stands for the 64-bit FNV sum of the key. */
  function StableHash(hash: nat, modulo: real): (point: real)
    ensures modulo > 0.0 ==> exists n :: Remainder(hash, modulo, n, point)
  {
    if modulo <= 0.0 then 0.0
    else
      var x := hash as real / modulo;
      var n := x.Floor;
      var point := hash as real - modulo * (n as real);
      QuotientRemainder(hash as real, modulo, x, n as real, point);
      assert Remainder(hash, modulo, n, point);
      point
  }

  // ---------- the code ----------

  ghost predicate Bucket(r: Ranker, cs: seq<Candidate>, s: seq<CandidateResult>, found: bool, p: real, q: real,
                         bucket: seq<Weighted>)
    requires |s| == |cs|
  {
    if found then Greatest(s, p, q) && bucket == Tier(r, cs, s, p, q) else !AnyEligible(s) && bucket == []
  }

  lemma {:induction false} TierEmpty(r: Ranker, cs: seq<Candidate>, s: seq<CandidateResult>, p: real, q: real)
    requires |s| == |cs|
    requires forall o :: o in s && o.eligible ==> !(o.priority == p && o.specificity == q)
    ensures Tier(r, cs, s, p, q) == []
  {
    if s != [] {
      TierEmpty(r, cs[..|s| - 1], s[..|s| - 1], p, q);
    }
  }

  /** One more candidate: a new top tier, one more entry of the tier, or nothing. */
  lemma BucketStep(r: Ranker, cs: seq<Candidate>, s: seq<CandidateResult>, c: Candidate, x: CandidateResult,
                   found: bool, p: real, q: real, bucket: seq<Weighted>)
    requires |s| == |cs| && Bucket(r, cs, s, found, p, q, bucket)
    ensures !x.eligible ==> Bucket(r, cs + [c], s + [x], found, p, q, bucket)
    ensures x.eligible && (!found || Above(x.priority, x.specificity, p, q)) ==>
              Bucket(r, cs + [c], s + [x], true, x.priority, x.specificity, [Weighted(x, WeightOf(r, c))])
    ensures x.eligible && found && !Above(x.priority, x.specificity, p, q) ==>
              Bucket(r, cs + [c], s + [x], true, p, q,
                     if x.priority == p && x.specificity == q then bucket + [Weighted(x, WeightOf(r, c))] else bucket)
  {
    assert (cs + [c])[..|s|] == cs && (s + [x])[..|s|] == s;
    assert forall o :: o in s + [x] <==> o in s || o == x;
    if x.eligible && (!found || Above(x.priority, x.specificity, p, q)) {
      TierEmpty(r, cs, s, x.priority, x.specificity);
      assert x in s + [x];
    } else if found {
      var o :| o in s && o.eligible && o.priority == p && o.specificity == q;
      assert o in s + [x];
    }
  }

  /** The body of the bucket loop for an eligible candidate `c` with result `x`. */
  method AddToBucket(ghost r: Ranker, ghost cs: seq<Candidate>, ghost s: seq<CandidateResult>, ghost c: Candidate,
                     x: CandidateResult, weight: real, found: bool, p: real, q: real, bucket: seq<Weighted>,
                         total: real)
    returns (p': real, q': real, bucket': seq<Weighted>, total': real)
    requires |s| == |cs| && Bucket(r, cs, s, found, p, q, bucket) && total == Sum(bucket)
    requires x.eligible && weight == WeightOf(r, c)
    ensures Bucket(r, cs + [c], s + [x], true, p', q', bucket') && total' == Sum(bucket')
  {
    BucketStep(r, cs, s, c, x, found, p, q, bucket);
    p', q', bucket', total' := p, q, bucket, total;
    if !found || Above(x.priority, x.specificity, p, q) {
      bucket' := [];
      p', q' := x.priority, x.specificity;
      total' := 0.0;
    }
    if x.priority == p' && x.specificity == q' {
      assert (bucket' + [Weighted(x, weight)])[..|bucket'|] == bucket';
      bucket' := bucket' + [Weighted(x, weight)];
      total' := total' + weight;
    }
  }

  /** The bucket loop of `SelectWeightedID`. */
  method CollectBucket(r: Ranker, cs: seq<Candidate>)
    returns (err: bool, found: bool, bucket: seq<Weighted>, total: real, ghost bestP: real, ghost bestQ: real)
    ensures err <==> Assessments(r, cs, true).None?
    ensures !err ==> Bucket(r, cs, Assessments(r, cs, true).value, found, bestP, bestQ, bucket) && total == Sum(bucket)
  {
    err, found, bucket, total := false, false, [], 0.0;
    var p, q := 0.0, 0.0;
    bestP, bestQ := p, q;
    for i := 0 to |cs|
      invariant Assessments(r, cs[..i], true).Some? && total == Sum(bucket)
      invariant Bucket(r, cs[..i], Assessments(r, cs[..i], true).value, found, p, q, bucket)
    {
      var score, cmp, out := RankCandidateNative(r, cs[i]);
      ghost var x := Assessed(r, cs[i], EvaluatorOn(r, cs[i], true));
      ghost var s := Assessments(r, cs[..i], true).value;
      AssessmentsStep(r, cs, true, i, x);
      assert cs[..i + 1] == cs[..i] + [cs[i]];
      if out == Error {
        return true, false, [], 0.0, p, q;
      }
      if out == Fails {
        BucketStep(r, cs[..i], s, cs[i], x.value, found, p, q, bucket);
        continue;
      }
      p, q, bucket, total := AddToBucket(r, cs[..i], s, cs[i], ResultOf(r, cs[i], true, score), WeightOf(r, cs[i]),
                                         found, p, q, bucket, total);
      found := true;
    }
    assert cs[..|cs|] == cs;
    bestP, bestQ := p, q;
  }

  /** The pick loop: `k` is the one entry whose interval holds the hash point. Over reals the loop always returns. */
  method Pick(bucket: seq<Weighted>, hash: nat, total: real) returns (k: int)
    requires bucket != [] && PositiveWeights(bucket) && total == Sum(bucket)
    ensures InInterval(bucket, k, StableHash(hash, total))
  {
    assert bucket[0] in bucket;
    assert bucket[..1][..0] == bucket[..0] == [];
    assert bucket[..|bucket|] == bucket;
    SumMonotonic(bucket, 1, |bucket|);
    var point := StableHash(hash, total);
    var running := 0.0;
    k := 0;
    while k < |bucket|
      invariant 0 <= k <= |bucket|
      invariant running == Sum(bucket[..k]) && running <= point
    {
      assert bucket[..k + 1][..k] == bucket[..k];
      running := running + bucket[k].weight;
      if point < running {
        return;
      }
      k := k + 1;
    }
    assert false;
  }

  /** `SelectWeightedID`: `p`, `q` and `k` exhibit the tier and the entry picked from it. */
  method SelectWeightedID(r: Ranker, cs: seq<Candidate>, hash: nat)
    returns (err: bool, sel: Option<Selection>, ghost p: real, ghost q: real, ghost k: int)
    ensures err <==> Assessments(r, cs, true).None?
    ensures !err ==> (sel.Some? <==> AnyEligible(Assessments(r, cs, true).value))
    ensures !err && sel.Some? ==>
              var s := Assessments(r, cs, true).value;
              var t := Tier(r, cs, s, p, q);
              && Greatest(s, p, q)
              && PositiveWeights(t)
              && InInterval(t, k, StableHash(hash, Sum(t)))
              && sel.value == Selection(t[k].result.id, t[k].result.name, t[k].result.score)
  {
    k := 0;
    sel := None;
    var found, bucket, total;
    err, found, bucket, total, p, q := CollectBucket(r, cs);
    if err || !found || |bucket| == 0 {
      if !err && found {
        TierMembers(r, cs, Assessments(r, cs, true).value, p, q);
        assert false;
      }
      return;
    }
    TierMembers(r, cs, Assessments(r, cs, true).value, p, q);
    var pick := Pick(bucket, hash, total);
    k := pick;
    sel := Some(Selection(bucket[pick].result.id, bucket[pick].result.name, bucket[pick].result.score));
  }
}
