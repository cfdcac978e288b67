/** What the equality index does to a program's result (bytecode.go): when evaluating the candidates is evaluating every
    rule of the namespace, whatever order Go's map gives the buckets. */
module BytecodeScan {
  import opened Wrappers
  import opened Rules
  import opened BytecodeRegistry
  import opened BytecodeExpr
  import opened BytecodeCompiler
  import opened BytecodeVM
  import opened BytecodeCorrect
  import opened BytecodeIndex
  import opened BytecodeProgram
  import StableSort

  /** The result of evaluating the rules that `s` names. */
  function ResultOf(p: RuleProgram, facts: Option<TypedFacts>, now: int, s: seq<int>): Result
    requires InRange(s, p.rules)
  {
    EvalList(p, facts, now, RulesAt(p.rules, s), NoResult)
  }

  /** The candidates in this order give what all rules of the namespace give. */
  ghost predicate LikeScan(p: RuleProgram, ns: int, facts: Option<TypedFacts>, now: int, order: seq<IndexKey>)
    requires InRange(Get(p.byNamespace, ns), p.rules) && InRange(CandidatesBy(p, ns, facts, order), p.rules)
  {
    ResultOf(p, facts, now, CandidatesBy(p, ns, facts, order)) == ResultOf(p, facts, now, Get(p.byNamespace, ns))
  }

  /** Every rule of the namespace, in evaluation order. */
  function Scan(p: RuleProgram, ns: int): seq<CompiledRule>
    requires InRange(Get(p.byNamespace, ns), p.rules)
  {
    RulesAt(p.rules, Get(p.byNamespace, ns))
  }

  // ---------- rules that may be left out ----------

  lemma {:induction false} RulesAtKeep(rules: seq<CompiledRule>, s: seq<int>, f: CompiledRule -> bool)
    requires InRange(s, rules)
    ensures InRange(StableSort.Keep(s, Where(rules, f)), rules)
    ensures RulesAt(rules, StableSort.Keep(s, Where(rules, f))) == StableSort.Keep(RulesAt(rules, s), f)
  {
    if s != [] {
      RulesAtKeep(rules, s[1..], f);
      assert RulesAt(rules, s)[1..] == RulesAt(rules, s[1..]);
      var rest := StableSort.Keep(s[1..], Where(rules, f));
      assert RulesAt(rules, [s[0]] + rest) == [rules[s[0]]] + RulesAt(rules, rest);
    }
  }

  function FiringAt(p: RuleProgram, facts: Option<TypedFacts>, now: int): CompiledRule -> bool {
    (r: CompiledRule) => Fires(p, facts, now, r)
  }

  /** Only the rules that fire, and their order, matter. */
  lemma {:induction false} FiringKeepsResult(p: RuleProgram, facts: Option<TypedFacts>, now: int,
                                             s: seq<CompiledRule>, res: Result)
    ensures EvalList(p, facts, now, StableSort.Keep(s, FiringAt(p, facts, now)), res) == EvalList(p, facts, now, s, res)
    decreases |s|
  {
    hide Fires, Apply, StopsAfter;
    if s != [] {
      var kept := StableSort.Keep(s[1..], FiringAt(p, facts, now));
      if !Fires(p, facts, now, s[0]) {
        assert StableSort.Keep(s, FiringAt(p, facts, now)) == kept;
        FiringKeepsResult(p, facts, now, s[1..], res);
      } else {
        assert StableSort.Keep(s, FiringAt(p, facts, now))[1..] == kept;
        if !StopsAfter(p, s[0]) {
          FiringKeepsResult(p, facts, now, s[1..], Apply(p, res, s[0]));
        }
      }
    }
  }

  ghost predicate AllPass(facts: Option<TypedFacts>, s: seq<CompiledRule>) {
    forall r :: r in s ==> Passes(facts, r)
  }

  /** When every rule that fires passes the index, dropping the others changes nothing. */
  lemma {:induction false} PassingKeepsResult(p: RuleProgram, facts: Option<TypedFacts>, now: int,
                                              s: seq<CompiledRule>, res: Result)
    requires AllPass(facts, Fired(p, facts, now, s))
    ensures EvalList(p, facts, now, StableSort.Keep(s, PassingOn(facts)), res) == EvalList(p, facts, now, s, res)
    decreases |s|
  {
    if s != [] {
      var r := s[0];
      if Passes(facts, r) {
        assert StableSort.Keep(s, PassingOn(facts))[1..] == StableSort.Keep(s[1..], PassingOn(facts));
      } else {
        assert StableSort.Keep(s, PassingOn(facts)) == StableSort.Keep(s[1..], PassingOn(facts));
      }
      if !Fires(p, facts, now, r) {
        PassingKeepsResult(p, facts, now, s[1..], res);
      } else {
        assert r in Fired(p, facts, now, s);
        if !StopsAfter(p, r) {
          assert forall x :: x in Fired(p, facts, now, s[1..]) ==> x in Fired(p, facts, now, s);
          PassingKeepsResult(p, facts, now, s[1..], Apply(p, res, r));
        }
      }
    }
  }

  // ---------- the order of the buckets ----------

  /** The defaults come first and a bucket keeps its order: what is settled about two candidates before sorting. */
  predicate Settled(p: RuleProgram, x: int, y: int) {
    && 0 <= x < |p.rules| && 0 <= y < |p.rules|
    && ((p.rules[x].index.None? && p.rules[y].index.Some?)
        || (p.rules[x].index == p.rules[y].index && IndexOrder(p.rules)(x, y)))
  }

  /** One more bucket keeps what is settled. */
  lemma BucketPrecedes(p: RuleProgram, ns: int, facts: Option<TypedFacts>, front: seq<int>, key: IndexKey,
                       x: int, y: int)
    requires Valid(p) && x != y && Settled(p, x, y)
    requires forall i :: i in front && 0 <= i < |p.rules| ==> p.rules[i].index != Some(key)
    requires var bucket := GetBucket(GetBuckets(p.eqIndex, ns), key);
             StableSort.Precedes(front, x, y) || (y in bucket && (x in front || x in bucket))
    ensures StableSort.Precedes(front + GetBucket(GetBuckets(p.eqIndex, ns), key), x, y)
  {
    hide KeyBefore;
    var bucket := GetBucket(GetBuckets(p.eqIndex, ns), key);
    assert Lists(bucket, p.rules, FiledUnder(ns, key), IndexOrder(p.rules));
    if x in bucket && y in bucket {
      StableSort.SortedPrecedes(bucket, IndexOrder(p.rules), x, y);
    }
    StableSort.PrecedesAppend(front, bucket, x, y);
  }

  lemma DefaultsPrecede(p: RuleProgram, ns: int, x: int, y: int)
    requires Valid(p) && x != y && Settled(p, x, y) && x in Get(p.defaults, ns) && y in Get(p.defaults, ns)
    ensures StableSort.Precedes(Get(p.defaults, ns), x, y)
  {
    hide KeyBefore;
    assert Lists(Get(p.defaults, ns), p.rules, Unfiled(ns), IndexOrder(p.rules));
    StableSort.SortedPrecedes(Get(p.defaults, ns), IndexOrder(p.rules), x, y);
  }

  lemma {:induction false} GatherPrecedes(p: RuleProgram, ns: int, facts: Option<TypedFacts>, order: seq<IndexKey>,
                                          x: int, y: int)
    requires Valid(p) && StableSort.NoDuplicates(order) && x != y && Settled(p, x, y)
    requires x in Gather(p, ns, facts, order) && y in Gather(p, ns, facts, order)
    ensures StableSort.Precedes(Gather(p, ns, facts, order), x, y)
  {
    hide Valid, KeyHolds, KeyOf, KeyBefore, StableSort.Precedes;
    if order == [] {
      DefaultsPrecede(p, ns, x, y);
    } else {
      var n := |order| - 1;
      var key, front := order[n], Gather(p, ns, facts, order[..n]);
      Gathered(p, ns, facts, order);
      Gathered(p, ns, facts, order[..n]);
      if y in front {
        GatherPrecedes(p, ns, facts, order[..n], x, y);
      }
      if KeyHolds(facts, key) {
        BucketPrecedes(p, ns, facts, front, key, x, y);
      } else {
        assert front + [] == front;
      }
    }
  }

  /** Of two candidates with the property that tie, the one compiled first has no key or has the other's key. */
  ghost predicate TiesHarmless(p: RuleProgram, ns: int, facts: Option<TypedFacts>, f: CompiledRule -> bool) {
    forall i, j :: i < j && IsCandidate(p, ns, facts, i) && IsCandidate(p, ns, facts, j)
                   && KeyOf(p.rules, i) == KeyOf(p.rules, j) && f(p.rules[i]) && f(p.rules[j]) ==>
                   p.rules[i].index.None? || p.rules[i].index == p.rules[j].index
  }

  /** Two candidates in the order of `CandidatesBy` are in the order of a scan, unless they tie harmfully. */
  lemma VisitedInOrder(p: RuleProgram, ns: int, facts: Option<TypedFacts>, order: seq<IndexKey>,
                       f: CompiledRule -> bool, x: int, y: int)
    requires Valid(p) && VisitOrder(p, ns, order) && facts.Some? && |GetBuckets(p.eqIndex, ns)| > 0
    requires TiesHarmless(p, ns, facts, f) && StableSort.Precedes(CandidatesBy(p, ns, facts, order), x, y)
    requires Where(p.rules, f)(x) && Where(p.rules, f)(y)
    ensures !IndexOrder(p.rules)(y, x)
  {
    hide Gather, Valid, StableSort.Sort, StableSort.Precedes;
    var out, before := Gather(p, ns, facts, order), IndexBefore(p.rules);
    CandidateMembers(p, ns, facts, order);
    Gathered(p, ns, facts, order);
    StableSort.PrecedesOnce(CandidatesBy(p, ns, facts, order), x, y);
    IndexBeforeIsOrder(p.rules);
    StableSort.SortSorted(out, before);
    PrecedesSorted(CandidatesBy(p, ns, facts, order), before, x, y);
    if KeyOf(p.rules, x) == KeyOf(p.rules, y) && y < x {
      GatherPrecedes(p, ns, facts, order, y, x);
    }
    if KeyOf(p.rules, x) == KeyOf(p.rules, y) {
      StableSort.TiesAsBefore(out, before, x, y);
    }
  }

  lemma PrecedesSorted<T(!new)>(s: seq<T>, before: (T, T) -> bool, x: T, y: T)
    requires StableSort.Sorted(s, before) && StableSort.Precedes(s, x, y)
    ensures !before(y, x)
  {
  }

  /** When ties are harmless, the candidates with the property come in the order of a scan, whatever the order of the
      buckets. */
  lemma KeptInOrder(p: RuleProgram, ns: int, facts: Option<TypedFacts>, order: seq<IndexKey>, f: CompiledRule -> bool)
    requires Valid(p) && VisitOrder(p, ns, order) && facts.Some? && |GetBuckets(p.eqIndex, ns)| > 0
    requires TiesHarmless(p, ns, facts, f)
    ensures StableSort.Keep(CandidatesBy(p, ns, facts, order), Where(p.rules, f))
            == StableSort.Keep(CandidateList(p, ns, facts), Where(p.rules, f))
  {
    hide CandidatesBy, CandidateList, Gather;
    var visited, all, keep := CandidatesBy(p, ns, facts, order), CandidateList(p, ns, facts), Where(p.rules, f);
    var s, t := StableSort.Keep(visited, keep), StableSort.Keep(all, keep);
    CandidateMembers(p, ns, facts, order);
    ListOrdered(p, ns, facts);
    StableSort.KeepNoDuplicates(visited, keep);
    StableSort.KeepNoDuplicates(all, keep);
    StableSort.KeepSorted(all, keep, IndexOrder(p.rules));
    forall i
      ensures i in s <==> i in t
    {
      StableSort.KeepMembers(visited, keep, i);
      StableSort.KeepMembers(all, keep, i);
    }
    forall i, j | 0 <= i < j < |s|
      ensures !IndexOrder(p.rules)(s[j], s[i])
    {
      assert StableSort.Precedes(s, s[i], s[j]);
      StableSort.KeepPrecedes(visited, keep, s[i], s[j]);
      VisitedInOrder(p, ns, facts, order, f, s[i], s[j]);
    }
    StableSort.NoDuplicatesSame(s, t);
    StableSort.SortedUnique(s, t, IndexOrder(p.rules));
  }

  lemma ListOrdered(p: RuleProgram, ns: int, facts: Option<TypedFacts>)
    requires Valid(p)
    ensures StableSort.Sorted(CandidateList(p, ns, facts), IndexOrder(p.rules))
  {
    assert Lists(Get(p.byNamespace, ns), p.rules, InNamespace(ns), IndexOrder(p.rules));
    StableSort.KeepSorted(Get(p.byNamespace, ns), Where(p.rules, PassingOn(facts)), IndexOrder(p.rules));
  }

  /** A harmful tie is turned round by some order of the buckets. */
  lemma TieTurned(p: RuleProgram, ns: int, facts: Option<TypedFacts>, i: nat, j: nat) returns (order: seq<IndexKey>)
    requires Valid(p) && facts.Some? && |GetBuckets(p.eqIndex, ns)| > 0
    requires i < j && IsCandidate(p, ns, facts, i) && IsCandidate(p, ns, facts, j)
    requires KeyOf(p.rules, i) == KeyOf(p.rules, j)
    requires p.rules[i].index.Some? && p.rules[i].index != p.rules[j].index
    ensures VisitOrder(p, ns, order) && StableSort.Precedes(CandidatesBy(p, ns, facts, order), j, i)
  {
    hide StableSort.Sort, StableSort.Precedes;
    var key := p.rules[i].index.value;
    var rest := AnyOrder(GetBuckets(p.eqIndex, ns).Keys - {key});
    order := rest + [key];
    BucketThere(p, ns, i);
    if p.rules[j].index.Some? {
      BucketThere(p, ns, j);
    }
    assert order[..|rest|] == rest;
    var bucket := GetBucket(GetBuckets(p.eqIndex, ns), key);
    assert Lists(bucket, p.rules, FiledUnder(ns, key), IndexOrder(p.rules));
    Gathered(p, ns, facts, rest);
    StableSort.PrecedesAppend(Gather(p, ns, facts, rest), bucket, j, i);
    StableSort.SortKeeps(Gather(p, ns, facts, order), IndexBefore(p.rules), j, i);
  }

  /** For any property of rules: the candidates with it come in the order of a scan in every order of the buckets if and
      only if no two of them tie harmfully. */
  lemma OrderInvisibleExactly(p: RuleProgram, ns: int, facts: Option<TypedFacts>, f: CompiledRule -> bool)
    requires Valid(p) && facts.Some? && |GetBuckets(p.eqIndex, ns)| > 0
    ensures (forall order :: VisitOrder(p, ns, order) ==>
               StableSort.Keep(CandidatesBy(p, ns, facts, order), Where(p.rules, f))
               == StableSort.Keep(CandidateList(p, ns, facts), Where(p.rules, f)))
            <==> TiesHarmless(p, ns, facts, f)
  {
    hide CandidatesBy, CandidateList, Gather, VisitOrder, StableSort.Keep;
    if TiesHarmless(p, ns, facts, f) {
      forall order | VisitOrder(p, ns, order)
        ensures StableSort.Keep(CandidatesBy(p, ns, facts, order), Where(p.rules, f))
                == StableSort.Keep(CandidateList(p, ns, facts), Where(p.rules, f))
      {
        KeptInOrder(p, ns, facts, order, f);
      }
    } else {
      var i, j :| i < j && IsCandidate(p, ns, facts, i) && IsCandidate(p, ns, facts, j)
                  && KeyOf(p.rules, i) == KeyOf(p.rules, j) && f(p.rules[i]) && f(p.rules[j])
                  && p.rules[i].index.Some? && p.rules[i].index != p.rules[j].index;
      var order := TieTurned(p, ns, facts, i, j);
      TurnedDiffers(p, ns, facts, order, f, i, j);
    }
  }

  lemma TurnedDiffers(p: RuleProgram, ns: int, facts: Option<TypedFacts>, order: seq<IndexKey>, f: CompiledRule -> bool,
                      i: nat, j: nat)
    requires Valid(p) && VisitOrder(p, ns, order) && facts.Some? && |GetBuckets(p.eqIndex, ns)| > 0
    requires i < j && IsCandidate(p, ns, facts, i) && IsCandidate(p, ns, facts, j) && f(p.rules[i]) && f(p.rules[j])
    requires KeyOf(p.rules, i) == KeyOf(p.rules, j) && StableSort.Precedes(CandidatesBy(p, ns, facts, order), j, i)
    ensures StableSort.Keep(CandidatesBy(p, ns, facts, order), Where(p.rules, f))
            != StableSort.Keep(CandidateList(p, ns, facts), Where(p.rules, f))
  {
    hide CandidatesBy, CandidateList, Gather, StableSort.Keep, StableSort.Precedes;
    var all, keep := CandidateList(p, ns, facts), Where(p.rules, f);
    CandidateMembers(p, ns, facts, order);
    ListOrdered(p, ns, facts);
    StableSort.SortedPrecedes(all, IndexOrder(p.rules), i, j);
    StableSort.PrecedesOnce(all, i, j);
    StableSort.KeepPrecedes(all, keep, j, i);
    StableSort.KeepPrecedes(CandidatesBy(p, ns, facts, order), keep, j, i);
  }

  /** So the result does not depend on the order of the buckets when no two candidates that fire tie harmfully. */
  lemma OrderKeepsResult(p: RuleProgram, ns: int, facts: Option<TypedFacts>, now: int, order: seq<IndexKey>)
    requires Valid(p) && VisitOrder(p, ns, order) && TiesHarmless(p, ns, facts, FiringAt(p, facts, now))
    ensures InRange(CandidatesBy(p, ns, facts, order), p.rules) && InRange(CandidateList(p, ns, facts), p.rules)
    ensures ResultOf(p, facts, now, CandidatesBy(p, ns, facts, order))
            == ResultOf(p, facts, now, CandidateList(p, ns, facts))
  {
    hide EvalList, StableSort.Keep, Gather;
    CandidatesInRange(p, ns, facts, order);
    if facts.Some? && |GetBuckets(p.eqIndex, ns)| > 0 {
      var visited, all, f := CandidatesBy(p, ns, facts, order), CandidateList(p, ns, facts), FiringAt(p, facts, now);
      KeptInOrder(p, ns, facts, order, f);
      RulesAtKeep(p.rules, visited, f);
      RulesAtKeep(p.rules, all, f);
      FiringKeepsResult(p, facts, now, RulesAt(p.rules, visited), NoResult);
      FiringKeepsResult(p, facts, now, RulesAt(p.rules, all), NoResult);
    }
  }

  lemma DistinctHarmless(p: RuleProgram, ns: int, facts: Option<TypedFacts>, f: CompiledRule -> bool)
    requires DistinctKeys(p.rules)
    ensures TiesHarmless(p, ns, facts, f)
  {
    assert forall i, j :: 0 <= i < j < |p.rules| ==> KeyOf(p.rules, i) != KeyOf(p.rules, j);
  }

  /** Where no two rules tie, `candidates` has one answer. */
  lemma OrderInvisible(p: RuleProgram, ns: int, facts: Option<TypedFacts>, order: seq<IndexKey>)
    requires Valid(p) && VisitOrder(p, ns, order) && DistinctKeys(p.rules)
    ensures CandidatesBy(p, ns, facts, order) == CandidateList(p, ns, facts)
  {
    if facts.Some? && |GetBuckets(p.eqIndex, ns)| > 0 {
      CandidateMembers(p, ns, facts, order);
      CandidatesInRange(p, ns, facts, order);
      ListOrdered(p, ns, facts);
      Gathered(p, ns, facts, order);
      GatheredInRange(p, ns, facts, order);
      SortSame(Gather(p, ns, facts, order), CandidateList(p, ns, facts), p.rules);
    }
  }

  lemma GatheredInRange(p: RuleProgram, ns: int, facts: Option<TypedFacts>, order: seq<IndexKey>)
    requires Valid(p) && StableSort.NoDuplicates(order)
    ensures InRange(Gather(p, ns, facts, order), p.rules)
  {
    Gathered(p, ns, facts, order);
    var out := Gather(p, ns, facts, order);
    assert forall k :: 0 <= k < |out| ==> out[k] in out;
  }

  // ---------- the index against a scan ----------

  /** If every rule that fires in the scan is unindexed or its key holds, and none of them tie harmfully, the indexed
      candidates give the same result in every order of the buckets. */
  lemma FiringPassIsEnough(p: RuleProgram, ns: int, facts: Option<TypedFacts>, now: int, order: seq<IndexKey>)
    requires Valid(p) && VisitOrder(p, ns, order)
    ensures InRange(Get(p.byNamespace, ns), p.rules) && InRange(CandidatesBy(p, ns, facts, order), p.rules)
    ensures AllPass(facts, Fired(p, facts, now, Scan(p, ns))) && TiesHarmless(p, ns, facts, FiringAt(p, facts, now)) ==>
              LikeScan(p, ns, facts, now, order)
  {
    CandidatesInRange(p, ns, facts, order);
    RulesAtKeep(p.rules, Get(p.byNamespace, ns), PassingOn(facts));
    if AllPass(facts, Fired(p, facts, now, Scan(p, ns))) && TiesHarmless(p, ns, facts, FiringAt(p, facts, now)) {
      OrderKeepsResult(p, ns, facts, now, order);
      PassingKeepsResult(p, facts, now, Scan(p, ns), NoResult);
    }
  }

  /** Every indexed rule's key is implied by its condition on these facts. */
  ghost predicate IndexedSoundly(p: RuleProgram, facts: Option<TypedFacts>) {
    forall r :: r in p.rules && Accepts(r.code, facts, p.sets) ==> Passes(facts, r)
  }

  /** So when keys are implied and ties harmless, the index is invisible: in every mode, for all facts and times, and in
      every order of the buckets. */
  lemma IndexInvisible(p: RuleProgram, ns: int, facts: Option<TypedFacts>, now: int, order: seq<IndexKey>)
    requires Valid(p) && VisitOrder(p, ns, order) && IndexedSoundly(p, facts)
    requires TiesHarmless(p, ns, facts, FiringAt(p, facts, now))
    ensures InRange(Get(p.byNamespace, ns), p.rules) && InRange(CandidatesBy(p, ns, facts, order), p.rules)
    ensures LikeScan(p, ns, facts, now, order)
  {
    CandidatesInRange(p, ns, facts, order);
    FiredMembers(p, facts, now, Scan(p, ns));
    assert forall x :: x in Scan(p, ns) ==> x in p.rules;
    FiringPassIsEnough(p, ns, facts, now, order);
  }

  lemma {:induction false} ApplyActionsKeepIds(res: Result, actions: seq<CompiledAction>)
    ensures ApplyActions(res, actions).ids == res.ids
  {
    if actions != [] {
      ApplyActionsKeepIds(res, actions[..|actions| - 1]);
    }
  }

  lemma ApplyIds(p: RuleProgram, res: Result, rule: CompiledRule)
    ensures Apply(p, res, rule).ids == res.ids + [rule.id]
  {
    ApplyActionsKeepIds(res.(matched := true, ids := res.ids + [rule.id], actions := res.actions + rule.actions),
                        rule.actions);
  }

  function IdsOf(s: seq<CompiledRule>): seq<int> {
    seq(|s|, k requires 0 <= k < |s| => s[k].id)
  }

  /** The matched ids are those of the rules that fired, in order. */
  lemma {:induction false} IdsAreFired(p: RuleProgram, facts: Option<TypedFacts>, now: int, s: seq<CompiledRule>,
                                       res: Result)
    ensures EvalList(p, facts, now, s, res).ids == res.ids + IdsOf(Fired(p, facts, now, s))
    decreases |s|
  {
    if s != [] {
      var r := s[0];
      hide Fires, StopsAfter, Apply;
      if !Fires(p, facts, now, r) {
        IdsAreFired(p, facts, now, s[1..], res);
      } else {
        ApplyIds(p, res, r);
        if !StopsAfter(p, r) {
          var rest := Fired(p, facts, now, s[1..]);
          IdsAreFired(p, facts, now, s[1..], Apply(p, res, r));
          assert IdsOf([r] + rest) == [r.id] + IdsOf(rest);
          assert res.ids + ([r.id] + IdsOf(rest)) == res.ids + [r.id] + IdsOf(rest);
        }
      }
    }
  }

  lemma {:induction false} FiredMembers(p: RuleProgram, facts: Option<TypedFacts>, now: int, s: seq<CompiledRule>)
    ensures forall r :: r in Fired(p, facts, now, s) ==> r in s && Fires(p, facts, now, r)
    decreases |s|
  {
    if s != [] {
      FiredMembers(p, facts, now, s[1..]);
    }
  }

  lemma SameIdSameRule(rules: seq<CompiledRule>, a: CompiledRule, b: CompiledRule)
    requires DistinctIds(rules) && a in rules && b in rules && a.id == b.id
    ensures a == b
  {
  }

  /** A rule that fires but does not pass the index makes the results differ: its id is missing. */
  lemma MissingRule(p: RuleProgram, facts: Option<TypedFacts>, now: int, s: seq<CompiledRule>, r: CompiledRule)
    requires DistinctIds(p.rules) && forall x :: x in s ==> x in p.rules
    requires r in Fired(p, facts, now, s) && !Passes(facts, r)
    ensures EvalList(p, facts, now, StableSort.Keep(s, PassingOn(facts)), NoResult)
            != EvalList(p, facts, now, s, NoResult)
  {
    var some := StableSort.Keep(s, PassingOn(facts));
    IdsAreFired(p, facts, now, s, NoResult);
    IdsAreFired(p, facts, now, some, NoResult);
    FiredMembers(p, facts, now, s);
    FiredMembers(p, facts, now, some);
    var fired := Fired(p, facts, now, s);
    var k :| 0 <= k < |fired| && fired[k] == r;
    assert IdsOf(fired)[k] == r.id;
    var fired' := Fired(p, facts, now, some);
    StableSort.KeepMembers(s, PassingOn(facts), r);
    forall m | 0 <= m < |fired'|
      ensures fired'[m].id != r.id
    {
      assert fired'[m] in some;
      StableSort.KeepMembers(s, PassingOn(facts), fired'[m]);
      if fired'[m].id == r.id {
        SameIdSameRule(p.rules, fired'[m], r);
      }
    }
    assert r.id in EvalList(p, facts, now, s, NoResult).ids;
    assert r.id !in EvalList(p, facts, now, some, NoResult).ids;
  }

  /** With distinct rule ids, evaluating the indexed candidates gives the same result as scanning every rule of the
      namespace if and only if every rule that fires in the scan is unindexed or its key holds. */
  lemma IndexAgreesExactly(p: RuleProgram, ns: int, facts: Option<TypedFacts>, now: int, order: seq<IndexKey>)
    requires Valid(p) && DistinctIds(p.rules) && facts.Some? && |GetBuckets(p.eqIndex, ns)| > 0
    requires VisitOrder(p, ns, order)
    ensures InRange(Get(p.byNamespace, ns), p.rules) && InRange(CandidatesBy(p, ns, facts, order), p.rules)
    ensures LikeScan(p, ns, facts, now, order)
            <==> AllPass(facts, Fired(p, facts, now, Scan(p, ns)))
  {
    CandidatesInRange(p, ns, facts, order);
    RulesAtKeep(p.rules, Get(p.byNamespace, ns), PassingOn(facts));
    OrderInvisible(p, ns, facts, order);
    DistinctHarmless(p, ns, facts, FiringAt(p, facts, now));
    FiringPassIsEnough(p, ns, facts, now, order);
    var all := Scan(p, ns);
    if !AllPass(facts, Fired(p, facts, now, all)) {
      var r :| r in Fired(p, facts, now, all) && !Passes(facts, r);
      assert forall x :: x in all ==> x in p.rules;
      MissingRule(p, facts, now, all, r);
    }
  }

  // ---------- what a tie turned round changes ----------

  lemma {:induction false} ApplyActionsAppend(res: Result, a: seq<CompiledAction>, b: seq<CompiledAction>)
    ensures ApplyActions(res, a + b) == ApplyActions(ApplyActions(res, a), b)
  {
    if b == [] {
      assert a + b == a;
    } else {
      ApplyActionsAppend(res, a, b[..|b| - 1]);
      assert (a + b)[..|a + b| - 1] == a + b[..|b| - 1];
    }
  }

  /** The flag and the score, which is all that actions read and write. */
  function Tally(res: Result): (bool, int, real) {
    (res.allowed, res.scoreValue, res.score)
  }

  lemma {:induction false} ApplyActionsFrame(x: Result, y: Result, actions: seq<CompiledAction>)
    requires Tally(x) == Tally(y)
    ensures Tally(ApplyActions(x, actions)) == Tally(ApplyActions(y, actions))
    ensures var r := ApplyActions(x, actions);
            r.matched == x.matched && r.ids == x.ids && r.decision == x.decision && r.actions == x.actions
  {
    if actions != [] {
      ApplyActionsFrame(x, y, actions[..|actions| - 1]);
    }
  }

  function Decided(p: RuleProgram, decision: string, rule: CompiledRule): string {
    if rule.decision != 0 then NameOf(p.strings, rule.decision) else decision
  }

  lemma ApplyParts(p: RuleProgram, res: Result, rule: CompiledRule)
    ensures var r := Apply(p, res, rule);
            && r.matched && r.ids == res.ids + [rule.id] && r.actions == res.actions + rule.actions
            && r.decision == Decided(p, res.decision, rule) && Tally(r) == Tally(ApplyActions(res, rule.actions))
  {
    ApplyActionsFrame(res.(matched := true, ids := res.ids + [rule.id], actions := res.actions + rule.actions), res,
                      rule.actions);
  }

  lemma ApplyTwice(p: RuleProgram, res: Result, a: CompiledRule, b: CompiledRule)
    ensures var r := Apply(p, Apply(p, res, a), b);
            && r.matched && r.ids == res.ids + [a.id, b.id] && r.actions == res.actions + (a.actions + b.actions)
            && r.decision == Decided(p, Decided(p, res.decision, a), b)
            && Tally(r) == Tally(ApplyActions(res, a.actions + b.actions))
  {
    hide Apply, ApplyActions, Decided, Tally;
    ApplyParts(p, res, a);
    ApplyParts(p, Apply(p, res, a), b);
    ApplyActionsFrame(Apply(p, res, a), ApplyActions(res, a.actions), b.actions);
    ApplyActionsAppend(res, a.actions, b.actions);
    assert res.ids + [a.id] + [b.id] == res.ids + [a.id, b.id];
    assert res.actions + a.actions + b.actions == res.actions + (a.actions + b.actions);
  }

  /** The actions of the two rules read the same in either order, and they do not set different decisions. */
  predicate Commute(p: RuleProgram, a: CompiledRule, b: CompiledRule) {
    && a.actions + b.actions == b.actions + a.actions
    && (a.decision == 0 || b.decision == 0 || NameOf(p.strings, a.decision) == NameOf(p.strings, b.decision))
  }

  lemma CommuteOn(p: RuleProgram, a: CompiledRule, b: CompiledRule, res: Result)
    requires a.id == b.id && Commute(p, a, b)
    ensures Apply(p, Apply(p, res, a), b) == Apply(p, Apply(p, res, b), a)
  {
    hide Apply, ApplyActions;
    ApplyTwice(p, res, a, b);
    ApplyTwice(p, res, b, a);
  }

  /** Two rules that tie may change places, whatever has fired before, if and only if they commute. */
  lemma TiedCommuteExactly(p: RuleProgram, a: CompiledRule, b: CompiledRule)
    requires a.id == b.id
    ensures (forall res :: Apply(p, Apply(p, res, a), b) == Apply(p, Apply(p, res, b), a)) <==> Commute(p, a, b)
  {
    hide Apply, ApplyActions;
    if Commute(p, a, b) {
      forall res
        ensures Apply(p, Apply(p, res, a), b) == Apply(p, Apply(p, res, b), a)
      {
        CommuteOn(p, a, b, res);
      }
    } else {
      ApplyTwice(p, NoResult, a, b);
      ApplyTwice(p, NoResult, b, a);
      assert NoResult.actions + (a.actions + b.actions) == a.actions + b.actions;
      assert NoResult.actions + (b.actions + a.actions) == b.actions + a.actions;
      assert Apply(p, Apply(p, NoResult, a), b) != Apply(p, Apply(p, NoResult, b), a);
    }
  }

  // ---------- the index is visible ----------

  /** One rule, `a == 1 || b == 2`, that allows, filed as the compiler files it. */
  function OrProgram(lib: Lib): RuleProgram
    requires CompileExpr(EITHER, Tables([], [], []), lib).0.Some?
  {
    var rule := CompiledRule(1, 1, 0, 0, 0, 0, 0, CompileExpr(EITHER, Tables([], [], []), lib).0.value,
                             [CompiledAction(ACTION_ALLOW, 0)], 0, AllMatches, Some(KEY_OF_A));
    RuleProgram([rule], map[1 := [0]], map[], map[1 := map[KEY_OF_A := [0]]], [], [], AllMatches)
  }

  lemma OrValid(lib: Lib)
    requires CompileExpr(EITHER, Tables([], [], []), lib).0.Some?
    ensures var p := OrProgram(lib);
            Valid(p) && DistinctIds(p.rules) && Get(p.byNamespace, 1) == [0] && VisitOrder(p, 1, [KEY_OF_A])
  {
    hide CompileExpr;
  }

  /** On facts with `b` alone the scan allows, and the index hides the rule. */
  lemma OrIndexVisible(lib: Lib)
    ensures CompileExpr(EITHER, Tables([], [], []), lib).0.Some?
    ensures var p := OrProgram(lib);
            && Valid(p) && DistinctIds(p.rules) && Get(p.byNamespace, 1) == [0]
            && VisitOrder(p, 1, [KEY_OF_A]) && CandidatesBy(p, 1, ONLY_B, [KEY_OF_A]) == []
            && EvalList(p, ONLY_B, 0, Scan(p, 1), NoResult).allowed && !EvalList(p, ONLY_B, 0, [], NoResult).allowed
  {
    hide CompileExpr, Accepts, KeyHolds, Valid, VisitOrder, Apply;
    OrIndexUnsafe(lib);
    OrValid(lib);
    var p := OrProgram(lib);
    var rule := p.rules[0];
    GatherMore(p, 1, ONLY_B, [], KEY_OF_A);
    assert [] + [KEY_OF_A] == [KEY_OF_A];
    assert Scan(p, 1) == [rule] && [rule][1..] == [];
    ApplyParts(p, NoResult, rule);
    var action := rule.actions[0];
    assert rule.actions == [action] && [action][..0] == [];
    assert ApplyActions(NoResult, [action]) == ApplyAction(NoResult, action);
  }

  /** Two rules without ids, `a == 1` that allows and `b == 2` that denies, filed as the compiler files them. */
  function TieProgram(): RuleProgram {
    var first := CompiledRule(0, 1, 0, 0, 1, 0, 0, [KeyInstruction(KEY_OF_A)], [CompiledAction(ACTION_ALLOW, 0)], 0,
                              AllMatches, Some(KEY_OF_A));
    var second := first.(code := [KeyInstruction(KEY_OF_B)], actions := [CompiledAction(ACTION_DENY, 0)],
                         index := Some(KEY_OF_B));
    RuleProgram([first, second], map[1 := [0, 1]], map[], map[1 := map[KEY_OF_A := [0], KEY_OF_B := [1]]], [], [],
                AllMatches)
  }

  const BOTH: Option<TypedFacts> := Some([Missing, VInt(1), VInt(2)])

  /** What evaluating one rule and then the other ends with. */
  function TieAllows(i: int, j: int): bool
    requires 0 <= i < 2 && 0 <= j < 2
  {
    ResultOf(TieProgram(), BOTH, 0, [i, j]).allowed
  }

  lemma TieCompiled(lib: Lib)
    ensures CompileExpr(EITHER.left, Tables([], [], []), lib).0 == Some(TieProgram().rules[0].code)
    ensures CompileExpr(EITHER.right, Tables(["a"], [], []), lib).0 == Some(TieProgram().rules[1].code)
  {
    hide CompileExpr;
    EitherCompiled(lib);
  }

  /** The indexes of the rules with a property. */
  function TieIndexes(member: CompiledRule -> bool): seq<int> {
    (if member(TieProgram().rules[0]) then [0] else []) + (if member(TieProgram().rules[1]) then [1] else [])
  }

  lemma TieLists(member: CompiledRule -> bool)
    ensures Lists(TieIndexes(member), TieProgram().rules, member, IndexOrder(TieProgram().rules))
  {
    hide KeyBefore;
    var rules := TieProgram().rules;
    assert |rules| == 2 && KeyOf(rules, 0) == KeyOf(rules, 1) && !KeyBefore(KeyOf(rules, 1), KeyOf(rules, 0)) by {
      IndexBeforeIsOrder(rules);
      assert !IndexBefore(rules)(1, 0);
    }
  }

  lemma TieValid()
    ensures Valid(TieProgram())
  {
    hide Lists, TieIndexes;
    var p := TieProgram();
    forall ns
      ensures Lists(Get(p.byNamespace, ns), p.rules, InNamespace(ns), IndexOrder(p.rules))
      ensures Lists(Get(p.defaults, ns), p.rules, Unfiled(ns), IndexOrder(p.rules))
    {
      TieLists(InNamespace(ns));
      TieLists(Unfiled(ns));
      TieFamilies(ns, KEY_OF_A);
    }
    forall ns, key
      ensures Lists(GetBucket(GetBuckets(p.eqIndex, ns), key), p.rules, FiledUnder(ns, key), IndexOrder(p.rules))
    {
      TieLists(FiledUnder(ns, key));
      TieFamilies(ns, key);
    }
  }

  lemma TieFamilies(ns: int, key: IndexKey)
    ensures var p := TieProgram();
            && Get(p.byNamespace, ns) == TieIndexes(InNamespace(ns)) && Get(p.defaults, ns) == TieIndexes(Unfiled(ns))
            && GetBucket(GetBuckets(p.eqIndex, ns), key) == TieIndexes(FiledUnder(ns, key))
  {
  }

  lemma TieFires(k: int)
    requires k == 0 || k == 1
    ensures var r := TieProgram().rules[k];
            Accepts(r.code, BOTH, []) && Passes(BOTH, r) && Fires(TieProgram(), BOTH, 0, r)
  {
    var r := TieProgram().rules[k];
    PushesOne(r.code[0], BOTH, [], true);
    AcceptsPushed(r.code, BOTH, [], true);
  }

  /** Their keys are implied by their conditions and both fire. Visited one way the buckets give the scan's denial, the
      other way the result allows. */
  lemma TieVisible()
    ensures var p := TieProgram();
            && Valid(p) && IndexedSoundly(p, BOTH) && Get(p.byNamespace, 1) == [0, 1]
            && VisitOrder(p, 1, [KEY_OF_A, KEY_OF_B]) && CandidatesBy(p, 1, BOTH, [KEY_OF_A, KEY_OF_B]) == [0, 1]
            && VisitOrder(p, 1, [KEY_OF_B, KEY_OF_A]) && CandidatesBy(p, 1, BOTH, [KEY_OF_B, KEY_OF_A]) == [1, 0]
            && !TieAllows(0, 1) && TieAllows(1, 0)
  {
    hide Accepts, Fires, Valid;
    var p := TieProgram();
    TieValid();
    TieFires(0);
    TieFires(1);
    TieOrder(KEY_OF_A, KEY_OF_B, 0, 1);
    TieOrder(KEY_OF_B, KEY_OF_A, 1, 0);
    TieResult(0, 1);
    TieResult(1, 0);
  }

  lemma GatherMore(p: RuleProgram, ns: int, facts: Option<TypedFacts>, order: seq<IndexKey>, key: IndexKey)
    ensures Gather(p, ns, facts, order + [key]) ==
            Gather(p, ns, facts, order) + if KeyHolds(facts, key) then GetBucket(GetBuckets(p.eqIndex, ns), key) else []
    ensures Gather(p, ns, facts, []) == Get(p.defaults, ns)
  {
    assert (order + [key])[..|order|] == order;
  }

  lemma TieBuckets()
    ensures var buckets := GetBuckets(TieProgram().eqIndex, 1);
            && buckets.Keys == {KEY_OF_A, KEY_OF_B} && |buckets| > 0 && Get(TieProgram().defaults, 1) == []
            && GetBucket(buckets, KEY_OF_A) == [0] && GetBucket(buckets, KEY_OF_B) == [1]
  {
    assert KEY_OF_A in GetBuckets(TieProgram().eqIndex, 1);
  }

  lemma TieOrder(first: IndexKey, second: IndexKey, i: int, j: int)
    requires (first == KEY_OF_A && second == KEY_OF_B && i == 0 && j == 1)
             || (first == KEY_OF_B && second == KEY_OF_A && i == 1 && j == 0)
    ensures VisitOrder(TieProgram(), 1, [first, second])
    ensures CandidatesBy(TieProgram(), 1, BOTH, [first, second]) == [i, j]
  {
    hide KeyHolds, Gather, GetBuckets, GetBucket, StableSort.Sort;
    var p := TieProgram();
    TieFires(0);
    TieFires(1);
    TieBuckets();
    GatherMore(p, 1, BOTH, [], first);
    GatherMore(p, 1, BOTH, [first], second);
    assert [] + [first] == [first] && [first] + [second] == [first, second];
    assert Gather(p, 1, BOTH, [first, second]) == [i, j];
    TiedStay(i, j);
  }

  lemma TwoStay(before: (int, int) -> bool, i: int, j: int)
    requires !before(j, i)
    ensures StableSort.Sort([i, j], before) == [i, j]
  {
    assert [i, j][..1] == [i];
    SortShort([i], before);
  }

  lemma TiedStay(i: int, j: int)
    requires (i == 0 || i == 1) && (j == 0 || j == 1)
    ensures StableSort.Sort([i, j], IndexBefore(TieProgram().rules)) == [i, j]
  {
    hide KeyBefore, StableSort.Sort;
    TieKeys(i, j);
    IndexBeforeIsOrder(TieProgram().rules);
    assert !IndexBefore(TieProgram().rules)(i, i);
    TwoStay(IndexBefore(TieProgram().rules), i, j);
  }

  lemma TieKeys(i: int, j: int)
    requires (i == 0 || i == 1) && (j == 0 || j == 1)
    ensures KeyOf(TieProgram().rules, i) == KeyOf(TieProgram().rules, j)
  {
  }

  lemma TieResult(i: int, j: int)
    requires (i == 0 && j == 1) || (i == 1 && j == 0)
    ensures TieAllows(i, j) == (j == 0)
  {
    hide Fires, Apply;
    var p := TieProgram();
    TieFires(i);
    TieFires(j);
    var list := RulesAt(p.rules, [i, j]);
    var mid := Apply(p, NoResult, p.rules[i]);
    assert list == [p.rules[i], p.rules[j]] && list[1..] == [p.rules[j]] && [p.rules[j]][1..] == [];
    assert EvalList(p, BOTH, 0, list, NoResult) == EvalList(p, BOTH, 0, [p.rules[j]], mid);
    assert EvalList(p, BOTH, 0, [p.rules[j]], mid) == Apply(p, mid, p.rules[j]);
    ApplyParts(p, mid, p.rules[j]);
    var action := p.rules[j].actions[0];
    assert p.rules[j].actions == [action] && [action][..0] == [];
    assert ApplyActions(mid, [action]) == ApplyAction(mid, action);
  }
}
