/** A compiled rule set (bytecode.go): building the per-namespace lists and equality buckets, choosing the
    candidate rules for given facts, and evaluating them. */
module BytecodeProgram {
  import opened Wrappers
  import opened Rules
  import opened BytecodeRegistry
  import opened BytecodeExpr
  import opened BytecodeCompiler
  import opened BytecodeVM
  import opened BytecodeIndex
  import StableSort

  datatype CompiledAction = CompiledAction(kind: int, value: int)

  datatype CompiledRule = CompiledRule(
    id: int, namespace: int, priority: int, salience: int, specificity: int, validFrom: int, validUntil: int,
    code: seq<Instruction>, actions: seq<CompiledAction>, decision: int, mode: ExecutionMode, index: Option<IndexKey>)

  type Buckets = map<IndexKey, seq<int>>

  /** `strings` is the registry's string table, read for decisions. */
  datatype RuleProgram = RuleProgram(
    rules: seq<CompiledRule>, byNamespace: map<int, seq<int>>, defaults: map<int, seq<int>>,
    eqIndex: map<int, Buckets>, sets: seq<CompiledSet>, strings: seq<string>, mode: ExecutionMode)

  datatype Result = Result(
    matched: bool, ids: seq<int>, allowed: bool, scoreValue: int, score: real, decision: string,
        actions: seq<CompiledAction>)

  const NoResult := Result(false, [], false, 0, 0.0, "", [])

  function Get(m: map<int, seq<int>>, ns: int): seq<int> {
    if ns in m then m[ns] else []
  }

  function GetBuckets(m: map<int, Buckets>, ns: int): Buckets {
    if ns in m then m[ns] else map[]
  }

  function GetBucket(m: Buckets, key: IndexKey): seq<int> {
    if key in m then m[key] else []
  }

  // ---------- rule order ----------

  datatype SortKey = SortKey(priority: int, salience: int, specificity: int, id: int)

  function KeyOf(rules: seq<CompiledRule>, i: int): SortKey {
    if 0 <= i < |rules| then SortKey(rules[i].priority, rules[i].salience, rules[i].specificity, rules[i].id)
    else SortKey(0, 0, 0, 0)
  }

  predicate KeyBefore(a: SortKey, b: SortKey) {
    if a.priority != b.priority then a.priority > b.priority
    else if a.salience != b.salience then a.salience > b.salience
    else if a.specificity != b.specificity then a.specificity > b.specificity
    else a.id < b.id
  }

  /** The order of `sortRuleIndexes`. */
  function IndexBefore(rules: seq<CompiledRule>): (int, int) -> bool {
    (i: int, j: int) => KeyBefore(KeyOf(rules, i), KeyOf(rules, j))
  }

  lemma IndexBeforeIsOrder(rules: seq<CompiledRule>)
    ensures StableSort.Order(IndexBefore(rules))
  {
  }

  /** The order of lists that were sorted from ascending ones: rules that tie stay as they were compiled. */
  function IndexOrder(rules: seq<CompiledRule>): (int, int) -> bool {
    (i: int, j: int) => KeyBefore(KeyOf(rules, i), KeyOf(rules, j)) || (KeyOf(rules, i) == KeyOf(rules, j) && i < j)
  }

  function Ascending(): (int, int) -> bool {
    (i: int, j: int) => i < j
  }

  ghost predicate DistinctIds(rules: seq<CompiledRule>) {
    forall i, j :: 0 <= i < j < |rules| ==> rules[i].id != rules[j].id
  }

  /** The sort never has to choose between two rules. */
  ghost predicate DistinctKeys(rules: seq<CompiledRule>) {
    forall i, j :: 0 <= i < j < |rules| ==> KeyOf(rules, i) != KeyOf(rules, j)
  }

  ghost predicate InRange(s: seq<int>, rules: seq<CompiledRule>) {
    forall k :: 0 <= k < |s| ==> 0 <= s[k] < |rules|
  }

  lemma KeysApart(s: seq<int>, rules: seq<CompiledRule>)
    requires DistinctKeys(rules) && forall x :: x in s ==> 0 <= x < |rules|
    ensures StableSort.Apart(s, IndexBefore(rules))
  {
    forall x, y | x in s && y in s && x != y
      ensures IndexBefore(rules)(x, y) || IndexBefore(rules)(y, x)
    {
      assert KeyOf(rules, if x < y then x else y) != KeyOf(rules, if x < y then y else x);
    }
  }

  /** Two arrangements of the same indexes sort to the same list. */
  lemma SortSame(s: seq<int>, t: seq<int>, rules: seq<CompiledRule>)
    requires StableSort.NoDuplicates(s) && StableSort.NoDuplicates(t) && StableSort.SameMembers(s, t)
    requires DistinctKeys(rules) && InRange(s, rules) && StableSort.Sorted(t, IndexBefore(rules))
    ensures StableSort.Sort(s, IndexBefore(rules)) == t
  {
    StableSort.NoDuplicatesSame(s, t);
    var before := IndexBefore(rules);
    var r := StableSort.Sort(s, before);
    IndexBeforeIsOrder(rules);
    StableSort.SortSorted(s, before);
    StableSort.SortPermutes(s, before);
    StableSort.SortMembers(s, before);
    KeysApart(r, rules);
    hide KeyBefore, KeyOf, IndexBefore, StableSort.Sort;
    StableSort.SortedUnique(r, t, before);
  }

  // ---------- building the index ----------

  /** `s` lists the rules with the property, each once, in order. */
  ghost predicate Lists(s: seq<int>, rules: seq<CompiledRule>, member: CompiledRule -> bool,
                        order: (int, int) -> bool) {
    && StableSort.NoDuplicates(s) && StableSort.Sorted(s, order)
    && forall i :: i in s <==> 0 <= i < |rules| && member(rules[i])
  }

  function InNamespace(ns: int): CompiledRule -> bool {
    (r: CompiledRule) => r.namespace == ns
  }

  function Unfiled(ns: int): CompiledRule -> bool {
    (r: CompiledRule) => r.namespace == ns && r.index.None?
  }

  function FiledUnder(ns: int, key: IndexKey): CompiledRule -> bool {
    (r: CompiledRule) => r.namespace == ns && r.index == Some(key)
  }

  ghost predicate WellIndexed(rules: seq<CompiledRule>, byNamespace: map<int, seq<int>>, defaults: map<int, seq<int>>,
                              eqIndex: map<int, Buckets>, order: (int, int) -> bool) {
    && (forall ns :: Lists(Get(byNamespace, ns), rules, InNamespace(ns), order))
    && (forall ns :: Lists(Get(defaults, ns), rules, Unfiled(ns), order))
    && (forall ns, key :: Lists(GetBucket(GetBuckets(eqIndex, ns), key), rules, FiledUnder(ns, key), order))
  }

  function SortAll(m: map<int, seq<int>>, rules: seq<CompiledRule>): map<int, seq<int>> {
    map ns | ns in m :: StableSort.Sort(m[ns], IndexBefore(rules))
  }

  function SortBuckets(m: Buckets, rules: seq<CompiledRule>): Buckets {
    map key | key in m :: StableSort.Sort(m[key], IndexBefore(rules))
  }

  /** Sorting an ascending list puts ties in ascending order. */
  lemma ListsSorted(s: seq<int>, rules: seq<CompiledRule>, member: CompiledRule -> bool)
    requires Lists(s, rules, member, Ascending())
    ensures Lists(StableSort.Sort(s, IndexBefore(rules)), rules, member, IndexOrder(rules))
  {
    var before := IndexBefore(rules);
    var r := StableSort.Sort(s, before);
    IndexBeforeIsOrder(rules);
    StableSort.SortMembers(s, before);
    StableSort.SortNoDuplicates(s, before);
    StableSort.SortSorted(s, before);
    forall i, j | 0 <= i < j < |r|
      ensures !IndexOrder(rules)(r[j], r[i])
    {
      assert r[i] in r && r[j] in r && StableSort.Precedes(r, r[i], r[j]);
      if r[j] < r[i] {
        StableSort.SortedPrecedes(s, Ascending(), r[j], r[i]);
      }
      if !before(r[i], r[j]) {
        StableSort.TiesAsBefore(s, before, r[i], r[j]);
      }
    }
  }

  lemma ListsStep(s: seq<int>, rules: seq<CompiledRule>, r: CompiledRule, member: CompiledRule -> bool)
    requires Lists(s, rules, member, Ascending())
    ensures Lists(if member(r) then s + [|rules|] else s, rules + [r], member, Ascending())
  {
    var s', rules' := if member(r) then s + [|rules|] else s, rules + [r];
    forall i
      ensures i in s' <==> 0 <= i < |rules'| && member(rules'[i])
    {
      assert i in s' <==> i in s || (member(r) && i == |rules|);
      if 0 <= i < |rules| {
        assert rules'[i] == rules[i];
      }
    }
    assert forall k :: 0 <= k < |s| ==> s[k] in s;
  }

  /** The loops of `CompileRuleSet` that file every compiled rule and sort the lists. */
  method BuildIndex(rules: seq<CompiledRule>)
    returns (byNamespace: map<int, seq<int>>, defaults: map<int, seq<int>>, eqIndex: map<int, Buckets>)
    ensures WellIndexed(rules, byNamespace, defaults, eqIndex, IndexOrder(rules))
  {
    byNamespace, defaults, eqIndex := map[], map[], map[];
    for idx := 0 to |rules|
      invariant WellIndexed(rules[..idx], byNamespace, defaults, eqIndex, Ascending())
    {
      var r := rules[idx];
      ghost var b, d, e := byNamespace, defaults, eqIndex;
      byNamespace := byNamespace[r.namespace := Get(byNamespace, r.namespace) + [idx]];
      if r.index.Some? {
        var buckets := GetBuckets(eqIndex, r.namespace);
        buckets := buckets[r.index.value := GetBucket(buckets, r.index.value) + [idx]];
        eqIndex := eqIndex[r.namespace := buckets];
      } else {
        defaults := defaults[r.namespace := Get(defaults, r.namespace) + [idx]];
      }
      FileStep(rules, idx, b, d, e, byNamespace, defaults, eqIndex);
    }
    assert rules[..|rules|] == rules;
    ghost var b, d, e := byNamespace, defaults, eqIndex;
    byNamespace := SortAll(byNamespace, rules);
    defaults := SortAll(defaults, rules);
    eqIndex := map ns | ns in eqIndex :: SortBuckets(eqIndex[ns], rules);
    SortStep(rules, b, d, e, byNamespace, defaults, eqIndex);
  }

  lemma FileStep(rules: seq<CompiledRule>, idx: nat, b: map<int, seq<int>>, d: map<int, seq<int>>, e: map<int, Buckets>,
                 b': map<int, seq<int>>, d': map<int, seq<int>>, e': map<int, Buckets>)
    requires idx < |rules| && WellIndexed(rules[..idx], b, d, e, Ascending())
    requires var r := rules[idx];
             && b' == b[r.namespace := Get(b, r.namespace) + [idx]]
             && match r.index
                case None => e' == e && d' == d[r.namespace := Get(d, r.namespace) + [idx]]
                case Some(key) =>
                  var buckets := GetBuckets(e, r.namespace);
                  d' == d && e' == e[r.namespace := buckets[key := GetBucket(buckets, key) + [idx]]]
    ensures WellIndexed(rules[..idx + 1], b', d', e', Ascending())
  {
    var r, before := rules[idx], rules[..idx];
    assert rules[..idx + 1] == before + [r];
    forall ns
      ensures Lists(Get(b', ns), before + [r], InNamespace(ns), Ascending())
      ensures Lists(Get(d', ns), before + [r], Unfiled(ns), Ascending())
    {
      ListsStep(Get(b, ns), before, r, InNamespace(ns));
      ListsStep(Get(d, ns), before, r, Unfiled(ns));
    }
    forall ns, key
      ensures Lists(GetBucket(GetBuckets(e', ns), key), before + [r], FiledUnder(ns, key), Ascending())
    {
      ListsStep(GetBucket(GetBuckets(e, ns), key), before, r, FiledUnder(ns, key));
    }
  }

  lemma SortStep(rules: seq<CompiledRule>, b: map<int, seq<int>>, d: map<int, seq<int>>, e: map<int, Buckets>,
                 b': map<int, seq<int>>, d': map<int, seq<int>>, e': map<int, Buckets>)
    requires WellIndexed(rules, b, d, e, Ascending())
    requires b' == SortAll(b, rules) && d' == SortAll(d, rules) && e' == map ns | ns in e :: SortBuckets(e[ns], rules)
    ensures WellIndexed(rules, b', d', e', IndexOrder(rules))
  {
    forall ns
      ensures Lists(Get(b', ns), rules, InNamespace(ns), IndexOrder(rules))
      ensures Lists(Get(d', ns), rules, Unfiled(ns), IndexOrder(rules))
    {
      ListsSorted(Get(b, ns), rules, InNamespace(ns));
      ListsSorted(Get(d, ns), rules, Unfiled(ns));
    }
    forall ns, key
      ensures Lists(GetBucket(GetBuckets(e', ns), key), rules, FiledUnder(ns, key), IndexOrder(rules))
    {
      ListsSorted(GetBucket(GetBuckets(e, ns), key), rules, FiledUnder(ns, key));
    }
  }

  // ---------- candidates ----------

  ghost predicate Valid(p: RuleProgram) {
    WellIndexed(p.rules, p.byNamespace, p.defaults, p.eqIndex, IndexOrder(p.rules))
  }

  /** The index lets a rule through when it has no key or its key holds. */
  predicate Passes(facts: Option<TypedFacts>, r: CompiledRule) {
    r.index.None? || KeyHolds(facts, r.index.value)
  }

  function PassingOn(facts: Option<TypedFacts>): CompiledRule -> bool {
    (r: CompiledRule) => Passes(facts, r)
  }

  /** Indexes of rules with a property. */
  function Where(rules: seq<CompiledRule>, f: CompiledRule -> bool): int -> bool {
    (i: int) => 0 <= i < |rules| && f(rules[i])
  }

  /** The rules of the namespace that the index lets through, in the order of a scan. */
  function CandidateList(p: RuleProgram, ns: int, facts: Option<TypedFacts>): seq<int> {
    if |GetBuckets(p.eqIndex, ns)| == 0 || facts.None? then Get(p.byNamespace, ns)
    else StableSort.Keep(Get(p.byNamespace, ns), Where(p.rules, PassingOn(facts)))
  }

  /** Go visits the buckets of a namespace in any order, each once. */
  ghost predicate VisitOrder(p: RuleProgram, ns: int, order: seq<IndexKey>) {
    StableSort.NoDuplicates(order) && forall key :: key in order <==> key in GetBuckets(p.eqIndex, ns)
  }

  /** The unsorted candidates once the buckets in `order` have been visited. */
  function Gather(p: RuleProgram, ns: int, facts: Option<TypedFacts>, order: seq<IndexKey>): seq<int> {
    if order == [] then Get(p.defaults, ns)
    else
      var key := order[|order| - 1];
      Gather(p, ns, facts, order[..|order| - 1]) +
      if KeyHolds(facts, key) then GetBucket(GetBuckets(p.eqIndex, ns), key) else []
  }

  /** What `candidates` answers when it visits the buckets in this order. */
  function CandidatesBy(p: RuleProgram, ns: int, facts: Option<TypedFacts>, order: seq<IndexKey>): seq<int> {
    if |GetBuckets(p.eqIndex, ns)| == 0 || facts.None? then Get(p.byNamespace, ns)
    else StableSort.Sort(Gather(p, ns, facts, order), IndexBefore(p.rules))
  }

  lemma {:induction false} AnyOrder(keys: set<IndexKey>) returns (order: seq<IndexKey>)
    ensures StableSort.NoDuplicates(order) && forall key :: key in order <==> key in keys
  {
    order := [];
    if keys != {} {
      var key :| key in keys;
      var rest := AnyOrder(keys - {key});
      order := rest + [key];
    }
  }

  /** `candidates`. */
  method Candidates(p: RuleProgram, ns: int, facts: Option<TypedFacts>)
    returns (out: seq<int>, ghost order: seq<IndexKey>)
    ensures VisitOrder(p, ns, order) && out == CandidatesBy(p, ns, facts, order)
  {
    var index := GetBuckets(p.eqIndex, ns);
    if |index| == 0 || facts.None? {
      order := AnyOrder(index.Keys);
      return Get(p.byNamespace, ns), order;
    }
    out, order := Get(p.defaults, ns), [];
    var keys := index.Keys;
    while keys != {}
      invariant keys <= index.Keys
      invariant StableSort.NoDuplicates(order) && forall key :: key in order <==> key in index && key !in keys
      invariant out == Gather(p, ns, facts, order)
      decreases keys
    {
      var key :| key in keys;
      assert (order + [key])[..|order|] == order;
      keys, order := keys - {key}, order + [key];
      if KeyHolds(facts, key) {
        out := out + index[key];
      }
    }
    if |out| > 1 {
      out := StableSort.Sort(out, IndexBefore(p.rules));
    } else {
      SortShort(out, IndexBefore(p.rules));
    }
  }

  lemma SortShort(s: seq<int>, before: (int, int) -> bool)
    requires |s| <= 1
    ensures StableSort.Sort(s, before) == s
  {
    if |s| == 1 {
      assert s[..0] == [] && StableSort.Sort(s[..0], before) == [];
    }
  }

  /** A rule that is gathered once the buckets in `order` have been visited. */
  predicate IsGathered(p: RuleProgram, ns: int, facts: Option<TypedFacts>, order: seq<IndexKey>, i: int) {
    && 0 <= i < |p.rules| && p.rules[i].namespace == ns
    && Passes(facts, p.rules[i]) && (p.rules[i].index.None? || p.rules[i].index.value in order)
  }

  lemma BucketMembers(p: RuleProgram, ns: int, key: IndexKey)
    requires Valid(p)
    ensures var bucket := GetBucket(GetBuckets(p.eqIndex, ns), key);
            && StableSort.NoDuplicates(bucket)
            && forall i :: i in bucket <==>
                             0 <= i < |p.rules| && p.rules[i].namespace == ns && p.rules[i].index == Some(key)
  {
    assert Lists(GetBucket(GetBuckets(p.eqIndex, ns), key), p.rules, FiledUnder(ns, key), IndexOrder(p.rules));
  }

  /** Each candidate is gathered once, whatever the order. */
  lemma {:induction false} Gathered(p: RuleProgram, ns: int, facts: Option<TypedFacts>, order: seq<IndexKey>)
    requires Valid(p) && StableSort.NoDuplicates(order)
    ensures StableSort.NoDuplicates(Gather(p, ns, facts, order))
    ensures forall i :: i in Gather(p, ns, facts, order) <==> IsGathered(p, ns, facts, order, i)
  {
    if order == [] {
      assert Lists(Get(p.defaults, ns), p.rules, Unfiled(ns), IndexOrder(p.rules));
    } else {
      hide Valid, KeyHolds, GetBucket, StableSort.NoDuplicates;
      var n := |order| - 1;
      var key, front := order[n], Gather(p, ns, facts, order[..n]);
      OrderFront(order);
      Gathered(p, ns, facts, order[..n]);
      BucketMembers(p, ns, key);
      var bucket := GetBucket(GetBuckets(p.eqIndex, ns), key);
      forall i | i in front
        ensures i !in bucket
      {
        assert IsGathered(p, ns, facts, order[..n], i);
      }
      if KeyHolds(facts, key) {
        StableSort.JoinedNoDuplicates(front, bucket);
      } else {
        assert front + [] == front;
      }
    }
  }

  lemma OrderFront(order: seq<IndexKey>)
    requires order != [] && StableSort.NoDuplicates(order)
    ensures var front, last := order[..|order| - 1], order[|order| - 1];
            && StableSort.NoDuplicates(front) && last !in front
            && forall key :: key in order <==> key in front || key == last
  {
    assert order == order[..|order| - 1] + [order[|order| - 1]];
  }

  /** The candidates are the same rules in every order. */
  lemma CandidateMembers(p: RuleProgram, ns: int, facts: Option<TypedFacts>, order: seq<IndexKey>)
    requires Valid(p) && VisitOrder(p, ns, order) && facts.Some? && |GetBuckets(p.eqIndex, ns)| > 0
    ensures StableSort.NoDuplicates(CandidatesBy(p, ns, facts, order))
    ensures StableSort.NoDuplicates(CandidateList(p, ns, facts))
    ensures forall i :: i in CandidatesBy(p, ns, facts, order) <==> IsCandidate(p, ns, facts, i)
    ensures forall i :: i in CandidateList(p, ns, facts) <==> IsCandidate(p, ns, facts, i)
    ensures forall i :: i in Gather(p, ns, facts, order) <==> IsCandidate(p, ns, facts, i)
  {
    hide Valid, Gather, KeyHolds, StableSort.Sort, StableSort.NoDuplicates;
    var out := Gather(p, ns, facts, order);
    Gathered(p, ns, facts, order);
    StableSort.SortMembers(out, IndexBefore(p.rules));
    StableSort.SortNoDuplicates(out, IndexBefore(p.rules));
    ListMembers(p, ns, facts);
    forall i
      ensures i in out <==> IsCandidate(p, ns, facts, i)
    {
      if 0 <= i < |p.rules| && p.rules[i].namespace == ns && p.rules[i].index.Some? {
        BucketThere(p, ns, i);
      }
    }
  }

  lemma ListMembers(p: RuleProgram, ns: int, facts: Option<TypedFacts>)
    requires Valid(p) && facts.Some? && |GetBuckets(p.eqIndex, ns)| > 0
    ensures StableSort.NoDuplicates(CandidateList(p, ns, facts))
    ensures forall i :: i in CandidateList(p, ns, facts) <==> IsCandidate(p, ns, facts, i)
  {
    hide Passes;
    var all := Get(p.byNamespace, ns);
    assert Lists(all, p.rules, InNamespace(ns), IndexOrder(p.rules));
    StableSort.KeepNoDuplicates(all, Where(p.rules, PassingOn(facts)));
    forall i
      ensures i in CandidateList(p, ns, facts) <==> IsCandidate(p, ns, facts, i)
    {
      StableSort.KeepMembers(all, Where(p.rules, PassingOn(facts)), i);
    }
  }

  predicate IsCandidate(p: RuleProgram, ns: int, facts: Option<TypedFacts>, i: int) {
    0 <= i < |p.rules| && p.rules[i].namespace == ns && Passes(facts, p.rules[i])
  }

  lemma BucketThere(p: RuleProgram, ns: int, i: nat)
    requires Valid(p) && i < |p.rules| && p.rules[i].namespace == ns && p.rules[i].index.Some?
    ensures p.rules[i].index.value in GetBuckets(p.eqIndex, ns)
  {
    var key := p.rules[i].index.value;
    assert Lists(GetBucket(GetBuckets(p.eqIndex, ns), key), p.rules, FiledUnder(ns, key), IndexOrder(p.rules));
    assert i in GetBucket(GetBuckets(p.eqIndex, ns), key);
  }

  lemma CandidatesInRange(p: RuleProgram, ns: int, facts: Option<TypedFacts>, order: seq<IndexKey>)
    requires Valid(p) && VisitOrder(p, ns, order)
    ensures InRange(Get(p.byNamespace, ns), p.rules)
    ensures InRange(CandidateList(p, ns, facts), p.rules) && InRange(CandidatesBy(p, ns, facts, order), p.rules)
  {
    var all, some, visited := Get(p.byNamespace, ns), CandidateList(p, ns, facts), CandidatesBy(p, ns, facts, order);
    assert Lists(all, p.rules, InNamespace(ns), IndexOrder(p.rules));
    if facts.Some? && |GetBuckets(p.eqIndex, ns)| > 0 {
      CandidateMembers(p, ns, facts, order);
    }
    assert forall k :: 0 <= k < |all| ==> all[k] in all;
    assert forall k :: 0 <= k < |some| ==> some[k] in some;
    assert forall k :: 0 <= k < |visited| ==> visited[k] in visited;
  }

  // ---------- evaluation ----------

  predicate Fires(p: RuleProgram, facts: Option<TypedFacts>, now: int, rule: CompiledRule) {
    ActiveAt(rule.validFrom, rule.validUntil, now) && Accepts(rule.code, facts, p.sets)
  }

  function ApplyAction(res: Result, a: CompiledAction): Result {
    if a.kind == ACTION_ALLOW then res.(allowed := true)
    else if a.kind == ACTION_DENY then res.(allowed := false)
    else if a.kind == ACTION_SCORE then
        res.(scoreValue := res.scoreValue + a.value, score := res.score + a.value as real)
    else res
  }

  function ApplyActions(res: Result, actions: seq<CompiledAction>): Result {
    if actions == [] then res else ApplyAction(ApplyActions(res, actions[..|actions| - 1]), actions[|actions| - 1])
  }

  /** The result after a rule has fired. */
  function Apply(p: RuleProgram, res: Result, rule: CompiledRule): Result {
    var r := ApplyActions(res.(matched := true, ids := res.ids + [rule.id], actions := res.actions + rule.actions),
                          rule.actions);
    if rule.decision != 0 then r.(decision := NameOf(p.strings, rule.decision)) else r
  }

  predicate HasKind(actions: seq<CompiledAction>, kind: int) {
    exists k :: 0 <= k < |actions| && actions[k].kind == kind
  }

  predicate StopsAfter(p: RuleProgram, rule: CompiledRule) {
    || rule.mode == FirstMatch || p.mode == FirstMatch || rule.mode == HighestPriority || p.mode == HighestPriority
    || ((rule.mode == DenyOverrides || p.mode == DenyOverrides) && HasKind(rule.actions, ACTION_DENY))
    || ((rule.mode == AllowOverrides || p.mode == AllowOverrides) && HasKind(rule.actions, ACTION_ALLOW))
  }

  /** The evaluation loop over the candidate rules. */
  function EvalList(p: RuleProgram, facts: Option<TypedFacts>, now: int, s: seq<CompiledRule>, res: Result): Result
    decreases |s|
  {
    if s == [] then res
    else if !Fires(p, facts, now, s[0]) then EvalList(p, facts, now, s[1..], res)
    else if StopsAfter(p, s[0]) then Apply(p, res, s[0])
    else EvalList(p, facts, now, s[1..], Apply(p, res, s[0]))
  }

  /** The rules that fire before the loop stops. */
  function Fired(p: RuleProgram, facts: Option<TypedFacts>, now: int, s: seq<CompiledRule>): seq<CompiledRule>
    decreases |s|
  {
    if s == [] then []
    else if !Fires(p, facts, now, s[0]) then Fired(p, facts, now, s[1..])
    else if StopsAfter(p, s[0]) then [s[0]]
    else [s[0]] + Fired(p, facts, now, s[1..])
  }

  function RulesAt(rules: seq<CompiledRule>, s: seq<int>): seq<CompiledRule>
    requires InRange(s, rules)
  {
    seq(|s|, k requires 0 <= k < |s| => rules[s[k]])
  }

  /** Running this rule's code neither underflows the stack nor names a negative set. */
  ghost predicate Runs(p: RuleProgram, facts: Option<TypedFacts>, r: CompiledRule) {
    Exec(r.code, facts, p.sets, 0, []).Some? && forall k :: 0 <= k < |r.code| ==> 0 <= r.code[k].setId
  }

  /** `Program.Evaluate`; code that underflows makes the Go library panic. */
  method Evaluate(p: RuleProgram, ns: int, facts: Option<TypedFacts>, now: int)
    returns (out: Result, ghost order: seq<IndexKey>)
    requires Valid(p) && SetsSorted(p.sets)
    requires forall k :: 0 <= k < |p.rules| ==> Runs(p, facts, p.rules[k])
    ensures VisitOrder(p, ns, order) && InRange(CandidatesBy(p, ns, facts, order), p.rules)
    ensures out == EvalList(p, facts, now, RulesAt(p.rules, CandidatesBy(p, ns, facts, order)), NoResult)
  {
    var candidates;
    candidates, order := Candidates(p, ns, facts);
    CandidatesInRange(p, ns, facts, order);
    var rules := RulesAt(p.rules, candidates);
    out := NoResult;
    for i := 0 to |rules|
      invariant EvalList(p, facts, now, rules, NoResult) == EvalList(p, facts, now, rules[i..], out)
    {
      var rule := rules[i];
      assert Runs(p, facts, rule);
      assert rules[i..][0] == rule && rules[i..][1..] == rules[i + 1..];
      if rule.validFrom > 0 && now < rule.validFrom {
        continue;
      }
      if rule.validUntil > 0 && now > rule.validUntil {
        continue;
      }
      var ok := EvalInstructions(rule.code, facts, p.sets);
      if !ok {
        continue;
      }
      out := ApplyRule(p, out, rule);
      if StopsAfter(p, rule) {
        return;
      }
    }
  }

  method ApplyRule(p: RuleProgram, res: Result, rule: CompiledRule) returns (out: Result)
    ensures out == Apply(p, res, rule)
  {
    out := res.(matched := true, ids := res.ids + [rule.id], actions := res.actions + rule.actions);
    ghost var start := out;
    for i := 0 to |rule.actions|
      invariant out == ApplyActions(start, rule.actions[..i])
    {
      assert rule.actions[..i + 1][..i] == rule.actions[..i];
      var a := rule.actions[i];
      if a.kind == ACTION_ALLOW {
        out := out.(allowed := true);
      } else if a.kind == ACTION_DENY {
        out := out.(allowed := false);
      } else if a.kind == ACTION_SCORE {
        out := out.(scoreValue := out.scoreValue + a.value, score := out.score + a.value as real);
      }
    }
    assert rule.actions[..|rule.actions|] == rule.actions;
    if rule.decision != 0 {
      out := out.(decision := NameOf(p.strings, rule.decision));
    }
  }
}
