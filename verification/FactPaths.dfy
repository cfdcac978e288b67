/** Path-addressed facts: storing at a path of keys and indexes (source.go) and looking one up (facts.go). */
module FactPaths {
  import opened Wrappers
  import opened Utf8
  import opened FactTree
  import opened Heap = FactHeap
  import BclValue

  /** `parseIndex`: `strconv.Atoi`, and not negative. */
  function ParseIndex(s: Bytes): Option<nat> {
    var n := BclValue.ParseInt(s);
    if n.None? || n.value < 0 then None else Some(n.value)
  }

  /** A container for the next segment. */
  function Empty<V>(next: Bytes): (t: Tree<V>)
    ensures t == MapT(map[]) || t == SliceT([])
  {
    if ParseIndex(next).Some? then SliceT([]) else MapT(map[])
  }

  /** `growSlice`. */
  function Grow<T>(items: seq<T>, size: nat, nil: T): (r: seq<T>)
    ensures |r| >= size && |r| >= |items| && r[..|items|] == items
    ensures forall k :: |items| <= k < |r| ==> r[k] == nil
    ensures |items| >= size ==> r == items
  {
    if |items| >= size then items else items + seq(size - |items|, _ => nil)
  }

  /** The value to store: `nil` or a plain value. */
  function ValueTree<V>(v: Option<V>): Tree<V> {
    if v.None? then NilT else LeafT(v.value)
  }

  function ValueRef<V>(v: Option<V>): Ref<V> {
    if v.None? then Nil else Leaf(v.value)
  }

  /** `setFactPath` on a tree, and whether it succeeds. A failure keeps what was created on the way. */
  function Set<V>(t: Tree<V>, parts: seq<Bytes>, v: Option<V>): (Tree<V>, bool)
    requires parts != []
    decreases |parts|
  {
    if parts[0] == [] then (t, false)
    else
      match t
      case MapT(m) =>
        if |parts| == 1 then (MapT(m[parts[0] := ValueTree(v)]), true)
        else
          var (c, ok) := Set(if parts[0] in m then m[parts[0]] else Empty(parts[1]), parts[1..], v);
          (MapT(m[parts[0] := c]), ok)
      case SliceT(items) =>
        var i := ParseIndex(parts[0]);
        if i.None? then (t, false)
        else
          var grown := Grow(items, i.value + 1, NilT);
          if |parts| == 1 then (SliceT(grown[i.value := ValueTree(v)]), true)
          else
            var (c, ok) := Set(if grown[i.value].NilT? then Empty(parts[1]) else grown[i.value], parts[1..], v);
            (SliceT(grown[i.value := c]), ok)
      case _ => (t, false)
  }

  /** `lookupParts` on maps and slices. */
  function Lookup<V>(t: Tree<V>, parts: seq<Bytes>): Option<Tree<V>>
    decreases |parts|
  {
    if parts == [] then Some(t)
    else
      match t
      case MapT(m) => if parts[0] in m then Lookup(m[parts[0]], parts[1..]) else None
      case SliceT(items) =>
        var i := ParseIndex(parts[0]);
        if i.Some? && i.value < |items| then Lookup(items[i.value], parts[1..]) else None
      case _ => None
  }

  // ---------- what a store changes ----------

  /** A path that was stored at is found, with its value. */
  lemma {:induction false} SetThenLookup<V>(t: Tree<V>, parts: seq<Bytes>, v: Option<V>)
    requires parts != [] && Set(t, parts, v).1
    ensures Lookup(Set(t, parts, v).0, parts) == Some(ValueTree(v))
    decreases |parts|
  {
    if |parts| > 1 {
      match t
      case MapT(m) =>
        SetThenLookup(if parts[0] in m then m[parts[0]] else Empty(parts[1]), parts[1..], v);
      case SliceT(items) =>
        var i := ParseIndex(parts[0]).value;
        var grown := Grow(items, i + 1, NilT);
        SetThenLookup(if grown[i].NilT? then Empty(parts[1]) else grown[i], parts[1..], v);
    }
  }

  /** Two segments that can name the same place. */
  predicate Agree(a: Bytes, b: Bytes) {
    a == b || (ParseIndex(a).Some? && ParseIndex(a) == ParseIndex(b))
  }

  /** Two paths that part at some segment. */
  predicate Diverge(p: seq<Bytes>, q: seq<Bytes>) {
    p != [] && q != [] && (!Agree(p[0], q[0]) || Diverge(p[1..], q[1..]))
  }

  /** A store, successful or not, keeps every value on a path that parts from its own; a place that was not there before
      can only be a gap of a grown slice. */
  lemma {:induction false} SetKeeps<V>(t: Tree<V>, parts: seq<Bytes>, v: Option<V>, q: seq<Bytes>)
    requires Diverge(parts, q)
    ensures Lookup(t, q).Some? ==> Lookup(Set(t, parts, v).0, q) == Lookup(t, q)
    ensures Lookup(t, q).None? && Lookup(Set(t, parts, v).0, q).Some? ==> Lookup(Set(t, parts, v).0, q) == Some(NilT)
    decreases |parts|
  {
    hide Grow;
    if parts[0] != [] {
      match t
      case MapT(m) =>
        if |parts| > 1 && parts[0] == q[0] {
          var c := if parts[0] in m then m[parts[0]] else Empty(parts[1]);
          SetKeeps(c, parts[1..], v, q[1..]);
          EmptyLookup<V>(parts[1], q[1..]);
        }
      case SliceT(items) =>
        var i, j := ParseIndex(parts[0]), ParseIndex(q[0]);
        if i.Some? && j.Some? {
          var grown := Grow(items, i.value + 1, NilT);
          if i == j && |parts| > 1 {
            var c := if grown[i.value].NilT? then Empty(parts[1]) else grown[i.value];
            SetKeeps(c, parts[1..], v, q[1..]);
            EmptyLookup<V>(parts[1], q[1..]);
          } else if i != j {
            NilLookup<V>(q[1..]);
          }
        }
      case _ =>
    }
  }

  lemma NilLookup<V>(q: seq<Bytes>)
    ensures Lookup<V>(NilT, q) == if q == [] then Some(NilT) else None
  {
  }

  lemma EmptyLookup<V>(next: Bytes, q: seq<Bytes>)
    requires q != []
    ensures Lookup<V>(Empty(next), q) == None && Lookup<V>(NilT, q) == None
  {
  }

  // ---------- exactly when a store succeeds ----------

  /** Nothing is there: the lookup fails, or it ends at a nil in a slice. */
  predicate Absent<V>(t: Tree<V>, parts: seq<Bytes>, k: nat)
    requires k <= |parts|
  {
    match Lookup(t, parts[..k])
    case None => true
    case Some(NilT) => k > 0 && Lookup(t, parts[..k - 1]).Some? && Lookup(t, parts[..k - 1]).value.SliceT?
    case _ => false
  }

  /** The segment is not empty, and the node it applies to is absent, a map, or a slice that it indexes. */
  predicate Takes<V>(t: Tree<V>, parts: seq<Bytes>, k: nat)
    requires k < |parts|
  {
    && parts[k] != []
    && (Absent(t, parts, k)
        || match Lookup(t, parts[..k]).value
           case MapT(_) => true
           case SliceT(_) => ParseIndex(parts[k]).Some?
           case _ => false)
  }

  predicate CanStore<V>(t: Tree<V>, parts: seq<Bytes>) {
    forall k :: 0 <= k < |parts| ==> Takes(t, parts, k)
  }

  predicate NoneEmpty(parts: seq<Bytes>) {
    forall k :: 0 <= k < |parts| ==> parts[k] != []
  }

  /** The step a segment names in a node. */
  function StepOf<V>(t: Tree<V>, part: Bytes): Step {
    if t.SliceT? then Index(ParseIndex(part).GetOr(0)) else Key(part)
  }

  /** What a path finds below its first segment. */
  lemma LookupBelow<V>(t: Tree<V>, parts: seq<Bytes>, k: nat)
    requires 0 < k <= |parts|
    ensures Lookup(t, parts[..k]) ==
            match Child(t, StepOf(t, parts[0]))
            case Some(c) =>
              if t.SliceT? && ParseIndex(parts[0]).None? then None else Lookup(c, parts[1..][..k - 1])
            case None => None
  {
    hide ParseIndex;
    assert parts[..k][0] == parts[0] && parts[..k][1..] == parts[1..][..k - 1];
  }

  lemma NothingBelow<V>(t: Tree<V>, parts: seq<Bytes>, k: nat)
    requires k <= |parts| && (t.NilT? || t.LeafT? || t == MapT(map[]) || t == SliceT([]))
    ensures k > 0 ==> Lookup(t, parts[..k]) == None
    ensures k == 0 ==> Lookup(t, parts[..k]) == Some(t)
  {
    hide ParseIndex;
  }

  /** Into a fresh container every path without an empty segment can be stored. */
  lemma {:induction false} EmptyStores<V>(parts: seq<Bytes>, v: Option<V>)
    requires parts != []
    ensures Set<V>(Empty(parts[0]), parts, v).1 <==> NoneEmpty(parts)
    decreases |parts|
  {
    hide ParseIndex;
    if parts[0] != [] && |parts| > 1 {
      EmptyStores(parts[1..], v);
      assert forall k :: 0 <= k < |parts| ==> parts[k] == if k == 0 then parts[0] else parts[1..][k - 1];
      assert forall k :: 0 <= k < |parts[1..]| ==> parts[1..][k] == parts[k + 1];
    }
  }

  /** Whether the first segment finds a child to descend into. */
  predicate HasChild<V>(t: Tree<V>, part: Bytes) {
    match t
    case MapT(m) => part in m
    case SliceT(items) =>
      var i := ParseIndex(part);
      i.Some? && i.value < |items| && !items[i.value].NilT?
    case _ => false
  }

  /** Below the first segment, what is absent and what takes a segment is as in the child. */
  lemma AbsentBelow<V>(t: Tree<V>, parts: seq<Bytes>, k: nat)
    requires 0 < k <= |parts| && HasChild(t, parts[0])
    ensures Child(t, StepOf(t, parts[0])).Some?
    ensures Absent(t, parts, k) <==> Absent(Child(t, StepOf(t, parts[0])).value, parts[1..], k - 1)
    ensures Lookup(t, parts[..k]) == Lookup(Child(t, StepOf(t, parts[0])).value, parts[1..][..k - 1])
  {
    hide ParseIndex;
    LookupBelow(t, parts, k);
    if k > 1 {
      LookupBelow(t, parts, k - 1);
      assert parts[1..][..k - 1][..k - 2] == parts[1..][..k - 2];
    } else {
      assert parts[..0] == [] && parts[1..][..0] == [];
    }
  }

  /** Without such a child everything below is absent. */
  lemma AbsentAll<V>(t: Tree<V>, parts: seq<Bytes>, k: nat)
    requires 0 < k <= |parts| && !HasChild(t, parts[0]) && (t.MapT? || t.SliceT?)
    ensures Absent(t, parts, k)
  {
    hide ParseIndex;
    LookupBelow(t, parts, k);
    assert parts[..0] == [];
    if t.SliceT? && ParseIndex(parts[0]).Some? && Child(t, StepOf(t, parts[0])).Some? {
      NothingBelow(Child(t, StepOf(t, parts[0])).value, parts[1..], k - 1);
    }
  }

  lemma TakesBelow<V>(t: Tree<V>, parts: seq<Bytes>)
    requires parts != [] && HasChild(t, parts[0])
    ensures CanStore(t, parts) <==> Takes(t, parts, 0) && CanStore(Child(t, StepOf(t, parts[0])).value, parts[1..])
  {
    hide Lookup, ParseIndex, Absent;
    AbsentBelow(t, parts, 1);
    var c := Child(t, StepOf(t, parts[0])).value;
    forall k | 0 < k < |parts|
      ensures Takes(t, parts, k) <==> Takes(c, parts[1..], k - 1)
    {
      AbsentBelow(t, parts, k);
      assert parts[1..][k - 1] == parts[k];
    }
    assert forall k :: 0 <= k < |parts[1..]| ==> (Takes(c, parts[1..], k) <==> Takes(t, parts, k + 1));
  }

  lemma TakesAll<V>(t: Tree<V>, parts: seq<Bytes>)
    requires parts != [] && !HasChild(t, parts[0]) && (t.MapT? || t.SliceT?)
    ensures CanStore(t, parts) <==> Takes(t, parts, 0) && NoneEmpty(parts[1..])
  {
    hide Lookup, ParseIndex, Absent;
    forall k | 0 < k < |parts|
      ensures Takes(t, parts, k) <==> parts[1..][k - 1] != []
    {
      AbsentAll(t, parts, k);
    }
    assert forall k :: 0 <= k < |parts[1..]| ==> (Takes(t, parts, k + 1) <==> parts[1..][k] != []);
  }

  /** A store succeeds if and only if every segment can be taken: none is empty, and each node on the way is absent, a
      map, or a slice that the segment indexes. */
  lemma {:induction false} SetSucceeds<V>(t: Tree<V>, parts: seq<Bytes>, v: Option<V>)
    requires parts != []
    ensures Set(t, parts, v).1 <==> CanStore(t, parts)
    decreases |parts|
  {
    hide ParseIndex, Grow, CanStore;
    CanStoreFirst(t, parts);
    assert parts[..0] == [];
    if Takes(t, parts, 0) {
      if HasChild(t, parts[0]) {
        TakesBelow(t, parts);
        CanStoreNothing(Child(t, StepOf(t, parts[0])).value, parts[1..]);
        if |parts| > 1 {
          SetSucceeds(Child(t, StepOf(t, parts[0])).value, parts[1..], v);
        }
      } else {
        TakesAll(t, parts);
        if |parts| > 1 {
          EmptyStores(parts[1..], v);
        }
      }
    }
  }

  lemma CanStoreFirst<V>(t: Tree<V>, parts: seq<Bytes>)
    requires parts != []
    ensures CanStore(t, parts) ==> Takes(t, parts, 0)
  {
  }

  lemma CanStoreNothing<V>(t: Tree<V>, parts: seq<Bytes>)
    ensures parts == [] ==> CanStore(t, parts)
  {
  }

  /** From an empty root a store succeeds if and only if no segment is empty. */
  lemma EmptyRootStores<V>(parts: seq<Bytes>, v: Option<V>)
    requires parts != []
    ensures Set<V>(MapT(map[]), parts, v).1 <==> NoneEmpty(parts)
  {
    SetSucceeds(MapT(map[]), parts, v);
    forall k | 0 <= k < |parts|
      ensures Takes<V>(MapT(map[]), parts, k) <==> parts[k] != []
    {
      NothingBelow<V>(MapT(map[]), parts, k);
    }
  }

  // ---------- what a store leaves on its way ----------

  /** A container made for a segment: a slice that ends at its index if the segment is one, else a map of it alone. */
  ghost predicate Made<V>(n: Tree<V>, part: Bytes) {
    match ParseIndex(part)
    case Some(i) => n.SliceT? && |n.items| == i + 1 && forall j :: 0 <= j < i ==> n.items[j] == NilT
    case None => n.MapT? && n.entries.Keys == {part}
  }

  /** A container that was there, with nothing changed but the child of the segment; a slice grows with nils to hold
      it. */
  ghost predicate Kept<V>(was: Tree<V>, n: Tree<V>, part: Bytes) {
    match was
    case MapT(m) =>
      n.MapT? && n.entries.Keys == m.Keys + {part} && forall k :: k in m && k != part ==> n.entries[k] == m[k]
    case SliceT(items) =>
      && ParseIndex(part).Some? && n.SliceT?
      && var i := ParseIndex(part).value;
      && |n.items| == (if i < |items| then |items| else i + 1)
      && forall j :: 0 <= j < |n.items| && j != i ==> n.items[j] == if j < |items| then items[j] else NilT
    case _ => false
  }

  /** Every node on the way of a successful store: made where nothing was, else kept. */
  lemma {:induction false} SetShape<V>(t: Tree<V>, parts: seq<Bytes>, v: Option<V>, k: nat)
    requires k < |parts| && Set(t, parts, v).1
    ensures var node := Lookup(Set(t, parts, v).0, parts[..k]);
            && node.Some?
            && (Absent(t, parts, k) ==> Made(node.value, parts[k]))
            && (!Absent(t, parts, k) ==> Kept(Lookup(t, parts[..k]).value, node.value, parts[k]))
    decreases |parts|
  {
    hide Set, Made, Kept, Absent, Lookup, Empty;
    if k == 0 {
      assert parts[..0] == [];
      FirstKept(t, parts, v);
    } else {
      var after := Set(t, parts, v).0;
      StoredAfter(t, parts, v);
      assert parts[1..][k - 1] == parts[k];
      StepBelow(after, parts, k);
      if HasChild(t, parts[0]) {
        AbsentBelow(t, parts, k);
        SetShape(Child(t, StepOf(t, parts[0])).value, parts[1..], v, k - 1);
      } else {
        var empty: Tree<V> := Empty(parts[1]);
        SetShape(empty, parts[1..], v, k - 1);
        AbsentAll(t, parts, k);
        MadeBelow<V>(parts[1..], k - 1);
        var node := Lookup(Set(empty, parts[1..], v).0, parts[1..][..k - 1]);
        assert Lookup(after, parts[..k]) == node;
        assert k == 1 ==> Kept(empty, node.value, parts[1..][0]);
        assert Made(node.value, parts[1..][k - 1]);
      }
    }
  }

  lemma StepBelow<V>(t: Tree<V>, parts: seq<Bytes>, k: nat)
    requires 0 < k <= |parts| && (t.SliceT? ==> ParseIndex(parts[0]).Some?) && Child(t, StepOf(t, parts[0])).Some?
    ensures Lookup(t, parts[..k]) == Lookup(Child(t, StepOf(t, parts[0])).value, parts[1..][..k - 1])
  {
    LookupBelow(t, parts, k);
  }

  /** In a fresh container everything below is absent, and what is kept of it is as made. */
  lemma MadeBelow<V>(parts: seq<Bytes>, k: nat)
    requires k < |parts|
    ensures var empty: Tree<V> := Empty(parts[0]);
            && (k > 0 ==> Absent(empty, parts, k))
            && (k == 0 ==> !Absent(empty, parts, k) && Lookup(empty, parts[..k]) == Some(empty))
            && forall n: Tree<V> :: Kept(empty, n, parts[0]) ==> Made(n, parts[0])
  {
    NothingBelow<V>(Empty(parts[0]), parts, k);
  }

  lemma FirstKept<V>(t: Tree<V>, parts: seq<Bytes>, v: Option<V>)
    requires parts != [] && Set(t, parts, v).1
    ensures Lookup(t, parts[..0]) == Some(t) && Lookup(Set(t, parts, v).0, parts[..0]) == Some(Set(t, parts, v).0)
    ensures !Absent(t, parts, 0) && Kept(t, Set(t, parts, v).0, parts[0])
  {
    hide ParseIndex;
  }

  /** The child that a store leaves at its first segment. */
  lemma StoredAfter<V>(t: Tree<V>, parts: seq<Bytes>, v: Option<V>)
    requires |parts| > 1 && Set(t, parts, v).1
    ensures var after := Set(t, parts, v).0;
            var next := if HasChild(t, parts[0]) then Child(t, StepOf(t, parts[0])).GetOr(NilT) else Empty(parts[1]);
            && (t.MapT? || t.SliceT?) && (t.SliceT? ==> ParseIndex(parts[0]).Some?) && after.SliceT? == t.SliceT?
            && (HasChild(t, parts[0]) ==> Child(t, StepOf(t, parts[0])).Some?)
            && Set(next, parts[1..], v).1
            && Child(after, StepOf(after, parts[0])) == Some(Set(next, parts[1..], v).0)
  {
    hide ParseIndex;
  }

  // ---------- exactly when a path keeps what it holds ----------

  /** The place a path that is found leads to. */
  function Where<V>(t: Tree<V>, parts: seq<Bytes>): (at: Location)
    requires Lookup(t, parts).Some?
    ensures |at| == |parts| && At(t, at) == Lookup(t, parts)
    decreases |parts|
  {
    if parts == [] then []
    else
      var step := StepOf(t, parts[0]);
      var rest := Where(Child(t, step).value, parts[1..]);
      assert ([step] + rest)[1..] == rest;
      [step] + rest
  }

  /** Two places of which neither is at or below the other. */
  predicate Apart(a: Location, b: Location) {
    !(a <= b) && !(b <= a)
  }

  lemma ApartStep(s: Step, a: Location, b: Location)
    ensures Apart([s] + a, [s] + b) <==> Apart(a, b)
    ensures [s] + a <= [s] + b <==> a <= b
  {
    assert ([s] + a)[1..] == a && ([s] + b)[1..] == b;
    if a <= b {
      assert ([s] + b)[..|a| + 1] == [s] + a;
    }
    if b <= a {
      assert ([s] + a)[..|b| + 1] == [s] + b;
    }
  }

  /** A successful store changes nothing if and only if its path already held the value. */
  lemma {:induction false} SetUnchanged<V>(t: Tree<V>, parts: seq<Bytes>, v: Option<V>)
    requires parts != [] && Set(t, parts, v).1
    ensures Set(t, parts, v).0 == t <==> Lookup(t, parts) == Some(ValueTree(v))
    decreases |parts|
  {
    SetThenLookup(t, parts, v);
    if Lookup(t, parts) == Some(ValueTree(v)) {
      LookupStep(t, parts);
      StoredBelow(t, parts, v);
      var held := Child(t, StepOf(t, parts[0])).value;
      if |parts| > 1 {
        NilLookup<V>(parts[1..]);
        SetUnchanged(held, parts[1..], v);
      }
      SetPutsChild(t, parts, v);
    }
  }

  /** A store at a child that is there replaces that child alone. */
  lemma SetPutsChild<V>(t: Tree<V>, parts: seq<Bytes>, v: Option<V>)
    requires parts != [] && Set(t, parts, v).1 && Child(t, StepOf(t, parts[0])).Some?
    ensures var after, step := Set(t, parts, v).0, StepOf(t, parts[0]);
            Child(after, step) == Child(t, step) ==> after == t
  {
    hide ParseIndex;
  }

  /** The first step of a successful store at a child that is there. */
  lemma StoredBelow<V>(t: Tree<V>, parts: seq<Bytes>, v: Option<V>)
    requires parts != [] && Set(t, parts, v).1 && Child(t, StepOf(t, parts[0])).Some?
    ensures var after, step := Set(t, parts, v).0, StepOf(t, parts[0]);
            var held := Child(t, step).value;
            && StepOf(after, parts[0]) == step && Child(after, step).Some?
            && Lookup(t, parts) == Lookup(held, parts[1..])
            && Lookup(after, parts) == Lookup(Child(after, step).value, parts[1..])
            && (|parts| == 1 ==> Child(after, step).value == ValueTree(v))
            && (|parts| > 1 && held.NilT? ==> Child(after, step).value == Set(Empty(parts[1]), parts[1..], v).0)
            && (|parts| > 1 && !held.NilT? ==>
                  Set(held, parts[1..], v).1 && Child(after, step).value == Set(held, parts[1..], v).0)
  {
    hide ParseIndex;
  }

  /** A store leaves the other children of its node alone. */
  lemma StoredBeside<V>(t: Tree<V>, parts: seq<Bytes>, v: Option<V>, s: Step)
    requires parts != [] && Set(t, parts, v).1 && Child(t, s).Some? && s != StepOf(t, parts[0])
    ensures Child(Set(t, parts, v).0, s) == Child(t, s)
  {
    hide ParseIndex;
  }

  lemma LookupStep<V>(t: Tree<V>, q: seq<Bytes>)
    requires q != [] && Lookup(t, q).Some?
    ensures var c := Child(t, StepOf(t, q[0]));
            && c.Some? && Lookup(t, q) == Lookup(c.value, q[1..])
            && Where(t, q) == [StepOf(t, q[0])] + Where(c.value, q[1..])
  {
    hide ParseIndex;
  }

  /** A path below the step of `t` and of a node of the same kind. */
  lemma LookupAlike<V>(t: Tree<V>, t': Tree<V>, q: seq<Bytes>)
    requires q != [] && Lookup(t, q).Some? && Child(t', StepOf(t, q[0])).Some?
    requires t.MapT? == t'.MapT? && t.SliceT? == t'.SliceT?
    ensures Lookup(t', q) == Lookup(Child(t', StepOf(t, q[0])).value, q[1..])
  {
    hide ParseIndex;
  }

  lemma SetKind<V>(t: Tree<V>, parts: seq<Bytes>, v: Option<V>)
    requires parts != []
    ensures t.MapT? == Set(t, parts, v).0.MapT? && t.SliceT? == Set(t, parts, v).0.SliceT?
  {
  }

  /** After a successful store, a path keeps what it holds if and only if the place it leads to and the place stored at
      are apart, or the stored path already held the value. */
  lemma {:induction false} KeptExactly<V>(t: Tree<V>, parts: seq<Bytes>, v: Option<V>, q: seq<Bytes>)
    requires parts != [] && Set(t, parts, v).1 && Lookup(t, q).Some?
    ensures var after := Set(t, parts, v).0;
            && Lookup(after, parts).Some?
            && (Lookup(after, q) == Lookup(t, q) <==>
                Apart(Where(after, parts), Where(t, q)) || Lookup(t, parts) == Some(ValueTree(v)))
    decreases |parts|, 1
  {
    hide Set, Lookup, Where, StepOf, Child;
    SetThenLookup(t, parts, v);
    SetUnchanged(t, parts, v);
    var after := Set(t, parts, v).0;
    if q == [] {
      LookupEmpty(t, after);
    } else {
      LookupStep(t, q);
      LookupStep(after, parts);
      SetKind(t, parts, v);
      var step := StepOf(t, q[0]);
      var held := Child(t, step).value;
      if StepOf(t, parts[0]) == step {
        StoredBelow(t, parts, v);
        LookupAlike(t, after, q);
        KeptBelow(held, Child(after, step).value, parts, v, q[1..]);
        ApartStep(step, Where(Child(after, step).value, parts[1..]), Where(held, q[1..]));
      } else {
        StoredBeside(t, parts, v, step);
        LookupAlike(t, after, q);
        StepKept(t, after, parts[0]);
        var l, m := Where(Child(after, StepOf(after, parts[0])).value, parts[1..]), Where(held, q[1..]);
        assert ([StepOf(after, parts[0])] + l)[0] != ([step] + m)[0];
        if Lookup(t, parts) == Some(ValueTree(v)) {
          assert after == t;
        }
      }
    }
  }

  lemma StepKept<V>(t: Tree<V>, t': Tree<V>, part: Bytes)
    requires t.SliceT? == t'.SliceT?
    ensures StepOf(t, part) == StepOf(t', part)
  {
  }

  lemma LookupEmpty<V>(t: Tree<V>, after: Tree<V>)
    ensures Lookup(t, []) == Some(t) && Lookup(after, []) == Some(after) && Where(t, []) == []
  {
  }

  /** The step of `KeptExactly` below a child `held` that the store turned into `now`. */
  lemma {:induction false} KeptBelow<V>(held: Tree<V>, now: Tree<V>, parts: seq<Bytes>, v: Option<V>, q: seq<Bytes>)
    requires parts != [] && Lookup(held, q).Some? && Lookup(now, parts[1..]).Some?
    requires |parts| == 1 ==> now == ValueTree(v)
    requires |parts| > 1 && held.NilT? ==> now == Set(Empty(parts[1]), parts[1..], v).0
    requires |parts| > 1 && !held.NilT? ==> Set(held, parts[1..], v).1 && now == Set(held, parts[1..], v).0
    ensures Lookup(now, q) == Lookup(held, q) <==>
            Apart(Where(now, parts[1..]), Where(held, q)) || Lookup(held, parts[1..]) == Some(ValueTree(v))
    decreases |parts|, 0
  {
    if |parts| > 1 {
      if held.NilT? {
        NilLookup<V>(q);
        NilLookup<V>(parts[1..]);
        SetKind(Empty(parts[1]), parts[1..], v);
      } else {
        KeptExactly(held, parts[1..], v, q);
      }
    }
  }

  // ---------- canonical paths ----------

  /** An index is written as `strconv.Itoa` writes it. */
  predicate Canonical(s: Bytes) {
    ParseIndex(s).Some? ==> s == BclValue.Decimal(ParseIndex(s).value)
  }

  predicate CanonicalPath(p: seq<Bytes>) {
    forall k :: 0 <= k < |p| ==> Canonical(p[k])
  }

  lemma CanonicalAgree(a: Bytes, b: Bytes)
    requires Canonical(a) && Canonical(b)
    ensures Agree(a, b) <==> a == b
  {
    hide ParseIndex;
  }

  /** Canonical paths part unless one is a prefix of the other. */
  lemma {:induction false} CanonicalDiverge(p: seq<Bytes>, q: seq<Bytes>)
    requires CanonicalPath(p) && CanonicalPath(q)
    ensures Diverge(p, q) <==> !(p <= q) && !(q <= p)
    decreases |p|
  {
    hide Agree, Canonical;
    if p != [] && q != [] {
      CanonicalAgree(p[0], q[0]);
      CanonicalDiverge(p[1..], q[1..]);
      assert p == [p[0]] + p[1..] && q == [q[0]] + q[1..];
    }
  }

  /** After a successful store on a canonical path, the path holds the value and every other canonical path that is
      neither a prefix nor an extension of it still holds what it held. */
  lemma StoredAndKept<V>(t: Tree<V>, parts: seq<Bytes>, v: Option<V>, q: seq<Bytes>)
    requires parts != [] && Set(t, parts, v).1 && CanonicalPath(parts) && CanonicalPath(q)
    requires !(parts <= q) && !(q <= parts) && Lookup(t, q).Some?
    ensures Lookup(Set(t, parts, v).0, parts) == Some(ValueTree(v))
    ensures Lookup(Set(t, parts, v).0, q) == Lookup(t, q)
  {
    SetThenLookup(t, parts, v);
    CanonicalDiverge(parts, q);
    SetKeeps(t, parts, v, q);
  }

  /** Without canonical indexes a store can overwrite another path: `a.01` and `a.1` are one place. */
  lemma LeadingZeroCollides<V>(held: V, v: V)
    ensures var t: Tree<V> := MapT(map[[97] := SliceT([NilT, LeafT(held)])]);
            && Lookup(t, [[97], [49]]) == Some(LeafT(held))
            && Set(t, [[97], [48, 49]], Some(v)).1
            && Lookup(Set(t, [[97], [48, 49]], Some(v)).0, [[97], [49]]) == Some(LeafT(v))
  {
    var t: Tree<V> := MapT(map[[97] := SliceT([NilT, LeafT(held)])]);
    assert ParseIndex([49]) == Some(1) by { assert [49][..0] == []; }
    assert ParseIndex([48, 49]) == Some(1) by { assert [48, 49][..1] == [48] && [48][..0] == []; }
    var p, q: seq<Bytes> := [[97], [48, 49]], [[97], [49]];
    assert p[1..] == [[48, 49]] && q[1..] == [[49]];
  }

  // ---------- in place ----------

  /** The steps that segments name: a key of a map or an index of a slice. */
  predicate Names(parts: seq<Bytes>, at: Location) {
    && |parts| == |at|
    && forall k :: 0 <= k < |at| ==>
         at[k] == Key(parts[k]) || (ParseIndex(parts[k]).Some? && at[k] == Index(ParseIndex(parts[k]).value))
  }

  /** `lookupParts` on the linked maps and slices. */
  method LookupParts<V>(heap: Heap.FactHeap<V>, parts: seq<Bytes>) returns (r: Option<Ref<V>>)
    requires heap.Valid()
    ensures r.Some? <==> Lookup(heap.tree, parts).Some?
    ensures r.Some? ==>
              exists at :: Names(parts, at) && heap.Stands(r.value, at) && At(heap.tree, at) == Lookup(heap.tree, parts)
  {
    hide Shows, ParseIndex;
    var cur := MapRef(heap.root);
    ghost var at: Location := [];
    assert parts[0..] == parts;
    for i := 0 to |parts|
      invariant heap.Stands(cur, at) && Names(parts[..i], at)
      invariant At(heap.tree, at).Some? && Lookup(At(heap.tree, at).value, parts[i..]) == Lookup(heap.tree, parts)
    {
      var part := parts[i];
      assert parts[i..][0] == part && parts[i..][1..] == parts[i + 1..];
      NodeKind(heap, cur, at);
      ghost var step := Key(part);
      var next: Option<Ref<V>> := None;
      if cur.MapRef? {
        next := Slot(heap.store, cur, Key(part));
      } else if cur.SliceRef? {
        var index := ParseIndex(part);
        if index.Some? {
          step := Index(index.value);
          next := Slot(heap.store, cur, Index(index.value));
        }
      }
      StandsStep(heap, cur, at, step);
      if next.None? {
        return None;
      }
      cur := next.value;
      at := at + [step];
    }
    assert parts[..|parts|] == parts;
    r := Some(cur);
  }

  /** The kind of a node is the kind of the tree it shows. */
  lemma NodeKind<V>(heap: Heap.FactHeap<V>, node: Ref<V>, at: Location)
    requires heap.Valid() && heap.Stands(node, at)
    ensures At(heap.tree, at).Some?
    ensures var t := At(heap.tree, at).value;
            && Shows(heap.store, heap.places, node, t, at)
            && (node.MapRef? <==> t.MapT?) && (node.SliceRef? <==> t.SliceT?)
            && (node.MapRef? || node.SliceRef? ==> node.addr in heap.places && heap.places[node.addr] == at)
            && (node.MapRef? ==> node.addr in heap.store && heap.store[node.addr].MapCell?)
            && (node.SliceRef? ==>
                  && node.addr in heap.store && heap.store[node.addr].SliceCell?
                  && |heap.store[node.addr].items| == |t.items|)
  {
    FollowShows(heap.store, heap.places, MapRef(heap.root), heap.tree, [], at);
    assert [] + at == at;
  }

  /** A child that is there stands one step further. */
  lemma StandsStep<V>(heap: Heap.FactHeap<V>, node: Ref<V>, at: Location, step: Step)
    requires heap.Valid() && heap.Stands(node, at)
    ensures At(heap.tree, at).Some? && At(heap.tree, at + [step]) == Child(At(heap.tree, at).value, step)
    ensures Slot(heap.store, node, step).Some? == Child(At(heap.tree, at).value, step).Some?
    ensures Slot(heap.store, node, step).Some? ==> heap.Stands(Slot(heap.store, node, step).value, at + [step])
  {
    hide Shows;
    NodeKind(heap, node, at);
    ShowsChild(heap.store, heap.places, node, At(heap.tree, at).value, at, step);
    FollowStep(heap.store, MapRef(heap.root), at, step);
    AtStep(heap.tree, at, step);
  }

  lemma {:induction false} AtStep<V>(t: Tree<V>, at: Location, step: Step)
    requires At(t, at).Some?
    ensures At(t, at + [step]) == Child(At(t, at).value, step)
    decreases |at|
  {
    if at == [] {
      assert at + [step] == [step] && [step][1..] == [];
    } else {
      assert (at + [step])[1..] == at[1..] + [step];
      AtStep(Child(t, at[0]).value, at[1..], step);
    }
  }

  lemma {:induction false} AtPrefix<V>(t: Tree<V>, at: Location, i: nat)
    requires At(t, at).Some? && i <= |at|
    ensures At(t, at[..i]).Some? && (i < |at| ==> Child(At(t, at[..i]).value, at[i]).Some?)
    decreases |at|
  {
    if i > 0 {
      AtPrefix(Child(t, at[0]).value, at[1..], i - 1);
      assert at[..i][1..] == at[1..][..i - 1];
    }
  }

  /** `assignSlice`: walks from the root to the place of a slice and stores the slice there again. */
  method AssignSlice<V>(heap: Heap.FactHeap<V>, parts: seq<Bytes>, b: nat, ghost at: Location,
                        ghost items: seq<Tree<V>>)
    returns (ok: bool)
    requires heap.Valid() && Names(parts, at) && At(heap.tree, at).Some?
    requires Shows(heap.store, heap.places, SliceRef(b), SliceT(items), at)
    modifies heap`store, heap`tree
    ensures heap.Valid() && (ok <==> parts != [])
    ensures ok ==> Fits(old(heap.tree), at) && heap.Stands(SliceRef(b), at)
    ensures ok ==> heap.tree == Put(old(heap.tree), at, SliceT(items))
    ensures !ok ==> heap.tree == old(heap.tree)
    ensures b in heap.store && heap.store[b] == old(heap.store[b])
  {
    assert heap.Stands(MapRef(heap.root), []);
    assert b in heap.store && b in heap.places && heap.places[b] == at;
    hide Shows, ParseIndex, Put, Fits, Follow;
    if |parts| == 0 {
      return false;
    }
    var cur := MapRef(heap.root);
    ghost var tree := heap.tree;
    for i := 0 to |parts|
      invariant i < |parts| && heap.Valid() && heap.tree == tree && heap.Stands(cur, at[..i])
      invariant heap.store == old(heap.store)
      invariant Shows(heap.store, heap.places, SliceRef(b), SliceT(items), at)
    {
      var part, last := parts[i], i == |parts| - 1;
      AtPrefix(tree, at, i);
      NodeKind(heap, cur, at[..i]);
      StandsStep(heap, cur, at[..i], at[i]);
      assert at[..i + 1] == at[..i] + [at[i]];
      assert last ==> at[..i + 1] == at;
      match cur
      case MapRef(a) =>
        if last {
          heap.Write(cur, Key(part), SliceRef(b), at[..i], SliceT(items));
          return true;
        }
        cur := Slot(heap.store, cur, Key(part)).GetOr(Nil);
      case SliceRef(a) =>
        var index := ParseIndex(part);
        if index.None? || index.value >= |heap.store[a].items| {
          return false;
        }
        if last {
          heap.Write(cur, Index(index.value), SliceRef(b), at[..i], SliceT(items));
          return true;
        }
        cur := heap.store[a].items[index.value];
      case _ =>
        return false;
    }
  }

  /** Having come to `at`, what is left to do there decides the whole tree. */
  ghost predicate Pending<V>(tree: Tree<V>, at: Location, parts: seq<Bytes>, v: Option<V>, want: (Tree<V>, bool)) {
    && parts != [] && At(tree, at).Some? && Fits(tree, at)
    && want == (Put(tree, at, Set(At(tree, at).value, parts, v).0), Set(At(tree, at).value, parts, v).1)
  }

  /** The segment cannot be followed. */
  lemma PendingStop<V>(tree: Tree<V>, at: Location, parts: seq<Bytes>, v: Option<V>, want: (Tree<V>, bool))
    requires Pending(tree, at, parts, v, want)
    requires var t := At(tree, at).value;
             parts[0] == [] || !(t.MapT? || t.SliceT?) || (t.SliceT? && ParseIndex(parts[0]).None?)
    ensures want == (tree, false)
  {
    PutSame(tree, at);
  }

  lemma PendingKey<V>(tree: Tree<V>, at: Location, parts: seq<Bytes>, v: Option<V>, want: (Tree<V>, bool))
    requires Pending(tree, at, parts, v, want) && parts[0] != [] && At(tree, at).value.MapT?
    ensures var next := at + [Key(parts[0])];
            && Fits(tree, next)
            && if |parts| == 1 then want == (Put(tree, next, ValueTree(v)), true)
               else if At(tree, next).Some? then Pending(tree, next, parts[1..], v, want)
               else Pending(Put(tree, next, Empty(parts[1])), next, parts[1..], v, want)
  {
    var node, step := At(tree, at).value, Key(parts[0]);
    PutStep(tree, at, step, NilT);
    if |parts| == 1 {
      PutStep(tree, at, step, ValueTree(v));
    } else {
      var c := if parts[0] in node.entries then node.entries[parts[0]] else Empty(parts[1]);
      var x := Set(c, parts[1..], v).0;
      PutStep(tree, at, step, x);
      PutAgain(tree, at + [step], Empty(parts[1]), x);
    }
  }

  /** The slice to store back: grown to hold the index, with the value or a new container in it. */
  function Renewed<V>(items: seq<Tree<V>>, i: nat, parts: seq<Bytes>, v: Option<V>): (r: seq<Tree<V>>)
    requires parts != []
    ensures i < |r|
  {
    var grown := Grow(items, i + 1, NilT);
    if |parts| == 1 then grown[i := ValueTree(v)]
    else if grown[i].NilT? then grown[i := Empty(parts[1])]
    else grown
  }

  lemma PendingIndex<V>(tree: Tree<V>, at: Location, parts: seq<Bytes>, v: Option<V>, want: (Tree<V>, bool), i: nat)
    requires Pending(tree, at, parts, v, want) && parts[0] != [] && At(tree, at).value.SliceT?
    requires ParseIndex(parts[0]) == Some(i)
    ensures var items := Renewed(At(tree, at).value.items, i, parts, v);
            && Fits(tree, at)
            && if |parts| == 1 then want == (Put(tree, at, SliceT(items)), true)
               else Pending(Put(tree, at, SliceT(items)), at + [Index(i)], parts[1..], v, want)
  {
    hide Grow;
    if |parts| > 1 {
      var items := Renewed(At(tree, at).value.items, i, parts, v);
      var grown := Grow(At(tree, at).value.items, i + 1, NilT);
      var u := Put(tree, at, SliceT(items));
      var x := Set(items[i], parts[1..], v).0;
      PutAgain(tree, at, SliceT(items), SliceT(items[i := x]));
      PutStep(u, at, Index(i), x);
      assert items[i := x] == grown[i := x];
    }
  }

  // ---------- slices ----------

  /** The items show these trees, each at its own index. */
  ghost predicate Show<V>(s: Store<V>, places: map<nat, Location>, refs: seq<Ref<V>>, items: seq<Tree<V>>,
                          at: Location) {
    |refs| == |items| && forall k :: 0 <= k < |items| ==> Shows(s, places, refs[k], items[k], at + [Index(k)])
  }

  lemma NilShown<V>(s: Store<V>, places: map<nat, Location>, refs: seq<Ref<V>>, items: seq<Tree<V>>, at: Location,
                    k: nat)
    requires Show(s, places, refs, items, at) && k < |items|
    ensures refs[k].Nil? <==> items[k].NilT?
  {
  }

  lemma ValueShows<V>(s: Store<V>, places: map<nat, Location>, v: Option<V>, at: Location)
    ensures Shows(s, places, ValueRef(v), ValueTree(v), at)
  {
  }

  lemma ShowKept<V>(s: Store<V>, s': Store<V>, places: map<nat, Location>, places': map<nat, Location>, c: nat,
                    refs: seq<Ref<V>>, items: seq<Tree<V>>, at: Location)
    requires Show(s, places, refs, items, at) && (c !in places || places[c] == at)
    requires forall a | a in s && a != c :: a in s' && s'[a] == s[a]
    requires forall a | a in places :: a in places' && places'[a] == places[a]
    ensures Show(s', places', refs, items, at)
  {
    forall k | 0 <= k < |items| ensures Shows(s', places', refs[k], items[k], at + [Index(k)]) {
      Untouched(s, s', places, places', c, refs[k], items[k], at + [Index(k)]);
    }
  }

  /** `growSlice` on an array: the same array, or a longer copy that nothing refers to yet. */
  method GrowSlice<V>(heap: Heap.FactHeap<V>, a: nat, size: nat, ghost at: Location) returns (b: nat)
    requires heap.Valid() && heap.Stands(SliceRef(a), at) && At(heap.tree, at).Some? && At(heap.tree, at).value.SliceT?
    modifies heap`store, heap`next
    ensures heap.Valid() && heap.Stands(SliceRef(a), at) && a in heap.places
    ensures if |At(heap.tree, at).value.items| >= size then b == a else b !in heap.places
    ensures b in heap.store && heap.store[b].SliceCell?
    ensures Show(heap.store, heap.places, heap.store[b].items, Grow(At(heap.tree, at).value.items, size, NilT), at)
  {
    hide Follow;
    NodeKind(heap, SliceRef(a), at);
    var refs := heap.store[a].items;
    ghost var items := At(heap.tree, at).value.items;
    ghost var before := heap.store;
    if |refs| >= size {
      b := a;
      return;
    }
    b := heap.New(SliceCell(Grow(refs, size, Nil)), SliceRef(a), at);
    ShowKept(before, heap.store, heap.places, heap.places, b, refs, items, at);
  }

  /** `node[index] = x` on the array to store back, which stands at `at` or is not referred to yet. */
  method PutItem<V>(heap: Heap.FactHeap<V>, b: nat, index: nat, x: Ref<V>, ghost at: Location,
                    ghost items: seq<Tree<V>>, ghost tx: Tree<V>)
    requires heap.Valid() && b in heap.store && heap.store[b].SliceCell? && index < |items|
    requires Show(heap.store, heap.places, heap.store[b].items, items, at)
    requires Shows(heap.store, heap.places, x, tx, at + [Index(index)])
    requires b !in heap.places || heap.Stands(SliceRef(b), at)
    modifies heap`store, heap`tree
    ensures heap.Valid() && (b !in heap.places || heap.Stands(SliceRef(b), at))
    ensures b in heap.store && heap.store[b] == SliceCell(old(heap.store)[b].items[index := x])
    ensures Show(heap.store, heap.places, heap.store[b].items, items[index := tx], at)
    ensures if b in heap.places then Fits(old(heap.tree), at + [Index(index)])
            && heap.tree == Put(old(heap.tree), at + [Index(index)], tx)
            else heap.tree == old(heap.tree)
  {
    hide Shows, Put, Fits;
    ghost var before := heap.store;
    if b in heap.places {
      NodeKind(heap, SliceRef(b), at);
    }
    heap.store := heap.store[b := SliceCell(heap.store[b].items[index := x])];
    if b in heap.places {
      heap.Record(before, SliceRef(b), Index(index), x, at, tx);
    } else {
      Untouched(before, heap.store, heap.places, heap.places, b, MapRef(heap.root), heap.tree, []);
    }
    ShowKept(before, heap.store, heap.places, heap.places, b, before[b].items, items, at);
    Untouched(before, heap.store, heap.places, heap.places, b, x, tx, at + [Index(index)]);
  }

  /** `node[index] = []any{}` or `node[index] = map[string]any{}`: the container alone, before it is stored. */
  method NewItem<V>(heap: Heap.FactHeap<V>, a: nat, b: nat, index: nat, next: Bytes, ghost at: Location,
                    ghost items: seq<Tree<V>>)
    returns (x: Ref<V>)
    requires heap.Valid() && heap.Stands(SliceRef(a), at) && b in heap.store && heap.store[b].SliceCell?
    requires Show(heap.store, heap.places, heap.store[b].items, items, at)
    modifies heap`store, heap`next, heap`places
    ensures heap.Valid() && heap.Stands(SliceRef(a), at)
    ensures Shows(heap.store, heap.places, x, Empty(next), at + [Index(index)])
    ensures b in heap.store && heap.store[b] == old(heap.store[b])
    ensures b in heap.places <==> b in old(heap.places)
    ensures b in heap.places ==> heap.places[b] == old(heap.places)[b]
    ensures Show(heap.store, heap.places, heap.store[b].items, items, at)
  {
    hide Follow, Show;
    ghost var before, placed := heap.store, heap.places;
    var empty: Tree<V> := Empty(next);
    var c := heap.New(EmptyCell(empty), SliceRef(a), at);
    heap.Place(c, at + [Index(index)]);
    x := if empty.MapT? then MapRef(c) else SliceRef(c);
    ShowKept(before, heap.store, placed, heap.places, c, before[b].items, items, at);
  }

  /** Gives the array its place if it is new and stores it back. */
  method LinkSlice<V>(heap: Heap.FactHeap<V>, parts: seq<Bytes>, b: nat, ghost at: Location, ghost items: seq<Tree<V>>)
    requires heap.Valid() && parts != [] && Names(parts, at) && At(heap.tree, at).Some?
    requires b in heap.store && heap.store[b].SliceCell? && (b in heap.places ==> heap.places[b] == at)
    requires Show(heap.store, heap.places, heap.store[b].items, items, at)
    modifies heap`store, heap`tree, heap`places
    ensures heap.Valid() && heap.Stands(SliceRef(b), at)
    ensures b in heap.store && heap.store[b] == old(heap.store[b])
    ensures Fits(old(heap.tree), at) && heap.tree == Put(old(heap.tree), at, SliceT(items))
  {
    hide Follow, Names, Put, Fits;
    ghost var placed := heap.places;
    if b !in heap.places {
      heap.Place(b, at);
    }
    ShowKept(heap.store, heap.store, placed, heap.places, b, heap.store[b].items, items, at);
    var ok := AssignSlice(heap, parts, b, at, items);
  }

  /** Storing an item of a slice and then the slice is storing the slice. */
  lemma ItemStored<V>(t: Tree<V>, at: Location, items: seq<Tree<V>>, i: nat, x: Tree<V>, y: Tree<V>)
    requires At(t, at) == Some(SliceT(items)) && i < |items| && Fits(t, at + [Index(i)])
    ensures var u := Put(t, at + [Index(i)], x);
            Fits(u, at) && At(u, at).Some? && Fits(t, at) && Put(u, at, y) == Put(t, at, y)
  {
    PutStep(t, at, Index(i), x);
    PutAgain(t, at, SliceT(items[i := x]), y);
  }

  lemma ItemStands<V>(heap: Heap.FactHeap<V>, b: nat, i: nat, at: Location)
    requires heap.Valid() && heap.Stands(SliceRef(b), at) && b in heap.store && heap.store[b].SliceCell?
             && i < |heap.store[b].items|
    ensures heap.Stands(heap.store[b].items[i], at + [Index(i)])
  {
    FollowStep(heap.store, MapRef(heap.root), at, Index(i));
  }

  /** One slice on the way of a store: the array is grown if need be, the item stored or created, and the array stored
      back into its parent. */
  method SliceStep<V>(heap: Heap.FactHeap<V>, parts: seq<Bytes>, i: nat, a: nat, index: nat, value: Option<V>,
                      ghost at: Location)
    returns (cur: Ref<V>)
    requires heap.Valid() && heap.Stands(SliceRef(a), at) && At(heap.tree, at).Some? && At(heap.tree, at).value.SliceT?
    requires 0 < i < |parts| && Names(parts[..i], at) && ParseIndex(parts[i]) == Some(index)
    modifies heap`store, heap`next, heap`tree, heap`places
    ensures heap.Valid() && heap.Stands(cur, at + [Index(index)])
    ensures Fits(old(heap.tree), at)
    ensures heap.tree
            == Put(old(heap.tree), at, SliceT(Renewed(At(old(heap.tree), at).value.items, index, parts[i..], value)))
  {
    hide Put, Fits, Grow, ParseIndex, Shows, Follow, Names;
    ghost var tree, was := heap.tree, At(heap.tree, at).value.items;
    AtFits(tree, at);
    NodeKind(heap, SliceRef(a), at);
    var b := GrowSlice(heap, a, index + 1, at);
    ghost var items := Grow(was, index + 1, NilT);
    NilShown(heap.store, heap.places, heap.store[b].items, items, at, index);
    if i == |parts| - 1 {
      ValueShows(heap.store, heap.places, value, at + [Index(index)]);
      PutItem(heap, b, index, ValueRef(value), at, items, ValueTree(value));
      if b in heap.places {
        ItemStored(tree, at, was, index, ValueTree(value), SliceT(items[index := ValueTree(value)]));
      }
      items := items[index := ValueTree(value)];
    } else if heap.store[b].items[index].Nil? {
      ghost var empty: Tree<V> := Empty(parts[i + 1]);
      var x := NewItem(heap, a, b, index, parts[i + 1], at, items);
      PutItem(heap, b, index, x, at, items, empty);
      if b in heap.places {
        ItemStored(tree, at, was, index, empty, SliceT(items[index := empty]));
      }
      items := items[index := empty];
    }
    cur := heap.store[b].items[index];
    assert items == Renewed(was, index, parts[i..], value);
    LinkSlice(heap, parts[..i], b, at, items);
    ItemStands(heap, b, index, at);
    PutAgain(tree, at, NilT, SliceT(items));
  }

  lemma NamesGrow(parts: seq<Bytes>, i: nat, at: Location, step: Step)
    requires i < |parts| && Names(parts[..i], at)
    requires step == Key(parts[i]) || (ParseIndex(parts[i]).Some? && step == Index(ParseIndex(parts[i]).value))
    ensures Names(parts[..i + 1], at + [step])
  {
    hide ParseIndex;
    assert parts[..i + 1] == parts[..i] + [parts[i]];
  }

  /** One map on the way of a store: the child, created if it is missing. */
  method KeyStep<V>(heap: Heap.FactHeap<V>, node: Ref<V>, key: Bytes, empty: Tree<V>, ghost at: Location)
    returns (x: Ref<V>)
    requires heap.Valid() && heap.Stands(node, at) && node.MapRef? && (empty == MapT(map[]) || empty == SliceT([]))
    modifies heap`store, heap`next, heap`tree, heap`places
    ensures heap.Valid() && heap.Stands(x, at + [Key(key)])
    ensures At(old(heap.tree), at + [Key(key)]).Some? ==> heap.tree == old(heap.tree)
    ensures At(old(heap.tree), at + [Key(key)]).None?
            ==> Fits(old(heap.tree), at + [Key(key)]) && heap.tree == Put(old(heap.tree), at + [Key(key)], empty)
  {
    hide Shows, Put, Fits, Follow;
    NodeKind(heap, node, at);
    StandsStep(heap, node, at, Key(key));
    var child := Slot(heap.store, node, Key(key));
    if child.Some? {
      x := child.value;
    } else {
      x := heap.NewChild(node, Key(key), empty, at);
    }
  }

  /** `setFactPath` of source.go. */
  method SetFactPath<V>(heap: Heap.FactHeap<V>, parts: seq<Bytes>, value: Option<V>) returns (ok: bool)
    requires heap.Valid() && heap.tree.MapT?
    modifies heap`store, heap`next, heap`tree, heap`places
    ensures heap.Valid()
    ensures parts == [] ==> !ok && heap.tree == old(heap.tree)
    ensures parts != [] ==>
              heap.tree == Set(old(heap.tree), parts, value).0 && ok == Set(old(heap.tree), parts, value).1
  {
    assert heap.Stands(MapRef(heap.root), []) && Names([], []);
    hide Shows, Put, Fits, Set, Pending, ParseIndex, Follow, Names, Empty, Renewed;
    if |parts| == 0 {
      return false;
    }
    ghost var want := Set(heap.tree, parts, value);
    ghost var at: Location := [];
    var cur := MapRef(heap.root);
    assert parts[0..] == parts && parts[..0] == [];
    for i := 0 to |parts|
      invariant i < |parts| && heap.Valid() && heap.Stands(cur, at) && Names(parts[..i], at)
      invariant Pending(heap.tree, at, parts[i..], value, want)
      invariant i == 0 ==> cur.MapRef?
    {
      var part, last := parts[i], i == |parts| - 1;
      assert parts[i..][0] == part && parts[i..][1..] == parts[i + 1..];
      NodeKind(heap, cur, at);
      if part == [] {
        PendingStop(heap.tree, at, parts[i..], value, want);
        return false;
      }
      match cur
      case MapRef(a) =>
        PendingKey(heap.tree, at, parts[i..], value, want);
        if last {
          ValueShows(heap.store, heap.places, value, at + [Key(part)]);
          heap.Write(cur, Key(part), ValueRef(value), at, ValueTree(value));
          return true;
        }
        NamesGrow(parts, i, at, Key(part));
        cur := KeyStep(heap, cur, part, Empty(parts[i + 1]), at);
        at := at + [Key(part)];
      case SliceRef(a) =>
        var index := ParseIndex(part);
        if index.None? {
          PendingStop(heap.tree, at, parts[i..], value, want);
          return false;
        }
        PendingIndex(heap.tree, at, parts[i..], value, want, index.value);
        cur := SliceStep(heap, parts, i, a, index.value, value, at);
        if last {
          return true;
        }
        NamesGrow(parts, i, at, Index(index.value));
        at := at + [Index(index.value)];
      case _ =>
        PendingStop(heap.tree, at, parts[i..], value, want);
        return false;
    }
  }
}
