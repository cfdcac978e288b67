/** Nested facts: maps and slices linked by reference, the tree they show, and what one write does to that tree. */
module FactTree {
  import opened Wrappers
  import opened Utf8

  datatype Step = Key(key: Bytes) | Index(index: nat)

  type Location = seq<Step>

  /** A nested fact as a value. */
  datatype Tree<V> = NilT | LeafT(value: V) | MapT(entries: map<Bytes, Tree<V>>) | SliceT(items: seq<Tree<V>>)

  // ---------- places in a tree ----------

  function Child<V>(t: Tree<V>, s: Step): Option<Tree<V>> {
    match s
    case Key(k) => if t.MapT? && k in t.entries then Some(t.entries[k]) else None
    case Index(i) => if t.SliceT? && i < |t.items| then Some(t.items[i]) else None
  }

  /** A child can be stored there: any key of a map, an existing index of a slice. */
  predicate Accepts<V>(t: Tree<V>, s: Step) {
    if s.Key? then t.MapT? else t.SliceT? && s.index < |t.items|
  }

  function WithChild<V>(t: Tree<V>, s: Step, c: Tree<V>): Tree<V>
    requires Accepts(t, s)
  {
    if s.Key? then MapT(t.entries[s.key := c]) else SliceT(t.items[s.index := c])
  }

  function At<V>(t: Tree<V>, at: Location): Option<Tree<V>>
    decreases |at|
  {
    if at == [] then Some(t)
    else
      var c := Child(t, at[0]);
      if c.None? then None else At(c.value, at[1..])
  }

  /** Everything but the last step exists and the last one can be stored. */
  predicate Fits<V>(t: Tree<V>, at: Location)
    decreases |at|
  {
    at == [] || (Accepts(t, at[0]) && Fits(Child(t, at[0]).GetOr(NilT), at[1..]))
  }

  function Put<V>(t: Tree<V>, at: Location, x: Tree<V>): Tree<V>
    requires Fits(t, at)
    decreases |at|
  {
    if at == [] then x else WithChild(t, at[0], Put(Child(t, at[0]).GetOr(NilT), at[1..], x))
  }

  lemma {:induction false} AtFits<V>(t: Tree<V>, at: Location)
    requires At(t, at).Some?
    ensures Fits(t, at)
  {
    if at != [] {
      AtFits(Child(t, at[0]).value, at[1..]);
    }
  }

  lemma {:induction false} PutSame<V>(t: Tree<V>, at: Location)
    requires At(t, at).Some?
    ensures Fits(t, at) && Put(t, at, At(t, at).value) == t
  {
    if at != [] {
      PutSame(Child(t, at[0]).value, at[1..]);
    }
  }

  lemma {:induction false} PutAgain<V>(t: Tree<V>, at: Location, x: Tree<V>, y: Tree<V>)
    requires Fits(t, at)
    ensures Fits(Put(t, at, x), at) && Put(Put(t, at, x), at, y) == Put(t, at, y) && At(Put(t, at, x), at) == Some(x)
    decreases |at|
  {
    if at != [] {
      PutAgain(Child(t, at[0]).GetOr(NilT), at[1..], x, y);
    }
  }

  /** Storing a child is storing its changed parent. */
  lemma {:induction false} PutStep<V>(t: Tree<V>, at: Location, s: Step, x: Tree<V>)
    requires At(t, at).Some? && Accepts(At(t, at).value, s)
    ensures Fits(t, at) && Fits(t, at + [s])
    ensures Put(t, at + [s], x) == Put(t, at, WithChild(At(t, at).value, s, x))
    ensures At(t, at + [s]) == Child(At(t, at).value, s)
  {
    if at == [] {
      assert at + [s] == [s] && [s][1..] == [];
    } else {
      assert (at + [s])[1..] == at[1..] + [s];
      PutStep(Child(t, at[0]).value, at[1..], s, x);
    }
  }

  // ---------- references ----------

  /** A Go `any`: nil, a plain value, or a reference to a map or to a slice's array. */
  datatype Ref<V> = Nil | Leaf(value: V) | MapRef(addr: nat) | SliceRef(addr: nat)

  datatype Cell<V> = MapCell(entries: map<Bytes, Ref<V>>) | SliceCell(items: seq<Ref<V>>)

  type Store<V> = map<nat, Cell<V>>

  function Slot<V>(s: Store<V>, r: Ref<V>, step: Step): Option<Ref<V>> {
    match step
    case Key(k) =>
      if r.MapRef? && r.addr in s && s[r.addr].MapCell? && k in s[r.addr].entries then Some(s[r.addr].entries[k])
          else None
    case Index(i) =>
      if r.SliceRef? && r.addr in s && s[r.addr].SliceCell? && i < |s[r.addr].items| then Some(s[r.addr].items[i])
          else None
  }

  function Follow<V>(s: Store<V>, r: Ref<V>, at: Location): Option<Ref<V>>
    decreases |at|
  {
    if at == [] then Some(r)
    else
      var c := Slot(s, r, at[0]);
      if c.None? then None else Follow(s, c.value, at[1..])
  }

  function WithSlot<V>(c: Cell<V>, step: Step, r: Ref<V>): Cell<V>
    requires if step.Key? then c.MapCell? else c.SliceCell? && step.index < |c.items|
  {
    if step.Key? then MapCell(c.entries[step.key := r]) else SliceCell(c.items[step.index := r])
  }

  /** `r`, standing at `at`, shows the tree `t`. `places` gives every map and slice on the way its own location, so
      none is reached twice. */
  ghost predicate Shows<V>(s: Store<V>, places: map<nat, Location>, r: Ref<V>, t: Tree<V>, at: Location)
    decreases t
  {
    match t
    case NilT => r == Nil
    case LeafT(v) => r == Leaf(v)
    case MapT(m) =>
      && r.MapRef? && r.addr in s && s[r.addr].MapCell? && r.addr in places && places[r.addr] == at
      && s[r.addr].entries.Keys == m.Keys
      && forall k | k in m :: Shows(s, places, s[r.addr].entries[k], m[k], at + [Key(k)])
    case SliceT(items) =>
      && r.SliceRef? && r.addr in s && s[r.addr].SliceCell? && r.addr in places && places[r.addr] == at
      && |s[r.addr].items| == |items|
      && forall i | 0 <= i < |items| :: Shows(s, places, s[r.addr].items[i], items[i], at + [Index(i)])
  }

  lemma ShowsChild<V>(s: Store<V>, places: map<nat, Location>, r: Ref<V>, t: Tree<V>, at: Location, step: Step)
    requires Shows(s, places, r, t, at)
    ensures Slot(s, r, step).Some? == Child(t, step).Some?
    ensures Child(t, step).Some? ==> Shows(s, places, Slot(s, r, step).value, Child(t, step).value, at + [step])
  {
  }

  /** References and tree lead to the same place. */
  lemma {:induction false} FollowShows<V>(s: Store<V>, places: map<nat, Location>, r: Ref<V>, t: Tree<V>, at: Location,
                                          path: Location)
    requires Shows(s, places, r, t, at)
    ensures Follow(s, r, path).Some? == At(t, path).Some?
    ensures At(t, path).Some? ==> Shows(s, places, Follow(s, r, path).value, At(t, path).value, at + path)
    decreases |path|
  {
    hide Shows;
    if path == [] {
      assert at + path == at;
    } else {
      ShowsChild(s, places, r, t, at, path[0]);
      if Child(t, path[0]).Some? {
        FollowShows(s, places, Slot(s, r, path[0]).value, Child(t, path[0]).value, at + [path[0]], path[1..]);
        assert at + [path[0]] + path[1..] == at + path;
      }
    }
  }

  lemma {:induction false} FollowStep<V>(s: Store<V>, r: Ref<V>, at: Location, step: Step)
    requires Follow(s, r, at).Some?
    ensures Follow(s, r, at + [step]) == Slot(s, Follow(s, r, at).value, step)
    decreases |at|
  {
    if at == [] {
      assert at + [step] == [step] && [step][1..] == [];
    } else {
      assert (at + [step])[1..] == at[1..] + [step];
      FollowStep(s, Slot(s, r, at[0]).value, at[1..], step);
    }
  }

  /** A new cell is reached by no path that led somewhere before. */
  lemma {:induction false} FollowKept<V>(s: Store<V>, r: Ref<V>, at: Location, a: nat, cell: Cell<V>)
    requires a !in s && Follow(s, r, at).Some?
    ensures Follow(s[a := cell], r, at) == Follow(s, r, at)
    decreases |at|
  {
    if at != [] {
      FollowKept(s, Slot(s, r, at[0]).value, at[1..], a, cell);
    }
  }

  /** The cell of an empty map or slice. */
  function EmptyCell<V>(t: Tree<V>): Cell<V> {
    if t.MapT? then MapCell(map[]) else SliceCell([])
  }

  // ---------- one write ----------

  /** A cell that has no place at or below `at`. */
  predicate Elsewhere(places: map<nat, Location>, c: nat, at: Location) {
    c in places ==> !(at <= places[c])
  }

  /** Writing a cell that is elsewhere, and placing more cells, changes nothing here. */
  lemma {:induction false} Untouched<V>(s: Store<V>, s': Store<V>, places: map<nat, Location>,
                                        places': map<nat, Location>,
                                         c: nat, r: Ref<V>, t: Tree<V>, at: Location)
    requires Shows(s, places, r, t, at) && Elsewhere(places, c, at)
    requires forall a | a in s && a != c :: a in s' && s'[a] == s[a]
    requires forall a | a in places :: a in places' && places'[a] == places[a]
    ensures Shows(s', places', r, t, at)
    decreases t
  {
    match t
    case MapT(m) =>
      forall k | k in m ensures Shows(s', places', s[r.addr].entries[k], m[k], at + [Key(k)]) {
        Untouched(s, s', places, places', c, s[r.addr].entries[k], m[k], at + [Key(k)]);
      }
    case SliceT(items) =>
      forall i | 0 <= i < |items| ensures Shows(s', places', s[r.addr].items[i], items[i], at + [Index(i)]) {
        Untouched(s, s', places, places', c, s[r.addr].items[i], items[i], at + [Index(i)]);
      }
    case _ =>
  }

  /** The step is to a key of a map cell or an index within a slice cell. */
  predicate CanHold<V>(s: Store<V>, r: Ref<V>, step: Step) {
    if step.Key? then r.MapRef? && r.addr in s && s[r.addr].MapCell?
    else r.SliceRef? && r.addr in s && s[r.addr].SliceCell? && step.index < |s[r.addr].items|
  }

  /** Storing `x` in the cell reached by `path` stores the tree it shows at that place of the whole tree, and nothing
      else. */
  lemma {:induction false} Written<V>(s: Store<V>, places: map<nat, Location>, r: Ref<V>, t: Tree<V>, at: Location,
                                       path: Location, step: Step, x: Ref<V>, tx: Tree<V>)
    requires Shows(s, places, r, t, at)
    requires Follow(s, r, path).Some? && CanHold(s, Follow(s, r, path).value, step)
    requires var c := Follow(s, r, path).value.addr;
             Shows(s[c := WithSlot(s[c], step, x)], places, x, tx, at + path + [step])
    ensures var c := Follow(s, r, path).value.addr;
            var s' := s[c := WithSlot(s[c], step, x)];
            && Fits(t, path + [step]) && Shows(s', places, r, Put(t, path + [step], tx), at)
            && Follow(s', r, path) == Follow(s, r, path)
    decreases |path|
  {
    hide Shows, Fits, Put, At, Accepts, WithChild, WithSlot, Follow, Child, Slot;
    FollowShows(s, places, r, t, at, path);
    var c := Follow(s, r, path).value.addr;
    var s' := s[c := WithSlot(s[c], step, x)];
    CanHoldAccepts(s, places, Follow(s, r, path).value, At(t, path).value, at + path, step);
    PutStep(t, path, step, tx);
    if path == [] {
      assert at + path == at;
      Here(s, r, t, WithChild(t, step, tx));
      Here(s', r, t, t);
      SlotWritten(s, r, step, x);
      WrittenBeside(s, s', places, r, t, at, step, tx, c);
    } else {
      var q, first := path[1..], path[0];
      assert at + [first] + q == at + path && path + [step] == [first] + (q + [step]);
      Unfold(s, s', r, t, first, q, path);
      ShowsChild(s, places, r, t, at, first);
      CanHoldAccepts(s, places, r, t, at, first);
      var next, child := Slot(s, r, first).value, Child(t, first).value;
      Written(s, places, next, child, at + [first], q, step, x, tx);
      UnfoldPut(t, first, q + [step], tx);
      assert |places[r.addr]| < |places[c]|;
      assert s'[r.addr] == s[r.addr];
      SlotSame(s, s', r, first);
      WrittenBeside(s, s', places, r, t, at, first, Put(child, q + [step], tx), c);
    }
  }

  lemma Here<V>(s: Store<V>, r: Ref<V>, t: Tree<V>, x: Tree<V>)
    ensures Follow(s, r, []) == Some(r) && At(t, []) == Some(t) && Fits(t, []) && Put(t, [], x) == x
  {
  }

  lemma SlotWritten<V>(s: Store<V>, r: Ref<V>, step: Step, x: Ref<V>)
    requires CanHold(s, r, step)
    ensures Slot(s[r.addr := WithSlot(s[r.addr], step, x)], r, step) == Some(x)
  {
  }

  lemma SlotSame<V>(s: Store<V>, s': Store<V>, r: Ref<V>, step: Step)
    requires CanHold(s, r, step) && Slot(s, r, step).Some? && r.addr in s' && s'[r.addr] == s[r.addr]
    ensures Slot(s', r, step) == Slot(s, r, step) && WithSlot(s[r.addr], step, Slot(s, r, step).value) == s[r.addr]
  {
  }

  /** A path's first step, in the tree, in the store before and in the store after. */
  lemma Unfold<V>(s: Store<V>, s': Store<V>, r: Ref<V>, t: Tree<V>, first: Step, q: Location, path: Location)
    requires path == [first] + q && At(t, path).Some? && Follow(s, r, path).Some?
    ensures Child(t, first).Some? && At(t, path) == At(Child(t, first).value, q)
    ensures Slot(s, r, first).Some? && Follow(s, r, path) == Follow(s, Slot(s, r, first).value, q)
    ensures Slot(s', r, first) == Slot(s, r, first) ==> Follow(s', r, path) == Follow(s', Slot(s, r, first).value, q)
  {
    assert path[1..] == q;
  }

  lemma UnfoldPut<V>(t: Tree<V>, first: Step, q: Location, x: Tree<V>)
    requires Child(t, first).Some? && Accepts(t, first) && Fits(Child(t, first).value, q)
    ensures Fits(t, [first] + q) && Put(t, [first] + q, x) == WithChild(t, first, Put(Child(t, first).value, q, x))
  {
    assert ([first] + q)[1..] == q;
  }

  /** A cell that holds a step shows a node that accepts it, at its place. */
  lemma CanHoldAccepts<V>(s: Store<V>, places: map<nat, Location>, r: Ref<V>, t: Tree<V>, at: Location, step: Step)
    requires Shows(s, places, r, t, at) && (CanHold(s, r, step) || Child(t, step).Some?)
    ensures Accepts(t, step) && CanHold(s, r, step) && r.addr in places && places[r.addr] == at
  {
  }

  /** A node whose child at `step` now shows `tx`, the write being at or below that child's place. */
  lemma WrittenBeside<V>(s: Store<V>, s': Store<V>, places: map<nat, Location>, r: Ref<V>, t: Tree<V>, at: Location,
                         step: Step, tx: Tree<V>, c: nat)
    requires Shows(s, places, r, t, at) && Accepts(t, step) && c in places && r.addr in s
    requires forall a | a in s && a != c :: a in s' && s'[a] == s[a]
    requires places[c] == at || at + [step] <= places[c]
    requires Slot(s', r, step).Some? && Shows(s', places, Slot(s', r, step).value, tx, at + [step])
    requires r.addr in s' && s'[r.addr] == WithSlot(s[r.addr], step, Slot(s', r, step).value)
    ensures Shows(s', places, r, WithChild(t, step, tx), at)
  {
    match t
    case MapT(m) =>
      forall k | k in m && k != step.key ensures Shows(s', places, s[r.addr].entries[k], m[k], at + [Key(k)]) {
        BesideElsewhere(places, c, at, step, Key(k));
        Untouched(s, s', places, places, c, s[r.addr].entries[k], m[k], at + [Key(k)]);
      }
    case SliceT(items) =>
      forall i | 0 <= i < |items| && i != step.index ensures Shows(s', places, s[r.addr].items[i], items[i],
                                                                   at + [Index(i)]) {
        BesideElsewhere(places, c, at, step, Index(i));
        Untouched(s, s', places, places, c, s[r.addr].items[i], items[i], at + [Index(i)]);
      }
    case _ =>
  }

  lemma BesideElsewhere(places: map<nat, Location>, c: nat, at: Location, step: Step, other: Step)
    requires c in places && (places[c] == at || at + [step] <= places[c]) && other != step
    ensures Elsewhere(places, c, at + [other])
  {
    assert (at + [other])[|at|] == other;
    if places[c] != at {
      assert places[c][|at|] == (at + [step])[|at|] == step;
    }
  }
}
