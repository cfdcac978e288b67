/** The mutable maps and slices that hold one root map of facts. */
module FactHeap {
  import opened Wrappers
  import opened FactTree

  class FactHeap<V> {
    var store: Store<V>
    var next: nat
    const root: nat
    /** The tree the root map shows, and where in it each map and slice stands. */
    ghost var tree: Tree<V>
    ghost var places: map<nat, Location>

    ghost predicate Valid()
      reads this
    {
      && Shows(store, places, MapRef(root), tree, [])
      && (forall a | a in store :: a < next)
      && places.Keys <= store.Keys
    }

    /** The map or slice that stands at `at`. */
    ghost predicate Stands(r: Ref<V>, at: Location)
      reads this
    {
      Follow(store, MapRef(root), at) == Some(r)
    }

    constructor ()
      ensures Valid() && tree == MapT(map[])
    {
      store, next, root := map[0 := MapCell(map[])], 1, 0;
      tree, places := MapT(map[]), map[0 := []];
    }

    /** A new map or array that nothing refers to yet. */
    method New(cell: Cell<V>, ghost node: Ref<V>, ghost at: Location) returns (a: nat)
      requires Valid() && Stands(node, at)
      modifies this`store, this`next
      ensures Valid() && a !in old(store) && a !in places && store == old(store)[a := cell] && Stands(node, at)
    {
      FollowKept(store, MapRef(root), at, next, cell);
      a := next;
      ghost var before := store;
      store := store[a := cell];
      next := next + 1;
      Untouched(before, store, places, places, a, MapRef(root), tree, []);
    }

    /** Gives a new map or array its place before something refers to it. */
    ghost method Place(a: nat, at: Location)
      requires Valid() && a in store && a !in places
      modifies this`places
      ensures Valid() && places == old(places)[a := at]
    {
      ghost var before := places;
      places := places[a := at];
      assert Elsewhere(before, a, []);
      Untouched(store, store, before, places, a, MapRef(root), tree, []);
    }

    /** `node[key] = x` or `node[index] = x` on the node that stands at `at`. */
    method Write(node: Ref<V>, step: Step, x: Ref<V>, ghost at: Location, ghost tx: Tree<V>)
      requires Valid() && Stands(node, at) && CanHold(store, node, step)
      requires Shows(store, places, x, tx, at + [step])
      modifies this`store, this`tree
      ensures Valid() && Stands(node, at)
      ensures store == old(store)[node.addr := WithSlot(old(store)[node.addr], step, x)]
      ensures Fits(old(tree), at + [step]) && tree == Put(old(tree), at + [step], tx)
      ensures Stands(x, at + [step])
    {
      store := store[node.addr := WithSlot(store[node.addr], step, x)];
      Record(old(store), node, step, x, at, tx);
    }

    /** The tree after a write. */
    ghost method Record(before: Store<V>, node: Ref<V>, step: Step, x: Ref<V>, at: Location, tx: Tree<V>)
      requires Shows(before, places, MapRef(root), tree, []) && (forall a | a in before :: a < next)
               && places.Keys <= before.Keys
      requires Follow(before, MapRef(root), at) == Some(node) && CanHold(before, node, step)
      requires Shows(before, places, x, tx, at + [step])
      requires store == before[node.addr := WithSlot(before[node.addr], step, x)]
      modifies this`tree
      ensures Valid() && Stands(node, at) && Stands(x, at + [step])
      ensures Fits(old(tree), at + [step]) && tree == Put(old(tree), at + [step], tx)
    {
      hide Shows, Put, Fits;
      FollowShows(before, places, MapRef(root), tree, [], at);
      assert [] + at == at;
      CanHoldAccepts(before, places, node, At(tree, at).value, at, step);
      assert Elsewhere(places, node.addr, at + [step]);
      Untouched(before, store, places, places, node.addr, x, tx, at + [step]);
      assert [] + at + [step] == at + [step];
      Written(before, places, MapRef(root), tree, [], at, step, x, tx);
      tree := Put(tree, at + [step], tx);
      FollowStep(store, MapRef(root), at, step);
    }

    /** `node[step] = map[string]any{}` or `node[step] = []any{}`. */
    method NewChild(node: Ref<V>, step: Step, empty: Tree<V>, ghost at: Location) returns (x: Ref<V>)
      requires Valid() && Stands(node, at) && CanHold(store, node, step)
               && (empty == MapT(map[]) || empty == SliceT([]))
      modifies this`store, this`next, this`tree, this`places
      ensures Valid() && Stands(node, at) && Stands(x, at + [step])
      ensures Fits(old(tree), at + [step]) && tree == Put(old(tree), at + [step], empty)
    {
      hide Put, Fits;
      var a := New(EmptyCell(empty), node, at);
      Place(a, at + [step]);
      x := if empty.MapT? then MapRef(a) else SliceRef(a);
      Write(node, step, x, at, empty);
    }
  }
}
