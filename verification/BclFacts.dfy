/** BCL map blocks: dotted entries, the in-place store that rebuilds nested maps from them, and the printer that
    flattens
    them (bcl/bcl.go). */
module BclFacts {
  import opened Wrappers
  import opened Utf8
  import opened FactTree
  import opened Heap = FactHeap

  /** What storing at a dotted path makes of a map, and whether it succeeds: an empty segment stops it, a plain value on
      the way is replaced by a map. */
  function Assign<V>(t: Tree<V>, parts: seq<Bytes>, v: V): (r: (Tree<V>, bool))
    requires t.MapT?
    ensures r.0.MapT?
    decreases |parts|
  {
    if parts == [] then (t, true)
    else if parts[0] == [] then (t, false)
    else if |parts| == 1 then (MapT(t.entries[parts[0] := LeafT(v)]), true)
    else
      var (inner, ok) := Assign(Inner(t, parts[0]), parts[1..], v);
      (MapT(t.entries[parts[0] := inner]), ok)
  }

  /** The map to descend into. */
  function Inner<V>(t: Tree<V>, key: Bytes): (m: Tree<V>)
    ensures m.MapT?
  {
    var c := Child(t, Key(key));
    if c.Some? && c.value.MapT? then c.value else MapT(map[])
  }

  /** Having descended to `at`, what is left to do there decides the whole tree. */
  ghost predicate Pending<V>(tree: Tree<V>, at: Location, parts: seq<Bytes>, v: V, want: (Tree<V>, bool)) {
    && At(tree, at).Some? && At(tree, at).value.MapT? && Fits(tree, at)
    && want == (Put(tree, at, Assign(At(tree, at).value, parts, v).0), Assign(At(tree, at).value, parts, v).1)
  }

  lemma PendingStart<V>(tree: Tree<V>, parts: seq<Bytes>, v: V)
    requires tree.MapT?
    ensures Pending(tree, [], parts, v, Assign(tree, parts, v))
  {
  }

  lemma PendingIsMap<V>(tree: Tree<V>, at: Location, parts: seq<Bytes>, v: V, want: (Tree<V>, bool))
    requires Pending(tree, at, parts, v, want)
    ensures At(tree, at).Some? && At(tree, at).value.MapT?
  {
  }

  lemma PendingDown<V>(tree: Tree<V>, at: Location, parts: seq<Bytes>, v: V, want: (Tree<V>, bool))
    requires Pending(tree, at, parts, v, want) && |parts| > 1 && parts[0] != []
    ensures var c := At(tree, at + [Key(parts[0])]);
            if c.Some? && c.value.MapT? then Pending(tree, at + [Key(parts[0])], parts[1..], v, want)
            else (Fits(tree, at + [Key(parts[0])])
                  && Pending(Put(tree, at + [Key(parts[0])], MapT(map[])), at + [Key(parts[0])], parts[1..], v, want))
  {
    var node, step := At(tree, at).value, Key(parts[0]);
    var x := Assign(Inner(node, parts[0]), parts[1..], v).0;
    PutStep(tree, at, step, x);
    PutAgain(tree, at + [step], MapT(map[]), x);
    if At(tree, at + [step]).Some? {
      AtFits(tree, at + [step]);
    }
  }

  lemma PendingLast<V>(tree: Tree<V>, at: Location, parts: seq<Bytes>, v: V, want: (Tree<V>, bool))
    requires Pending(tree, at, parts, v, want) && (parts == [] || parts[0] == [] || |parts| == 1)
    ensures if parts == [] then want == (tree, true)
            else if parts[0] == [] then want == (tree, false)
            else Fits(tree, at + [Key(parts[0])]) && want == (Put(tree, at + [Key(parts[0])], LeafT(v)), true)
  {
    PutSame(tree, at);
    if parts != [] {
      PutStep(tree, at, Key(parts[0]), LeafT(v));
    }
  }

  /** `setFactPath` of bcl/bcl.go. */
  method SetFactPath<V>(heap: Heap.FactHeap<V>, parts: seq<Bytes>, value: V) returns (ok: bool)
    requires heap.Valid() && heap.tree.MapT?
    modifies heap`store, heap`next, heap`tree, heap`places
    ensures heap.Valid()
    ensures heap.tree == Assign(old(heap.tree), parts, value).0
    ensures ok == Assign(old(heap.tree), parts, value).1
  {
    hide Shows, Put, Fits, Assign, Pending;
    ghost var want := Assign(heap.tree, parts, value);
    ghost var at: Location := [];
    var current := MapRef(heap.root);
    assert parts[0..] == parts;
    PendingStart(heap.tree, parts, value);
    for i := 0 to |parts|
      invariant heap.Valid() && heap.Stands(current, at)
      invariant Pending(heap.tree, at, parts[i..], value, want)
      invariant i == |parts| ==> parts == []
    {
      var part := parts[i];
      assert parts[i..][0] == part && parts[i..][1..] == parts[i + 1..];
      PendingIsMap(heap.tree, at, parts[i..], value, want);
      IsMap(heap, current, at);
      if part == [] {
        PendingLast(heap.tree, at, parts[i..], value, want);
        return false;
      }
      if i == |parts| - 1 {
        PendingLast(heap.tree, at, parts[i..], value, want);
        heap.Write(current, Key(part), Leaf(value), at, LeafT(value));
        return true;
      }
      PendingDown(heap.tree, at, parts[i..], value, want);
      var child := Slot(heap.store, current, Key(part));
      ChildIsMap(heap, current, at, part);
      var node: Ref<V>;
      if child.Some? && child.value.MapRef? {
        node := child.value;
      } else {
        node := heap.NewChild(current, Key(part), MapT(map[]), at);
      }
      current := node;
      at := at + [Key(part)];
    }
    PendingLast(heap.tree, at, [], value, want);
    ok := true;
  }

  /** A node that stands where the tree has a map is a map cell. */
  lemma IsMap<V>(heap: Heap.FactHeap<V>, node: Ref<V>, at: Location)
    requires heap.Valid() && heap.Stands(node, at) && At(heap.tree, at).Some? && At(heap.tree, at).value.MapT?
    ensures node.MapRef? && node.addr in heap.store && heap.store[node.addr].MapCell?
  {
    FollowShows(heap.store, heap.places, MapRef(heap.root), heap.tree, [], at);
  }

  lemma ChildIsMap<V>(heap: Heap.FactHeap<V>, node: Ref<V>, at: Location, key: Bytes)
    requires heap.Valid() && heap.Stands(node, at) && At(heap.tree, at).Some?
    ensures var r, c := Slot(heap.store, node, Key(key)), At(heap.tree, at + [Key(key)]);
            && r.Some? == c.Some? && (r.Some? ==> r.value.MapRef? == c.value.MapT?)
            && (r.Some? ==> heap.Stands(r.value, at + [Key(key)]))
  {
    FollowStep(heap.store, MapRef(heap.root), at, Key(key));
    FollowShows(heap.store, heap.places, MapRef(heap.root), heap.tree, [], at + [Key(key)]);
  }

  // ---------- flattening and replaying ----------

  datatype Entry<V> = Entry(path: seq<Bytes>, value: V)

  function LeafAt<V>(t: Tree<V>, path: seq<Bytes>): Option<V>
    decreases |path|
  {
    if path == [] then if t.LeafT? then Some(t.value) else None
    else
      var c := Child(t, Key(path[0]));
      if c.None? then None else LeafAt(c.value, path[1..])
  }

  /** Maps and plain values only. */
  predicate Mapped<V>(t: Tree<V>)
    decreases t
  {
    t.MapT? && forall k | k in t.entries :: t.entries[k].LeafT? || Mapped(t.entries[k])
  }

  /** No key is empty and no map in the map is. */
  predicate Nested<V>(t: Tree<V>)
    requires Mapped(t)
    decreases t
  {
    forall k | k in t.entries ::
      k != [] && (t.entries[k].MapT? ==> t.entries[k].entries != map[] && Nested(t.entries[k]))
  }

  /** The entries name every plain value of the tree by its path, and nothing else, in any order. */
  ghost predicate Flattens<V>(t: Tree<V>, es: seq<Entry<V>>) {
    && (forall i :: 0 <= i < |es| ==> es[i].path != [] && LeafAt(t, es[i].path) == Some(es[i].value))
    && (forall p :: LeafAt(t, p).Some? ==> exists i :: 0 <= i < |es| && es[i].path == p)
  }

  function Replay<V>(t: Tree<V>, es: seq<Entry<V>>): (r: (Tree<V>, bool))
    requires t.MapT?
    ensures r.0.MapT?
    decreases |es|
  {
    if es == [] then (t, true)
    else
      var (u, ok) := Assign(t, es[0].path, es[0].value);
      if ok then Replay(u, es[1..]) else (u, false)
  }

  /** Part of a tree: some of its keys, with equal plain values. */
  ghost predicate Within<V>(a: Tree<V>, t: Tree<V>)
    decreases a
  {
    if a.MapT? then t.MapT? && forall k | k in a.entries :: k in t.entries && Within(a.entries[k], t.entries[k])
    else a.LeafT? && a == t
  }

  lemma {:induction false} AssignWithin<V>(a: Tree<V>, t: Tree<V>, path: seq<Bytes>, v: V)
    requires a.MapT? && Within(a, t) && path != [] && LeafAt(t, path) == Some(v)
    ensures Within(Assign(a, path, v).0, t)
    decreases |path|
  {
    var key := path[0];
    if key != [] && |path| > 1 {
      var inner := Inner(a, key);
      assert path[1..] != [];
      AssignWithin(inner, t.entries[key], path[1..], v);
    }
  }

  /** A successful store adds its own leaf and keeps every other one. */
  lemma {:induction false} AssignLeaves<V>(a: Tree<V>, t: Tree<V>, path: seq<Bytes>, v: V, q: seq<Bytes>)
    requires a.MapT? && Within(a, t) && path != [] && LeafAt(t, path) == Some(v) && Assign(a, path, v).1
    requires q == path || LeafAt(a, q).Some?
    ensures LeafAt(Assign(a, path, v).0, q).Some?
    decreases |path|
  {
    var key := path[0];
    if |path| > 1 && q[0] == key {
      AssignLeaves(Inner(a, key), t.entries[key], path[1..], v, q[1..]);
    }
  }

  lemma {:induction false} AssignNested<V>(a: Tree<V>, path: seq<Bytes>, v: V)
    requires Mapped(a) && Nested(a) && path != [] && Assign(a, path, v).1
    ensures var r := Assign(a, path, v).0; Mapped(r) && Nested(r) && r.entries != map[]
    decreases |path|
  {
    var r := Assign(a, path, v).0;
    if |path| > 1 {
      AssignNested(Inner(a, path[0]), path[1..], v);
    }
    assert path[0] in r.entries;
  }

  lemma {:induction false} ReplayNested<V>(a: Tree<V>, es: seq<Entry<V>>)
    requires Mapped(a) && Nested(a) && Replay(a, es).1 && forall i :: 0 <= i < |es| ==> es[i].path != []
    ensures var r := Replay(a, es).0; Mapped(r) && Nested(r)
    decreases |es|
  {
    if es != [] {
      AssignNested(a, es[0].path, es[0].value);
      ReplayNested(Assign(a, es[0].path, es[0].value).0, es[1..]);
    }
  }

  lemma {:induction false} AssignSucceeds<V>(a: Tree<V>, path: seq<Bytes>, v: V)
    requires a.MapT?
    ensures Assign(a, path, v).1 <==> [] !in path
    decreases |path|
  {
    if path != [] {
      assert path == [path[0]] + path[1..];
      if |path| > 1 && path[0] != [] {
        AssignSucceeds(Inner(a, path[0]), path[1..], v);
      }
    }
  }

  lemma {:induction false} NestedPaths<V>(t: Tree<V>, path: seq<Bytes>)
    requires Mapped(t) && Nested(t) && LeafAt(t, path).Some?
    ensures [] !in path
    decreases |path|
  {
    assert path == [path[0]] + path[1..];
    if |path| > 1 {
      NestedPaths(t.entries[path[0]], path[1..]);
    }
  }

  lemma {:induction false} ReplayWithin<V>(a: Tree<V>, t: Tree<V>, es: seq<Entry<V>>)
    requires a.MapT? && Within(a, t) && Mapped(t) && Nested(t)
    requires forall i :: 0 <= i < |es| ==> es[i].path != [] && LeafAt(t, es[i].path) == Some(es[i].value)
    ensures var r := Replay(a, es);
            && r.1 && Within(r.0, t)
            && (forall q :: LeafAt(a, q).Some? || (exists i :: 0 <= i < |es| && es[i].path == q) ==>
                LeafAt(r.0, q).Some?)
    decreases |es|
  {
    if es != [] {
      var e := es[0];
      NestedPaths(t, e.path);
      AssignSucceeds(a, e.path, e.value);
      AssignWithin(a, t, e.path, e.value);
      var u := Assign(a, e.path, e.value).0;
      forall q | q == e.path || LeafAt(a, q).Some? ensures LeafAt(u, q).Some? {
        AssignLeaves(a, t, e.path, e.value, q);
      }
      ReplayWithin(u, t, es[1..]);
      forall q | exists i :: 0 <= i < |es| && es[i].path == q ensures LeafAt(Replay(a, es).0, q).Some? {
        var i :| 0 <= i < |es| && es[i].path == q;
        if i > 0 {
          assert es[1..][i - 1].path == q;
        }
      }
    }
  }

  lemma {:induction false} HasLeaf<V>(t: Tree<V>) returns (path: seq<Bytes>)
    requires t.LeafT? || (Mapped(t) && Nested(t) && t.entries != map[])
    ensures LeafAt(t, path).Some?
    decreases t
  {
    if t.LeafT? {
      path := [];
    } else {
      var k :| k in t.entries;
      var rest := HasLeaf(t.entries[k]);
      path := [k] + rest;
      assert path[1..] == rest;
    }
  }

  /** Part of a nested tree that has all its leaves is the whole. */
  lemma {:induction false} AllLeaves<V>(a: Tree<V>, t: Tree<V>)
    requires Within(a, t) && Mapped(t) && Nested(t)
    requires forall q :: LeafAt(t, q).Some? ==> LeafAt(a, q).Some?
    ensures a == t
    decreases t
  {
    forall k | k in t.entries ensures k in a.entries && a.entries[k] == t.entries[k] {
      var c := t.entries[k];
      var p := HasLeaf(c);
      assert ([k] + p)[1..] == p;
      assert LeafAt(t, [k] + p).Some?;
      if c.MapT? {
        forall q | LeafAt(c, q).Some? ensures LeafAt(a.entries[k], q).Some? {
          assert ([k] + q)[1..] == q;
          assert LeafAt(t, [k] + q).Some?;
        }
        AllLeaves(a.entries[k], c);
      }
    }
    assert a.entries.Keys == t.entries.Keys;
  }

  /** Replaying a map's dotted entries, in any order and however often each is repeated, rebuilds the map exactly when
      it has no empty key and no empty map inside. */
  lemma ReplayRebuilds<V>(t: Tree<V>, es: seq<Entry<V>>)
    requires Mapped(t) && Flattens(t, es)
    ensures Replay(MapT(map[]), es) == (t, true) <==> Nested(t)
  {
    var start: Tree<V> := MapT(map[]);
    if Nested(t) {
      ReplayWithin(start, t, es);
      AllLeaves(Replay(start, es).0, t);
    } else if Replay(start, es).1 {
      ReplayNested(start, es);
    }
  }

  /** A map that holds only an empty map has no entries, so the map itself is lost. */
  lemma EmptyMapLost<V>(k: Bytes)
    ensures var t: Tree<V> := MapT(map[k := MapT(map[])]);
            Mapped(t) && Flattens(t, []) && Replay<V>(MapT(map[]), []).0 != t
  {
    var t: Tree<V> := MapT(map[k := MapT(map[])]);
    forall p
      ensures LeafAt(t, p).None?
    {
      if |p| > 0 && p[0] == k && |p| > 1 {
        assert LeafAt(t.entries[k], p[1..]).None?;
      }
    }
    assert k in t.entries;
  }
}
