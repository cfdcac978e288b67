/** Blocks without lines in a condition (bcl/bcl.go): for trees whose lines are independent, exactly when dropping such
    blocks is harmless. */
module BclEmptyBlocks {
  import opened Wrappers
  import opened BclCondition

  type Env = nat -> bool

  // ---------- independent lines ----------

  /** Every line is an atom of its own, named by `atom`. */
  ghost predicate Atomic(items: seq<Item>, lexer: Lexer, atom: string -> nat)
    decreases items
  {
    forall k :: 0 <= k < |items| ==> AtomicItem(items[k], lexer, atom)
  }

  ghost predicate AtomicItem(item: Item, lexer: Lexer, atom: string -> nat)
    decreases item
  {
    match item
    case Line(text) => forall env: Env :: ValueOf(text, lexer, env) == Some(env(atom(text)))
    case Block(_, items) => Atomic(items, lexer, atom)
  }

  ghost function Atoms(items: seq<Item>, atom: string -> nat): set<nat>
    decreases items
  {
    if items == [] then {} else AtomsOf(items[0], atom) + Atoms(items[1..], atom)
  }

  ghost function AtomsOf(item: Item, atom: string -> nat): set<nat>
    decreases item
  {
    match item
    case Line(text) => {atom(text)}
    case Block(_, items) => Atoms(items, atom)
  }

  /** No atom occurs twice. */
  ghost predicate Separate(items: seq<Item>, atom: string -> nat)
    decreases items
  {
    items == [] || (SeparateItem(items[0], atom) && Separate(items[1..], atom)
                    && AtomsOf(items[0], atom) !! Atoms(items[1..], atom))
  }

  ghost predicate SeparateItem(item: Item, atom: string -> nat)
    decreases item
  {
    item.Block? ==> Separate(item.items, atom)
  }

  ghost predicate AgreeOn(s: set<nat>, a: Env, b: Env) {
    forall n :: n in s ==> a(n) == b(n)
  }

  ghost function Merge(s: set<nat>, a: Env, b: Env): Env {
    (n: nat) => if n in s then a(n) else b(n)
  }

  // ---------- what a block comes to ----------

  /** The tree's value of the items of a block, before a `not`. */
  predicate TreeValue(items: seq<Item>, k: Kind, lexer: Lexer, env: Env) {
    if k == Any then exists i :: 0 <= i < |items| && True(items[i], lexer, env)
    else forall i :: 0 <= i < |items| ==> True(items[i], lexer, env)
  }

  lemma TreeStep(items: seq<Item>, k: Kind, lexer: Lexer, env: Env)
    requires items != []
    ensures var x, rest := True(items[0], lexer, env), TreeValue(items[1..], k, lexer, env);
            TreeValue(items, k, lexer, env) == if k == Any then x || rest else x && rest
  {
    hide True;
    assert forall i :: 0 < i < |items| ==> items[i] == items[1..][i - 1];
    assert forall i :: 0 <= i < |items[1..]| ==> items[1..][i] == items[i + 1];
  }

  lemma BlockValue(item: Item, lexer: Lexer, env: Env)
    requires item.Block?
    ensures True(item, lexer, env) == (if item.kind == Not then !TreeValue(item.items, Not, lexer, env)
                                       else TreeValue(item.items, item.kind, lexer, env))
  {
  }

  lemma MeaningStep(items: seq<Item>, k: Kind, lexer: Lexer, env: Env)
    requires items != []
    ensures Meaning(items, Mode(k), lexer, env) ==
            Combine(ItemMeaning(items[0], lexer, env), Meaning(items[1..], Mode(k), lexer, env), Mode(k))
  {
  }

  /** Values are those of the atoms that occur. */
  lemma {:induction false} Depends(items: seq<Item>, k: Kind, lexer: Lexer, atom: string -> nat, a: Env, b: Env)
    requires Atomic(items, lexer, atom) && AgreeOn(Atoms(items, atom), a, b)
    ensures Meaning(items, Mode(k), lexer, a) == Meaning(items, Mode(k), lexer, b)
    ensures TreeValue(items, k, lexer, a) == TreeValue(items, k, lexer, b)
    decreases items
  {
    hide True, ItemMeaning, Meaning;
    if items != [] {
      DependsItem(items[0], lexer, atom, a, b);
      Depends(items[1..], k, lexer, atom, a, b);
      TreeStep(items, k, lexer, a);
      TreeStep(items, k, lexer, b);
      MeaningStep(items, k, lexer, a);
      MeaningStep(items, k, lexer, b);
    } else {
      NoMeaning(k, lexer, a);
      NoMeaning(k, lexer, b);
    }
  }

  lemma NoMeaning(k: Kind, lexer: Lexer, env: Env)
    ensures Meaning([], Mode(k), lexer, env) == None
  {
  }

  lemma {:induction false} DependsItem(item: Item, lexer: Lexer, atom: string -> nat, a: Env, b: Env)
    requires AtomicItem(item, lexer, atom) && AgreeOn(AtomsOf(item, atom), a, b)
    ensures ItemMeaning(item, lexer, a) == ItemMeaning(item, lexer, b)
    ensures True(item, lexer, a) == True(item, lexer, b)
    decreases item
  {
    hide Meaning, ValueOf;
    match item
    case Line(text) =>
      assert ValueOf(text, lexer, a) == Some(a(atom(text))) && ValueOf(text, lexer, b) == Some(b(atom(text)));
    case Block(k, items) =>
      Depends(items, k, lexer, atom, a, b);
      BlockValue(item, lexer, a);
      BlockValue(item, lexer, b);
  }

  /** The head under one assignment and the rest under another. */
  lemma Apart(items: seq<Item>, k: Kind, lexer: Lexer, atom: string -> nat, a: Env, b: Env) returns (env: Env)
    requires items != [] && Atomic(items, lexer, atom) && Separate(items, atom)
    ensures ItemMeaning(items[0], lexer, env) == ItemMeaning(items[0], lexer, a)
    ensures True(items[0], lexer, env) == True(items[0], lexer, a)
    ensures Meaning(items[1..], Mode(k), lexer, env) == Meaning(items[1..], Mode(k), lexer, b)
    ensures TreeValue(items[1..], k, lexer, env) == TreeValue(items[1..], k, lexer, b)
  {
    hide True, Meaning, ItemMeaning, TreeValue;
    env := Merge(AtomsOf(items[0], atom), a, b);
    DependsItem(items[0], lexer, atom, env, a);
    Depends(items[1..], k, lexer, atom, env, b);
  }

  // ---------- no block with a line is constant ----------

  /** Some assignment makes the text's value of the items `v`. */
  lemma {:induction false} Attains(items: seq<Item>, k: Kind, lexer: Lexer, atom: string -> nat, v: bool)
    returns (env: Env)
    requires Atomic(items, lexer, atom) && Separate(items, atom) && !AllVoid(items)
    ensures Meaning(items, Mode(k), lexer, env) == Some(v)
    decreases items
  {
    hide True, Meaning, ItemMeaning, TreeValue, Void;
    var first, rest := items[0], items[1..];
    assert items == [first] + rest;
    if Void(first) {
      env := Attains(rest, k, lexer, atom, v);
      VoidCounts(first, lexer, env);
    } else {
      var a := AttainsItem(first, lexer, atom, v);
      if AllVoid(rest) {
        env := a;
        VoidMeaning(rest, Mode(k), lexer, env);
      } else {
        var b := Attains(rest, k, lexer, atom, v);
        env := Apart(items, k, lexer, atom, a, b);
      }
    }
    MeaningStep(items, k, lexer, env);
  }

  lemma {:induction false} AttainsItem(item: Item, lexer: Lexer, atom: string -> nat, v: bool) returns (env: Env)
    requires AtomicItem(item, lexer, atom) && SeparateItem(item, atom) && !Void(item)
    ensures ItemMeaning(item, lexer, env) == Some(v)
    decreases item
  {
    hide Meaning, ValueOf;
    match item
    case Line(text) =>
      env := (_: nat) => v;
      assert ValueOf(text, lexer, env) == Some(env(atom(text)));
    case Block(k, items) =>
      env := Attains(items, k, lexer, atom, if k == Not then !v else v);
  }

  // ---------- a harmful block shows ----------

  lemma ConstantRest(items: seq<Item>, k: Kind, lexer: Lexer, env: Env)
    requires AllVoid(items)
    ensures Harmless(items, k) <==> TreeValue(items, k, lexer, env) == (k != Any)
  {
    hide True, Constant;
    forall i | 0 <= i < |items|
      ensures True(items[i], lexer, env) == Constant(items[i])
    {
      VoidCounts(items[i], lexer, env);
    }
  }

  lemma HarmlessHead(items: seq<Item>, k: Kind)
    requires items != []
    ensures Harmless(items, k) <==>
            Harmless(items[1..], k)
            && if Void(items[0]) then Constant(items[0]) == (k != Any) else HarmlessItem(items[0])
    ensures AllVoid(items) <==> Void(items[0]) && AllVoid(items[1..])
  {
    hide Void, Constant, HarmlessItem;
    assert forall i :: 0 <= i < |items| ==> items[i] == if i == 0 then items[0] else items[1..][i - 1];
    assert forall i :: 0 <= i < |items[1..]| ==> items[1..][i] == items[i + 1];
  }

  /** If some block without lines is harmful, some assignment tells text and tree apart. */
  lemma {:induction false} Differs(items: seq<Item>, k: Kind, lexer: Lexer, atom: string -> nat) returns (env: Env)
    requires Atomic(items, lexer, atom) && Separate(items, atom) && !AllVoid(items) && !Harmless(items, k)
    ensures Meaning(items, Mode(k), lexer, env) != Some(TreeValue(items, k, lexer, env))
    decreases items
  {
    assert items != [];
    hide True, Meaning, ItemMeaning, TreeValue, Void, Constant, Harmless, HarmlessItem, AllVoid, Atomic;
    var first, rest, unit := items[0], items[1..], k != Any;
    HarmlessHead(items, k);
    AtomicParts(items, lexer, atom);
    if Void(first) {
      if Constant(first) == unit {
        env := Differs(rest, k, lexer, atom);
      } else {
        env := Attains(rest, k, lexer, atom, unit);
      }
      VoidCounts(first, lexer, env);
    } else {
      env := DiffersBehind(items, k, lexer, atom);
    }
    MeaningStep(items, k, lexer, env);
    TreeStep(items, k, lexer, env);
  }

  lemma AtomicParts(items: seq<Item>, lexer: Lexer, atom: string -> nat)
    requires items != [] && Atomic(items, lexer, atom)
    ensures AtomicItem(items[0], lexer, atom) && Atomic(items[1..], lexer, atom)
  {
  }

  /** The same where the first item has a line. */
  lemma {:induction false} DiffersBehind(items: seq<Item>, k: Kind, lexer: Lexer, atom: string -> nat)
    returns (env: Env)
    requires items != [] && !Void(items[0])
    requires Atomic(items, lexer, atom) && Separate(items, atom) && !Harmless(items, k)
    ensures Combine(ItemMeaning(items[0], lexer, env), Meaning(items[1..], Mode(k), lexer, env), Mode(k))
            != Some(if k == Any then True(items[0], lexer, env) || TreeValue(items[1..], k, lexer, env)
                    else True(items[0], lexer, env) && TreeValue(items[1..], k, lexer, env))
    decreases items, 0
  {
    hide True, Meaning, ItemMeaning, TreeValue, Void, Constant, Harmless, HarmlessItem, AllVoid, Atomic;
    var first, rest, unit := items[0], items[1..], k != Any;
    HarmlessHead(items, k);
    AtomicParts(items, lexer, atom);
    if AllVoid(rest) {
      if Harmless(rest, k) {
        env := DiffersItem(first, lexer, atom);
      } else {
        env := AttainsItem(first, lexer, atom, unit);
      }
      VoidMeaning(rest, Mode(k), lexer, env);
      ConstantRest(rest, k, lexer, env);
      ItemSome(first, lexer, atom, env);
    } else if Harmless(rest, k) {
      var a := DiffersItem(first, lexer, atom);
      var b := Attains(rest, k, lexer, atom, unit);
      env := Apart(items, k, lexer, atom, a, b);
      AtomicReadable(rest, lexer, atom, env);
      MeaningHarmless(rest, k, lexer, env);
      MeaningIsTree(rest, k, lexer, env);
      ItemSome(first, lexer, atom, env);
    } else {
      var a := AttainsItem(first, lexer, atom, unit);
      var b;
      if True(first, lexer, a) == unit {
        b := Differs(rest, k, lexer, atom);
      } else {
        b := Attains(rest, k, lexer, atom, unit);
      }
      env := Apart(items, k, lexer, atom, a, b);
      ItemsSome(rest, k, lexer, atom, env);
    }
  }

  lemma {:induction false} DiffersItem(item: Item, lexer: Lexer, atom: string -> nat) returns (env: Env)
    requires AtomicItem(item, lexer, atom) && SeparateItem(item, atom) && !Void(item) && !HarmlessItem(item)
    ensures ItemMeaning(item, lexer, env) != Some(True(item, lexer, env))
    decreases item
  {
    hide Meaning, True, Harmless;
    env := Differs(item.items, item.kind, lexer, atom);
    BlockValue(item, lexer, env);
  }

  lemma MeaningIsTree(items: seq<Item>, k: Kind, lexer: Lexer, env: Env)
    requires Meaning(items, Mode(k), lexer, env)
             == Some(if k == Any then exists i :: 0 <= i < |items| && True(items[i], lexer, env)
                     else forall i :: 0 <= i < |items| ==> True(items[i], lexer, env))
    ensures Meaning(items, Mode(k), lexer, env) == Some(TreeValue(items, k, lexer, env))
  {
    hide True, Meaning;
  }

  /** Atoms are readable under every assignment. */
  lemma {:induction false} AtomicReadable(items: seq<Item>, lexer: Lexer, atom: string -> nat, env: Env)
    requires Atomic(items, lexer, atom)
    ensures Readable(items, lexer, env)
    decreases items, 0
  {
    forall k | 0 <= k < |items|
      ensures ReadableItem(items[k], lexer, env)
    {
      AtomicItemReadable(items[k], lexer, atom, env);
    }
  }

  lemma {:induction false} AtomicItemReadable(item: Item, lexer: Lexer, atom: string -> nat, env: Env)
    requires AtomicItem(item, lexer, atom)
    ensures ReadableItem(item, lexer, env)
    decreases item, 0
  {
    if item.Block? {
      AtomicReadable(item.items, lexer, atom, env);
    }
  }

  /** Items with a line have a meaning. */
  lemma {:induction false} ItemSome(item: Item, lexer: Lexer, atom: string -> nat, env: Env)
    requires AtomicItem(item, lexer, atom) && !Void(item)
    ensures ItemMeaning(item, lexer, env).Some?
    decreases item
  {
    hide Meaning, ValueOf;
    match item
    case Line(text) =>
      assert ValueOf(text, lexer, env) == Some(env(atom(text)));
    case Block(k, items) => ItemsSome(items, k, lexer, atom, env);
  }

  lemma {:induction false} ItemsSome(items: seq<Item>, k: Kind, lexer: Lexer, atom: string -> nat, env: Env)
    requires Atomic(items, lexer, atom) && !AllVoid(items)
    ensures Meaning(items, Mode(k), lexer, env).Some?
    decreases items
  {
    hide Meaning, ItemMeaning, Void;
    assert items == [items[0]] + items[1..];
    MeaningStep(items, k, lexer, env);
    if Void(items[0]) {
      ItemsSome(items[1..], k, lexer, atom, env);
    } else {
      ItemSome(items[0], lexer, atom, env);
    }
  }

  /** For trees whose lines are atoms that occur once: the text is true exactly when the tree is, under every
      assignment, if and only if every block without lines is harmless. */
  lemma HarmlessExactly(item: Item, lexer: Lexer, atom: string -> nat)
    requires Sound(lexer) && item.Block? && !Void(item) && LeafItem(item)
    requires AtomicItem(item, lexer, atom) && SeparateItem(item, atom)
    ensures (forall env ::
               ValueOf(ParseLines(ItemLines(item), 0, [], "and").0, lexer, env) == Some(True(item, lexer, env)))
            <==> HarmlessItem(item)
  {
    hide Sound, ValueOf, LeafItem, True, ParseLines, Void, HarmlessItem, AtomicItem, SeparateItem;
    hide ItemMeaning, ReadableItem;
    if HarmlessItem(item) {
      forall env
        ensures ValueOf(ParseLines(ItemLines(item), 0, [], "and").0, lexer, env) == Some(True(item, lexer, env))
      {
        AtomicItemReadable(item, lexer, atom, env);
        HarmlessRoundTrip(item, lexer, env);
      }
    } else {
      var env := DiffersItem(item, lexer, atom);
      AtomicItemReadable(item, lexer, atom, env);
      ItemSome(item, lexer, atom, env);
      ItemRoundTrip(item, lexer, env);
      assert ValueOf(ParseLines(ItemLines(item), 0, [], "and").0, lexer, env) != Some(True(item, lexer, env));
    }
  }

  /** The text of one block has the block's meaning. */
  lemma ItemRoundTrip(item: Item, lexer: Lexer, env: Env)
    requires Sound(lexer) && ReadableItem(item, lexer, env) && LeafItem(item) && ItemMeaning(item, lexer, env).Some?
    ensures ValueOf(ParseLines(ItemLines(item), 0, [], "and").0, lexer, env) == ItemMeaning(item, lexer, env)
  {
    hide Sound, ValueOf, LeafItem, ReadableItem, ParseLines, ItemMeaning;
    assert [item][0] == item && [item][1..] == [];
    assert Readable([item], lexer, env) && LeafLines([item]);
    assert Lines([item]) == ItemLines(item);
    TreeRoundTrip([item], All, lexer, env);
    assert Meaning([item], Mode(All), lexer, env) == ItemMeaning(item, lexer, env);
  }
}
