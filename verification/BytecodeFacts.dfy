/** Typed facts (bytecode.go): one slot per field id, filled by walking any value while fields and strings are
    registered on the way. */
module BytecodeFacts {
  import opened Wrappers
  import opened BytecodeRegistry
  import opened BytecodeExpr
  import opened BytecodeCompiler
  import opened BytecodeVM
  import opened BytecodeCorrect
  import opened Folds
  import Decimals

  // ---------- slots ----------

  /** `Grow`. */
  function Grown(s: TypedFacts, n: nat): TypedFacts {
    if |s| >= n then s else s + seq(n - |s|, _ => Missing)
  }

  function Stored(s: TypedFacts, id: nat, v: TypedValue): TypedFacts {
    Grown(s, id + 1)[id := v]
  }

  function Longer<T>(s: seq<T>, n: nat, zero: T): (r: seq<T>)
    ensures |r| == if |s| >= n then |s| else n
    ensures s <= r
  {
    if |s| >= n then s else s + seq(n - |s|, _ => zero)
  }

  /** The Go slices side by side; the kind of a slot says which of them is read. */
  class FactSlots {
    var kinds: seq<ValueKind>
    var ints: seq<int>
    var floats: seq<real>
    var strings: seq<int>
    var bools: seq<bool>
    var times: seq<int>

    ghost predicate Valid()
      reads this
    {
      |ints| == |floats| == |strings| == |bools| == |times| == |kinds|
    }

    ghost function Slot(i: nat): TypedValue
      reads this
      requires Valid() && i < |kinds|
    {
      match kinds[i]
      case ValueMissing => Missing
      case ValueInt => VInt(ints[i])
      case ValueFloat => VFloat(floats[i])
      case ValueString => VString(strings[i])
      case ValueBool => VBool(bools[i])
      case ValueTime => VTime(times[i])
    }

    ghost function Contents(): (s: TypedFacts)
      reads this
      requires Valid()
      ensures |s| == |kinds|
    {
      seq(|kinds|, i requires 0 <= i < |kinds| reads this requires Valid() => Slot(i))
    }

    /** `NewTypedFacts`. */
    constructor (max: nat)
      ensures Valid() && Contents() == seq(max + 1, _ => Missing)
    {
      kinds, ints := seq(max + 1, _ => ValueMissing), seq(max + 1, _ => 0);
      floats, strings := seq(max + 1, _ => 0.0), seq(max + 1, _ => 0);
      bools, times := seq(max + 1, _ => false), seq(max + 1, _ => 0);
    }

    method Grow(max: nat)
      requires Valid()
      modifies this
      ensures Valid() && |kinds| > max && Contents() == Grown(old(Contents()), max + 1)
    {
      var n := max + 1;
      if |kinds| >= n {
        return;
      }
      kinds, ints, floats := Longer(kinds, n, ValueMissing), Longer(ints, n, 0), Longer(floats, n, 0.0);
      strings, bools, times := Longer(strings, n, 0), Longer(bools, n, false), Longer(times, n, 0);
    }

    method Reset()
      requires Valid()
      modifies this`kinds
      ensures Valid() && Contents() == seq(old(|kinds|), _ => Missing)
    {
      for i := 0 to |kinds|
        invariant Valid() && |kinds| == old(|kinds|)
        invariant forall k :: 0 <= k < i ==> kinds[k] == ValueMissing
      {
        kinds := kinds[i := ValueMissing];
      }
    }

    method SetInt(id: nat, v: int)
      requires Valid()
      modifies this
      ensures Valid() && Contents() == Stored(old(Contents()), id, VInt(v))
    {
      Grow(id);
      kinds, ints := kinds[id := ValueInt], ints[id := v];
    }

    method SetFloat(id: nat, v: real)
      requires Valid()
      modifies this
      ensures Valid() && Contents() == Stored(old(Contents()), id, VFloat(v))
    {
      Grow(id);
      kinds, floats := kinds[id := ValueFloat], floats[id := v];
    }

    method SetString(id: nat, v: int)
      requires Valid()
      modifies this
      ensures Valid() && Contents() == Stored(old(Contents()), id, VString(v))
    {
      Grow(id);
      kinds, strings := kinds[id := ValueString], strings[id := v];
    }

    method SetBool(id: nat, v: bool)
      requires Valid()
      modifies this
      ensures Valid() && Contents() == Stored(old(Contents()), id, VBool(v))
    {
      Grow(id);
      kinds, bools := kinds[id := ValueBool], bools[id := v];
    }

    method SetTime(id: nat, v: int)
      requires Valid()
      modifies this
      ensures Valid() && Contents() == Stored(old(Contents()), id, VTime(v))
    {
      Grow(id);
      kinds, times := kinds[id := ValueTime], times[id := v];
    }
  }

  // ---------- the walk ----------

  /** What the adapter is given: nothing, a plain value, a value of a kind it does not keep, a map or struct with its
      members in the order they are met, or a list. */
  datatype Given =
    | Absent
    | Plain(value: FactValue)
    | Unkept
    | Members(members: seq<Member>)
    | Items(items: seq<Given>)

  datatype Member = Member(name: string, value: Given)

  /** `joinFactPath`. */
  function Join(prefix: string, name: string): string {
    if prefix == "" then name else if name == "" then prefix else prefix + "." + name
  }

  function Base(prefix: string): string {
    if prefix == "" then "items" else prefix
  }

  /** The registry's names and strings and the slots. */
  datatype Filled = Filled(fields: seq<string>, strings: seq<string>, slots: TypedFacts)

  /** One call of `setTypedValue`. */
  datatype Fact = Fact(path: string, value: Option<FactValue>)

  /** The calls the walk makes, in order. */
  function Walk(g: Given, prefix: string): seq<Fact>
    decreases g, 1
  {
    match g
    case Absent => []
    case Plain(v) => [Fact(prefix, Some(v))]
    case Unkept => [Fact(prefix, None)]
    case Members(members) => WalkMembers(members, prefix)
    case Items(items) => WalkItems(items, 0, Base(prefix))
  }

  function WalkMembers(members: seq<Member>, prefix: string): seq<Fact>
    decreases members, 0
  {
    if members == [] then []
    else
      var Member(name, value) := members[0];
      Walk(value, Join(prefix, name)) + WalkMembers(members[1..], prefix)
  }

  function WalkItems(items: seq<Given>, i: nat, base: string): seq<Fact>
    decreases items, 0
  {
    if items == [] then []
    else Walk(items[0], Join(base, Decimals.Number(i))) + WalkItems(items[1..], i + 1, base)
  }

  function ValueStrings(strings: seq<string>, v: FactValue): seq<string> {
    if v.FString? then Add(strings, v.s) else strings
  }

  /** What is put in a slot, the strings being registered. */
  function SlotFor(v: FactValue, strings: seq<string>): TypedValue {
    if !v.FString? then Encode(Some(v), strings)
    else if v.s in strings then VString(StringId(strings, v.s))
    else Missing
  }

  /** `setTypedValue` on the tables and slots. */
  function Fill(st: Filled, f: Fact): Filled {
    if f.path == "" then st
    else
      var fields := Add(st.fields, f.path);
      var id := Id(fields, f.path, FIELD_WIDTH);
      match f.value
      case None => st.(fields := fields)
      case Some(FNil) => st.(fields := fields, slots := Grown(st.slots, id + 1))
      case Some(v) =>
        var strings := ValueStrings(st.strings, v);
        Filled(fields, strings, Stored(st.slots, id, SlotFor(v, strings)))
  }

  function FillAll(st: Filled, facts: seq<Fact>): Filled
    decreases |facts|
  {
    if facts == [] then st else FillAll(Fill(st, facts[0]), facts[1..])
  }

  lemma {:induction false} FillAppend(st: Filled, a: seq<Fact>, b: seq<Fact>)
    ensures FillAll(st, a + b) == FillAll(FillAll(st, a), b)
    decreases |a|
  {
    if a == [] {
      assert a + b == b;
    } else {
      assert (a + b)[1..] == a[1..] + b;
      FillAppend(Fill(st, a[0]), a[1..], b);
    }
  }

  // ---------- the code ----------

  ghost function FilledOf(registry: Registry, out: FactSlots): Filled
    reads registry, out
    requires out.Valid()
  {
    Filled(registry.fieldNames, registry.stringVals, out.Contents())
  }

  method SetTypedValue(registry: Registry, out: FactSlots, path: string, value: Option<FactValue>)
    requires registry.Valid() && out.Valid()
    modifies registry`fields, registry`fieldNames, registry`strings, registry`stringVals, out
    ensures registry.Valid() && out.Valid()
    ensures FilledOf(registry, out) == Fill(old(FilledOf(registry, out)), Fact(path, value))
  {
    hide Stored, Grown, Add;
    if path == "" {
      return;
    }
    var id := registry.Field(path);
    match value {
      case None =>
      case Some(FNil) =>
        out.Grow(id);
      case Some(FInt(x)) =>
        out.SetInt(id, x);
      case Some(FFloat(x)) =>
        out.SetFloat(id, x);
      case Some(FString(s)) =>
        var s' := registry.Intern(s);
        out.SetString(id, s');
      case Some(FBool(b)) =>
        out.SetBool(id, b);
      case Some(FTime(x, _, _)) =>
        out.SetTime(id, x);
    }
  }

  method AdaptAnyValue(registry: Registry, g: Given, prefix: string, out: FactSlots)
    requires registry.Valid() && out.Valid()
    modifies registry`fields, registry`fieldNames, registry`strings, registry`stringVals, out
    ensures registry.Valid() && out.Valid()
    ensures FilledOf(registry, out) == FillAll(old(FilledOf(registry, out)), Walk(g, prefix))
    decreases g
  {
    hide Fill;
    match g {
      case Absent =>
      case Plain(v) =>
        SetTypedValue(registry, out, prefix, Some(v));
      case Unkept =>
        SetTypedValue(registry, out, prefix, None);
      case Members(members) =>
        ghost var whole := FillAll(old(FilledOf(registry, out)), WalkMembers(members, prefix));
        for i := 0 to |members|
          invariant registry.Valid() && out.Valid()
          invariant FillAll(FilledOf(registry, out), WalkMembers(members[i..], prefix)) == whole
        {
          var member := members[i];
          assert members[i..][0] == member && members[i..][1..] == members[i + 1..];
          var path := Join(prefix, member.name);
          FillAppend(FilledOf(registry, out), Walk(member.value, path), WalkMembers(members[i + 1..], prefix));
          AdaptAnyValue(registry, member.value, path, out);
        }
      case Items(items) =>
        var base := if prefix == "" then "items" else prefix;
        ghost var whole := FillAll(old(FilledOf(registry, out)), WalkItems(items, 0, base));
        for i := 0 to |items|
          invariant registry.Valid() && out.Valid()
          invariant FillAll(FilledOf(registry, out), WalkItems(items[i..], i, base)) == whole
        {
          assert items[i..][0] == items[i] && items[i..][1..] == items[i + 1..];
          var path := Join(base, Decimals.Number(i));
          FillAppend(FilledOf(registry, out), Walk(items[i], path), WalkItems(items[i + 1..], i + 1, base));
          AdaptAnyValue(registry, items[i], path, out);
        }
    }
  }

  /** The part of `EvaluateAny` before the evaluation. */
  method AdaptFacts(registry: Registry, g: Given, out: FactSlots)
    requires registry.Valid() && out.Valid()
    modifies registry`fields, registry`fieldNames, registry`strings, registry`stringVals, out
    ensures registry.Valid() && out.Valid()
    ensures FilledOf(registry, out) ==
            FillAll(Filled(old(registry.fieldNames), old(registry.stringVals), seq(old(|out.kinds|), _ => Missing)),
                    Walk(g, ""))
  {
    out.Reset();
    AdaptAnyValue(registry, g, "", out);
  }

  // ---------- what the slots stand for ----------

  /** The named facts: the last value given for a path, nil values counting for nothing. */
  function With(env: Facts, f: Fact): Facts {
    if f.path == "" || f.value.None? || f.value == Some(FNil) then env else env[f.path := f.value.value]
  }

  function Named(env: Facts, facts: seq<Fact>): Facts
    decreases |facts|
  {
    if facts == [] then env else Named(With(env, facts[0]), facts[1..])
  }

  /** A fact that gives the name a value. */
  function Gives(name: string): Fact -> bool {
    (f: Fact) => f.path == name && name != "" && f.value.Some? && f.value != Some(FNil)
  }

  lemma WithExactly(env: Facts, f: Fact, name: string)
    ensures if Gives(name)(f) then name in With(env, f) && f.value == Some(With(env, f)[name])
            else (name in With(env, f) <==> name in env) && (name in env ==> With(env, f)[name] == env[name])
  {
  }

  /** A name has the last value given for it. */
  lemma {:induction false} NamedExactly(env: Facts, facts: seq<Fact>, name: string)
    ensures NoneIs(facts, Gives(name)) ==>
              (name in Named(env, facts) <==> name in env)
              && (name in env ==> Named(env, facts)[name] == env[name])
    ensures forall k :: IsLast(facts, Gives(name), k) ==>
                          name in Named(env, facts) && facts[k].value == Some(Named(env, facts)[name])
    decreases |facts|
  {
    if facts != [] {
      var f, rest := facts[0], facts[1..];
      NamedExactly(With(env, f), rest, name);
      WithExactly(env, f, name);
      hide With, Gives;
      assert forall j :: 0 <= j < |rest| ==> rest[j] == facts[j + 1];
      assert forall j :: 0 < j < |facts| ==> facts[j] == rest[j - 1];
      forall k | IsLast(facts, Gives(name), k)
        ensures name in Named(env, facts) && facts[k].value == Some(Named(env, facts)[name])
      {
        if k > 0 {
          assert IsLast(rest, Gives(name), k - 1);
        } else {
          assert NoneIs(rest, Gives(name));
        }
      }
    }
  }

  function TablesIn(st: Filled, sets: seq<CompiledSet>): Tables {
    Tables(st.fields, st.strings, sets)
  }

  /** The slots represent the named facts, and no slot is filled that no field has. */
  ghost predicate Stands(st: Filled, env: Facts, sets: seq<CompiledSet>) {
    && WellFormed(TablesIn(st, sets)) && Represents(Some(st.slots), Some(env), TablesIn(st, sets))
    && (forall name :: name in env ==> name in st.fields)
    && (forall i :: 0 <= i < |st.slots| && !(1 <= i <= |st.fields|) ==> st.slots[i] == Missing)
  }

  lemma FillExtends(st: Filled, f: Fact, sets: seq<CompiledSet>)
    requires WellFormed(TablesIn(st, sets))
    ensures WellFormed(TablesIn(Fill(st, f), sets)) && Extends(TablesIn(st, sets), TablesIn(Fill(st, f), sets))
  {
    AddKeeps(st.fields, f.path);
    if f.value.Some? && f.value.value.FString? {
      AddKeeps(st.strings, f.value.value.s);
    }
  }

  lemma {:induction false} FillAllExtends(st: Filled, facts: seq<Fact>, sets: seq<CompiledSet>)
    requires WellFormed(TablesIn(st, sets))
    ensures WellFormed(TablesIn(FillAll(st, facts), sets))
    ensures Extends(TablesIn(st, sets), TablesIn(FillAll(st, facts), sets))
    decreases |facts|
  {
    if facts != [] {
      FillExtends(st, facts[0], sets);
      FillAllExtends(Fill(st, facts[0]), facts[1..], sets);
    }
  }

  lemma GrownAt(s: TypedFacts, n: nat, k: int)
    ensures At(Some(Grown(s, n)), k) == At(Some(s), k)
  {
  }

  lemma StoredAt(s: TypedFacts, id: nat, v: TypedValue, k: int)
    ensures At(Some(Stored(s, id, v)), k) == if k == id then v else At(Some(s), k)
  {
  }

  lemma EncodesLater(tv: TypedValue, v: Option<FactValue>, strings: seq<string>, later: seq<string>)
    requires Encodes(tv, v, strings) && strings <= later
    ensures Encodes(tv, v, later)
  {
    if v.Some? && v.value.FString? {
      IdStable(strings, later, v.value.s, ID_WIDTH);
    }
  }

  /** The slot a fact goes to, and what every slot holds afterwards. */
  lemma FilledSlots(st: Filled, f: Fact, k: int)
    requires f.path != ""
    ensures var st' := Fill(st, f);
            && f.path in st'.fields
            && At(Some(st'.slots), k) ==
               if k == Id(st'.fields, f.path, FIELD_WIDTH) && f.value.Some? && f.value != Some(FNil)
               then SlotFor(f.value.value, st'.strings)
               else At(Some(st.slots), k)
  {
    hide Grown, Stored, At, SlotFor, IndexOf;
    var st' := Fill(st, f);
    var id := Id(st'.fields, f.path, FIELD_WIDTH);
    if f.value == Some(FNil) {
      GrownAt(st.slots, id + 1, k);
    } else if f.value.Some? {
      StoredAt(st.slots, id, SlotFor(f.value.value, st'.strings), k);
    }
  }

  /** A registered field's slot after one more fact. */
  lemma SlotKept(st: Filled, env: Facts, f: Fact, name: string, sets: seq<CompiledSet>)
    requires Stands(st, env, sets) && Fits(TablesIn(Fill(st, f), sets)) && f.path != ""
    requires name in Fill(st, f).fields
    ensures Encodes(At(Some(Fill(st, f).slots), Id(Fill(st, f).fields, name, FIELD_WIDTH)),
                    Lookup(Some(With(env, f)), name), Fill(st, f).strings)
  {
    hide Fill, Id, Encodes;
    var st' := Fill(st, f);
    FillExtends(st, f, sets);
    FilledFields(st, f);
    IdsInjective(st'.fields, FIELD_WIDTH);
    var id := Id(st'.fields, name, FIELD_WIDTH);
    FilledSlots(st, f, id);
    if name == f.path && f.value.Some? && f.value != Some(FNil) {
      if f.value.value.FString? {
        FilledString(st, f);
      }
      EncodesNew(f.value.value, st'.strings);
    } else {
      if name in st.fields {
        IdStable(st.fields, st'.fields, name, FIELD_WIDTH);
        assert FieldId(TablesIn(st, sets), name) == id;
      } else {
        NewId(st.fields, st'.fields, name);
      }
      EncodesMissing(st.strings);
      assert Encodes(At(Some(st.slots), id), Lookup(Some(env), name), st.strings);
      EncodesLater(At(Some(st.slots), id), Lookup(Some(env), name), st.strings, st'.strings);
    }
  }

  lemma FilledFields(st: Filled, f: Fact)
    requires f.path != ""
    ensures Fill(st, f).fields == Add(st.fields, f.path)
  {
  }

  lemma FilledString(st: Filled, f: Fact)
    requires f.path != "" && f.value.Some? && f.value.value.FString?
    ensures f.value.value.s in Fill(st, f).strings
  {
  }

  lemma EncodesMissing(strings: seq<string>)
    ensures Encodes(Missing, None, strings)
  {
  }

  lemma EncodesNew(v: FactValue, strings: seq<string>)
    requires v.FString? ==> v.s in strings
    ensures Encodes(SlotFor(v, strings), Some(v), strings)
  {
  }

  lemma NewId(fields: seq<string>, more: seq<string>, name: string)
    requires Distinct(more) && more == fields + [name] && |more| < FIELD_WIDTH
    ensures Id(more, name, FIELD_WIDTH) == |fields| + 1
  {
    IdAt(more, |fields|, FIELD_WIDTH);
    WrapSmall(|fields| + 1, FIELD_WIDTH);
  }

  lemma FillStandsOne(st: Filled, env: Facts, f: Fact, sets: seq<CompiledSet>)
    requires Stands(st, env, sets) && Fits(TablesIn(Fill(st, f), sets))
    ensures Stands(Fill(st, f), With(env, f), sets)
  {
    hide Fill, Id, Encodes;
    var st' := Fill(st, f);
    FillExtends(st, f, sets);
    if f.path == "" {
      FillNothing(st, f);
    } else {
      FilledFields(st, f);
      forall name | name in st'.fields
        ensures Encodes(At(Some(st'.slots), FieldId(TablesIn(st', sets), name)), Lookup(Some(With(env, f)), name),
                        st'.strings)
      {
        SlotKept(st, env, f, name, sets);
      }
      IdBounds(st'.fields, f.path);
      forall i | 0 <= i < |st'.slots| && !(1 <= i <= |st'.fields|)
        ensures st'.slots[i] == Missing
      {
        FilledSlots(st, f, i);
        assert At(Some(st.slots), i) == Missing;
      }
    }
  }

  lemma FillNothing(st: Filled, f: Fact)
    requires f.path == ""
    ensures Fill(st, f) == st
  {
  }

  lemma IdBounds(names: seq<string>, name: string)
    requires name in names && |names| < FIELD_WIDTH
    ensures 1 <= Id(names, name, FIELD_WIDTH) <= |names|
  {
    WrapSmall(IndexOf(names, name) + 1, FIELD_WIDTH);
  }

  /** Slots filled by the walk represent the facts it meets, as long as no id has wrapped. */
  lemma {:induction false} FillStands(st: Filled, env: Facts, facts: seq<Fact>, sets: seq<CompiledSet>)
    requires Stands(st, env, sets) && Fits(TablesIn(FillAll(st, facts), sets))
    ensures Stands(FillAll(st, facts), Named(env, facts), sets)
    decreases |facts|
  {
    hide Fill, With, Represents;
    if facts != [] {
      var f := facts[0];
      FillExtends(st, f, sets);
      FillAllExtends(Fill(st, f), facts[1..], sets);
      FillStandsOne(st, env, f, sets);
      FillStands(Fill(st, f), With(env, f), facts[1..], sets);
    }
  }

  /** Whatever the registry held before, what the adapter fills represents the named facts of the value, in the tables
      it leaves. */
  lemma AdaptRepresents(t: Tables, n: nat, facts: seq<Fact>)
    requires WellFormed(t)
    ensures var st := FillAll(Filled(t.fields, t.strings, seq(n, _ => Missing)), facts);
            var later := TablesIn(st, t.sets);
            && Extends(t, later) && WellFormed(later)
            && (Fits(later) ==> Represents(Some(st.slots), Some(Named(map[], facts)), later))
  {
    var st := Filled(t.fields, t.strings, seq(n, _ => Missing));
    assert TablesIn(st, t.sets) == t;
    FillAllExtends(st, facts, t.sets);
    if Fits(TablesIn(FillAll(st, facts), t.sets)) {
      FillStands(st, map[], facts, t.sets);
    }
  }

  // ---------- which path a fact is filed under ----------

  /** A step into a nested value: to a member by name or to an item by index. */
  datatype Turn = ToMember(name: string) | ToItem(index: nat)

  /** Following the steps leads to the value, which is plain or of a kind that is not kept. */
  ghost predicate LeadsTo(g: Given, turns: seq<Turn>, v: Option<FactValue>)
    decreases |turns|
  {
    if turns == [] then (v.Some? && g == Plain(v.value)) || (v.None? && g == Unkept)
    else
      match turns[0]
      case ToMember(n) =>
        g.Members? && exists k :: 0 <= k < |g.members| && g.members[k].name == n
                                  && LeadsTo(g.members[k].value, turns[1..], v)
      case ToItem(i) => g.Items? && i < |g.items| && LeadsTo(g.items[i], turns[1..], v)
  }

  /** The segments of a path behind those in `done`: the names that are not empty and the indexes, an index that would
      be the first segment being put behind "items". */
  function Segments(turns: seq<Turn>, done: seq<string>): seq<string>
    decreases |turns|
  {
    if turns == [] then done
    else
      match turns[0]
      case ToMember(n) => Segments(turns[1..], WithName(done, n))
      case ToItem(i) => Segments(turns[1..], Based(done) + [Decimals.Number(i)])
  }

  function WithName(done: seq<string>, name: string): seq<string> {
    if name == "" then done else done + [name]
  }

  function Based(done: seq<string>): seq<string> {
    if done == [] then ["items"] else done
  }

  /** Segments with dots between them. */
  function Dotted(segments: seq<string>): string {
    if segments == [] then ""
    else if |segments| == 1 then segments[0]
    else Dotted(segments[..|segments| - 1]) + "." + segments[|segments| - 1]
  }

  predicate NoBlank(segments: seq<string>) {
    forall k :: 0 <= k < |segments| ==> segments[k] != ""
  }

  lemma DottedMore(done: seq<string>, more: string)
    requires NoBlank(done)
    ensures Dotted(done) == "" <==> done == []
    ensures NoBlank(WithName(done, more)) && Dotted(WithName(done, more)) == Join(Dotted(done), more)
  {
    assert (done + [more])[..|done|] == done;
    if done != [] {
      assert |done| == 1 ==> Dotted(done) == done[0];
    }
  }

  lemma DottedBase(done: seq<string>)
    requires NoBlank(done)
    ensures NoBlank(Based(done)) && Dotted(Based(done)) == Base(Dotted(done))
  {
    DottedMore(done, "");
  }

  /** The path of some steps into `g`, behind `done`. */
  ghost predicate FiledUnder(g: Given, turns: seq<Turn>, done: seq<string>, path: string, v: Option<FactValue>) {
    LeadsTo(g, turns, v) && path == Dotted(Segments(turns, done))
  }

  /** The walk files exactly the values that some steps lead to, each under the dotted path of its steps. */
  lemma {:induction false} WalkExactly(g: Given, done: seq<string>, path: string, v: Option<FactValue>)
    requires NoBlank(done)
    ensures Fact(path, v) in Walk(g, Dotted(done)) <==> exists turns :: FiledUnder(g, turns, done, path, v)
    decreases g, 1
  {
    hide Dotted;
    match g
    case Members(members) =>
      MembersExactly(members, done, path, v);
      MemberTurns(g, done, path, v);
    case Items(items) =>
      DottedBase(done);
      ItemsExactly(items, 0, Based(done), path, v);
      ItemTurns(g, done, path, v);
    case Absent =>
    case Plain(_) =>
      assert Fact(path, v) in Walk(g, Dotted(done)) <==> FiledUnder(g, [], done, path, v);
    case Unkept =>
      assert Fact(path, v) in Walk(g, Dotted(done)) <==> FiledUnder(g, [], done, path, v);
  }

  /** A first step to one of the members. */
  ghost predicate ByMember(members: seq<Member>, k: int, turns: seq<Turn>, done: seq<string>, path: string,
                           v: Option<FactValue>) {
    0 <= k < |members| && FiledUnder(members[k].value, turns, WithName(done, members[k].name), path, v)
  }

  ghost predicate ByItem(items: seq<Given>, i: nat, k: int, turns: seq<Turn>, base: seq<string>, path: string,
                         v: Option<FactValue>) {
    0 <= k < |items| && FiledUnder(items[k], turns, base + [Decimals.Number(i + k)], path, v)
  }

  lemma MemberTurns(g: Given, done: seq<string>, path: string, v: Option<FactValue>)
    requires g.Members?
    ensures (exists turns :: FiledUnder(g, turns, done, path, v)) <==>
            exists k, turns :: ByMember(g.members, k, turns, done, path, v)
  {
    hide Dotted;
    forall turns: seq<Turn> | FiledUnder(g, turns, done, path, v)
      ensures exists k, rest :: ByMember(g.members, k, rest, done, path, v)
    {
      var k :| 0 <= k < |g.members| && g.members[k].name == turns[0].name && LeadsTo(g.members[k].value, turns[1..], v);
      assert ByMember(g.members, k, turns[1..], done, path, v);
    }
    forall k, turns | ByMember(g.members, k, turns, done, path, v)
      ensures exists whole :: FiledUnder(g, whole, done, path, v)
    {
      var whole := [ToMember(g.members[k].name)] + turns;
      assert whole[1..] == turns;
      assert FiledUnder(g, whole, done, path, v);
    }
  }

  lemma ItemTurns(g: Given, done: seq<string>, path: string, v: Option<FactValue>)
    requires g.Items?
    ensures (exists turns :: FiledUnder(g, turns, done, path, v)) <==>
            exists k, turns :: ByItem(g.items, 0, k, turns, Based(done), path, v)
  {
    hide Dotted;
    forall turns: seq<Turn> | FiledUnder(g, turns, done, path, v)
      ensures exists k, rest :: ByItem(g.items, 0, k, rest, Based(done), path, v)
    {
      assert ByItem(g.items, 0, turns[0].index, turns[1..], Based(done), path, v);
    }
    forall k, turns | ByItem(g.items, 0, k, turns, Based(done), path, v)
      ensures exists whole :: FiledUnder(g, whole, done, path, v)
    {
      var whole := [ToItem(k)] + turns;
      assert whole[1..] == turns;
      assert FiledUnder(g, whole, done, path, v);
    }
  }

  lemma {:induction false} MembersExactly(members: seq<Member>, done: seq<string>, path: string, v: Option<FactValue>)
    requires NoBlank(done)
    ensures Fact(path, v) in WalkMembers(members, Dotted(done)) <==>
            exists k, turns :: ByMember(members, k, turns, done, path, v)
    decreases members, 0
  {
    hide Dotted, FiledUnder;
    if members != [] {
      var Member(name, value) := members[0];
      var rest := members[1..];
      DottedMore(done, name);
      WalkExactly(value, WithName(done, name), path, v);
      MembersExactly(rest, done, path, v);
      if exists turns :: FiledUnder(value, turns, WithName(done, name), path, v) {
        var turns :| FiledUnder(value, turns, WithName(done, name), path, v);
        assert ByMember(members, 0, turns, done, path, v);
      }
      if exists k, turns :: ByMember(rest, k, turns, done, path, v) {
        var k, turns :| ByMember(rest, k, turns, done, path, v);
        assert ByMember(members, k + 1, turns, done, path, v);
      }
      forall k, turns | ByMember(members, k, turns, done, path, v) && k > 0
        ensures ByMember(rest, k - 1, turns, done, path, v)
      {
      }
    }
  }

  /** Through the first item or through one of the rest. */
  lemma ItemSplit(items: seq<Given>, i: nat, next: nat, base: seq<string>, path: string, v: Option<FactValue>)
    requires items != [] && next == i + 1
    ensures (exists k, turns :: ByItem(items, i, k, turns, base, path, v)) <==>
            (exists turns :: FiledUnder(items[0], turns, base + [Decimals.Number(i)], path, v))
            || exists k, turns :: ByItem(items[1..], next, k, turns, base, path, v)
  {
    hide FiledUnder;
    var rest, here := items[1..], base + [Decimals.Number(i)];
    forall turns | FiledUnder(items[0], turns, here, path, v)
      ensures ByItem(items, i, 0, turns, base, path, v)
    {
    }
    forall k, turns | ByItem(rest, next, k, turns, base, path, v)
      ensures ByItem(items, i, k + 1, turns, base, path, v)
    {
      assert next + k == i + (k + 1);
    }
    forall k, turns | ByItem(items, i, k, turns, base, path, v)
      ensures k == 0 ==> FiledUnder(items[0], turns, here, path, v)
      ensures k > 0 ==> ByItem(rest, next, k - 1, turns, base, path, v)
    {
      assert k > 0 ==> next + (k - 1) == i + k;
    }
  }

  lemma {:induction false} ItemsExactly(items: seq<Given>, i: nat, base: seq<string>, path: string,
                                        v: Option<FactValue>)
    requires NoBlank(base)
    ensures Fact(path, v) in WalkItems(items, i, Dotted(base)) <==>
            exists k, turns :: ByItem(items, i, k, turns, base, path, v)
    decreases items, 0
  {
    hide Dotted, FiledUnder, ByItem;
    if items != [] {
      DottedMore(base, Decimals.Number(i));
      WalkExactly(items[0], base + [Decimals.Number(i)], path, v);
      ItemsExactly(items[1..], i + 1, base, path, v);
      ItemSplit(items, i, i + 1, base, path, v);
    } else {
      NoItems(i, base, path, v);
    }
  }

  lemma NoItems(i: nat, base: seq<string>, path: string, v: Option<FactValue>)
    ensures forall k, turns :: !ByItem([], i, k, turns, base, path, v)
  {
  }
}
