/** Name tables of the bytecode compiler (bytecode.go): ids are positions counted from one,
    truncated to the width of the id type. */
module BytecodeRegistry {

  const FIELD_WIDTH := 0x1_0000        // FieldID and ActionType are uint16
  const ID_WIDTH := 0x1_0000_0000      // StringID, NamespaceID and action references are uint32

  // ---------- tables as values ----------

  ghost predicate Distinct(names: seq<string>) {
    forall i, j :: 0 <= i < j < |names| ==> names[i] != names[j]
  }

  /** Registering a known name changes nothing. */
  function Add(names: seq<string>, name: string): seq<string> {
    if name in names then names else names + [name]
  }

  function IndexOf(names: seq<string>, name: string): (i: nat)
    requires name in names
    ensures i < |names| && names[i] == name
    ensures name !in names[..i]
  {
    if names[0] == name then 0
    else
      assert names == [names[0]] + names[1..];
      var i := 1 + IndexOf(names[1..], name);
      assert names[..i] == [names[0]] + names[1..][..i - 1];
      i
  }

  function Id(names: seq<string>, name: string, width: int): int
    requires name in names && width > 0
  {
    (IndexOf(names, name) + 1) % width
  }

  /** `FieldName` and `String`: the name behind an id, or the empty string. */
  function NameOf(names: seq<string>, id: int): string {
    if 0 <= id - 1 < |names| then names[id - 1] else ""
  }

  lemma AddKeeps(names: seq<string>, name: string)
    requires Distinct(names)
    ensures Distinct(Add(names, name)) && names <= Add(names, name) && name in Add(names, name)
  {
  }

  /** Ids are stable: growing a table never changes the id of a name already in it. */
  lemma {:induction false} IdStable(names: seq<string>, more: seq<string>, name: string, width: int)
    requires names <= more && name in names && width > 0
    ensures name in more && Id(more, name, width) == Id(names, name, width)
  {
    if names[0] != name {
      assert names == [names[0]] + names[1..];
      IdStable(names[1..], more[1..], name, width);
    } else {
      assert more[0] == name;
    }
  }

  lemma IndexOfAt(names: seq<string>, i: nat)
    requires Distinct(names) && i < |names|
    ensures IndexOf(names, names[i]) == i
  {
  }

  lemma WrapSmall(n: nat, width: nat)
    requires n < width
    ensures n % width == n
  {
  }

  /** Ids of different names differ and none of them is 0, the id the compiler keeps for constants,
      if and only if the table has not outgrown its width. */
  lemma IdsInjective(names: seq<string>, width: nat)
    requires Distinct(names) && width > 0
    ensures (forall a :: a in names ==> Id(names, a, width) != 0)
            && (forall a, b :: a in names && b in names && a != b ==> Id(names, a, width) != Id(names, b, width))
            <==> |names| < width
  {
    if |names| < width {
      forall a | a in names
        ensures Id(names, a, width) == IndexOf(names, a) + 1
      {
        WrapSmall(IndexOf(names, a) + 1, width);
      }
    } else {
      IndexOfAt(names, width - 1);
      assert names[width - 1] in names && Id(names, names[width - 1], width) == width % width == 0;
    }
  }

  /** The name behind an interned id comes back exactly while the position has not wrapped. */
  lemma NameOfId(names: seq<string>, name: string, width: nat)
    requires Distinct(names) && name in names && width > 0 && name != ""
    ensures NameOf(names, Id(names, name, width)) == name <==> IndexOf(names, name) + 1 < width
  {
    var i := IndexOf(names, name);
    var id := Id(names, name, width);
    if i + 1 < width {
      WrapSmall(i + 1, width);
    } else {
      assert id < width;
      assert names[i] == name && id - 1 != i;
    }
  }

  /** As many names as one likes: "f", "ff", "fff" and so on. */
  function ManyNames(n: nat): (names: seq<string>)
    ensures |names| == n && Distinct(names) && forall i :: 0 <= i < n ==> names[i] != ""
  {
    var names := seq(n, i requires 0 <= i < n => seq(i + 1, _ => 'f'));
    assert forall i :: 0 <= i < n ==> |names[i]| == i + 1;
    names
  }

  /** One name too many: the last gets the id 0 and is not found again; one more, and two share an id. */
  lemma IdsWrap(width: nat)
    requires width > 1
    ensures var names := ManyNames(width);
            Id(names, names[width - 1], width) == 0 && NameOf(names, 0) == "" != names[width - 1]
    ensures var names := ManyNames(width + 1);
            names[0] != names[width] && Id(names, names[0], width) == Id(names, names[width], width) == 1
  {
    hide Id, IndexOf, ManyNames;
    var names, more := ManyNames(width), ManyNames(width + 1);
    IdAt(names, width - 1, width);
    IdAt(more, 0, width);
    IdAt(more, width, width);
    WrapOnce(width);
  }

  lemma IdAt(names: seq<string>, i: nat, width: int)
    requires Distinct(names) && i < |names| && width > 0
    ensures Id(names, names[i], width) == (i + 1) % width
  {
    IndexOfAt(names, i);
  }

  lemma WrapOnce(width: nat)
    requires width > 1
    ensures width % width == 0 && (width + 1) % width == 1 && 1 % width == 1
  {
  }

  // ---------- the registry ----------

  /** A Go map and the slice beside it hold the same table. */
  ghost predicate Table(ids: map<string, int>, names: seq<string>, width: int)
    requires width > 0
  {
    && Distinct(names)
    && (forall a :: a in ids <==> a in names)
    && (forall i :: 0 <= i < |names| ==> ids[names[i]] == (i + 1) % width)
  }

  lemma TableId(ids: map<string, int>, names: seq<string>, width: int, name: string)
    requires width > 0 && Table(ids, names, width) && name in names
    ensures ids[name] == Id(names, name, width)
  {
    var i := IndexOf(names, name);
    assert ids[names[i]] == (i + 1) % width;
  }

  lemma TableExtends(ids: map<string, int>, names: seq<string>, width: int, name: string)
    requires width > 0 && Table(ids, names, width) && name !in names
    ensures Table(ids[name := (|names| + 1) % width], names + [name], width)
    ensures Id(names + [name], name, width) == (|names| + 1) % width
  {
    IndexOfAt(names + [name], |names|);
  }

  /** The body shared by `Field`, `Namespace`, `Intern` and `actionRef`. */
  method Register(ids: map<string, int>, names: seq<string>, width: int, name: string)
    returns (ids': map<string, int>, names': seq<string>, id: int)
    requires width > 0 && Table(ids, names, width)
    ensures Table(ids', names', width)
    ensures names' == Add(names, name) && id == Id(names', name, width)
  {
    if name in ids {
      TableId(ids, names, width, name);
      return ids, names, ids[name];
    }
    TableExtends(ids, names, width, name);
    id := (|names| + 1) % width;
    ids', names' := ids[name := id], names + [name];
  }

  class Registry {
    var fields: map<string, int>
    var fieldNames: seq<string>
    var namespaces: map<string, int>
    var nsNames: seq<string>
    var strings: map<string, int>
    var stringVals: seq<string>
    var actions: map<string, int>
    var actionRefs: map<string, int>
    var actionVals: seq<string>

    ghost predicate Valid()
      reads this
    {
      && Table(fields, fieldNames, FIELD_WIDTH)
      && Table(namespaces, nsNames, ID_WIDTH)
      && Table(strings, stringVals, ID_WIDTH)
      && Table(actionRefs, actionVals, ID_WIDTH)
      && actions == ActionTypes()
    }

    /** `NewRegistry`. */
    constructor ()
      ensures Valid()
      ensures fieldNames == [] && nsNames == [] && stringVals == [] && actionVals == []
    {
      fields, fieldNames := map[], [];
      namespaces, nsNames := map[], [];
      strings, stringVals := map[], [];
      actions := ActionTypes();
      actionRefs, actionVals := map[], [];
    }

    method Field(name: string) returns (id: int)
      requires Valid()
      modifies this`fields, this`fieldNames
      ensures Valid()
      ensures fieldNames == Add(old(fieldNames), name) && id == Id(fieldNames, name, FIELD_WIDTH)
    {
      hide Table, Add, Id;
      fields, fieldNames, id := Register(fields, fieldNames, FIELD_WIDTH, name);
    }

    method Namespace(name: string) returns (id: int)
      requires Valid()
      modifies this`namespaces, this`nsNames
      ensures Valid()
      ensures nsNames == Add(old(nsNames), name) && id == Id(nsNames, name, ID_WIDTH)
    {
      hide Table, Add, Id;
      namespaces, nsNames, id := Register(namespaces, nsNames, ID_WIDTH, name);
    }

    method Intern(s: string) returns (id: int)
      requires Valid()
      modifies this`strings, this`stringVals
      ensures Valid()
      ensures stringVals == Add(old(stringVals), s) && id == Id(stringVals, s, ID_WIDTH)
    {
      hide Table, Add, Id;
      strings, stringVals, id := Register(strings, stringVals, ID_WIDTH, s);
    }

    method ActionRef(s: string) returns (id: int)
      requires Valid()
      modifies this`actionRefs, this`actionVals
      ensures Valid()
      ensures actionVals == Add(old(actionVals), s) && id == Id(actionVals, s, ID_WIDTH)
    {
      hide Table, Add, Id;
      actionRefs, actionVals, id := Register(actionRefs, actionVals, ID_WIDTH, s);
    }

    /** `actionType`: an unknown name takes its reference number, truncated to uint16. */
    method ActionType(name: string) returns (t: int)
      requires Valid()
      modifies this`actionRefs, this`actionVals
      ensures Valid()
      ensures actionVals == AddAction(old(actionVals), name) && t == ActionTypeOf(actionVals, name)
    {
      if name in actions {
        return actions[name];
      }
      var ref := ActionRef(name);
      t := ref % FIELD_WIDTH;
    }
  }

  // ---------- action types ----------

  const ACTION_ALLOW := 1
  const ACTION_DENY := 2
  const ACTION_SCORE := 3

  function ActionTypes(): map<string, int> {
    map["allow" := ACTION_ALLOW, "deny" := ACTION_DENY, "score" := ACTION_SCORE, "require_approval" := 4, "notify" := 5,
        "assign" := 6, "route" := 7, "set_field" := 8, "escalate" := 9, "generate_document" := 10, "webhook" := 11]
  }

  function AddAction(refs: seq<string>, name: string): seq<string> {
    if name in ActionTypes() then refs else Add(refs, name)
  }

  function ActionTypeOf(refs: seq<string>, name: string): int
    requires name in refs || name in ActionTypes()
  {
    if name in ActionTypes() then ActionTypes()[name] else Id(refs, name, ID_WIDTH) % FIELD_WIDTH
  }
}
