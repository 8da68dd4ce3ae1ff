/**
 * The application store: the register definitions table and the saved dumps,
 * and the seven actions that replace them. Persistence to local storage is not
 * part of this model; the store is a plain object with two list fields.
 */
module AppStore {
  import opened Wrappers
  import opened JsArray

  /** One row of the register map. */
  datatype RegisterDefinition = RegisterDefinition(address: string, name: string, description: string)

  /** A saved dump: its raw text and the key/value pairs parsed from it. */
  datatype Dump = Dump(id: string, name: string, timestamp: int, content: string, parsedData: map<string, string>)

  /** The own properties of the object given to `updateDump`; `None` is a property it does not carry. */
  datatype DumpPatch = DumpPatch(
    id: Option<string>,
    name: Option<string>,
    timestamp: Option<int>,
    content: Option<string>,
    parsedData: Option<map<string, string>>)

  const NoChange := DumpPatch(None, None, None, None, None)

  /** `{ ...d, ...patch }`: each property the patch carries overrides the dump's; the others are kept. */
  function ApplyPatch(d: Dump, patch: DumpPatch): (r: Dump)
    ensures r.id == (if patch.id.Some? then patch.id.value else d.id)
    ensures r.name == (if patch.name.Some? then patch.name.value else d.name)
    ensures r.timestamp == (if patch.timestamp.Some? then patch.timestamp.value else d.timestamp)
    ensures r.content == (if patch.content.Some? then patch.content.value else d.content)
    ensures r.parsedData == (if patch.parsedData.Some? then patch.parsedData.value else d.parsedData)
  {
    Dump(patch.id.GetOr(d.id), patch.name.GetOr(d.name), patch.timestamp.GetOr(d.timestamp),
         patch.content.GetOr(d.content), patch.parsedData.GetOr(d.parsedData))
  }

  /** A patch leaves the dump as it was exactly when every property it carries
      already has that value; applying the same patch again changes nothing. */
  lemma PatchOverrides(d: Dump, patch: DumpPatch)
    ensures ApplyPatch(d, NoChange) == d
    ensures ApplyPatch(d, patch) == d <==>
      && (patch.id.None? || patch.id.value == d.id)
      && (patch.name.None? || patch.name.value == d.name)
      && (patch.timestamp.None? || patch.timestamp.value == d.timestamp)
      && (patch.content.None? || patch.content.value == d.content)
      && (patch.parsedData.None? || patch.parsedData.value == d.parsedData)
    ensures ApplyPatch(ApplyPatch(d, patch), patch) == ApplyPatch(d, patch)
  {
  }

  /** `const copy = [...defs]; copy[index] = def`. An index inside the list
      replaces that element; one past the end appends; a negative index sets a
      non-element property and leaves the elements alone. */
  function ReplacedAt(defs: seq<RegisterDefinition>, index: int, def: RegisterDefinition): (r: seq<RegisterDefinition>)
    requires index <= |defs|
    ensures 0 <= index < |defs| ==> |r| == |defs| && r[index] == def
    ensures 0 <= index < |defs| ==> forall i :: 0 <= i < |defs| && i != index ==> r[i] == defs[i]
    ensures index == |defs| ==> r == defs + [def]
    ensures index < 0 ==> r == defs
  {
    if index < 0 then defs
    else if index == |defs| then defs + [def]
    else defs[index := def]
  }

  /** `dumps.filter(d => d.id !== id)`. */
  function WithoutId(dumps: seq<Dump>, id: string): (r: seq<Dump>)
    ensures forall d | d in r :: d.id != id
    ensures forall d | d in dumps && d.id != id :: d in r
  {
    Filter(dumps, (d: Dump) => d.id != id)
  }

  /** Removing an id keeps the other dumps in their relative order, list piece by list piece. */
  lemma WithoutIdKeepsOrder(a: seq<Dump>, b: seq<Dump>, id: string)
    ensures WithoutId(a + b, id) == WithoutId(a, id) + WithoutId(b, id)
  {
    FilterConcat(a, b, (d: Dump) => d.id != id);
  }

  /** Removing an id no dump has changes nothing. */
  lemma WithoutAbsentId(dumps: seq<Dump>, id: string)
    requires forall d | d in dumps :: d.id != id
    ensures WithoutId(dumps, id) == dumps
  {
    FilterKeepsAll(dumps, (d: Dump) => d.id != id);
  }

  /** `dumps.map(d => d.id === id ? { ...d, ...patch } : d)`. */
  function PatchedWhere(dumps: seq<Dump>, id: string, patch: DumpPatch): (r: seq<Dump>)
    ensures |r| == |dumps|
    ensures forall i :: 0 <= i < |dumps| && dumps[i].id != id ==> r[i] == dumps[i]
    ensures forall i :: 0 <= i < |dumps| && dumps[i].id == id ==> r[i] == ApplyPatch(dumps[i], patch)
  {
    if dumps == [] then []
    else [if dumps[0].id == id then ApplyPatch(dumps[0], patch) else dumps[0]] + PatchedWhere(dumps[1..], id, patch)
  }

  /** Patching an id no dump has changes nothing. */
  lemma {:induction false} PatchAbsentId(dumps: seq<Dump>, id: string, patch: DumpPatch)
    requires forall d | d in dumps :: d.id != id
    ensures PatchedWhere(dumps, id, patch) == dumps
  {
    if dumps != [] {
      assert dumps[0] in dumps;
      PatchAbsentId(dumps[1..], id, patch);
      assert dumps == [dumps[0]] + dumps[1..];
    }
  }

  class Store {
    var registerDefinitions: seq<RegisterDefinition>
    var dumps: seq<Dump>

    constructor ()
      ensures registerDefinitions == [] && dumps == []
    {
      registerDefinitions := [];
      dumps := [];
    }

    method AddDefinition(definition: RegisterDefinition)
      modifies this
      ensures registerDefinitions == old(registerDefinitions) + [definition]
      ensures dumps == old(dumps)
    {
      registerDefinitions := registerDefinitions + [definition];
    }

    method SetRegisterDefinitions(definitions: seq<RegisterDefinition>)
      modifies this
      ensures registerDefinitions == definitions
      ensures dumps == old(dumps)
    {
      registerDefinitions := definitions;
    }

    method UpdateDefinition(index: int, definition: RegisterDefinition)
      requires index <= |registerDefinitions|
      modifies this
      ensures registerDefinitions == ReplacedAt(old(registerDefinitions), index, definition)
      ensures dumps == old(dumps)
    {
      var newDefs := registerDefinitions;
      if 0 <= index < |newDefs| {
        newDefs := newDefs[index := definition];
      } else if index == |newDefs| {
        newDefs := newDefs + [definition];
      }
      registerDefinitions := newDefs;
    }

    method DeleteDefinition(index: int)
      modifies this
      ensures registerDefinitions == RemovedAt(old(registerDefinitions), index)
      ensures dumps == old(dumps)
    {
      registerDefinitions := RemovedAt(registerDefinitions, index);
    }

    method AddDump(dump: Dump)
      modifies this
      ensures dumps == old(dumps) + [dump]
      ensures registerDefinitions == old(registerDefinitions)
    {
      dumps := dumps + [dump];
    }

    method RemoveDump(id: string)
      modifies this
      ensures dumps == WithoutId(old(dumps), id)
      ensures registerDefinitions == old(registerDefinitions)
    {
      dumps := WithoutId(dumps, id);
    }

    method UpdateDump(id: string, patch: DumpPatch)
      modifies this
      ensures dumps == PatchedWhere(old(dumps), id, patch)
      ensures registerDefinitions == old(registerDefinitions)
    {
      dumps := PatchedWhere(dumps, id, patch);
    }
  }
}
