/**
 * The comparison page: which dumps are selected, and the table it draws from
 * the register definitions and the selected dumps. Each row is one lower-cased
 * address; each column one selected dump, in the order of the store's dump
 * list; a row is a mismatch when its present values disagree.
 */
module Comparison {
  import opened Wrappers
  import opened JsString
  import opened JsArray
  import opened JsSort
  import opened AppStore

  /** The value shown where a dump has nothing for an address. */
  const Missing := "-"

  /** The name shown for an address no definition describes. */
  const UnknownName := "Unknown"

  /** One line of the table. */
  datatype Row = Row(address: string, name: string, description: string, values: seq<string>, isMismatch: bool)

  // ---------------------------------------------------------------------------
  // Selection
  // ---------------------------------------------------------------------------

  /** `toggleDump(id)`: a selected id is removed (every occurrence), an
      unselected one is appended. */
  function Toggled(selected: seq<string>, id: string): (r: seq<string>)
    ensures forall x :: x in r <==> (x in selected <==> x != id)
    ensures id !in selected ==> r == selected + [id]
  {
    if id in selected then Filter(selected, (d: string) => d != id) else selected + [id]
  }

  /** Toggling an unselected id twice gives back exactly the selection it started from. */
  lemma ToggleTwiceRestores(selected: seq<string>, id: string)
    requires id !in selected
    ensures Toggled(Toggled(selected, id), id) == selected
  {
    var keep := (d: string) => d != id;
    FilterConcat(selected, [id], keep);
    FilterKeepsAll(selected, keep);
    assert Filter([id], keep) == [];
  }

  /** Toggling off a selected id removes it and leaves the other ids in the
      order they were selected. */
  lemma ToggleOffKeepsOrder(a: seq<string>, id: string, b: seq<string>)
    requires id !in a && id !in b
    ensures Toggled(a + [id] + b, id) == a + b
  {
    var keep := (d: string) => d != id;
    var s := a + [id] + b;
    assert id in s by { assert s[|a|] == id; }
    assert Toggled(s, id) == Filter(s, keep);
    FilterDropsOne(a, id, b, keep);
  }

  /** Toggling a selected id twice restores which ids are selected (the id moves to the end). */
  lemma ToggleTwiceMembership(selected: seq<string>, id: string)
    ensures forall x :: x in Toggled(Toggled(selected, id), id) <==> x in selected
  {
  }

  /** A selection without repetitions stays so under toggling. */
  lemma ToggledNoDup(selected: seq<string>, id: string)
    requires NoDup(selected)
    ensures NoDup(Toggled(selected, id))
  {
    if id in selected {
      FilterNoDup(selected, (d: string) => d != id);
    } else {
      AppendFresh(selected, id);
    }
  }

  /** `dumps.filter(d => selectedDumpIds.includes(d.id))`: the selected dumps, in store order. */
  function ActiveDumps(dumps: seq<Dump>, selected: seq<string>): (r: seq<Dump>)
    ensures forall d | d in r :: d in dumps && d.id in selected
    ensures forall d | d in dumps && d.id in selected :: d in r
  {
    Filter(dumps, (d: Dump) => d.id in selected)
  }

  /** Which dumps are active depends only on which ids are selected, not on
      the order in which they were selected. */
  lemma ActiveDumpsIgnoreSelectionOrder(dumps: seq<Dump>, s1: seq<string>, s2: seq<string>)
    requires forall id :: id in s1 <==> id in s2
    ensures ActiveDumps(dumps, s1) == ActiveDumps(dumps, s2)
  {
    FilterCongruent(dumps, (d: Dump) => d.id in s1, (d: Dump) => d.id in s2);
  }

  /** The active dumps keep the store's order, list piece by list piece. */
  lemma ActiveDumpsInStoreOrder(a: seq<Dump>, b: seq<Dump>, selected: seq<string>)
    ensures ActiveDumps(a + b, selected) == ActiveDumps(a, selected) + ActiveDumps(b, selected)
  {
    FilterConcat(a, b, (d: Dump) => d.id in selected);
  }

  // ---------------------------------------------------------------------------
  // One row
  // ---------------------------------------------------------------------------

  predicate HasAddress(def: RegisterDefinition, address: string) {
    ToLowerAscii(def.address) == address
  }

  /** The position `registerDefinitions.find(d => d.address.toLowerCase() === address)` stops at. */
  function FindDefinitionIndex(defs: seq<RegisterDefinition>, address: string): (r: Option<nat>)
    ensures r.Some? ==> r.value < |defs| && HasAddress(defs[r.value], address)
    ensures r.Some? ==> forall j :: 0 <= j < r.value ==> !HasAddress(defs[j], address)
    ensures r.None? ==> forall j :: 0 <= j < |defs| ==> !HasAddress(defs[j], address)
  {
    if defs == [] then None
    else if HasAddress(defs[0], address) then Some(0)
    else
      match FindDefinitionIndex(defs[1..], address)
      case None => None
      case Some(i) => Some(i + 1)
  }

  /** `registerDefinitions.find(...)`: the first definition with that lower-cased address. */
  function FindDefinition(defs: seq<RegisterDefinition>, address: string): (r: Option<RegisterDefinition>)
    ensures r.Some? ==> r.value in defs && HasAddress(r.value, address)
    ensures r.None? ==> forall d | d in defs :: !HasAddress(d, address)
  {
    match FindDefinitionIndex(defs, address)
    case None => None
    case Some(i) => Some(defs[i])
  }

  /** `parsedData[key]` is a non-empty string (JavaScript truthiness of a
      string that may be `undefined`). */
  predicate Truthy(pd: map<string, string>, key: string) {
    key in pd && pd[key] != ""
  }

  /** `dump.parsedData[address] || (def && dump.parsedData[def.name]) || '-'`. */
  function ResolveValue(pd: map<string, string>, address: string, def: Option<RegisterDefinition>): (v: string)
    ensures v != ""
    ensures v == Missing || v in pd.Values
    ensures Truthy(pd, address) ==> v == pd[address]
    ensures !Truthy(pd, address) && def.Some? && Truthy(pd, def.value.name) ==> v == pd[def.value.name]
    ensures !Truthy(pd, address) && (def.None? || !Truthy(pd, def.value.name)) ==> v == Missing
    ensures v == Missing && Missing !in pd.Values ==> !Truthy(pd, address) && (def.None? || !Truthy(pd, def.value.name))
  {
    if Truthy(pd, address) then pd[address]
    else if def.Some? && Truthy(pd, def.value.name) then pd[def.value.name]
    else Missing
  }

  /** The lookup is by the lower-cased address only: a dump that stored the
      key `0X10` has nothing at the row `0x10`, and falls back to the name. */
  lemma UppercaseKeyNotFound()
    ensures ResolveValue(map["0X10" := "1"], "0x10", Some(RegisterDefinition("0x10", "CTRL", ""))) == Missing
  {
    assert "0x10" != "0X10" by {
      assert "0x10"[1] != "0X10"[1];
    }
    assert "CTRL" != "0X10" by {
      assert "CTRL"[0] != "0X10"[0];
    }
  }

  /** `values.filter(v => v !== '-')`. */
  function PresentValues(values: seq<string>): (r: seq<string>)
    ensures forall v | v in r :: v in values && v != Missing
    ensures forall v | v in values && v != Missing :: v in r
  {
    Filter(values, (v: string) => v != Missing)
  }

  /** `new Set(present).size > 1`. */
  predicate IsMismatch(values: seq<string>)
    ensures IsMismatch(values) ==> |PresentValues(values)| >= 2
  {
    ElementsCard(PresentValues(values));
    |Elements(PresentValues(values))| > 1
  }

  /** A row is a mismatch exactly when two of its values are present and differ. */
  lemma MismatchIffDisagreement(values: seq<string>)
    ensures IsMismatch(values) <==>
      exists i, j :: 0 <= i < |values| && 0 <= j < |values| && values[i] != Missing && values[j] != Missing && values[i] != values[j]
  {
    var present := Elements(PresentValues(values));
    if IsMismatch(values) {
      var a :| a in present;
      assert |present - {a}| == |present| - 1;
      var b :| b in present - {a};
      assert a in PresentValues(values) && b in PresentValues(values);
      var i :| 0 <= i < |values| && values[i] == a;
      var j :| 0 <= j < |values| && values[j] == b;
      assert values[i] != Missing && values[j] != Missing && values[i] != values[j];
    }
    if exists i, j :: 0 <= i < |values| && 0 <= j < |values| && values[i] != Missing && values[j] != Missing && values[i] != values[j] {
      var i, j :| 0 <= i < |values| && 0 <= j < |values| && values[i] != Missing && values[j] != Missing && values[i] != values[j];
      assert values[i] in PresentValues(values) && values[j] in PresentValues(values);
      assert {values[i], values[j]} <= present;
      assert |{values[i], values[j]}| == 2;
      SubsetCard({values[i], values[j]}, present);
    }
  }

  lemma SubsetCard(a: set<string>, b: set<string>)
    requires a <= b
    ensures |a| <= |b|
  {
    assert b == a + (b - a);
  }

  /** With fewer than two values there is nothing to disagree with. */
  lemma FewValuesNoMismatch(values: seq<string>)
    requires |values| <= 1
    ensures !IsMismatch(values)
  {
    MismatchIffDisagreement(values);
  }

  /** Two different present values disagree; a present value and a missing one do not. */
  lemma MismatchExamples()
    ensures IsMismatch(["1", "2"])
    ensures !IsMismatch(["1", Missing])
  {
    MismatchIffDisagreement(["1", "2"]);
    assert ["1", "2"][0] != ["1", "2"][1];
    MismatchIffDisagreement(["1", Missing]);
  }

  /** The row for one address: the first matching definition gives name and
      description, every active dump gives one value. */
  function BuildRow(address: string, defs: seq<RegisterDefinition>, active: seq<Dump>): (row: Row)
    ensures row.address == address && |row.values| == |active|
  {
    var def := FindDefinition(defs, address);
    var values := seq(|active|, i requires 0 <= i < |active| => ResolveValue(active[i].parsedData, address, def));
    Row(address,
        if def.Some? then def.value.name else UnknownName,
        if def.Some? then def.value.description else "",
        values,
        IsMismatch(values))
  }

  /** `addresses.map(address => ...)`. */
  function BuildRows(addresses: seq<string>, defs: seq<RegisterDefinition>, active: seq<Dump>): (rows: seq<Row>)
    ensures |rows| == |addresses|
    ensures forall i :: 0 <= i < |addresses| ==> rows[i] == BuildRow(addresses[i], defs, active)
  {
    seq(|addresses|, i requires 0 <= i < |addresses| => BuildRow(addresses[i], defs, active))
  }

  /** `rows.filter(r => r.isMismatch)`. */
  function MismatchesOnly(rows: seq<Row>): (r: seq<Row>)
    ensures forall row | row in r :: row in rows && row.isMismatch
    ensures forall row | row in rows && row.isMismatch :: row in r
  {
    Filter(rows, (row: Row) => row.isMismatch)
  }

  // ---------------------------------------------------------------------------
  // The address universe
  // ---------------------------------------------------------------------------

  /** The lower-cased keys of one parsed dump. */
  function LowerKeys(keys: set<string>): set<string> {
    set k | k in keys :: ToLowerAscii(k)
  }

  /** The lower-cased addresses of the definitions. */
  function DefAddresses(defs: seq<RegisterDefinition>): set<string> {
    if defs == [] then {}
    else DefAddresses(defs[..|defs| - 1]) + {ToLowerAscii(defs[|defs| - 1].address)}
  }

  /** The lower-cased keys of the dumps. */
  function DumpAddresses(active: seq<Dump>): set<string> {
    if active == [] then {}
    else DumpAddresses(active[..|active| - 1]) + LowerKeys(active[|active| - 1].parsedData.Keys)
  }

  /** What `allAddresses` holds once both loops have run. */
  function AddressUniverse(defs: seq<RegisterDefinition>, active: seq<Dump>): set<string> {
    DefAddresses(defs) + DumpAddresses(active)
  }

  lemma {:induction false} DefAddressesMembers(defs: seq<RegisterDefinition>, a: string)
    ensures a in DefAddresses(defs) <==> exists d | d in defs :: HasAddress(d, a)
  {
    if defs != [] {
      var init := defs[..|defs| - 1];
      var last := defs[|defs| - 1];
      DefAddressesMembers(init, a);
      if a in DefAddresses(defs) {
        if a in DefAddresses(init) {
          var d :| d in init && HasAddress(d, a);
          assert d in defs;
        } else {
          assert HasAddress(last, a);
        }
      }
      if exists d | d in defs :: HasAddress(d, a) {
        var d :| d in defs && HasAddress(d, a);
        if d != last {
          assert d in init;
        }
      }
    }
  }

  lemma {:induction false} DumpAddressesMembers(active: seq<Dump>, a: string)
    ensures a in DumpAddresses(active) <==> exists d, k | d in active && k in d.parsedData :: ToLowerAscii(k) == a
  {
    if active != [] {
      var init := active[..|active| - 1];
      DumpAddressesMembers(init, a);
      assert forall d | d in active :: d in init || d == active[|active| - 1];
      assert forall d | d in init :: d in active;
    }
  }

  /** A row address is a lower-cased definition address or a lower-cased key of an active dump, and every such string is one. */
  lemma AddressUniverseMembers(defs: seq<RegisterDefinition>, active: seq<Dump>, a: string)
    ensures a in AddressUniverse(defs, active) <==>
      (exists d | d in defs :: HasAddress(d, a)) || (exists d, k | d in active && k in d.parsedData :: ToLowerAscii(k) == a)
  {
    DefAddressesMembers(defs, a);
    DumpAddressesMembers(active, a);
  }

  // ---------------------------------------------------------------------------
  // The table
  // ---------------------------------------------------------------------------

  /** The rows `comparisonData` holds: nothing without a selection; otherwise
      one row per address of the universe in ascending order, narrowed to the
      mismatches when only differences are shown. */
  ghost function Compare(defs: seq<RegisterDefinition>, dumps: seq<Dump>, selected: seq<string>, diffOnly: bool): (r: seq<Row>)
    ensures selected == [] ==> r == []
    ensures forall row | row in r :: |row.values| == |ActiveDumps(dumps, selected)|
    ensures diffOnly ==> forall row | row in r :: row.isMismatch
  {
    if selected == [] then []
    else
      var active := ActiveDumps(dumps, selected);
      var rows := BuildRows(SortedElements(AddressUniverse(defs, active)), defs, active);
      if diffOnly then MismatchesOnly(rows) else rows
  }

  function RowAddresses(rows: seq<Row>): (r: seq<string>)
    ensures |r| == |rows| && forall i :: 0 <= i < |rows| ==> r[i] == rows[i].address
  {
    seq(|rows|, i requires 0 <= i < |rows| => rows[i].address)
  }

  /** `allAddresses.add(a)`: the list of a set's elements in insertion order. */
  method AddToSet(all: seq<string>, a: string) returns (r: seq<string>)
    requires NoDup(all)
    ensures NoDup(r) && Elements(r) == Elements(all) + {a}
  {
    r := all;
    if a !in all {
      AppendFresh(all, a);
      r := all + [a];
    }
  }

  /** `Object.keys(parsedData).forEach(addr => allAddresses.add(addr.toLowerCase()))`. */
  method AddLowerKeys(all: seq<string>, keys: set<string>) returns (r: seq<string>)
    requires NoDup(all)
    ensures NoDup(r) && Elements(r) == Elements(all) + LowerKeys(keys)
  {
    r := all;
    var remaining := keys;
    ghost var seen: set<string> := {};
    while remaining != {}
      invariant remaining + seen == keys
      invariant NoDup(r)
      invariant Elements(r) == Elements(all) + LowerKeys(seen)
      decreases |remaining|
    {
      var k :| k in remaining;
      r := AddToSet(r, ToLowerAscii(k));
      LowerKeysAdd(seen, k);
      remaining := remaining - {k};
      seen := seen + {k};
    }
  }

  /** The two `forEach` loops that fill `allAddresses`. */
  method CollectAddresses(defs: seq<RegisterDefinition>, active: seq<Dump>) returns (all: seq<string>)
    ensures NoDup(all) && Elements(all) == AddressUniverse(defs, active)
  {
    all := [];
    for i := 0 to |defs|
      invariant NoDup(all)
      invariant Elements(all) == DefAddresses(defs[..i])
    {
      assert defs[..i + 1][..i] == defs[..i];
      all := AddToSet(all, ToLowerAscii(defs[i].address));
    }
    assert defs[..|defs|] == defs;
    for j := 0 to |active|
      invariant NoDup(all)
      invariant Elements(all) == DefAddresses(defs) + DumpAddresses(active[..j])
    {
      assert active[..j + 1][..j] == active[..j];
      all := AddLowerKeys(all, active[j].parsedData.Keys);
    }
    assert active[..|active|] == active;
  }

  /** `comparisonData`: collects the address universe into a set, sorts it,
      builds the rows and drops the agreeing ones when asked to. */
  method ComparisonData(defs: seq<RegisterDefinition>, dumps: seq<Dump>, selected: seq<string>, diffOnly: bool)
    returns (rows: seq<Row>)
    ensures rows == Compare(defs, dumps, selected, diffOnly)
  {
    if |selected| == 0 {
      return [];
    }
    var active := ActiveDumps(dumps, selected);
    var all := CollectAddresses(defs, active);
    var sorted := SortStrings(all);
    SortDistinct(all);
    rows := BuildRows(sorted, defs, active);
    if diffOnly {
      rows := MismatchesOnly(rows);
    }
  }

  lemma LowerKeysAdd(keys: set<string>, k: string)
    ensures LowerKeys(keys + {k}) == LowerKeys(keys) + {ToLowerAscii(k)}
  {
  }

  /** Without diff-only, the rows list the address universe once each, in ascending order. */
  lemma CompareListsUniverse(defs: seq<RegisterDefinition>, dumps: seq<Dump>, selected: seq<string>)
    requires selected != []
    ensures var rows := Compare(defs, dumps, selected, false);
      StrictlyAscending(RowAddresses(rows))
      && Elements(RowAddresses(rows)) == AddressUniverse(defs, ActiveDumps(dumps, selected))
  {
    var active := ActiveDumps(dumps, selected);
    var sorted := SortedElements(AddressUniverse(defs, active));
    assert RowAddresses(BuildRows(sorted, defs, active)) == sorted;
  }

  /** Diff-only shows exactly the mismatching rows of the full table, in the same order. */
  lemma CompareDiffOnly(defs: seq<RegisterDefinition>, dumps: seq<Dump>, selected: seq<string>)
    ensures Compare(defs, dumps, selected, true) == MismatchesOnly(Compare(defs, dumps, selected, false))
    ensures forall row | row in Compare(defs, dumps, selected, true) :: row.isMismatch
    ensures StrictlyAscending(RowAddresses(Compare(defs, dumps, selected, true)))
  {
    if selected != [] {
      CompareListsUniverse(defs, dumps, selected);
      var rows := Compare(defs, dumps, selected, false);
      var rel := (a: Row, b: Row) => LessEq(a.address, b.address) && a.address != b.address;
      assert forall i, j :: 0 <= i < j < |rows| ==> rel(rows[i], rows[j]) by {
        forall i, j | 0 <= i < j < |rows| ensures rel(rows[i], rows[j]) {
          assert RowAddresses(rows)[i] == rows[i].address && RowAddresses(rows)[j] == rows[j].address;
        }
      }
      FilterPairwise(rows, (row: Row) => row.isMismatch, rel);
      var shown := MismatchesOnly(rows);
      forall i, j | 0 <= i < j < |shown| ensures LessEq(RowAddresses(shown)[i], RowAddresses(shown)[j]) && RowAddresses(shown)[i] != RowAddresses(shown)[j] {
        assert rel(shown[i], shown[j]);
      }
    }
  }

  /** Every row has one value per active dump, in store order, each looked up
      as `ResolveValue` says, and carries the first matching definition's name
      and description or `Unknown` and `''`. */
  lemma CompareRowContents(defs: seq<RegisterDefinition>, dumps: seq<Dump>, selected: seq<string>, diffOnly: bool)
    ensures var active := ActiveDumps(dumps, selected);
      forall row | row in Compare(defs, dumps, selected, diffOnly) ::
        && |row.values| == |active|
        && (forall i :: 0 <= i < |active| ==>
              row.values[i] == ResolveValue(active[i].parsedData, row.address, FindDefinition(defs, row.address)))
        && row.isMismatch == IsMismatch(row.values)
        && (match FindDefinition(defs, row.address)
            case Some(def) => row.name == def.name && row.description == def.description
            case None => row.name == UnknownName && row.description == "")
  {
    var active := ActiveDumps(dumps, selected);
    forall row | row in Compare(defs, dumps, selected, diffOnly)
      ensures && |row.values| == |active|
        && (forall i :: 0 <= i < |active| ==>
              row.values[i] == ResolveValue(active[i].parsedData, row.address, FindDefinition(defs, row.address)))
        && row.isMismatch == IsMismatch(row.values)
        && (match FindDefinition(defs, row.address)
            case Some(def) => row.name == def.name && row.description == def.description
            case None => row.name == UnknownName && row.description == "")
    {
      CompareRowIsBuilt(defs, dumps, selected, diffOnly, row);
      BuiltRowContents(row, defs, active);
    }
  }

  /** What a row built for its address holds. */
  lemma BuiltRowContents(row: Row, defs: seq<RegisterDefinition>, active: seq<Dump>)
    requires row == BuildRow(row.address, defs, active)
    ensures && |row.values| == |active|
      && (forall i :: 0 <= i < |active| ==>
            row.values[i] == ResolveValue(active[i].parsedData, row.address, FindDefinition(defs, row.address)))
      && row.isMismatch == IsMismatch(row.values)
      && (match FindDefinition(defs, row.address)
          case Some(def) => row.name == def.name && row.description == def.description
          case None => row.name == UnknownName && row.description == "")
  {
  }

  /** Every row of the table is the row `BuildRow` makes for its address. */
  lemma CompareRowIsBuilt(defs: seq<RegisterDefinition>, dumps: seq<Dump>, selected: seq<string>, diffOnly: bool, row: Row)
    requires row in Compare(defs, dumps, selected, diffOnly)
    ensures row == BuildRow(row.address, defs, ActiveDumps(dumps, selected))
  {
    var active := ActiveDumps(dumps, selected);
    var rows := BuildRows(SortedElements(AddressUniverse(defs, active)), defs, active);
    assert row in rows;
  }

  /** The selection order never changes the table. */
  lemma CompareIgnoresSelectionOrder(defs: seq<RegisterDefinition>, dumps: seq<Dump>, s1: seq<string>, s2: seq<string>, diffOnly: bool)
    requires forall id :: id in s1 <==> id in s2
    ensures Compare(defs, dumps, s1, diffOnly) == Compare(defs, dumps, s2, diffOnly)
  {
    ActiveDumpsIgnoreSelectionOrder(dumps, s1, s2);
    if s1 != [] {
      assert s1[0] in s2;
    }
    if s2 != [] {
      assert s2[0] in s1;
    }
  }

  /** A single selected dump never shows a mismatch. */
  lemma OneDumpNoMismatch(defs: seq<RegisterDefinition>, dumps: seq<Dump>, selected: seq<string>, diffOnly: bool)
    requires |ActiveDumps(dumps, selected)| <= 1
    ensures forall row | row in Compare(defs, dumps, selected, diffOnly) :: !row.isMismatch
  {
    CompareRowContents(defs, dumps, selected, diffOnly);
    forall row | row in Compare(defs, dumps, selected, diffOnly) ensures !row.isMismatch {
      FewValuesNoMismatch(row.values);
    }
  }

  /** A definition whose address and name no active dump holds gives a row of
      `-` that is not a mismatch. */
  lemma UnmatchedDefinitionRow(defs: seq<RegisterDefinition>, dumps: seq<Dump>, selected: seq<string>, diffOnly: bool, row: Row)
    requires row in Compare(defs, dumps, selected, diffOnly)
    requires forall d | d in ActiveDumps(dumps, selected) :: !Truthy(d.parsedData, row.address)
    requires match FindDefinition(defs, row.address)
      case Some(def) => forall d | d in ActiveDumps(dumps, selected) :: !Truthy(d.parsedData, def.name)
      case None => true
    ensures forall i :: 0 <= i < |row.values| ==> row.values[i] == Missing
    ensures !row.isMismatch
  {
    CompareRowContents(defs, dumps, selected, diffOnly);
    var active := ActiveDumps(dumps, selected);
    forall i | 0 <= i < |row.values| ensures row.values[i] == Missing {
      assert active[i] in active;
    }
    MismatchIffDisagreement(row.values);
  }

  // ---------------------------------------------------------------------------
  // Column headings
  // ---------------------------------------------------------------------------

  /** `dumps.find(d => d.id === id)?.name`. */
  function DumpName(dumps: seq<Dump>, id: string): (r: Option<string>)
    ensures r.Some? ==> exists i :: 0 <= i < |dumps| && dumps[i].id == id && dumps[i].name == r.value
                          && (forall j :: 0 <= j < i ==> dumps[j].id != id)
    ensures r.None? ==> forall d | d in dumps :: d.id != id
  {
    if dumps == [] then None
    else if dumps[0].id == id then Some(dumps[0].name)
    else DumpName(dumps[1..], id)
  }

  /** The headings as the page draws them: one per selected id, in selection order. */
  function HeaderLabels(dumps: seq<Dump>, selected: seq<string>): (r: seq<Option<string>>)
    ensures |r| == |selected|
    ensures forall i :: 0 <= i < |selected| ==> r[i] == DumpName(dumps, selected[i])
  {
    seq(|selected|, i requires 0 <= i < |selected| => DumpName(dumps, selected[i]))
  }

  /** Selecting dump `2` before dump `1` puts `B` over the first value column,
      which holds dump `1`'s values (named `A`). */
  lemma HeaderMisaligned()
    ensures var dumps := [Dump("1", "A", 0, "", map[]), Dump("2", "B", 0, "", map[])];
      var selected := ["2", "1"];
      HeaderLabels(dumps, selected)[0] == Some("B")
      && ActiveDumps(dumps, selected)[0].name == "A"
  {
    var dumps := [Dump("1", "A", 0, "", map[]), Dump("2", "B", 0, "", map[])];
    var selected := ["2", "1"];
    assert "1" != "2" by {
      assert "1"[0] != "2"[0];
    }
    assert DumpName(dumps, "2") == Some("B");
    var keep := (d: Dump) => d.id in selected;
    assert keep(dumps[0]);
    assert ActiveDumps(dumps, selected) == [dumps[0]] + Filter(dumps[1..], keep);
  }

  /** The headings the value columns need: the active dumps' names, in store order. */
  function ColumnLabels(active: seq<Dump>): (r: seq<string>)
    ensures |r| == |active|
    ensures forall i :: 0 <= i < |active| ==> r[i] == active[i].name
  {
    seq(|active|, i requires 0 <= i < |active| => active[i].name)
  }

  /** With `ColumnLabels`, heading `i` names the dump whose values column `i` holds, in every row. */
  lemma ColumnLabelsAligned(defs: seq<RegisterDefinition>, dumps: seq<Dump>, selected: seq<string>, diffOnly: bool)
    ensures var active := ActiveDumps(dumps, selected); var labels := ColumnLabels(active);
      forall row | row in Compare(defs, dumps, selected, diffOnly) ::
        |row.values| == |labels|
        && forall i :: 0 <= i < |labels| ==>
             labels[i] == active[i].name
             && row.values[i] == ResolveValue(active[i].parsedData, row.address, FindDefinition(defs, row.address))
  {
    CompareRowContents(defs, dumps, selected, diffOnly);
  }

  /** The page's state: which dumps are selected and whether only differences are shown. */
  class ComparisonView {
    const store: Store
    var selectedDumpIds: seq<string>
    var showDiffsOnly: bool

    constructor (store: Store)
      ensures this.store == store && selectedDumpIds == [] && !showDiffsOnly
    {
      this.store := store;
      selectedDumpIds := [];
      showDiffsOnly := false;
    }

    /** `toggleDump(id)`. */
    method ToggleDump(id: string)
      modifies this
      ensures selectedDumpIds == Toggled(old(selectedDumpIds), id)
      ensures showDiffsOnly == old(showDiffsOnly)
    {
      if id in selectedDumpIds {
        selectedDumpIds := Filter(selectedDumpIds, (d: string) => d != id);
      } else {
        selectedDumpIds := selectedDumpIds + [id];
      }
    }

    /** The diff-only button. */
    method ToggleDiffsOnly()
      modifies this
      ensures showDiffsOnly == !old(showDiffsOnly)
      ensures selectedDumpIds == old(selectedDumpIds)
    {
      showDiffsOnly := !showDiffsOnly;
    }

    /** The table body for the current state. */
    method Rows() returns (rows: seq<Row>)
      ensures rows == Compare(store.registerDefinitions, store.dumps, selectedDumpIds, showDiffsOnly)
    {
      rows := ComparisonData(store.registerDefinitions, store.dumps, selectedDumpIds, showDiffsOnly);
    }

    /** The value-column headings as the page draws them: one per selected id,
        in selection order, the name of the first dump with that id or none. */
    method Headings() returns (labels: seq<Option<string>>)
      ensures labels == HeaderLabels(store.dumps, selectedDumpIds)
    {
      labels := HeaderLabels(store.dumps, selectedDumpIds);
    }
  }
}
