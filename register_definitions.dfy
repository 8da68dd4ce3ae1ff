/**
 * The register definition page: the hexadecimal address recogniser, the
 * `0x` prefix the add action supplies, and the form that adds, edits and
 * replaces definitions in the store.
 */
module RegisterDefinitions {
  import opened Wrappers
  import opened JsString
  import opened JsArray
  import opened AppStore

  /** `{ address: '', name: '', description: '' }`. */
  const EmptyForm := RegisterDefinition("", "", "")

  const HexPrefix := "0x"

  /** `[0-9A-Fa-f]`. */
  predicate IsHexDigit(c: char) {
    '0' <= c <= '9' || 'a' <= c <= 'f' || 'A' <= c <= 'F'
  }

  predicate AllHexDigits(s: string) {
    forall i :: 0 <= i < |s| ==> IsHexDigit(s[i])
  }

  /** `/^0x[0-9A-Fa-f]+$/.test(addr)`: the literal `0x`, then one or more hex digits, then the end. */
  predicate ValidateAddress(addr: string)
    ensures ValidateAddress(addr) <==>
      |addr| >= 3 && addr[0] == '0' && addr[1] == 'x' && forall i :: 2 <= i < |addr| ==> IsHexDigit(addr[i])
    ensures ValidateAddress(addr) ==> forall i :: 0 <= i < |addr| && i != 1 ==> IsHexDigit(addr[i])
  {
    assert forall i :: 2 <= i < |addr| ==> addr[i] == addr[|HexPrefix|..][i - 2];
    StartsWith(addr, HexPrefix) && |addr| > |HexPrefix| && AllHexDigits(addr[|HexPrefix|..])
  }

  /** The address `handleAdd` stores: `0x` is put in front unless the text already starts with it. */
  function WithHexPrefix(address: string): (r: string)
    ensures StartsWith(r, HexPrefix)
    ensures |r| >= |address| && r[|r| - |address|..] == address
    ensures |r| == |address| || |r| == |address| + |HexPrefix|
    ensures StartsWith(address, HexPrefix) <==> r == address
  {
    if StartsWith(address, HexPrefix) then address else HexPrefix + address
  }

  /** A valid address is stored as typed. */
  lemma PrefixKeepsValidAddress(address: string)
    requires ValidateAddress(address)
    ensures WithHexPrefix(address) == address
  {
  }

  /** Bare hex digits become a valid address once prefixed. */
  lemma PrefixCompletesHexDigits(digits: string)
    requires digits != [] && AllHexDigits(digits)
    ensures ValidateAddress(WithHexPrefix(digits))
  {
    var r := WithHexPrefix(digits);
    assert !StartsWith(digits, HexPrefix) by {
      assert !IsHexDigit(HexPrefix[1]);
    }
    assert r[2..] == digits;
  }

  /** Prefixing twice prefixes no more than once. */
  lemma PrefixIdempotent(address: string)
    ensures WithHexPrefix(WithHexPrefix(address)) == WithHexPrefix(address)
  {
  }

  /** The prefix test is case-sensitive and digits are not checked: `0X10` is
      stored as `0x0X10`, which the recogniser rejects. */
  lemma UppercasePrefixDoubled()
    ensures WithHexPrefix("0X10") == "0x0X10"
    ensures !ValidateAddress("0x0X10")
  {
    assert "0X10"[..2] != HexPrefix by {
      assert "0X10"[1] != HexPrefix[1];
    }
    assert HexPrefix + "0X10" == "0x0X10";
    assert !IsHexDigit("0x0X10"[3]);
    assert "0x0X10"[2..][1] == "0x0X10"[3];
  }

  /** Lower-casing, as the comparison does, keeps a valid address valid. */
  lemma LowerKeepsValidAddress(address: string)
    requires ValidateAddress(address)
    ensures ValidateAddress(ToLowerAscii(address))
  {
    var r := ToLowerAscii(address);
    assert r[..2] == HexPrefix by {
      assert r[0] == ToLowerChar(address[0]) && r[1] == ToLowerChar(address[1]);
    }
    forall i | 0 <= i < |r[2..]| ensures IsHexDigit(r[2..][i]) {
      assert r[2..][i] == ToLowerChar(address[2..][i]);
    }
  }

  /** The page's state: the index being edited, if any, and the form fields. */
  class RegisterDefinitionPage {
    const store: Store
    var isEditing: Option<int>
    var formData: RegisterDefinition

    constructor (store: Store)
      ensures this.store == store && isEditing == None && formData == EmptyForm
    {
      this.store := store;
      isEditing := None;
      formData := EmptyForm;
    }

    /** `handleAdd()`: with an address and a name, stores the form (address
        prefixed with `0x` when it lacks it) and empties the form; otherwise
        does nothing. */
    method HandleAdd()
      modifies this, store
      ensures old(formData.address) == "" || old(formData.name) == "" ==>
        store.registerDefinitions == old(store.registerDefinitions) && formData == old(formData)
      ensures old(formData.address) != "" && old(formData.name) != "" ==>
        store.registerDefinitions == old(store.registerDefinitions) + [old(formData).(address := WithHexPrefix(old(formData.address)))]
        && formData == EmptyForm
      ensures store.dumps == old(store.dumps) && isEditing == old(isEditing)
    {
      if formData.address == "" || formData.name == "" {
        return;
      }
      if !StartsWith(formData.address, HexPrefix) {
        formData := formData.(address := HexPrefix + formData.address);
      }
      store.AddDefinition(formData);
      formData := EmptyForm;
    }

    /** `handleUpdate(index)`: writes the form over the definition at `index`
        and leaves edit mode with an empty form. */
    method HandleUpdate(index: int)
      requires index <= |store.registerDefinitions|
      modifies this, store
      ensures store.registerDefinitions == ReplacedAt(old(store.registerDefinitions), index, old(formData))
      ensures store.dumps == old(store.dumps)
      ensures isEditing == None && formData == EmptyForm
    {
      store.UpdateDefinition(index, formData);
      isEditing := None;
      formData := EmptyForm;
    }

    /** The row's delete button, `deleteDefinition(idx)`: the store drops the
        definition; the edit index and the form are left as they were. */
    method HandleDelete(index: int)
      modifies store
      ensures store.registerDefinitions == RemovedAt(old(store.registerDefinitions), index)
      ensures store.dumps == old(store.dumps)
    {
      store.DeleteDefinition(index);
    }

    /** `startEdit(index, def)`: the form takes the definition's fields. */
    method StartEdit(index: int, def: RegisterDefinition)
      modifies this
      ensures isEditing == Some(index) && formData == def
    {
      isEditing := Some(index);
      formData := def;
    }

    /** `cancelEdit()`: leaves edit mode with an empty form; the store is untouched. */
    method CancelEdit()
      modifies this
      ensures isEditing == None && formData == EmptyForm
    {
      isEditing := None;
      formData := EmptyForm;
    }
  }

  // ---------------------------------------------------------------------------
  // Deleting a row while another is being edited
  // ---------------------------------------------------------------------------

  /** Editing the second of three definitions, deleting the first, then
      updating: the edit index still says `1`, which now holds the third
      definition, so the update overwrites it and the edited one survives. */
  lemma StaleEditIndexOverwritesNeighbour(a: RegisterDefinition, b: RegisterDefinition, c: RegisterDefinition, form: RegisterDefinition)
    requires form != c
    ensures var defs := [a, b, c];
      && ReplacedAt(RemovedAt(defs, 0), 1, form) == [b, form]
      && ReplacedAt(RemovedAt(defs, 0), 1, form) != RemovedAt(defs[1 := form], 0)
  {
    var defs := [a, b, c];
    assert RemovedAt(defs, 0) == [b, c];
    assert RemovedAt(defs[1 := form], 0) == [form, c];
  }

  /** Editing the last of two definitions and deleting the first: the edit
      index now equals the length, so the update appends a second copy. */
  lemma StaleEditIndexAppends(a: RegisterDefinition, b: RegisterDefinition, form: RegisterDefinition)
    ensures ReplacedAt(RemovedAt([a, b], 0), 1, form) == [b, form]
  {
    assert RemovedAt([a, b], 0) == [b];
  }

  /** Where the edited definition is after the definition at `deleted` is
      removed: gone when it was the one deleted, one place earlier when an
      earlier one was deleted, unmoved otherwise. */
  function EditIndexAfterDelete(editing: Option<int>, deleted: int): (r: Option<int>)
    ensures editing.None? ==> r.None?
    ensures editing.Some? && 0 <= deleted ==> (r.None? <==> editing.value == deleted)
    ensures r.Some? ==> r.value == editing.value || r.value == editing.value - 1
    ensures editing.Some? && 0 <= deleted < editing.value ==> r == Some(editing.value - 1)
    ensures editing.Some? && (deleted < 0 || editing.value < deleted) ==> r == editing
  {
    match editing
    case None => None
    case Some(i) =>
      if 0 <= deleted && i == deleted then None
      else if 0 <= deleted < i then Some(i - 1)
      else Some(i)
  }

  /** With the edit index carried across the delete, updating after deleting
      gives the same list as updating first and deleting afterwards. */
  lemma AdjustedEditIndexFollowsDefinition(defs: seq<RegisterDefinition>, i: int, k: int, form: RegisterDefinition)
    requires 0 <= i < |defs| && 0 <= k < |defs| && i != k
    ensures var j := EditIndexAfterDelete(Some(i), k);
      && j.Some? && 0 <= j.value < |defs| - 1
      && RemovedAt(defs, k)[j.value] == defs[i]
      && ReplacedAt(RemovedAt(defs, k), j.value, form) == RemovedAt(defs[i := form], k)
  {
    var j := EditIndexAfterDelete(Some(i), k).value;
    var after := RemovedAt(defs, k);
    var expected := RemovedAt(defs[i := form], k);
    assert |after| == |expected| == |defs| - 1;
    forall n | 0 <= n < |expected|
      ensures ReplacedAt(after, j, form)[n] == expected[n]
    {
      if n < k {
        assert after[n] == defs[n] && expected[n] == defs[i := form][n];
      } else {
        assert after[n] == defs[n + 1] && expected[n] == defs[i := form][n + 1];
      }
    }
  }
}
