/**
 * The `allocationOptions` list (the named buckets tasks are assigned to).
 * The current code accepts bare name strings from older data next to
 * `{name, type}` objects and upgrades them in place; the v1.4.3 copy reads
 * the `name` field only, so bare strings never match there.
 */
module Allocations {
  import opened Wrappers
  import opened Text

  /** A bare name string, or an object whose `name` / `type` are `None` when missing or not strings. */
  datatype Allocation = Bare(value: string) | Entry(name: Option<string>, kind: Option<string>)

  /** `getAllocationName`: the string itself, the object's string name, or "". */
  function GetAllocationName(opt: Allocation): string {
    match opt
    case Bare(s) => s
    case Entry(n, _) => n.GetOr("")
  }

  /** `getAllocationType`: an object's string type, trimmed; "" for anything else. */
  function GetAllocationType(opt: Allocation): (r: string)
    ensures r != [] ==> opt.Entry? && opt.kind.Some?
    ensures r != [] ==> !IsJsWhitespace(r[0]) && !IsJsWhitespace(r[|r| - 1])
    ensures opt.Entry? && opt.kind.Some? ==> r == JsTrim(opt.kind.value)
    ensures !(opt.Entry? && opt.kind.Some?) ==> r == ""
  {
    match opt
    case Entry(_, Some(t)) => JsTrim(t)
    case _ => ""
  }

  /** `allocationOptions.findIndex(o => getAllocationName(o) === name)`. */
  function FindAllocation(opts: seq<Allocation>, name: string): (r: Option<nat>)
    ensures r.Some? ==> r.value < |opts| && GetAllocationName(opts[r.value]) == name
    ensures r.Some? ==> forall j :: 0 <= j < r.value ==> GetAllocationName(opts[j]) != name
    ensures r.None? <==> forall j :: 0 <= j < |opts| ==> GetAllocationName(opts[j]) != name
  {
    if opts == [] then None
    else if GetAllocationName(opts[0]) == name then Some(0)
    else match FindAllocation(opts[1..], name)
      case None => None
      case Some(i) => Some(i + 1)
  }

  /** `hasAllocationName`: some entry carries the name. */
  function HasAllocationName(opts: seq<Allocation>, name: string): (r: bool)
    ensures r <==> exists j :: 0 <= j < |opts| && GetAllocationName(opts[j]) == name
  {
    FindAllocation(opts, name).Some?
  }

  /** `removeAllocationByName`: splice out the first entry with the name, if any. */
  function RemovedByName(opts: seq<Allocation>, name: string): (r: seq<Allocation>)
    ensures !HasAllocationName(opts, name) ==> r == opts
    ensures HasAllocationName(opts, name) ==> |r| == |opts| - 1
  {
    match FindAllocation(opts, name)
    case None => opts
    case Some(i) => opts[..i] + opts[i + 1..]
  }

  /** Only the first matching entry goes: everything before it and everything after it stays, in order. */
  lemma RemovedByNameFirstOnly(opts: seq<Allocation>, name: string, i: nat)
    requires i < |opts| && GetAllocationName(opts[i]) == name
    requires forall j :: 0 <= j < i ==> GetAllocationName(opts[j]) != name
    ensures RemovedByName(opts, name) == opts[..i] + opts[i + 1..]
  {
  }

  /** The string-to-object rewrite of one entry. */
  function UpgradeEntry(opt: Allocation): Allocation {
    match opt
    case Bare(s) => Entry(Some(s), Some(""))
    case Entry(_, _) => opt
  }

  /** `upgradeAllocationOptionsInPlace`: every bare string becomes `{name, type: ""}`. */
  function Upgraded(opts: seq<Allocation>): (r: seq<Allocation>)
    ensures |r| == |opts|
    ensures forall j :: 0 <= j < |r| ==> r[j].Entry? && GetAllocationName(r[j]) == GetAllocationName(opts[j])
    ensures forall j :: 0 <= j < |r| && opts[j].Entry? ==> r[j] == opts[j]
  {
    seq(|opts|, j requires 0 <= j < |opts| => UpgradeEntry(opts[j]))
  }

  /** Upgrading twice is upgrading once. */
  lemma UpgradedIdempotent(opts: seq<Allocation>)
    ensures Upgraded(Upgraded(opts)) == Upgraded(opts)
  {
  }

  /** The upgrade does not change which names exist. */
  lemma UpgradedKeepsNames(opts: seq<Allocation>, name: string)
    ensures HasAllocationName(Upgraded(opts), name) == HasAllocationName(opts, name)
  {
    var u := Upgraded(opts);
    if HasAllocationName(opts, name) {
      var j :| 0 <= j < |opts| && GetAllocationName(opts[j]) == name;
      assert GetAllocationName(u[j]) == name;
    }
  }

  // ---------------------------------------------------------------------
  // The v1.4.3 helpers: `o.name === name`
  // ---------------------------------------------------------------------

  /** `o.name === name` for a string `name`: only objects whose name is that string match. */
  predicate NameFieldIs(opt: Allocation, name: string) {
    opt.Entry? && opt.name == Some(name)
  }

  function FindByNameField(opts: seq<Allocation>, name: string): (r: Option<nat>)
    ensures r.Some? ==> r.value < |opts| && NameFieldIs(opts[r.value], name)
    ensures r.Some? ==> forall j :: 0 <= j < r.value ==> !NameFieldIs(opts[j], name)
    ensures r.None? <==> forall j :: 0 <= j < |opts| ==> !NameFieldIs(opts[j], name)
  {
    if opts == [] then None
    else if NameFieldIs(opts[0], name) then Some(0)
    else match FindByNameField(opts[1..], name)
      case None => None
      case Some(i) => Some(i + 1)
  }

  /** `allocationNameExists` (v1.4.3). */
  function AllocationNameExists(opts: seq<Allocation>, name: string): (r: bool)
    ensures r <==> exists j :: 0 <= j < |opts| && NameFieldIs(opts[j], name)
  {
    FindByNameField(opts, name).Some?
  }

  /** `removeAllocationByName` (v1.4.3): the first object with that name field is spliced out. */
  function RemovedByNameField(opts: seq<Allocation>, name: string): (r: seq<Allocation>)
    ensures !AllocationNameExists(opts, name) ==> r == opts
    ensures AllocationNameExists(opts, name) ==> |r| == |opts| - 1
  {
    match FindByNameField(opts, name)
    case None => opts
    case Some(i) => opts[..i] + opts[i + 1..]
  }

  /**
   * Once every entry is an object, the two versions agree on every non-empty
   * name; before that, a bare string is found only by the current helpers.
   */
  lemma VersionsAgreeAfterUpgrade(opts: seq<Allocation>, name: string)
    requires name != ""
    ensures AllocationNameExists(Upgraded(opts), name) == HasAllocationName(opts, name)
    ensures RemovedByNameField(Upgraded(opts), name) == RemovedByName(Upgraded(opts), name)
  {
    var u := Upgraded(opts);
    UpgradedKeepsNames(opts, name);
    assert forall j :: 0 <= j < |u| ==> u[j].Entry?;
    HelpersAgree(u, name);
  }

  /** Over objects only, the two versions' helpers give the same answers. */
  lemma HelpersAgree(opts: seq<Allocation>, name: string)
    requires name != "" && forall j :: 0 <= j < |opts| ==> opts[j].Entry?
    ensures AllocationNameExists(opts, name) == HasAllocationName(opts, name)
    ensures RemovedByNameField(opts, name) == RemovedByName(opts, name)
  {
    FindsAgree(opts, name);
  }

  lemma {:induction false} FindsAgree(opts: seq<Allocation>, name: string)
    requires name != "" && forall j :: 0 <= j < |opts| ==> opts[j].Entry?
    ensures FindByNameField(opts, name) == FindAllocation(opts, name)
  {
    if opts != [] {
      FindsAgree(opts[1..], name);
    }
  }

  // ---------------------------------------------------------------------
  // Saving an edited entry
  // ---------------------------------------------------------------------

  datatype SaveOutcome = EmptyName | DuplicateName | UnknownName | Saved

  /**
   * The save handler of the allocation editor: the trimmed new name must be
   * non-empty (nothing changes otherwise); the list is upgraded; a rename
   * onto an existing name is refused; the first entry named `oldName` gets
   * the new name and trimmed type. Re-pointing tasks at the new name is not
   * part of this (the function the handler calls for it is not defined).
   */
  function SaveAllocation(opts: seq<Allocation>, oldName: string, newNameRaw: string, newTypeRaw: string): (r: (SaveOutcome, seq<Allocation>))
    ensures r.0 == EmptyName <==> JsTrim(newNameRaw) == ""
    ensures r.0 == EmptyName ==> r.1 == opts
    ensures r.0 == DuplicateName <==>
      JsTrim(newNameRaw) != "" && JsTrim(newNameRaw) != oldName && HasAllocationName(opts, JsTrim(newNameRaw))
    ensures r.0 != EmptyName ==> |r.1| == |opts| && forall j :: 0 <= j < |r.1| ==> r.1[j].Entry?
    ensures r.0 == UnknownName <==>
      JsTrim(newNameRaw) != "" && !(JsTrim(newNameRaw) != oldName && HasAllocationName(opts, JsTrim(newNameRaw)))
      && !HasAllocationName(opts, oldName)
    ensures r.0 == DuplicateName || r.0 == UnknownName ==> r.1 == Upgraded(opts)
    ensures r.0 == Saved ==>
      && FindAllocation(opts, oldName).Some?
      && r.1 == Upgraded(opts)[FindAllocation(opts, oldName).value := Entry(Some(JsTrim(newNameRaw)), Some(JsTrim(newTypeRaw)))]
    ensures r.0 == Saved ==> HasAllocationName(r.1, JsTrim(newNameRaw))
  {
    var newName := JsTrim(newNameRaw);
    if newName == "" then (EmptyName, opts)
    else
      var upgraded := Upgraded(opts);
      UpgradedKeepsNames(opts, newName);
      UpgradedKeepsNames(opts, oldName);
      if newName != oldName && HasAllocationName(upgraded, newName) then (DuplicateName, upgraded)
      else
        FindAllocationSameNames(upgraded, opts, oldName);
        match FindAllocation(upgraded, oldName)
        case None => (UnknownName, upgraded)
        case Some(i) =>
          var saved := upgraded[i := Entry(Some(newName), Some(JsTrim(newTypeRaw)))];
          RenamedEntry(upgraded, i, newName, JsTrim(newTypeRaw));
          (Saved, saved)
  }

  /** Lists whose entries carry the same names, position by position, find a name at the same place. */
  lemma FindAllocationSameNames(a: seq<Allocation>, b: seq<Allocation>, name: string)
    requires |a| == |b| && forall j :: 0 <= j < |a| ==> GetAllocationName(a[j]) == GetAllocationName(b[j])
    ensures FindAllocation(a, name) == FindAllocation(b, name)
  {
    var ra, rb := FindAllocation(a, name), FindAllocation(b, name);
    if ra.Some? && rb.Some? {
      assert GetAllocationName(b[ra.value]) == name && GetAllocationName(a[rb.value]) == name;
    }
  }

  /** Overwriting an entry of an all-object list with an object named `name`. */
  lemma RenamedEntry(opts: seq<Allocation>, i: nat, name: string, kind: string)
    requires i < |opts| && forall j :: 0 <= j < |opts| ==> opts[j].Entry?
    ensures var saved := opts[i := Entry(Some(name), Some(kind))];
      && (forall j :: 0 <= j < |saved| ==> saved[j].Entry?)
      && HasAllocationName(saved, name)
  {
    var saved := opts[i := Entry(Some(name), Some(kind))];
    assert GetAllocationName(saved[i]) == name;
  }
}
