/**
 * Fields added to a class by a class redefinition. The metadata keeps two append-only arrays,
 * one of added instance fields and one of added static fields. Every added field gets its slot
 * from one counter shared by all classes, which starts at -1 and counts down, so each array is
 * sorted by strictly descending slot and a slot is found again by binary search.
 */
module ExtensionFields {
  import opened Wrappers

  type KlassId = nat

  /** The parsed class-file declaration of a field, as the class-file parser produced it. */
  datatype ParserField = ParserField(name: string, typeDescriptor: string, flags: nat)

  /** A linked, added field: its declaring class, its declaration, its slot, and the field of
      the previous class version whose state may be copied into it, if any. */
  datatype Field = Field(holder: KlassId, parserField: ParserField, slot: int, compatibleField: Option<Field>)

  /** The added fields of one class. */
  datatype Metadata = Metadata(instanceFields: seq<Field>, staticFields: seq<Field>)

  /** The shared slot counter: the next slot it hands out. */
  type SlotCounter = int

  const InitialSlot: SlotCounter := -1

  const Empty: Metadata := Metadata([], [])

  /** Why a slot lookup fails: getInstanceFieldAtSlot reports NoSuchFieldException and
      getStaticFieldAtSlot reports IndexOutOfBoundsException, both naming the slot. */
  datatype LookupError = NoSuchField(slot: int) | IndexOutOfBounds(slot: int)

  /** Sorted by strictly descending slot. */
  ghost predicate Descending(s: seq<Field>) {
    forall i, j :: 0 <= i < j < |s| ==> s[i].slot > s[j].slot
  }

  /** Every slot of the list has already been handed out by the counter. */
  ghost predicate SlotsAbove(s: seq<Field>, next: SlotCounter) {
    forall i :: 0 <= i < |s| ==> s[i].slot > next
  }

  /** The metadata invariant: both arrays descend, no slot occurs in both, and the counter has
      not yet handed out any slot below the ones in use. */
  ghost predicate Valid(m: Metadata, next: SlotCounter) {
    && Descending(m.instanceFields)
    && Descending(m.staticFields)
    && SlotsAbove(m.instanceFields, next)
    && SlotsAbove(m.staticFields, next)
    && forall i, j :: 0 <= i < |m.instanceFields| && 0 <= j < |m.staticFields| ==>
         m.instanceFields[i].slot != m.staticFields[j].slot
  }

  lemma EmptyValid()
    ensures Valid(Empty, InitialSlot)
  {
  }

  /** The compatible field recorded for a parser field: the map's value, or none. */
  function CompatibleFor(compatible: map<ParserField, Field>, p: ParserField): Option<Field> {
    if p in compatible then Some(compatible[p]) else None
  }

  /** initNewFields: one linked field per parser field, in input order, each taking the next
      slot from the counter and the compatible field the map records for its declaration. */
  function InitNewFields(holder: KlassId, newFields: seq<ParserField>, compatible: map<ParserField, Field>, next: SlotCounter): (r: (seq<Field>, SlotCounter))
    ensures |r.0| == |newFields|
    ensures r.1 == next - |newFields|
    decreases |newFields|
  {
    if |newFields| == 0 then ([], next)
    else
      var f := Field(holder, newFields[0], next, CompatibleFor(compatible, newFields[0]));
      var rest := InitNewFields(holder, newFields[1..], compatible, next - 1);
      ([f] + rest.0, rest.1)
  }

  /** Field i of initNewFields belongs to the holder, is declared by parser field i, takes slot
      next - i and records the compatible field of its declaration. */
  lemma {:induction false} InitNewFieldsAt(holder: KlassId, newFields: seq<ParserField>, compatible: map<ParserField, Field>, next: SlotCounter, i: nat)
    requires i < |newFields|
    ensures var f := InitNewFields(holder, newFields, compatible, next).0[i];
            && f.holder == holder
            && f.parserField == newFields[i]
            && f.slot == next - i
            && f.compatibleField == CompatibleFor(compatible, newFields[i])
    decreases i
  {
    if i > 0 {
      InitNewFieldsAt(holder, newFields[1..], compatible, next - 1, i - 1);
    }
  }

  /** The new fields descend from the counter's value and stay above its new value. */
  lemma InitNewFieldsDescend(holder: KlassId, newFields: seq<ParserField>, compatible: map<ParserField, Field>, next: SlotCounter)
    ensures var (fs, next') := InitNewFields(holder, newFields, compatible, next);
            && Descending(fs)
            && SlotsAbove(fs, next')
            && forall i :: 0 <= i < |fs| ==> fs[i].slot <= next
  {
    var fs := InitNewFields(holder, newFields, compatible, next).0;
    forall i | 0 <= i < |fs| ensures fs[i].slot == next - i {
      InitNewFieldsAt(holder, newFields, compatible, next, i);
    }
  }

  /** Appending fields to one array: an empty list leaves it, and the counter, as they are. */
  function AddFields(existing: seq<Field>, holder: KlassId, newFields: seq<ParserField>, compatible: map<ParserField, Field>, next: SlotCounter): (r: (seq<Field>, SlotCounter))
    ensures |r.0| == |existing| + |newFields|
    ensures r.0[..|existing|] == existing
    ensures r.1 == next - |newFields|
  {
    if |newFields| == 0 then
      assert existing + [] == existing;
      (existing, next)
    else
      var (toAdd, next') := InitNewFields(holder, newFields, compatible, next);
      assert (existing + toAdd)[..|existing|] == existing;
      (existing + toAdd, next')
  }

  /** addNewStaticFields: the static array grows by the new fields, in input order, after the
      old ones; the instance array is untouched. */
  function AddNewStaticFields(m: Metadata, holder: KlassId, newFields: seq<ParserField>, compatible: map<ParserField, Field>, next: SlotCounter): (r: (Metadata, SlotCounter))
    ensures r.0.instanceFields == m.instanceFields
    ensures |r.0.staticFields| == |m.staticFields| + |newFields|
    ensures r.0.staticFields[..|m.staticFields|] == m.staticFields
    ensures |newFields| == 0 ==> r == (m, next)
  {
    var (s, next') := AddFields(m.staticFields, holder, newFields, compatible, next);
    (m.(staticFields := s), next')
  }

  /** addNewInstanceFields: the instance array grows by the new fields, in input order, after
      the old ones; the static array is untouched. */
  function AddNewInstanceFields(m: Metadata, holder: KlassId, newFields: seq<ParserField>, compatible: map<ParserField, Field>, next: SlotCounter): (r: (Metadata, SlotCounter))
    ensures r.0.staticFields == m.staticFields
    ensures |r.0.instanceFields| == |m.instanceFields| + |newFields|
    ensures r.0.instanceFields[..|m.instanceFields|] == m.instanceFields
    ensures |newFields| == 0 ==> r == (m, next)
  {
    var (s, next') := AddFields(m.instanceFields, holder, newFields, compatible, next);
    (m.(instanceFields := s), next')
  }

  /** The fields appended to an array are exactly those initNewFields builds. */
  lemma AddFieldsAppends(existing: seq<Field>, holder: KlassId, newFields: seq<ParserField>, compatible: map<ParserField, Field>, next: SlotCounter)
    ensures AddFields(existing, holder, newFields, compatible, next).0 == existing + InitNewFields(holder, newFields, compatible, next).0
  {
    if |newFields| == 0 {
      assert existing + [] == existing;
    }
  }

  /** Appending freshly numbered fields keeps an array descending and above the counter. */
  lemma AddFieldsKeepsOrder(existing: seq<Field>, holder: KlassId, newFields: seq<ParserField>, compatible: map<ParserField, Field>, next: SlotCounter)
    requires Descending(existing) && SlotsAbove(existing, next)
    ensures var (s, next') := AddFields(existing, holder, newFields, compatible, next);
            && Descending(s) && SlotsAbove(s, next')
            && forall i :: |existing| <= i < |s| ==> s[i].slot <= next
  {
    var (s, next') := AddFields(existing, holder, newFields, compatible, next);
    AddFieldsAppends(existing, holder, newFields, compatible, next);
    InitNewFieldsDescend(holder, newFields, compatible, next);
    var fs := InitNewFields(holder, newFields, compatible, next).0;
    assert s == existing + fs;
    forall i, j | 0 <= i < j < |s| ensures s[i].slot > s[j].slot {
      if j < |existing| {
      } else if i < |existing| {
        assert s[j] == fs[j - |existing|];
      } else {
        assert s[i] == fs[i - |existing|] && s[j] == fs[j - |existing|];
      }
    }
    forall i | 0 <= i < |s| ensures s[i].slot > next' && (i >= |existing| ==> s[i].slot <= next) {
      if i >= |existing| {
        assert s[i] == fs[i - |existing|];
      }
    }
  }

  /** Slots above the counter stay above it once it has counted further down. */
  lemma SlotsAboveLower(s: seq<Field>, next: SlotCounter, next': SlotCounter)
    requires SlotsAbove(s, next) && next' <= next
    ensures SlotsAbove(s, next')
  {
  }

  /** Adding static fields keeps the metadata invariant. */
  lemma AddNewStaticFieldsKeepsValid(m: Metadata, holder: KlassId, newFields: seq<ParserField>, compatible: map<ParserField, Field>, next: SlotCounter)
    requires Valid(m, next)
    ensures var (m', next') := AddNewStaticFields(m, holder, newFields, compatible, next);
            Valid(m', next')
  {
    var (m', next') := AddNewStaticFields(m, holder, newFields, compatible, next);
    AddFieldsKeepsOrder(m.staticFields, holder, newFields, compatible, next);
    SlotsAboveLower(m.instanceFields, next, next');
    NewSlotsFresh(m.instanceFields, m.staticFields, m'.staticFields, next);
  }

  /** Adding instance fields keeps the metadata invariant. */
  lemma AddNewInstanceFieldsKeepsValid(m: Metadata, holder: KlassId, newFields: seq<ParserField>, compatible: map<ParserField, Field>, next: SlotCounter)
    requires Valid(m, next)
    ensures var (m', next') := AddNewInstanceFields(m, holder, newFields, compatible, next);
            Valid(m', next')
  {
    var (m', next') := AddNewInstanceFields(m, holder, newFields, compatible, next);
    AddFieldsKeepsOrder(m.instanceFields, holder, newFields, compatible, next);
    SlotsAboveLower(m.staticFields, next, next');
    NewSlotsFresh(m.staticFields, m.instanceFields, m'.instanceFields, next);
    forall i, j | 0 <= i < |m'.instanceFields| && 0 <= j < |m'.staticFields|
      ensures m'.instanceFields[i].slot != m'.staticFields[j].slot
    {
      assert m'.staticFields[j].slot != m'.instanceFields[i].slot;
    }
  }

  /** When one array grows by fields numbered at or below the counter, its slots stay disjoint
      from those of the other array, whose slots are all above the counter. */
  lemma NewSlotsFresh(other: seq<Field>, grown: seq<Field>, grown': seq<Field>, next: SlotCounter)
    requires SlotsAbove(other, next)
    requires |grown| <= |grown'| && grown'[..|grown|] == grown
    requires forall i :: |grown| <= i < |grown'| ==> grown'[i].slot <= next
    requires forall i, j :: 0 <= i < |other| && 0 <= j < |grown| ==> other[i].slot != grown[j].slot
    ensures forall i, j :: 0 <= i < |other| && 0 <= j < |grown'| ==> other[i].slot != grown'[j].slot
  {
    forall i, j | 0 <= i < |other| && 0 <= j < |grown'| ensures other[i].slot != grown'[j].slot {
      if j < |grown| {
        assert grown'[j] == grown[j];
      }
    }
  }

  /** getDeclaredAddedFields: all added instance fields followed by all added static fields. */
  function GetDeclaredAddedFields(m: Metadata): (r: seq<Field>)
    ensures |r| == |m.instanceFields| + |m.staticFields|
    ensures r[..|m.instanceFields|] == m.instanceFields
    ensures r[|m.instanceFields|..] == m.staticFields
  {
    m.instanceFields + m.staticFields
  }

  /** The reference lookup: the first field of the array holding the slot, by linear scan. */
  function SlotLookup(arr: seq<Field>, slot: int): (r: Option<Field>)
    ensures r.Some? ==> r.value in arr && r.value.slot == slot
    ensures r.None? <==> forall i :: 0 <= i < |arr| ==> arr[i].slot != slot
    decreases |arr|
  {
    if |arr| == 0 then None
    else if arr[0].slot == slot then Some(arr[0])
    else SlotLookup(arr[1..], slot)
  }

  /** In a descending array at most one field holds a slot, so it is the one the lookup finds. */
  lemma {:induction false} SlotLookupFindsAny(arr: seq<Field>, slot: int, i: nat)
    requires Descending(arr) && i < |arr| && arr[i].slot == slot
    ensures SlotLookup(arr, slot) == Some(arr[i])
    decreases i
  {
    if i > 0 {
      assert arr[0].slot > arr[i].slot;
      assert arr[1..][i - 1] == arr[i];
      SlotLookupFindsAny(arr[1..], slot, i - 1);
    }
  }

  /** binarySearch over an array sorted by descending slot: the middle field's slot above the
      requested one sends the search right, below it sends the search left. Whatever the
      array, a field it returns holds the slot; on a descending array it fails exactly when no
      field holds the slot, and then it reports NoSuchField. */
  method BinarySearch(arr: seq<Field>, slot: int) returns (r: Result<Field, LookupError>)
    ensures r.Success? ==> r.value in arr && r.value.slot == slot
    ensures r.Failure? ==> r.error == NoSuchField(slot)
    ensures Descending(arr) ==> (r.Failure? <==> SlotLookup(arr, slot).None?)
    ensures Descending(arr) && r.Success? ==> r == Success(SlotLookup(arr, slot).value)
  {
    var firstIndex: int := 0;
    var lastIndex: int := |arr| - 1;
    while firstIndex <= lastIndex
      invariant 0 <= firstIndex <= lastIndex + 1 <= |arr|
      invariant Descending(arr) ==> forall i :: 0 <= i < |arr| && arr[i].slot == slot ==> firstIndex <= i <= lastIndex
      decreases lastIndex - firstIndex
    {
      var middleIndex := (firstIndex + lastIndex) / 2;
      if arr[middleIndex].slot == slot {
        if Descending(arr) {
          SlotLookupFindsAny(arr, slot, middleIndex);
        }
        return Success(arr[middleIndex]);
      } else if arr[middleIndex].slot > slot {
        firstIndex := middleIndex + 1;
      } else {
        lastIndex := middleIndex - 1;
      }
    }
    return Failure(NoSuchField(slot));
  }

  /** getStaticFieldAtSlot: the static field holding the slot; a missing slot surfaces as
      IndexOutOfBounds. */
  method GetStaticFieldAtSlot(m: Metadata, slot: int) returns (r: Result<Field, LookupError>)
    ensures r.Success? ==> r.value in m.staticFields && r.value.slot == slot
    ensures r.Failure? ==> r.error == IndexOutOfBounds(slot)
    ensures Descending(m.staticFields) ==> (r.Failure? <==> SlotLookup(m.staticFields, slot).None?)
  {
    r := BinarySearch(m.staticFields, slot);
    if r.Failure? {
      r := Failure(IndexOutOfBounds(slot));
    }
  }

  /** getInstanceFieldAtSlot: the instance field holding the slot; a missing slot surfaces as
      NoSuchField. */
  method GetInstanceFieldAtSlot(m: Metadata, slot: int) returns (r: Result<Field, LookupError>)
    ensures r.Success? ==> r.value in m.instanceFields && r.value.slot == slot
    ensures r.Failure? ==> r.error == NoSuchField(slot)
    ensures Descending(m.instanceFields) ==> (r.Failure? <==> SlotLookup(m.instanceFields, slot).None?)
  {
    r := BinarySearch(m.instanceFields, slot);
  }

  /** Every field just added as a static field is found again at its slot. */
  lemma AddedStaticFieldIsFound(m: Metadata, holder: KlassId, newFields: seq<ParserField>, compatible: map<ParserField, Field>, next: SlotCounter, i: nat)
    requires Valid(m, next) && i < |newFields|
    ensures var m' := AddNewStaticFields(m, holder, newFields, compatible, next).0;
            var f := m'.staticFields[|m.staticFields| + i];
            && f.parserField == newFields[i]
            && f.slot == next - i
            && SlotLookup(m'.staticFields, next - i) == Some(f)
  {
    var m' := AddNewStaticFields(m, holder, newFields, compatible, next).0;
    AddNewStaticFieldsKeepsValid(m, holder, newFields, compatible, next);
    AddFieldsAppends(m.staticFields, holder, newFields, compatible, next);
    InitNewFieldsAt(holder, newFields, compatible, next, i);
    SlotLookupFindsAny(m'.staticFields, next - i, |m.staticFields| + i);
  }

  /** Every field just added as an instance field is found again at its slot. */
  lemma AddedInstanceFieldIsFound(m: Metadata, holder: KlassId, newFields: seq<ParserField>, compatible: map<ParserField, Field>, next: SlotCounter, i: nat)
    requires Valid(m, next) && i < |newFields|
    ensures var m' := AddNewInstanceFields(m, holder, newFields, compatible, next).0;
            var f := m'.instanceFields[|m.instanceFields| + i];
            && f.parserField == newFields[i]
            && f.slot == next - i
            && SlotLookup(m'.instanceFields, next - i) == Some(f)
  {
    var m' := AddNewInstanceFields(m, holder, newFields, compatible, next).0;
    AddNewInstanceFieldsKeepsValid(m, holder, newFields, compatible, next);
    AddFieldsAppends(m.instanceFields, holder, newFields, compatible, next);
    InitNewFieldsAt(holder, newFields, compatible, next, i);
    SlotLookupFindsAny(m'.instanceFields, next - i, |m.instanceFields| + i);
  }

  /** Adding static fields never hides an old one: every static slot found before is found,
      with the same field, afterwards. */
  lemma AddKeepsOldStaticFieldsFound(m: Metadata, holder: KlassId, newFields: seq<ParserField>, compatible: map<ParserField, Field>, next: SlotCounter, j: nat)
    requires Valid(m, next) && j < |m.staticFields|
    ensures var m' := AddNewStaticFields(m, holder, newFields, compatible, next).0;
            SlotLookup(m'.staticFields, m.staticFields[j].slot) == Some(m.staticFields[j])
  {
    var m' := AddNewStaticFields(m, holder, newFields, compatible, next).0;
    AddNewStaticFieldsKeepsValid(m, holder, newFields, compatible, next);
    assert m'.staticFields[..|m.staticFields|][j] == m'.staticFields[j];
    SlotLookupFindsAny(m'.staticFields, m.staticFields[j].slot, j);
  }

  /** Adding instance fields never hides an old one either. */
  lemma AddKeepsOldInstanceFieldsFound(m: Metadata, holder: KlassId, newFields: seq<ParserField>, compatible: map<ParserField, Field>, next: SlotCounter, j: nat)
    requires Valid(m, next) && j < |m.instanceFields|
    ensures var m' := AddNewInstanceFields(m, holder, newFields, compatible, next).0;
            SlotLookup(m'.instanceFields, m.instanceFields[j].slot) == Some(m.instanceFields[j])
  {
    var m' := AddNewInstanceFields(m, holder, newFields, compatible, next).0;
    AddNewInstanceFieldsKeepsValid(m, holder, newFields, compatible, next);
    assert m'.instanceFields[..|m.instanceFields|][j] == m'.instanceFields[j];
    SlotLookupFindsAny(m'.instanceFields, m.instanceFields[j].slot, j);
  }
}
